/** The size of the reply to a body that does not decode, and which of them cannot be sent: the
    replies echo the client's own text (`outbound_error_from_message_error` in
    guyos_core/src/domain/guyos_wire_v1.rs). */
module ReplySizes {
  import opened Prelude
  import opened Json
  import opened UuidText
  import opened CanonicalSeq
  import opened WireAttach
  import opened WireMessages
  import opened HubDispatch
  import opened BodySizes
  import opened HubRuns
  import opened ReferenceTicket
  import CodecTheorems
  import F1Framing
  import HubSafety
  import OutboundSizes
  import PublishLedger
  import SessionErrors
  import Utf8

  // ---- Exact sizes ---------------------------------------------------------------------------

  /** The bytes of the reply to a decode error, from the error alone. */
  function ReplyBytes(rt: Runtime, e: MessageError): nat {
    match e
    case MalformedJson => 140
    case UnknownMessageType(None) => 101
    case UnknownMessageType(Some(t)) => 91 + EscapedLen(rt.debug(t))
    case InvalidAttachPayload => 105
    case MessageTooLarge(bytes, limit) => 89 + |Decimal(bytes)| + |Decimal(limit)|
    case JsonBodyTooLarge(_, _) => 120
    case InvalidClientMessageId(raw) => 124 + EscapedLen(rt.debug(raw))
  }

  lemma PlainText(a: string, b: string, c: string)
    requires Plain(a) && Plain(b) && Plain(c)
    ensures EscapedLen(a + b + c) == |a| + |b| + |c|
  {
    PlainAppend(a, b);
    PlainAppend(a + b, c);
    PlainLen(a + b + c);
  }

  lemma AroundEcho(a: string, echo: string, b: string)
    requires Plain(a) && Plain(b)
    ensures EscapedLen(a + echo + b) == |a| + EscapedLen(echo) + |b|
  {
    EscapedAppend(a, echo);
    EscapedAppend(a + echo, b);
    PlainLen(a);
    PlainLen(b);
  }

  lemma MalformedText()
    ensures EscapedLen(HubSafety.MSG_MALFORMED_JSON) == 77
  {
    var a, b, c := "Bytes are not valid UTF-8 ", "or do not parse as a JSON ", "object for this protocol.";
    assert Plain(a);
    assert Plain(b);
    assert Plain(c);
    PlainText(a, b, c);
  }

  lemma MissingTypeText()
    ensures EscapedLen(HubSafety.MSG_MISSING_TYPE) == 32
  {
    var a, b := "Missing or ", "invalid `type` field.";
    assert Plain(a) && Plain(b);
    PlainAppend(a, b);
    PlainLen(a + b);
  }

  lemma InvalidAttachText()
    ensures EscapedLen(MSG_INVALID_ATTACH) == 42
  {
    var a, b := "Attach payload failed ", "semantic validation.";
    assert Plain(a) && Plain(b);
    PlainText(a, b, "");
    assert a + b + "" == a + b;
  }

  lemma InternalText()
    ensures EscapedLen(HubSafety.MSG_BODY_TOO_LARGE) == 57
  {
    var a, b, c := "Internal encode error:", " JSON body exceeds ", "max_frame_bytes.";
    assert Plain(a) && Plain(b) && Plain(c);
    PlainText(a, b, c);
  }

  lemma TooLargeText(bytes: nat, limit: u32)
    ensures EscapedLen("text is " + Decimal(bytes) + " bytes (limit " + Decimal(limit) + ")")
         == 23 + |Decimal(bytes)| + |Decimal(limit)|
  {
    var a, b, c := "text is ", " bytes (limit ", ")";
    assert Plain(a) && Plain(b) && Plain(c);
    DecimalPlain(bytes);
    DecimalPlain(limit);
    PlainText(a, Decimal(bytes), b);
    PlainAppend(a, Decimal(bytes));
    PlainAppend(a + Decimal(bytes), b);
    PlainText(a + Decimal(bytes) + b, Decimal(limit), c);
  }

  function CodeBytes(e: MessageError): nat {
    match e
    case UnknownMessageType(_) => 20
    case MessageTooLarge(_, _) => 17
    case InvalidClientMessageId(_) => 25
    case _ => 14
  }

  lemma CodesPlain(e: MessageError)
    ensures Plain(HubSafety.ReplyCode(e)) && |HubSafety.ReplyCode(e)| == CodeBytes(e)
  {
  }

  lemma TypeEchoLen(echo: string)
    ensures EscapedLen("Unknown message type " + echo + ".") == 22 + EscapedLen(echo)
  {
    var a, b := "Unknown message type ", ".";
    assert Plain(a) && Plain(b);
    AroundEcho(a, echo, b);
  }

  lemma IdentifierEchoLen(echo: string)
    ensures EscapedLen("client_message_id " + echo + " is not a canonical UUID string.") == 50 + EscapedLen(echo)
  {
    var a, b := "client_message_id ", " is not a canonical UUID string.";
    assert Plain(a) && Plain(b);
    AroundEcho(a, echo, b);
  }

  lemma EchoMessageLen(rt: Runtime, e: MessageError)
    requires e.UnknownMessageType? || e.InvalidClientMessageId?
    ensures EscapedLen(HubSafety.OutboundErrorFromMessageError(rt, e).envelope.message) == ReplyBytes(rt, e) - 49 - CodeBytes(e)
  {
    match e
    case UnknownMessageType(None) => MissingTypeText();
    case UnknownMessageType(Some(t)) => TypeEchoLen(rt.debug(t));
    case InvalidClientMessageId(raw) => IdentifierEchoLen(rt.debug(raw));
  }

  lemma MessageLen(rt: Runtime, e: MessageError)
    ensures EscapedLen(HubSafety.OutboundErrorFromMessageError(rt, e).envelope.message) == ReplyBytes(rt, e) - 49 - CodeBytes(e)
  {
    match e
    case MalformedJson => MalformedText();
    case InvalidAttachPayload => InvalidAttachText();
    case MessageTooLarge(bytes, limit) => TooLargeText(bytes, limit);
    case JsonBodyTooLarge(_, _) => InternalText();
    case _ => EchoMessageLen(rt, e);
  }

  /** A reply can be sent exactly when the frame limit holds what its error makes of it. */
  lemma ErrorReplyBytesExact(rt: Runtime, e: MessageError, maxFrameBytes: u32, maxMessageBytes: u32)
    ensures EncodeWithinLimits(rt, HubSafety.OutboundErrorFromMessageError(rt, e), maxFrameBytes, maxMessageBytes).Ok?
       <==> ReplyBytes(rt, e) <= maxFrameBytes
  {
    var env := HubSafety.OutboundErrorFromMessageError(rt, e).envelope;
    HubSafety.ReplyStatesCode(rt, e);
    SessionErrors.ErrorReplyFitsExact(rt, env.code, env.message, maxFrameBytes, maxMessageBytes);
    CodesPlain(e);
    PlainLen(env.code);
    MessageLen(rt, e);
  }

  // ---- From the body received ----------------------------------------------------------------

  /** The reply to a body that does not decode can be sent under a frame limit exactly when the
      limit is at least 91 bytes and the escaped rendering of the `type` for an unknown type, 124
      bytes and that of the identifier for an identifier that is no canonical UUID, 101 for a
      missing `type`, 105 for an attach of the wrong shape, and 140 for anything else. */
  lemma UndecodableReplyFitsExact(rt: Runtime, hub: Hub, conn: Conn, body: string, policy: AttachPolicy, verify: Verifier,
                                  maxFrameBytes: u32, maxMessageBytes: u32)
    requires Inverts(rt) && Decode(rt, body).Err?
    ensures var outcome := HubSafety.Receive(rt, hub, conn, body, policy, verify).1;
            && outcome.Reply?
            && (EncodeWithinLimits(rt, outcome.msg, maxFrameBytes, maxMessageBytes).Ok?
                <==> ReplyBytes(rt, CodecTheorems.DocumentError(rt.parseJson(body))) <= maxFrameBytes)
  {
    CodecTheorems.DecodeTextExact(rt, body, DetachMsg);
    ErrorReplyBytesExact(rt, Decode(rt, body).error, maxFrameBytes, maxMessageBytes);
  }

  // ---- What the messages name ----------------------------------------------------------------

  /** A run of digits that denotes `n`. */
  predicate States(digits: string, n: nat) {
    AllDigits(digits) && DigitsValue(digits) == n
  }

  /** The values in the texts stand in their places: the length before the limit of an oversized
      text, the declared length before that of an oversized frame. */
  lemma MessagesName(rt: Runtime, bytes: nat, declared: u32, limit: u32)
    ensures exists a, b :: States(a, bytes) && States(b, limit)
                        && OutboundMessageTooLarge(bytes, limit).envelope.message == "text is " + a + " bytes (limit " + b + ")"
    ensures exists a, b :: States(a, declared) && States(b, limit)
                        && SessionErrors.FailureMessage(F1Framing.FrameTooLarge(declared, limit)).value.envelope.message
                           == "Declared F1 payload length " + a + " exceeds max_frame_bytes limit " + b + "."
    ensures HubSafety.OutboundErrorFromMessageError(rt, MessageTooLarge(bytes, limit)) == OutboundMessageTooLarge(bytes, limit)
  {
    DecimalParses(bytes);
    DecimalParses(declared);
    DecimalParses(limit);
    assert States(Decimal(bytes), bytes) && States(Decimal(declared), declared) && States(Decimal(limit), limit);
  }

  // ---- Every reply ---------------------------------------------------------------------------

  /** The bytes of the error answering a decoded message, from the session, the message, the policy
      and the ticket verdict: the first check that fails. */
  function StepErrorBytes(session: Session, msg: Message, policy: AttachPolicy, verify: Verifier): nat {
    match session
    case AwaitingAttach =>
      if !msg.AttachMsg? then 116
      else if !PreambleOk(msg.attach) then 105
      else if msg.attach.protocolMajor != policy.supportedMajor then 119
      else if verify(msg.attach.ticket) == Err(TicketDecodeFailed) then 97
      else 88
    case Attached(_, _, maxMessageBytes) =>
      if msg.PublishMsg? then 89 + |Decimal(Utf8.Len(msg.publish.text))| + |Decimal(maxMessageBytes)| else 126
  }

  lemma MajorText()
    ensures EscapedLen(MSG_MAJOR_UNSUPPORTED) == 44
  {
    var a, b := "Protocol major is not ", "supported by this hub.";
    assert Plain(a) && Plain(b);
    PlainAppend(a, b);
    PlainLen(a + b);
  }

  lemma DuplicateText()
    ensures EscapedLen(MSG_DUPLICATE_ATTACH) == 63
  {
    var a, b, c := "A second attach is not ", "allowed after attach_ack ", "on this stream.";
    assert Plain(a) && Plain(b) && Plain(c);
    PlainText(a, b, c);
  }

  lemma RequiredText()
    ensures EscapedLen(MSG_ATTACH_REQUIRED) == 52
  {
    var a, b := "A successful attach is ", "required before this message.";
    assert Plain(a) && Plain(b);
    PlainAppend(a, b);
    PlainLen(a + b);
  }

  lemma TicketTexts()
    ensures EscapedLen(MSG_TICKET_DECODE_FAILED) == 28 && EscapedLen(MSG_INVALID_TICKET) == 25
  {
    var a, b := MSG_TICKET_DECODE_FAILED, MSG_INVALID_TICKET;
    assert Plain(a) && Plain(b);
    PlainLen(a);
    PlainLen(b);
  }

  function HandshakeBytes(e: HandshakeError): nat {
    match e
    case InvalidAttach => 105
    case ProtocolMajorUnsupported => 119
    case Ticket(t) => if t.TicketDecodeFailed? then 97 else 88
  }

  lemma HandshakeCode(e: HandshakeError)
    ensures Plain(HandshakePortable(e).0)
    ensures |HandshakePortable(e).0| ==
            match e
            case InvalidAttach => 14
            case ProtocolMajorUnsupported => 26
            case Ticket(t) => if t.TicketDecodeFailed? then 20 else 14
  {
  }

  lemma HandshakeText(e: HandshakeError)
    ensures EscapedLen(HandshakePortable(e).1) ==
            match e
            case InvalidAttach => 42
            case ProtocolMajorUnsupported => 44
            case Ticket(t) => if t.TicketDecodeFailed? then 28 else 25
  {
    match e
    case InvalidAttach => InvalidAttachText();
    case ProtocolMajorUnsupported => MajorText();
    case Ticket(_) => TicketTexts();
  }

  /** The length of an error message's body. */
  function ErrorBytes(code: string, message: string): nat {
    49 + EscapedLen(code) + EscapedLen(message)
  }

  lemma HandshakeLen(e: HandshakeError)
    ensures ErrorBytes(HandshakePortable(e).0, HandshakePortable(e).1) == HandshakeBytes(e)
  {
    HandshakeCode(e);
    PlainLen(HandshakePortable(e).0);
    HandshakeText(e);
  }

  /** The code and the message of the error answering a decoded message. */
  function StepErrorText(session: Session, msg: Message, policy: AttachPolicy, verify: Verifier): (string, string) {
    match session
    case AwaitingAttach =>
      if !msg.AttachMsg? then ("attach_required", MSG_ATTACH_REQUIRED)
      else
        var r := AcceptAttach(msg.attach, policy, verify);
        if r.Err? then HandshakePortable(r.error) else ("", "")
    case Attached(_, _, maxMessageBytes) =>
      if msg.PublishMsg? then
        var env := OutboundMessageTooLarge(Utf8.Len(msg.publish.text), maxMessageBytes).envelope;
        (env.code, env.message)
      else ("invalid_attach", MSG_DUPLICATE_ATTACH)
  }

  predicate StepsToAck(session: Session, msg: Message, policy: AttachPolicy, verify: Verifier) {
    session.AwaitingAttach? && msg.AttachMsg? && AcceptAttach(msg.attach, policy, verify).Ok?
  }

  lemma StepErrorIsText(session: Session, msg: Message, policy: AttachPolicy, verify: Verifier, rooms: PublishLedger.Rooms)
    requires Handle(session, msg, policy, verify, rooms).1.Reply?
    ensures var reply := Handle(session, msg, policy, verify, rooms).1.msg;
            if StepsToAck(session, msg, policy, verify) then
              reply == AttachAckMsg(AcceptAttach(msg.attach, policy, verify).value)
            else
              var (code, message) := StepErrorText(session, msg, policy, verify);
              reply == WireError(code, message)
  {
  }

  lemma RequiredCode()
    ensures EscapedLen("attach_required") == 15
  {
    var code := "attach_required";
    assert Plain(code);
    PlainLen(code);
  }

  lemma DuplicateCode()
    ensures EscapedLen("invalid_attach") == 14
  {
    var code := "invalid_attach";
    assert Plain(code);
    PlainLen(code);
  }

  lemma TooLargeCode()
    ensures EscapedLen("message_too_large") == 17
  {
    var code := "message_too_large";
    assert Plain(code);
    PlainLen(code);
  }

  lemma HandshakeTextLen(attach: Attach, policy: AttachPolicy, verify: Verifier)
    requires AcceptAttach(attach, policy, verify).Err?
    ensures HandshakeBytes(AcceptAttach(attach, policy, verify).error) == StepErrorBytes(AwaitingAttach, AttachMsg(attach), policy, verify)
  {
  }

  lemma StepErrorTextLen(session: Session, msg: Message, policy: AttachPolicy, verify: Verifier)
    requires !StepsToAck(session, msg, policy, verify)
    ensures var text := StepErrorText(session, msg, policy, verify);
            ErrorBytes(text.0, text.1) == StepErrorBytes(session, msg, policy, verify)
  {
    if session.AwaitingAttach? {
      if msg.AttachMsg? {
        HandshakeTextLen(msg.attach, policy, verify);
        HandshakeLen(AcceptAttach(msg.attach, policy, verify).error);
      } else {
        RequiredCode();
        RequiredText();
      }
    } else {
      if msg.PublishMsg? {
        TooLargeCode();
        TooLargeText(Utf8.Len(msg.publish.text), session.maxMessageBytes);
      } else {
        DuplicateCode();
        DuplicateText();
      }
    }
  }

  /** The bytes of the error answering a body: from its document when it does not decode, from the
      message it states when it does. */
  ghost function ReceiveErrorBytes(rt: Runtime, session: Session, body: string, policy: AttachPolicy, verify: Verifier): nat {
    match Decode(rt, body)
    case Err(_) => ReplyBytes(rt, CodecTheorems.DocumentError(rt.parseJson(body)))
    case Ok(msg) => StepErrorBytes(session, msg, policy, verify)
  }

  lemma AckFitsExact(rt: Runtime, attach: Attach, policy: AttachPolicy, verify: Verifier, maxFrameBytes: u32, maxMessageBytes: u32)
    requires AcceptAttach(attach, policy, verify).Ok?
    ensures var ack := AcceptAttach(attach, policy, verify).value;
            (EncodeWithinLimits(rt, AttachAckMsg(ack), maxFrameBytes, maxMessageBytes).Ok?
             <==> OutboundSizes.KeepaliveInRange(policy) && OutboundSizes.AttachAckBytes(ack) <= maxFrameBytes)
  {
    var ack := AcceptAttach(attach, policy, verify).value;
    AcceptAttachExact(attach, policy, verify, ack);
    CodecTheorems.EncodeAckExact(ack);
    if OutboundSizes.KeepaliveInRange(policy) {
      OutboundSizes.AttachAckLen(ack);
    }
  }

  /** Every reply to every body, whatever the state: an `attach_ack` can be sent exactly when its
      keepalive is in range and its length fits, an error exactly when its size, given by the body,
      the session, the policy and the verdict, fits; and there is no other kind of reply. */
  lemma ReplyFitsExact(rt: Runtime, hub: Hub, conn: Conn, body: string, policy: AttachPolicy, verify: Verifier,
                       maxFrameBytes: u32, maxMessageBytes: u32)
    requires Inverts(rt)
    requires HubSafety.Receive(rt, hub, conn, body, policy, verify).1.Reply?
    ensures var msg := HubSafety.Receive(rt, hub, conn, body, policy, verify).1.msg;
            var fits := EncodeWithinLimits(rt, msg, maxFrameBytes, maxMessageBytes).Ok?;
            match msg
            case AttachAckMsg(ack) =>
              (fits <==> OutboundSizes.KeepaliveInRange(policy) && OutboundSizes.AttachAckBytes(ack) <= maxFrameBytes)
            case ErrorMsg(_) => (fits <==> ReceiveErrorBytes(rt, SessionOf(hub, conn), body, policy, verify) <= maxFrameBytes)
            case _ => false
  {
    match Decode(rt, body)
    case Err(e) =>
      HubSafety.ReplyStatesCode(rt, e);
      UndecodableReplyFitsExact(rt, hub, conn, body, policy, verify, maxFrameBytes, maxMessageBytes);
    case Ok(msg) =>
      StepReplyFitsExact(rt, SessionOf(hub, conn), msg, policy, verify, hub.rooms, maxFrameBytes, maxMessageBytes);
  }

  lemma StepReplyFitsExact(rt: Runtime, session: Session, msg: Message, policy: AttachPolicy, verify: Verifier,
                           rooms: PublishLedger.Rooms, maxFrameBytes: u32, maxMessageBytes: u32)
    requires Handle(session, msg, policy, verify, rooms).1.Reply?
    ensures var reply := Handle(session, msg, policy, verify, rooms).1.msg;
            var fits := EncodeWithinLimits(rt, reply, maxFrameBytes, maxMessageBytes).Ok?;
            match reply
            case AttachAckMsg(ack) =>
              (fits <==> OutboundSizes.KeepaliveInRange(policy) && OutboundSizes.AttachAckBytes(ack) <= maxFrameBytes)
            case ErrorMsg(_) => (fits <==> StepErrorBytes(session, msg, policy, verify) <= maxFrameBytes)
            case _ => false
  {
    StepErrorIsText(session, msg, policy, verify, rooms);
    if StepsToAck(session, msg, policy, verify) {
      AckFitsExact(rt, msg.attach, policy, verify, maxFrameBytes, maxMessageBytes);
    } else {
      var text := StepErrorText(session, msg, policy, verify);
      StepErrorTextLen(session, msg, policy, verify);
      SessionErrors.ErrorReplyFitsExact(rt, text.0, text.1, maxFrameBytes, maxMessageBytes);
    }
  }

  // ---- In-limit bodies whose replies cannot be sent --------------------------------------------

  /** The body is within the frame limit, does not decode, and its reply does not fit the limit. */
  predicate Unanswerable(rt: Runtime, body: string, maxFrameBytes: u32, maxMessageBytes: u32) {
    && Utf8.Len(body) <= maxFrameBytes
    && Decode(rt, body).Err?
    && EncodeWithinLimits(rt, HubSafety.OutboundErrorFromMessageError(rt, Decode(rt, body).error),
                          maxFrameBytes, maxMessageBytes).Err?
  }

  lemma BodyUnanswerable(rt: Runtime, body: string, e: MessageError, maxFrameBytes: u32, maxMessageBytes: u32)
    requires Decode(rt, body) == Err(e) && Utf8.Len(body) <= maxFrameBytes < ReplyBytes(rt, e)
    ensures Unanswerable(rt, body, maxFrameBytes, maxMessageBytes)
  {
    ErrorReplyBytesExact(rt, e, maxFrameBytes, maxMessageBytes);
  }

  /** A `{:?}` rendering quotes and escapes, so it is at least as long as the text. */
  ghost predicate RendersInFull(rt: Runtime) {
    forall s :: Utf8.Len(rt.debug(s)) >= Utf8.Len(s)
  }

  /** A plain text of any length that is no hexadecimal digit. */
  function Letters(n: nat): string {
    seq(n, _ => 'x')
  }

  lemma LettersLen(n: nat)
    ensures Plain(Letters(n)) && EscapedLen(Letters(n)) == Utf8.Len(Letters(n)) == n
  {
    assert Plain(Letters(n));
    PlainLen(Letters(n));
  }

  function OnlyType(t: string): Members {
    map["type" := Str(t)]
  }

  function PublishNaming(raw: string): Members {
    map["client_message_id" := Str(raw), "type" := Str("publish")]
  }

  lemma OnlyTypeBody(rt: Runtime, n: nat)
    requires n > 12
    ensures Utf8.Len(Print(Obj(OnlyType(Letters(n))))) == 11 + n
    ensures DecodeMembers(rt, OnlyType(Letters(n))) == Err(UnknownMessageType(Some(Letters(n))))
  {
    var k, m := "type", OnlyType(Letters(n));
    CostOne(Obj(m), k);
    assert m.Keys == set other | other in [k];
    ObjectLen(m, [k]);
    LettersLen(n);
    PlainMemberLen(m, k, Letters(n));
  }

  /** An unknown `type` that fills the frame cannot be answered: under every frame limit above 23
      there is an in-limit body whose error reply does not fit. */
  lemma UnknownTypeReplyMayNotFit(rt: Runtime, maxFrameBytes: u32, maxMessageBytes: u32)
    requires RendersInFull(rt) && forall t :: CodecTheorems.ReadsBack(rt, OnlyType(t))
    requires maxFrameBytes > 23
    ensures exists body :: Unanswerable(rt, body, maxFrameBytes, maxMessageBytes)
                        && Decode(rt, body).error.UnknownMessageType? && Decode(rt, body).error.typeField.Some?
  {
    var n: nat := maxFrameBytes - 11;
    var t := Letters(n);
    OnlyTypeBody(rt, n);
    LettersLen(n);
    assert CodecTheorems.ReadsBack(rt, OnlyType(t));
    EscapeExpansion(rt.debug(t));
    BodyUnanswerable(rt, Print(Obj(OnlyType(t))), UnknownMessageType(Some(t)), maxFrameBytes, maxMessageBytes);
  }

  lemma LettersNameNoUuid(rt: Runtime, n: nat)
    requires n > 0
    ensures ParseUuidCanonical(rt, Letters(n)) == Err(InvalidClientMessageId(Letters(n)))
  {
    var parsed := rt.parseUuid(Letters(n));
    if parsed.Some? {
      TextChars(parsed.value);
      assert Letters(n)[0] == 'x';
      assert ToText(parsed.value)[0] in ToText(parsed.value);
    }
  }

  lemma PublishKeys()
    ensures Before("client_message_id", "type") && Plain("client_message_id") && Plain("type") && Plain("publish")
  {
  }

  lemma PublishNamingBody(rt: Runtime, n: nat)
    requires n > 0
    ensures Utf8.Len(Print(Obj(PublishNaming(Letters(n))))) == 41 + n
    ensures DecodeMembers(rt, PublishNaming(Letters(n))) == Err(InvalidClientMessageId(Letters(n)))
  {
    PublishKeys();
    PlainLen("publish");
    LettersLen(n);
    LettersNameNoUuid(rt, n);
    TextObjectLen2(PublishNaming(Letters(n)), "client_message_id", "type", Letters(n), "publish");
  }

  /** A long echo makes the reply to an in-limit document too long. */
  lemma EchoUnanswerable(rt: Runtime, m: Members, raw: string, maxFrameBytes: u32, maxMessageBytes: u32)
    requires RendersInFull(rt) && CodecTheorems.ReadsBack(rt, m)
    requires DecodeMembers(rt, m) == Err(InvalidClientMessageId(raw))
    requires Utf8.Len(Print(Obj(m))) <= maxFrameBytes < 124 + Utf8.Len(raw)
    ensures Unanswerable(rt, Print(Obj(m)), maxFrameBytes, maxMessageBytes)
    ensures Decode(rt, Print(Obj(m))) == Err(InvalidClientMessageId(raw))
  {
    EscapeExpansion(rt.debug(raw));
    BodyUnanswerable(rt, Print(Obj(m)), InvalidClientMessageId(raw), maxFrameBytes, maxMessageBytes);
  }

  lemma IdentifierUnanswerable(rt: Runtime, n: nat, maxFrameBytes: u32, maxMessageBytes: u32)
    requires RendersInFull(rt) && CodecTheorems.ReadsBack(rt, PublishNaming(Letters(n)))
    requires n > 0 && maxFrameBytes == n + 41
    ensures var body := Print(Obj(PublishNaming(Letters(n))));
            && Unanswerable(rt, body, maxFrameBytes, maxMessageBytes)
            && Decode(rt, body) == Err(InvalidClientMessageId(Letters(n)))
  {
    PublishNamingBody(rt, n);
    LettersLen(n);
    EchoUnanswerable(rt, PublishNaming(Letters(n)), Letters(n), maxFrameBytes, maxMessageBytes);
  }

  /** Nor can an identifier that fills it: under every frame limit above 41 there is an in-limit
      `publish` whose error reply does not fit. */
  lemma IdentifierReplyMayNotFit(rt: Runtime, maxFrameBytes: u32, maxMessageBytes: u32)
    requires RendersInFull(rt) && forall raw :: CodecTheorems.ReadsBack(rt, PublishNaming(raw))
    requires maxFrameBytes > 41
    ensures exists body :: Unanswerable(rt, body, maxFrameBytes, maxMessageBytes)
                        && Decode(rt, body).error.InvalidClientMessageId?
  {
    IdentifierUnanswerable(rt, maxFrameBytes - 41, maxFrameBytes, maxMessageBytes);
  }
}
