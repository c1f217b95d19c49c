/** What the message codec guarantees: which objects decode to a message, the round trip, and
    indifference to unknown keys (ADR 0003, rule P1). */
module CodecTheorems {
  import opened Prelude
  import opened Json
  import opened UuidText
  import opened WireAttach
  import opened WireMessages
  import CanonicalSeq
  import Utf8

  // ---- What an object says -------------------------------------------------------------------

  predicate HasStr(m: Members, key: string, s: string) {
    key in m && m[key] == Str(s)
  }

  predicate HasInt(m: Members, key: string, n: u32) {
    key in m && m[key] == Integer(n)
  }

  predicate HasTime(rt: Runtime, m: Members, t: Option<Timestamp>) {
    match t
    case None => AbsentOrNull(m, "server_timestamp")
    case Some(instant) =>
      "server_timestamp" in m && m["server_timestamp"].Str? && rt.parseTime(m["server_timestamp"].s) == Some(instant)
  }

  predicate CarriesAttach(m: Members, a: Attach) {
    && PreambleOk(a) && HasStr(m, "ticket", a.ticket)
    && HasInt(m, "protocol_major", a.protocolMajor) && HasInt(m, "protocol_minor", a.protocolMinor)
  }

  predicate CarriesAttachAck(m: Members, a: AttachAck) {
    && HasStr(m, "room_id", a.roomId)
    && HasInt(m, "max_frame_bytes", a.maxFrameBytes) && HasInt(m, "max_message_bytes", a.maxMessageBytes)
    && HasInt(m, "protocol_major", a.protocolMajor) && a.protocolMajor <= U31_MAX
    && HasInt(m, "server_protocol_minor", a.serverProtocolMinor) && a.serverProtocolMinor <= U31_MAX
    && (match a.keepaliveIntervalSeconds
        case None => AbsentOrNull(m, "keepalive_interval_seconds")
        case Some(k) => HasInt(m, "keepalive_interval_seconds", k) && k <= U31_MAX)
  }

  predicate CarriesPublishAck(rt: Runtime, m: Members, p: PublishAck) {
    && HasStr(m, "client_message_id", ToText(p.clientMessageId))
    && HasStr(m, "seq", CanonicalSeq.Decimal(p.seqNo)) && HasTime(rt, m, p.serverTimestamp)
  }

  predicate CarriesChat(rt: Runtime, m: Members, c: ChatMessage) {
    && HasStr(m, "client_message_id", ToText(c.clientMessageId))
    && HasStr(m, "seq", CanonicalSeq.Decimal(c.seqNo)) && HasStr(m, "text", c.text)
    && (match c.senderEndpointId
        case None => AbsentOrNull(m, "sender_endpoint_id")
        case Some(s) => HasStr(m, "sender_endpoint_id", s))
    && HasTime(rt, m, c.serverTimestamp)
  }

  predicate CarriesError(m: Members, e: ErrorEnvelope) {
    && "error" in m && m["error"].Obj?
    && var inner := m["error"].members;
    && HasStr(inner, "code", e.code) && HasStr(inner, "message", e.message)
    && (match e.details
        case None => AbsentOrNull(inner, "details")
        case Some(d) => "details" in inner && inner["details"] == Obj(d))
  }

  /** The fields of `msg`, in Appendix A's shape: canonical identifiers and sequence numbers,
      integers in range, optional keys absent or null when not used. */
  predicate CarriesFields(rt: Runtime, m: Members, msg: Message) {
    match msg
    case AttachMsg(a) => CarriesAttach(m, a)
    case AttachAckMsg(a) => CarriesAttachAck(m, a)
    case PublishMsg(p) => HasStr(m, "client_message_id", ToText(p.clientMessageId)) && HasStr(m, "text", p.text)
    case PublishAckMsg(p) => CarriesPublishAck(rt, m, p)
    case ChatMsg(c) => CarriesChat(rt, m, c)
    case DetachMsg => true
    case KeepaliveMsg => true
    case ErrorMsg(e) => CarriesError(m, e)
  }

  /** The object `m` states the message `msg`. */
  predicate Carries(rt: Runtime, m: Members, msg: Message) {
    HasStr(m, "type", TypeName(KindOf(msg))) && CarriesFields(rt, m, msg)
  }

  /** M1: the re-print check makes the accepted identifiers exactly the canonical texts, whatever
      other forms the library parser takes. */
  lemma CanonicalUuidExact(rt: Runtime, raw: string, u: Uuid)
    requires Inverts(rt)
    ensures ParseUuidCanonical(rt, raw) == Ok(u) <==> raw == ToText(u)
    ensures ParseUuidCanonical(rt, raw).Err? ==> ParseUuidCanonical(rt, raw).error == InvalidClientMessageId(raw)
  {
  }

  lemma RequireSeqExact(m: Members, key: string, n: u64)
    ensures RequireSeq(m, key) == Ok(n) <==> HasStr(m, key, CanonicalSeq.Decimal(n))
  {
    if key in m && m[key].Str? {
      CanonicalSeq.ParseSeqExact(m[key].s, n);
    }
  }

  lemma RequireIdExact(rt: Runtime, m: Members, u: Uuid)
    requires Inverts(rt)
    ensures RequireString(m, "client_message_id").Ok?
         && ParseUuidCanonical(rt, RequireString(m, "client_message_id").value) == Ok(u)
       <==> HasStr(m, "client_message_id", ToText(u))
  {
    if RequireString(m, "client_message_id").Ok? {
      CanonicalUuidExact(rt, RequireString(m, "client_message_id").value, u);
    }
  }

  lemma ChatExact(rt: Runtime, m: Members, c: ChatMessage)
    requires Inverts(rt)
    ensures DecodeChatMessage(rt, m) == Ok(ChatMsg(c)) <==> CarriesChat(rt, m, c)
  {
    RequireIdExact(rt, m, c.clientMessageId);
    RequireSeqExact(m, "seq", c.seqNo);
  }

  lemma PublishAckExact(rt: Runtime, m: Members, p: PublishAck)
    requires Inverts(rt)
    ensures DecodePublishAck(rt, m) == Ok(PublishAckMsg(p)) <==> CarriesPublishAck(rt, m, p)
  {
    RequireIdExact(rt, m, p.clientMessageId);
    RequireSeqExact(m, "seq", p.seqNo);
  }

  lemma AttachExact(m: Members, a: Attach)
    ensures DecodeAttach(m) == Ok(AttachMsg(a)) <==> CarriesAttach(m, a)
  {
  }

  lemma AttachAckExact(m: Members, a: AttachAck)
    ensures DecodeAttachAck(m) == Ok(AttachAckMsg(a)) <==> CarriesAttachAck(m, a)
  {
  }

  lemma ErrorExact(m: Members, e: ErrorEnvelope)
    ensures DecodeErrorMessage(m) == Ok(ErrorMsg(e)) <==> CarriesError(m, e)
  {
  }

  predicate FromClient(msg: Message) {
    msg.AttachMsg? || msg.PublishMsg? || msg.DetachMsg? || msg.KeepaliveMsg?
  }

  lemma ClientKindExact(rt: Runtime, m: Members, msg: Message)
    requires Inverts(rt) && FromClient(msg)
    ensures DecodeKind(rt, KindOf(msg), m) == Ok(msg) <==> CarriesFields(rt, m, msg)
  {
    match msg
    case AttachMsg(a) => AttachExact(m, a);
    case PublishMsg(p) => RequireIdExact(rt, m, p.clientMessageId);
    case _ =>
  }

  lemma HubKindExact(rt: Runtime, m: Members, msg: Message)
    requires Inverts(rt) && !FromClient(msg)
    ensures DecodeKind(rt, KindOf(msg), m) == Ok(msg) <==> CarriesFields(rt, m, msg)
  {
    match msg
    case AttachAckMsg(a) => AttachAckExact(m, a);
    case PublishAckMsg(p) => PublishAckExact(rt, m, p);
    case ChatMsg(c) => ChatExact(rt, m, c);
    case ErrorMsg(e) => ErrorExact(m, e);
  }

  /** Decoding accepts exactly the objects that state a message, and reads it off. */
  lemma DecodeExact(rt: Runtime, m: Members, msg: Message)
    requires Inverts(rt)
    ensures DecodeMembers(rt, m) == Ok(msg) <==> Carries(rt, m, msg)
  {
    if FromClient(msg) {
      ClientKindExact(rt, m, msg);
    } else {
      HubKindExact(rt, m, msg);
    }
    if "type" in m && m["type"].Str? {
      KindOfTypeExact(m["type"].s, KindOf(msg));
    }
  }

  // ---- Decode errors -------------------------------------------------------------------------

  ghost predicate IsCanonicalId(raw: string) {
    exists u :: raw == ToText(u)
  }

  /** The object is of a kind that names a client message, and every check before the identifier passes. */
  predicate ReachesId(m: Members, k: Kind) {
    k == KPublish || k == KPublishAck || (k == KChatMessage && RequireSeq(m, "seq").Ok?)
  }

  /** Its identifier is then a string that is not the canonical text of a UUID. */
  ghost predicate NamesNoUuid(m: Members, k: Kind) {
    && ReachesId(m, k) && RequireString(m, "client_message_id").Ok?
    && !IsCanonicalId(RequireString(m, "client_message_id").value)
  }

  lemma UndecodedCarriesNothing(rt: Runtime, m: Members)
    requires Inverts(rt) && DecodeMembers(rt, m).Err?
    ensures forall msg :: !Carries(rt, m, msg)
  {
    forall msg ensures !Carries(rt, m, msg) {
      DecodeExact(rt, m, msg);
    }
  }

  lemma IdErrorExact(rt: Runtime, raw: string)
    requires Inverts(rt)
    ensures ParseUuidCanonical(rt, raw).Err? <==> !IsCanonicalId(raw)
  {
    if ParseUuidCanonical(rt, raw).Ok? {
      CanonicalUuidExact(rt, raw, ParseUuidCanonical(rt, raw).value);
    }
    forall u | raw == ToText(u) ensures ParseUuidCanonical(rt, raw).Ok? {
      CanonicalUuidExact(rt, raw, u);
    }
  }

  lemma KindErrorExact(rt: Runtime, k: Kind, m: Members)
    requires Inverts(rt) && DecodeKind(rt, k, m).Err?
    ensures DecodeKind(rt, k, m).error ==
            if k == KAttach then InvalidAttachPayload
            else if NamesNoUuid(m, k) then InvalidClientMessageId(RequireString(m, "client_message_id").value)
            else MalformedJson
  {
    if RequireString(m, "client_message_id").Ok? {
      IdErrorExact(rt, RequireString(m, "client_message_id").value);
    }
  }

  /** What is wrong with an object that states no message: an unknown or missing `type`, an attach
      of the wrong shape, an identifier that is not a canonical UUID, or else malformed. */
  ghost function ObjectError(m: Members): MessageError {
    if "type" !in m then UnknownMessageType(None)
    else if !m["type"].Str? then MalformedJson
    else if KindOfType(m["type"].s).None? then UnknownMessageType(Some(m["type"].s))
    else if m["type"].s == "attach" then InvalidAttachPayload
    else if NamesNoUuid(m, KindOfType(m["type"].s).value) then InvalidClientMessageId(RequireString(m, "client_message_id").value)
    else MalformedJson
  }

  /** That is the error it decodes to. */
  lemma DecodeErrorExact(rt: Runtime, m: Members)
    requires Inverts(rt) && forall msg :: !Carries(rt, m, msg)
    ensures DecodeMembers(rt, m) == Err(ObjectError(m))
  {
    var r := DecodeMembers(rt, m);
    if r.Ok? {
      DecodeExact(rt, m, r.value);
      assert false;
    }
    if "type" in m && m["type"].Str? && KindOfType(m["type"].s).Some? {
      KindOfTypeExact(m["type"].s, KAttach);
      KindErrorExact(rt, KindOfType(m["type"].s).value, m);
    }
  }

  // ---- From text -----------------------------------------------------------------------------

  /** What is wrong with a text that states no message, from its document alone. */
  ghost function DocumentError(doc: Option<Value>): MessageError {
    if doc.Some? && doc.value.Obj? then ObjectError(doc.value.members) else MalformedJson
  }

  /** The document is an object that states `msg`. */
  predicate DocumentStates(rt: Runtime, doc: Option<Value>, msg: Message) {
    doc.Some? && doc.value.Obj? && Carries(rt, doc.value.members, msg)
  }

  /** Decoding a text depends on its document only: it gives a message exactly when the document is
      an object that states it, however it is spaced, ordered or extended, and otherwise the error
      of the document. */
  lemma DecodeTextExact(rt: Runtime, text: string, msg: Message)
    requires Inverts(rt)
    ensures Decode(rt, text) == Ok(msg) <==> DocumentStates(rt, rt.parseJson(text), msg)
    ensures Decode(rt, text).Err? ==> Decode(rt, text).error == DocumentError(rt.parseJson(text))
  {
    var doc := rt.parseJson(text);
    if doc.Some? && doc.value.Obj? {
      DecodeExact(rt, doc.value.members, msg);
      if DecodeMembers(rt, doc.value.members).Err? {
        UndecodedCarriesNothing(rt, doc.value.members);
        DecodeErrorExact(rt, doc.value.members);
      }
    }
  }

  // ---- Round trip ----------------------------------------------------------------------------

  predicate TimePrints(rt: Runtime, t: Option<Timestamp>) {
    t.Some? ==> rt.formatTime(t.value).Some?
  }

  /** The messages the encoder accepts under a text limit. */
  predicate Encodable(rt: Runtime, msg: Message, maxMessageBytes: u32) {
    match msg
    case AttachMsg(a) => a.protocolMajor <= U31_MAX && a.protocolMinor <= U31_MAX
    case AttachAckMsg(a) =>
      && a.protocolMajor <= U31_MAX && a.serverProtocolMinor <= U31_MAX
      && (a.keepaliveIntervalSeconds.Some? ==> a.keepaliveIntervalSeconds.value <= U31_MAX)
    case PublishMsg(p) => Utf8.Len(p.text) <= maxMessageBytes
    case PublishAckMsg(p) => TimePrints(rt, p.serverTimestamp)
    case ChatMsg(c) => Utf8.Len(c.text) <= maxMessageBytes && TimePrints(rt, c.serverTimestamp)
    case _ => true
  }

  lemma EncodeAckExact(a: AttachAck)
    ensures var r := EncodeAttachAck(a);
            && (r.Ok? <==> && a.protocolMajor <= U31_MAX && a.serverProtocolMinor <= U31_MAX
                           && (a.keepaliveIntervalSeconds.Some? ==> a.keepaliveIntervalSeconds.value <= U31_MAX))
            && (r.Ok? ==> HasStr(r.value, "type", TypeName(KAttachAck)) && CarriesAttachAck(r.value, a))
  {
  }

  lemma EncodeChatExact(rt: Runtime, c: ChatMessage, maxMessageBytes: u32)
    requires Inverts(rt)
    ensures var r := EncodeChatMessage(rt, c, maxMessageBytes);
            && (r.Ok? <==> Utf8.Len(c.text) <= maxMessageBytes && TimePrints(rt, c.serverTimestamp))
            && (r.Ok? ==> HasStr(r.value, "type", TypeName(KChatMessage)) && CarriesChat(rt, r.value, c))
  {
  }

  lemma EncodePublishAckExact(rt: Runtime, p: PublishAck)
    requires Inverts(rt)
    ensures var r := EncodePublishAck(rt, p);
            && (r.Ok? <==> TimePrints(rt, p.serverTimestamp))
            && (r.Ok? ==> HasStr(r.value, "type", TypeName(KPublishAck)) && CarriesPublishAck(rt, r.value, p))
  {
  }

  lemma EncodeErrorExact(e: ErrorEnvelope)
    ensures HasStr(EncodeError(e), "type", TypeName(KError)) && CarriesError(EncodeError(e), e)
  {
  }

  /** Encoding succeeds exactly on the encodable messages, and the object states the message. */
  lemma EncodeExact(rt: Runtime, msg: Message, maxMessageBytes: u32)
    requires Inverts(rt)
    ensures var r := EncodeMembers(rt, msg, maxMessageBytes);
            && (r.Ok? <==> Encodable(rt, msg, maxMessageBytes))
            && (r.Ok? ==> Carries(rt, r.value, msg))
  {
    match msg
    case AttachAckMsg(a) => EncodeAckExact(a);
    case PublishAckMsg(p) => EncodePublishAckExact(rt, p);
    case ChatMsg(c) => EncodeChatExact(rt, c, maxMessageBytes);
    case ErrorMsg(e) => EncodeErrorExact(e);
    case _ =>
  }

  /** Why a message does not encode: an attach outside u31, a text over the limit with its length,
      or an integer out of range or a timestamp that does not print. */
  function EncodeRefusal(msg: Message, maxMessageBytes: u32): MessageError {
    match msg
    case AttachMsg(_) => InvalidAttachPayload
    case PublishMsg(p) => MessageTooLarge(Utf8.Len(p.text), maxMessageBytes)
    case ChatMsg(c) =>
      if Utf8.Len(c.text) > maxMessageBytes then MessageTooLarge(Utf8.Len(c.text), maxMessageBytes) else MalformedJson
    case _ => MalformedJson
  }

  lemma EncodeRefusalExact(rt: Runtime, msg: Message, maxMessageBytes: u32)
    requires !Encodable(rt, msg, maxMessageBytes)
    ensures EncodeMembers(rt, msg, maxMessageBytes) == Err(EncodeRefusal(msg, maxMessageBytes))
  {
  }

  /** The encoder in full: the reason for a message that does not encode, the length and the limit
      for a body over the frame limit, and otherwise the minified object that states the message. */
  lemma EncodeTextExact(rt: Runtime, msg: Message, maxFrameBytes: u32, maxMessageBytes: u32)
    requires Inverts(rt)
    ensures var r := EncodeWithinLimits(rt, msg, maxFrameBytes, maxMessageBytes);
            if !Encodable(rt, msg, maxMessageBytes) then r == Err(EncodeRefusal(msg, maxMessageBytes))
            else
              exists m: Members :: Carries(rt, m, msg) && m.Keys == KeysWritten(msg)
                && r == if Utf8.Len(Print(Obj(m))) > maxFrameBytes
                        then Err(JsonBodyTooLarge(Utf8.Len(Print(Obj(m))), maxFrameBytes))
                        else Ok(Print(Obj(m)))
  {
    if Encodable(rt, msg, maxMessageBytes) {
      EncodeExact(rt, msg, maxMessageBytes);
      EncodedKeysExact(rt, msg, maxMessageBytes);
      var m := EncodeMembers(rt, msg, maxMessageBytes).value;
      assert Carries(rt, m, msg) && m.Keys == KeysWritten(msg);
    } else {
      EncodeRefusalExact(rt, msg, maxMessageBytes);
    }
  }

  /** The default encoder has the limits of ADR 0003. */
  lemma DefaultLimits(rt: Runtime, msg: Message)
    ensures EncodeDefault(rt, msg) == EncodeWithinLimits(rt, msg, 1_048_576, 65_536)
  {
  }

  function OptionalKey(key: string, present: bool): set<string> {
    if present then {key} else {}
  }

  /** The keys of the object of a message: those of its shape, optional ones exactly when used. */
  function KeysWritten(msg: Message): set<string> {
    {"type"} +
    match msg
    case AttachMsg(_) => {"protocol_major", "protocol_minor", "ticket"}
    case AttachAckMsg(a) =>
      {"room_id", "max_frame_bytes", "max_message_bytes", "protocol_major", "server_protocol_minor"}
      + OptionalKey("keepalive_interval_seconds", a.keepaliveIntervalSeconds.Some?)
    case PublishMsg(_) => {"client_message_id", "text"}
    case PublishAckMsg(p) => {"client_message_id", "seq"} + OptionalKey("server_timestamp", p.serverTimestamp.Some?)
    case ChatMsg(c) =>
      {"seq", "client_message_id", "text"} + OptionalKey("sender_endpoint_id", c.senderEndpointId.Some?)
      + OptionalKey("server_timestamp", c.serverTimestamp.Some?)
    case DetachMsg => {}
    case KeepaliveMsg => {}
    case ErrorMsg(_) => {"error"}
  }

  lemma AckKeysWritten(a: AttachAck)
    requires EncodeAttachAck(a).Ok?
    ensures EncodeAttachAck(a).value.Keys == KeysWritten(AttachAckMsg(a))
  {
  }

  lemma ChatKeysWritten(rt: Runtime, c: ChatMessage, maxMessageBytes: u32)
    requires EncodeChatMessage(rt, c, maxMessageBytes).Ok?
    ensures EncodeChatMessage(rt, c, maxMessageBytes).value.Keys == KeysWritten(ChatMsg(c))
  {
  }

  /** The encoder writes these keys and no others. */
  lemma EncodedKeysExact(rt: Runtime, msg: Message, maxMessageBytes: u32)
    requires EncodeMembers(rt, msg, maxMessageBytes).Ok?
    ensures EncodeMembers(rt, msg, maxMessageBytes).value.Keys == KeysWritten(msg)
  {
    match msg
    case AttachAckMsg(a) => AckKeysWritten(a);
    case ChatMsg(c) => ChatKeysWritten(rt, c, maxMessageBytes);
    case _ =>
  }

  /** A timestamp is written as the formatter prints it, and an error has `details` exactly when
      there are some. */
  lemma EncodedDetailsExact(rt: Runtime, msg: Message, maxMessageBytes: u32)
    requires EncodeMembers(rt, msg, maxMessageBytes).Ok?
    ensures var m := EncodeMembers(rt, msg, maxMessageBytes).value;
            match msg
            case PublishAckMsg(p) => TimeWritten(rt, m, p.serverTimestamp)
            case ChatMsg(c) => TimeWritten(rt, m, c.serverTimestamp)
            case ErrorMsg(e) =>
              && "error" in m && m["error"].Obj?
              && m["error"].members.Keys == {"code", "message"} + OptionalKey("details", e.details.Some?)
            case _ => true
  {
  }

  predicate TimeWritten(rt: Runtime, m: Members, t: Option<Timestamp>) {
    t.Some? ==>
      "server_timestamp" in m && m["server_timestamp"].Str? && rt.formatTime(t.value) == Some(m["server_timestamp"].s)
  }

  /** Round trip for all eight shapes, optional fields included. */
  lemma ObjectRoundTrip(rt: Runtime, msg: Message, maxMessageBytes: u32)
    requires Inverts(rt) && Encodable(rt, msg, maxMessageBytes)
    ensures EncodeMembers(rt, msg, maxMessageBytes).Ok?
    ensures DecodeMembers(rt, EncodeMembers(rt, msg, maxMessageBytes).value) == Ok(msg)
  {
    EncodeExact(rt, msg, maxMessageBytes);
    DecodeExact(rt, EncodeMembers(rt, msg, maxMessageBytes).value, msg);
  }

  /** The JSON parser reads back the document printed for `m`. */
  predicate ReadsBack(rt: Runtime, m: Members) {
    rt.parseJson(Print(Obj(m))) == Some(Obj(m))
  }

  /** Round trip through text: a body the encoder emits decodes to the message it was made from. */
  lemma TextRoundTrip(rt: Runtime, msg: Message, maxFrameBytes: u32, maxMessageBytes: u32)
    requires Inverts(rt)
    requires EncodeWithinLimits(rt, msg, maxFrameBytes, maxMessageBytes).Ok?
    requires ReadsBack(rt, EncodeMembers(rt, msg, maxMessageBytes).value)
    ensures Decode(rt, EncodeWithinLimits(rt, msg, maxFrameBytes, maxMessageBytes).value) == Ok(msg)
  {
    EncodeExact(rt, msg, maxMessageBytes);
    ObjectRoundTrip(rt, msg, maxMessageBytes);
  }

  // ---- Forward compatibility -----------------------------------------------------------------

  function KeysOfKind(k: Kind): set<string> {
    match k
    case KAttach => {"protocol_major", "protocol_minor", "ticket"}
    case KAttachAck =>
      {"room_id", "max_frame_bytes", "max_message_bytes", "protocol_major", "server_protocol_minor",
       "keepalive_interval_seconds"}
    case KPublish => {"client_message_id", "text"}
    case KPublishAck => {"client_message_id", "seq", "server_timestamp"}
    case KChatMessage => {"seq", "client_message_id", "text", "sender_endpoint_id", "server_timestamp"}
    case KDetach => {}
    case KKeepalive => {}
    case KError => {"error"}
  }

  /** The keys a decoder looks at in an object, given its `type`. */
  function KeysRead(m: Members): set<string> {
    {"type"} +
    if "type" in m && m["type"].Str? && KindOfType(m["type"].s).Some? then KeysOfKind(KindOfType(m["type"].s).value)
    else {}
  }

  ghost predicate SameOn(m: Members, m': Members, keys: set<string>) {
    forall k | k in keys :: (k in m <==> k in m') && (k in m ==> m[k] == m'[k])
  }

  lemma SameChat(rt: Runtime, m: Members, m': Members)
    requires SameOn(m, m', KeysOfKind(KChatMessage))
    ensures DecodeChatMessage(rt, m) == DecodeChatMessage(rt, m')
  {
    var keys := KeysOfKind(KChatMessage);
    assert "client_message_id" in keys && "seq" in keys && "text" in keys;
    assert "sender_endpoint_id" in keys && "server_timestamp" in keys;
  }

  lemma SameAttachAck(m: Members, m': Members)
    requires SameOn(m, m', KeysOfKind(KAttachAck))
    ensures DecodeAttachAck(m) == DecodeAttachAck(m')
  {
    var keys := KeysOfKind(KAttachAck);
    assert "room_id" in keys && "max_frame_bytes" in keys && "max_message_bytes" in keys;
    assert "protocol_major" in keys && "server_protocol_minor" in keys && "keepalive_interval_seconds" in keys;
  }

  lemma SameKeysSameKind(rt: Runtime, k: Kind, m: Members, m': Members)
    requires SameOn(m, m', KeysOfKind(k))
    ensures DecodeKind(rt, k, m) == DecodeKind(rt, k, m')
  {
    var keys := KeysOfKind(k);
    match k
    case KAttach => assert "protocol_major" in keys && "protocol_minor" in keys && "ticket" in keys;
    case KAttachAck => SameAttachAck(m, m');
    case KPublish => assert "client_message_id" in keys && "text" in keys;
    case KPublishAck => assert "client_message_id" in keys && "seq" in keys && "server_timestamp" in keys;
    case KChatMessage => SameChat(rt, m, m');
    case KError => assert "error" in keys;
    case _ =>
  }

  /** Objects that agree on the keys read decode alike, successes and errors. */
  lemma SameKeysDecodeAlike(rt: Runtime, m: Members, m': Members)
    requires SameOn(m, m', KeysRead(m))
    ensures DecodeMembers(rt, m) == DecodeMembers(rt, m')
  {
    assert "type" in KeysRead(m);
    if "type" in m && m["type"].Str? && KindOfType(m["type"].s).Some? {
      SameKeysSameKind(rt, KindOfType(m["type"].s).value, m, m');
    }
  }

  /** P1: unknown keys, with any values, never change what an object decodes to. */
  lemma UnknownKeysIgnored(rt: Runtime, m: Members, extra: Members)
    requires extra.Keys !! KeysRead(m)
    ensures DecodeMembers(rt, m + extra) == DecodeMembers(rt, m)
  {
    SameKeysDecodeAlike(rt, m, m + extra);
  }

  /** P1 on texts: two texts whose documents differ in unknown keys only decode alike. */
  lemma UnknownKeysIgnoredInText(rt: Runtime, text: string, extended: string, m: Members, extra: Members)
    requires rt.parseJson(text) == Some(Obj(m)) && rt.parseJson(extended) == Some(Obj(m + extra))
    requires extra.Keys !! KeysRead(m)
    ensures Decode(rt, extended) == Decode(rt, text)
  {
    UnknownKeysIgnored(rt, m, extra);
  }

  /** P1 inside the nested `error` object. */
  lemma UnknownErrorKeysIgnored(rt: Runtime, m: Members, extra: Members)
    requires HasStr(m, "type", "error") && "error" in m && m["error"].Obj?
    requires extra.Keys !! {"code", "message", "details"}
    ensures DecodeMembers(rt, m["error" := Obj(m["error"].members + extra)]) == DecodeMembers(rt, m)
  {
    var e := m["error"].members;
    var e' := e + extra;
    assert SameOn(e, e', {"code", "message", "details"});
    var m' := m["error" := Obj(e')];
    assert m'["type"] == Str("error") && m'["error"].members == e';
    assert RequireString(e, "code") == RequireString(e', "code");
    assert RequireString(e, "message") == RequireString(e', "message");
    assert AbsentOrNull(e, "details") == AbsentOrNull(e', "details");
  }
}
