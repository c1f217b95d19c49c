/** The hub's best-effort `error` frame after an inbound framing failure
    (guyos_core/src/ports/outbound/guyos_wire_v1_session.rs), and the size of error replies. */
module SessionErrors {
  import opened Prelude
  import opened Json
  import opened CanonicalSeq
  import opened F1Framing
  import opened WireSession
  import opened WireMessages
  import opened BodySizes
  import CodecTheorems
  import HubDispatch
  import HubSafety
  import Utf8

  /** The error message for a framing failure, or None when the hub must stay silent. */
  function FailureMessage(e: SessionError): Option<Message> {
    match e
    case FrameTooLarge(declared, limit) =>
      Some(HubDispatch.WireError("frame_too_large",
        "Declared F1 payload length " + Decimal(declared) + " exceeds max_frame_bytes limit " + Decimal(limit) + "."))
    case InvalidUtf8 => Some(HubDispatch.WireError("malformed_json", "F1 frame payload is not valid UTF-8."))
    case UnexpectedEof => None
    case Io => None
  }

  function WireErrorBody(rt: Runtime, e: SessionError): Option<string> {
    match FailureMessage(e)
    case None => None
    case Some(msg) =>
      match EncodeDefault(rt, msg)
      case Err(_) => None
      case Ok(body) => Some(body)
  }

  /** One frame when there is a body and it fits this session; otherwise nothing is sent. */
  method HubTrySendWireError(rt: Runtime, session: Session, e: SessionError)
    modifies session.tx`queue
    ensures var body := WireErrorBody(rt, e);
            if body.Some? && Utf8.Len(body.value) <= session.maxFrameBytes && session.tx.receiverAlive then
              session.tx.queue == old(session.tx.queue) + [Unit(Utf8.Encode(body.value))]
            else
              session.tx.queue == old(session.tx.queue)
  {
    var body := WireErrorBody(rt, e);
    if body.Some? {
      var _ := session.WriteApplicationFrame(body.value);
    }
  }

  // ---- Sizes ---------------------------------------------------------------------------------

  lemma InnerErrorLen(m: Members, code: string, message: string)
    requires m.Keys == {"code", "message"} && m["code"] == Str(code) && m["message"] == Str(message)
    ensures Utf8.Len(Print(Obj(m))) == 24 + EscapedLen(code) + EscapedLen(message)
  {
    TextObjectLen2(m, "code", "message", code, message);
  }

  lemma OuterErrorLen(m: Members, inner: Value)
    requires m.Keys == {"error", "type"} && m["error"] == inner && m["type"] == Str("error")
    ensures Utf8.Len(Print(Obj(m))) == 25 + Utf8.Len(Print(inner))
  {
    var k1, k2 := "error", "type";
    ObjectLen2(m, k1, k2);
    MemberLen(Obj(m), k1);
    PlainMemberLen(m, k2, "error");
  }

  lemma ErrorMembers(code: string, message: string)
    ensures var m := EncodeError(ErrorEnvelope(code, message, None));
            && m.Keys == {"error", "type"} && m["type"] == Str("error") && m["error"].Obj?
            && var inner := m["error"].members;
            && inner.Keys == {"code", "message"} && inner["code"] == Str(code) && inner["message"] == Str(message)
  {
  }

  /** An error reply costs 49 bytes, its escaped code and its escaped message. */
  lemma ErrorBodyLen(code: string, message: string)
    ensures Utf8.Len(Print(Obj(EncodeError(ErrorEnvelope(code, message, None)))))
         == 49 + EscapedLen(code) + EscapedLen(message)
  {
    ErrorMembers(code, message);
    var m := EncodeError(ErrorEnvelope(code, message, None));
    InnerErrorLen(m["error"].members, code, message);
    OuterErrorLen(m, m["error"]);
  }

  /** So it can be sent on a session exactly when that much fits the frame limit. */
  lemma ErrorReplyFitsExact(rt: Runtime, code: string, message: string, maxFrameBytes: u32, maxMessageBytes: u32)
    ensures EncodeWithinLimits(rt, HubDispatch.WireError(code, message), maxFrameBytes, maxMessageBytes).Ok?
       <==> 49 + EscapedLen(code) + EscapedLen(message) <= maxFrameBytes
  {
    ErrorBodyLen(code, message);
  }

  lemma FrameTooLargeText()
    ensures Plain("Declared F1 payload length ") && Plain(" exceeds max_frame_bytes limit ") && Plain(".")
    ensures Plain("frame_too_large")
  {
  }

  lemma FrameTooLargeLen(declared: u32, limit: u32)
    ensures EscapedLen("Declared F1 payload length " + Decimal(declared) + " exceeds max_frame_bytes limit " + Decimal(limit) + ".")
         <= 79
  {
    FrameTooLargeText();
    var a, b, c, d, z := "Declared F1 payload length ", Decimal(declared), " exceeds max_frame_bytes limit ", Decimal(limit), ".";
    DecimalPlain(declared);
    DecimalPlain(limit);
    U32Digits(declared);
    U32Digits(limit);
    PlainAppend(a, b);
    PlainAppend(a + b, c);
    PlainAppend(a + b + c, d);
    PlainAppend(a + b + c + d, z);
    PlainLen(a + b + c + d + z);
  }

  lemma InvalidUtf8Text()
    ensures Plain("malformed_json") && Plain("F1 frame payload is " + "not valid UTF-8.")
    ensures "F1 frame payload is " + "not valid UTF-8." == "F1 frame payload is not valid UTF-8."
  {
    assert Plain("F1 frame payload is ") && Plain("not valid UTF-8.");
    PlainAppend("F1 frame payload is ", "not valid UTF-8.");
  }

  /** The longest body for a framing failure. */
  const FAILURE_BODY_BOUND: nat := 143

  /** A framing failure has a body exactly when it is `FrameTooLarge` or `InvalidUtf8`; the body
      is at most 143 bytes for every declared length and limit, and states a v1 code. */
  lemma WireErrorBodyExact(rt: Runtime, e: SessionError)
    ensures WireErrorBody(rt, e).Some? <==> e.FrameTooLarge? || e.InvalidUtf8?
    ensures WireErrorBody(rt, e).Some? ==> Utf8.Len(WireErrorBody(rt, e).value) <= FAILURE_BODY_BOUND
    ensures WireErrorBody(rt, e).Some? ==>
              && FailureMessage(e).value.ErrorMsg?
              && FailureMessage(e).value.envelope.code ==
                   (if e.FrameTooLarge? then "frame_too_large" else "malformed_json")
              && FailureMessage(e).value.envelope.code in HubSafety.V1_CODES
  {
    match e
    case FrameTooLarge(declared, limit) => FrameTooLargeBodyLen(declared, limit);
    case InvalidUtf8 => InvalidUtf8BodyLen();
    case _ =>
  }

  lemma FrameTooLargeBodyLen(declared: u32, limit: u32)
    ensures Utf8.Len(Print(Obj(EncodeError(FailureMessage(FrameTooLarge(declared, limit)).value.envelope)))) <= FAILURE_BODY_BOUND
  {
    var env := FailureMessage(FrameTooLarge(declared, limit)).value.envelope;
    ErrorBodyLen(env.code, env.message);
    FrameTooLargeLen(declared, limit);
    FrameTooLargeText();
    PlainLen("frame_too_large");
  }

  lemma InvalidUtf8BodyLen()
    ensures Utf8.Len(Print(Obj(EncodeError(FailureMessage(InvalidUtf8).value.envelope)))) <= FAILURE_BODY_BOUND
  {
    var env := FailureMessage(InvalidUtf8).value.envelope;
    ErrorBodyLen(env.code, env.message);
    InvalidUtf8Text();
    PlainLen("malformed_json");
    PlainLen("F1 frame payload is not valid UTF-8.");
  }

  lemma DefaultBodyDecodes(rt: Runtime, msg: Message)
    requires Inverts(rt) && msg.ErrorMsg? && EncodeDefault(rt, msg).Ok?
    requires CodecTheorems.ReadsBack(rt, EncodeError(msg.envelope))
    ensures Decode(rt, EncodeDefault(rt, msg).value) == Ok(msg)
  {
    CodecTheorems.TextRoundTrip(rt, msg, WireMessages.MAX_FRAME_BYTES_ADR_V1, MAX_MESSAGE_BYTES_ADR_V1);
  }

  /** The peer that receives the body decodes the same code from it. */
  lemma WireErrorBodyDecodes(rt: Runtime, e: SessionError)
    requires Inverts(rt) && FailureMessage(e).Some?
    requires CodecTheorems.ReadsBack(rt, EncodeError(FailureMessage(e).value.envelope))
    ensures WireErrorBody(rt, e).Some? && Decode(rt, WireErrorBody(rt, e).value) == Ok(FailureMessage(e).value)
  {
    WireErrorBodyExact(rt, e);
    DefaultBodyDecodes(rt, FailureMessage(e).value);
  }
}
