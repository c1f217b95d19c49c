/** The eight v1 message shapes and their JSON codec (guyos_core/src/domain/guyos_wire_v1.rs). */
module WireMessages {
  import opened Prelude
  import opened Json
  import opened UuidText
  import opened WireAttach
  import CanonicalSeq
  import F1Framing
  import Utf8

  const MAX_MESSAGE_BYTES_ADR_V1: u32 := 65_536
  const MAX_FRAME_BYTES_ADR_V1: u32 := F1Framing.MAX_FRAME_BYTES_ADR_V1

  /** An instant; its RFC 3339 text is the runtime's business. */
  type Timestamp = int

  datatype Publish = Publish(clientMessageId: Uuid, text: string)

  datatype PublishAck = PublishAck(seqNo: u64, clientMessageId: Uuid, serverTimestamp: Option<Timestamp>)

  datatype ChatMessage = ChatMessage(
    seqNo: u64,
    clientMessageId: Uuid,
    text: string,
    senderEndpointId: Option<string>,
    serverTimestamp: Option<Timestamp>)

  datatype ErrorEnvelope = ErrorEnvelope(code: string, message: string, details: Option<map<string, Value>>)

  datatype Message =
    | AttachMsg(attach: Attach)
    | AttachAckMsg(attachAck: AttachAck)
    | PublishMsg(publish: Publish)
    | PublishAckMsg(publishAck: PublishAck)
    | ChatMsg(chat: ChatMessage)
    | DetachMsg
    | KeepaliveMsg
    | ErrorMsg(envelope: ErrorEnvelope)

  /** The v1 `type` values. */
  datatype Kind = KAttach | KAttachAck | KPublish | KPublishAck | KChatMessage | KDetach | KKeepalive | KError

  function TypeName(k: Kind): string {
    match k
    case KAttach => "attach"
    case KAttachAck => "attach_ack"
    case KPublish => "publish"
    case KPublishAck => "publish_ack"
    case KChatMessage => "chat_message"
    case KDetach => "detach"
    case KKeepalive => "keepalive"
    case KError => "error"
  }

  function KindOfType(t: string): Option<Kind> {
    if t == "attach" then Some(KAttach)
    else if t == "attach_ack" then Some(KAttachAck)
    else if t == "publish" then Some(KPublish)
    else if t == "publish_ack" then Some(KPublishAck)
    else if t == "chat_message" then Some(KChatMessage)
    else if t == "detach" then Some(KDetach)
    else if t == "keepalive" then Some(KKeepalive)
    else if t == "error" then Some(KError)
    else None
  }

  function KindOf(msg: Message): Kind {
    match msg
    case AttachMsg(_) => KAttach
    case AttachAckMsg(_) => KAttachAck
    case PublishMsg(_) => KPublish
    case PublishAckMsg(_) => KPublishAck
    case ChatMsg(_) => KChatMessage
    case DetachMsg => KDetach
    case KeepaliveMsg => KKeepalive
    case ErrorMsg(_) => KError
  }

  /** Dispatch on `type` inverts naming. */
  lemma KindOfTypeExact(t: string, k: Kind)
    ensures KindOfType(t) == Some(k) <==> t == TypeName(k)
  {
  }

  datatype MessageError =
    | MalformedJson
    | UnknownMessageType(typeField: Option<string>)
    | InvalidAttachPayload
    | MessageTooLarge(bytes: nat, limit: u32)
    | JsonBodyTooLarge(bytes: nat, limit: u32)
    | InvalidClientMessageId(raw: string)

  /** The library calls the codec makes: JSON parsing, UUID parsing, RFC 3339 formatting and
      parsing, and the `{:?}` rendering of a string. */
  datatype Runtime = Runtime(
    parseJson: string -> Option<Value>,
    parseUuid: string -> Option<Uuid>,
    formatTime: Timestamp -> Option<string>,
    parseTime: string -> Option<Timestamp>,
    debug: string -> string)

  /** The UUID and timestamp parsers read back what the formatters write. */
  ghost predicate Inverts(rt: Runtime) {
    && (forall u :: rt.parseUuid(ToText(u)) == Some(u))
    && (forall t :: rt.formatTime(t).Some? ==> rt.parseTime(rt.formatTime(t).value) == Some(t))
  }

  // ---- Encode --------------------------------------------------------------------------------

  type Members = map<string, Value>

  function FormatTime(rt: Runtime, t: Timestamp): Result<Value, MessageError> {
    match rt.formatTime(t)
    case None => Err(MalformedJson)
    case Some(text) => Ok(Str(text))
  }

  function WithTime(rt: Runtime, m: Members, t: Option<Timestamp>): Result<Members, MessageError> {
    if t.None? then Ok(m)
    else
      var v :- FormatTime(rt, t.value);
      Ok(m["server_timestamp" := v])
  }

  function ValidateTextLen(text: string, maxMessageBytes: u32): Result<(), MessageError> {
    if Utf8.Len(text) > maxMessageBytes then Err(MessageTooLarge(Utf8.Len(text), maxMessageBytes)) else Ok(())
  }

  function Integer(n: u32): Value {
    Num(PosInt(n))
  }

  function Typed(k: Kind): Members {
    map["type" := Str(TypeName(k))]
  }

  function EncodeAttach(a: Attach): Result<Members, MessageError> {
    if !PreambleOk(a) then Err(InvalidAttachPayload)
    else
      Ok(Typed(KAttach)["protocol_major" := Integer(a.protocolMajor)]
         ["protocol_minor" := Integer(a.protocolMinor)]["ticket" := Str(a.ticket)])
  }

  function EncodeAttachAck(a: AttachAck): Result<Members, MessageError> {
    if a.protocolMajor > U31_MAX || a.serverProtocolMinor > U31_MAX then Err(MalformedJson)
    else
      var m := Typed(KAttachAck)["room_id" := Str(a.roomId)]["max_frame_bytes" := Integer(a.maxFrameBytes)]
               ["max_message_bytes" := Integer(a.maxMessageBytes)]["protocol_major" := Integer(a.protocolMajor)]
               ["server_protocol_minor" := Integer(a.serverProtocolMinor)];
      match a.keepaliveIntervalSeconds
      case None => Ok(m)
      case Some(k) =>
        if k > U31_MAX then Err(MalformedJson) else Ok(m["keepalive_interval_seconds" := Integer(k)])
  }

  function EncodePublish(p: Publish, maxMessageBytes: u32): Result<Members, MessageError> {
    var _ :- ValidateTextLen(p.text, maxMessageBytes);
    Ok(Typed(KPublish)["client_message_id" := Str(ToText(p.clientMessageId))]["text" := Str(p.text)])
  }

  function EncodePublishAck(rt: Runtime, p: PublishAck): Result<Members, MessageError> {
    WithTime(rt, Typed(KPublishAck)["client_message_id" := Str(ToText(p.clientMessageId))]
             ["seq" := Str(CanonicalSeq.Decimal(p.seqNo))], p.serverTimestamp)
  }

  function EncodeChatMessage(rt: Runtime, c: ChatMessage, maxMessageBytes: u32): Result<Members, MessageError> {
    var _ :- ValidateTextLen(c.text, maxMessageBytes);
    var m := Typed(KChatMessage)["seq" := Str(CanonicalSeq.Decimal(c.seqNo))]
             ["client_message_id" := Str(ToText(c.clientMessageId))]["text" := Str(c.text)];
    match c.senderEndpointId
    case None => WithTime(rt, m, c.serverTimestamp)
    case Some(sid) => WithTime(rt, m["sender_endpoint_id" := Str(sid)], c.serverTimestamp)
  }

  function EncodeError(e: ErrorEnvelope): Members {
    var inner := map["code" := Str(e.code), "message" := Str(e.message)];
    Typed(KError)["error" := Obj(if e.details.None? then inner else inner["details" := Obj(e.details.value)])]
  }

  function EncodeMembers(rt: Runtime, msg: Message, maxMessageBytes: u32): Result<Members, MessageError> {
    match msg
    case AttachMsg(a) => EncodeAttach(a)
    case AttachAckMsg(a) => EncodeAttachAck(a)
    case PublishMsg(p) => EncodePublish(p, maxMessageBytes)
    case PublishAckMsg(p) => EncodePublishAck(rt, p)
    case ChatMsg(c) => EncodeChatMessage(rt, c, maxMessageBytes)
    case DetachMsg => Ok(Typed(KDetach))
    case KeepaliveMsg => Ok(Typed(KKeepalive))
    case ErrorMsg(e) => Ok(EncodeError(e))
  }

  /** The encoder filling its map key by key. */
  method EncodeToValueWithLimits(rt: Runtime, msg: Message, maxMessageBytes: u32) returns (r: Result<Members, MessageError>)
    ensures r == EncodeMembers(rt, msg, maxMessageBytes)
  {
    var m: Members := map[];
    match msg {
      case AttachMsg(a) =>
        if !PreambleOk(a) {
          return Err(InvalidAttachPayload);
        }
        m := m["type" := Str("attach")];
        m := m["protocol_major" := Integer(a.protocolMajor)];
        m := m["protocol_minor" := Integer(a.protocolMinor)];
        m := m["ticket" := Str(a.ticket)];
        return Ok(m);
      case AttachAckMsg(a) =>
        r := FillAttachAck(a);
      case PublishMsg(p) =>
        var _ :- ValidateTextLen(p.text, maxMessageBytes);
        m := m["type" := Str("publish")];
        m := m["client_message_id" := Str(ToText(p.clientMessageId))];
        m := m["text" := Str(p.text)];
        return Ok(m);
      case PublishAckMsg(p) =>
        r := FillPublishAck(rt, p);
      case ChatMsg(c) =>
        r := FillChatMessage(rt, c, maxMessageBytes);
      case DetachMsg =>
        m := m["type" := Str("detach")];
        return Ok(m);
      case KeepaliveMsg =>
        m := m["type" := Str("keepalive")];
        return Ok(m);
      case ErrorMsg(e) =>
        m := FillError(e);
        return Ok(m);
    }
  }

  method FillAttachAck(a: AttachAck) returns (r: Result<Members, MessageError>)
    ensures r == EncodeAttachAck(a)
  {
    if a.protocolMajor > U31_MAX || a.serverProtocolMinor > U31_MAX {
      return Err(MalformedJson);
    }
    var m: Members := map[];
    m := m["type" := Str("attach_ack")];
    m := m["room_id" := Str(a.roomId)];
    m := m["max_frame_bytes" := Integer(a.maxFrameBytes)];
    m := m["max_message_bytes" := Integer(a.maxMessageBytes)];
    m := m["protocol_major" := Integer(a.protocolMajor)];
    m := m["server_protocol_minor" := Integer(a.serverProtocolMinor)];
    if a.keepaliveIntervalSeconds.Some? {
      if a.keepaliveIntervalSeconds.value > U31_MAX {
        return Err(MalformedJson);
      }
      m := m["keepalive_interval_seconds" := Integer(a.keepaliveIntervalSeconds.value)];
    }
    return Ok(m);
  }

  method FillPublishAck(rt: Runtime, p: PublishAck) returns (r: Result<Members, MessageError>)
    ensures r == EncodePublishAck(rt, p)
  {
    var m: Members := map[];
    m := m["type" := Str("publish_ack")];
    m := m["client_message_id" := Str(ToText(p.clientMessageId))];
    m := m["seq" := Str(CanonicalSeq.Decimal(p.seqNo))];
    if p.serverTimestamp.Some? {
      var t :- FormatTime(rt, p.serverTimestamp.value);
      m := m["server_timestamp" := t];
    }
    return Ok(m);
  }

  method FillError(e: ErrorEnvelope) returns (m: Members)
    ensures m == EncodeError(e)
  {
    var inner: Members := map[];
    inner := inner["code" := Str(e.code)];
    inner := inner["message" := Str(e.message)];
    if e.details.Some? {
      inner := inner["details" := Obj(e.details.value)];
    }
    m := map[];
    m := m["type" := Str("error")];
    m := m["error" := Obj(inner)];
  }

  method FillChatMessage(rt: Runtime, c: ChatMessage, maxMessageBytes: u32) returns (r: Result<Members, MessageError>)
    ensures r == EncodeChatMessage(rt, c, maxMessageBytes)
  {
    var _ :- ValidateTextLen(c.text, maxMessageBytes);
    var m: Members := map[];
    m := m["type" := Str("chat_message")];
    m := m["seq" := Str(CanonicalSeq.Decimal(c.seqNo))];
    m := m["client_message_id" := Str(ToText(c.clientMessageId))];
    m := m["text" := Str(c.text)];
    if c.senderEndpointId.Some? {
      m := m["sender_endpoint_id" := Str(c.senderEndpointId.value)];
    }
    if c.serverTimestamp.Some? {
      var t :- FormatTime(rt, c.serverTimestamp.value);
      m := m["server_timestamp" := t];
    }
    return Ok(m);
  }

  /** The minified body, refused when it does not fit `max_frame_bytes`. */
  function EncodeWithinLimits(rt: Runtime, msg: Message, maxFrameBytes: u32, maxMessageBytes: u32)
    : Result<string, MessageError>
  {
    var m :- EncodeMembers(rt, msg, maxMessageBytes);
    var body := Print(Obj(m));
    if Utf8.Len(body) > maxFrameBytes then Err(JsonBodyTooLarge(Utf8.Len(body), maxFrameBytes)) else Ok(body)
  }

  function EncodeDefault(rt: Runtime, msg: Message): Result<string, MessageError> {
    EncodeWithinLimits(rt, msg, MAX_FRAME_BYTES_ADR_V1, MAX_MESSAGE_BYTES_ADR_V1)
  }

  // ---- Decode --------------------------------------------------------------------------------

  function RequireString(m: Members, key: string): Result<string, MessageError> {
    if key in m && m[key].Str? then Ok(m[key].s) else Err(MalformedJson)
  }

  function RequireU32(m: Members, key: string): Result<u32, MessageError> {
    if key in m && m[key].Num? && m[key].number.PosInt? && m[key].number.n <= U32_MAX
    then Ok(m[key].number.n)
    else Err(MalformedJson)
  }

  function RequireU31(m: Members, key: string): Result<u32, MessageError> {
    var v :- RequireU32(m, key);
    if v > U31_MAX then Err(MalformedJson) else Ok(v)
  }

  function RequireSeq(m: Members, key: string): Result<u64, MessageError> {
    if key in m && m[key].Str? then
      match CanonicalSeq.ParseSeq(m[key].s)
      case None => Err(MalformedJson)
      case Some(n) => Ok(n)
    else Err(MalformedJson)
  }

  function ParseUuidCanonical(rt: Runtime, raw: string): Result<Uuid, MessageError> {
    match rt.parseUuid(raw)
    case None => Err(InvalidClientMessageId(raw))
    case Some(u) => if raw != ToText(u) then Err(InvalidClientMessageId(raw)) else Ok(u)
  }

  predicate AbsentOrNull(m: Members, key: string) {
    key in m ==> m[key].Null?
  }

  function ParseOptionalTime(rt: Runtime, m: Members, key: string): Result<Option<Timestamp>, MessageError> {
    if AbsentOrNull(m, key) then Ok(None)
    else if m[key].Str? then
      match rt.parseTime(m[key].s)
      case None => Err(MalformedJson)
      case Some(t) => Ok(Some(t))
    else Err(MalformedJson)
  }

  function DecodeAttach(m: Members): (r: Result<Message, MessageError>)
    ensures r.Ok? ==> r.value.AttachMsg?
  {
    match AttachFromDecodedMap(m)
    case Ok(a) => Ok(AttachMsg(a))
    case Err(_) => Err(InvalidAttachPayload)
  }

  function DecodeAttachAck(m: Members): (r: Result<Message, MessageError>)
    ensures r.Ok? ==> r.value.AttachAckMsg?
  {
    var roomId :- RequireString(m, "room_id");
    var maxFrameBytes :- RequireU32(m, "max_frame_bytes");
    var maxMessageBytes :- RequireU32(m, "max_message_bytes");
    var major :- RequireU31(m, "protocol_major");
    var minor :- RequireU31(m, "server_protocol_minor");
    if AbsentOrNull(m, "keepalive_interval_seconds") then
      Ok(AttachAckMsg(AttachAck(roomId, maxFrameBytes, maxMessageBytes, major, minor, None)))
    else
      var k :- RequireU31(m, "keepalive_interval_seconds");
      Ok(AttachAckMsg(AttachAck(roomId, maxFrameBytes, maxMessageBytes, major, minor, Some(k))))
  }

  function DecodePublish(rt: Runtime, m: Members): (r: Result<Message, MessageError>)
    ensures r.Ok? ==> r.value.PublishMsg?
  {
    var raw :- RequireString(m, "client_message_id");
    var id :- ParseUuidCanonical(rt, raw);
    var text :- RequireString(m, "text");
    Ok(PublishMsg(Publish(id, text)))
  }

  function DecodePublishAck(rt: Runtime, m: Members): (r: Result<Message, MessageError>)
    ensures r.Ok? ==> r.value.PublishAckMsg?
  {
    var raw :- RequireString(m, "client_message_id");
    var id :- ParseUuidCanonical(rt, raw);
    var seqNo :- RequireSeq(m, "seq");
    var t :- ParseOptionalTime(rt, m, "server_timestamp");
    Ok(PublishAckMsg(PublishAck(seqNo, id, t)))
  }

  function DecodeChatMessage(rt: Runtime, m: Members): (r: Result<Message, MessageError>)
    ensures r.Ok? ==> r.value.ChatMsg?
  {
    var seqNo :- RequireSeq(m, "seq");
    var raw :- RequireString(m, "client_message_id");
    var id :- ParseUuidCanonical(rt, raw);
    var text :- RequireString(m, "text");
    if !AbsentOrNull(m, "sender_endpoint_id") && !m["sender_endpoint_id"].Str? then Err(MalformedJson)
    else
      var sender := if AbsentOrNull(m, "sender_endpoint_id") then None else Some(m["sender_endpoint_id"].s);
      var t :- ParseOptionalTime(rt, m, "server_timestamp");
      Ok(ChatMsg(ChatMessage(seqNo, id, text, sender, t)))
  }

  function DecodeErrorMessage(m: Members): (r: Result<Message, MessageError>)
    ensures r.Ok? ==> r.value.ErrorMsg?
  {
    if "error" !in m || !m["error"].Obj? then Err(MalformedJson)
    else
      var e := m["error"].members;
      var code :- RequireString(e, "code");
      var message :- RequireString(e, "message");
      if AbsentOrNull(e, "details") then Ok(ErrorMsg(ErrorEnvelope(code, message, None)))
      else if e["details"].Obj? then Ok(ErrorMsg(ErrorEnvelope(code, message, Some(e["details"].members))))
      else Err(MalformedJson)
  }

  function DecodeKind(rt: Runtime, k: Kind, m: Members): (r: Result<Message, MessageError>)
    ensures r.Ok? ==> KindOf(r.value) == k
  {
    match k
    case KAttach => DecodeAttach(m)
    case KAttachAck => DecodeAttachAck(m)
    case KPublish => DecodePublish(rt, m)
    case KPublishAck => DecodePublishAck(rt, m)
    case KChatMessage => DecodeChatMessage(rt, m)
    case KDetach => Ok(DetachMsg)
    case KKeepalive => Ok(KeepaliveMsg)
    case KError => DecodeErrorMessage(m)
  }

  function DecodeMembers(rt: Runtime, m: Members): Result<Message, MessageError> {
    if "type" !in m then Err(UnknownMessageType(None))
    else if !m["type"].Str? then Err(MalformedJson)
    else
      match KindOfType(m["type"].s)
      case None => Err(UnknownMessageType(Some(m["type"].s)))
      case Some(k) => DecodeKind(rt, k, m)
  }

  /** Decode one JSON document. */
  function Decode(rt: Runtime, text: string): Result<Message, MessageError> {
    match rt.parseJson(text)
    case None => Err(MalformedJson)
    case Some(v) => if v.Obj? then DecodeMembers(rt, v.members) else Err(MalformedJson)
  }
}
