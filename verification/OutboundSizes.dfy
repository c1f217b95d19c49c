/** The frame-size guarantee: exact lengths of what the hub sends, and the exact limit from which
    everything it sends fits. */
module OutboundSizes {
  import opened Prelude
  import opened Json
  import opened UuidText
  import opened CanonicalSeq
  import opened WireAttach
  import opened WireMessages
  import opened PublishLedger
  import opened HubDispatch
  import opened BodySizes
  import CodecTheorems
  import Utf8

  // ---- chat_message and publish_ack ----------------------------------------------------------

  function FanOutMsg(n: u64, id: Uuid, text: string): Message {
    ChatMsg(ChatMessage(n, id, text, None, None))
  }

  function AckMsg(n: u64, id: Uuid): Message {
    PublishAckMsg(PublishAck(n, id, None))
  }

  lemma PublishKeys()
    ensures Before("client_message_id", "seq") && Before("seq", "text") && Before("seq", "type") && Before("text", "type")
    ensures Plain("client_message_id") && Plain("seq") && Plain("text") && Plain("type")
    ensures Plain("chat_message") && Plain("publish_ack")
  {
  }

  lemma FanOutMembers(rt: Runtime, n: u64, id: Uuid, text: string, maxMessageBytes: u32)
    requires Utf8.Len(text) <= maxMessageBytes
    ensures var r := EncodeMembers(rt, FanOutMsg(n, id, text), maxMessageBytes);
            && r.Ok? && r.value.Keys == {"client_message_id", "seq", "text", "type"}
            && r.value["client_message_id"] == Str(ToText(id)) && r.value["seq"] == Str(Decimal(n))
            && r.value["text"] == Str(text) && r.value["type"] == Str("chat_message")
  {
  }

  lemma AckMembers(rt: Runtime, n: u64, id: Uuid, maxMessageBytes: u32)
    ensures var r := EncodeMembers(rt, AckMsg(n, id), maxMessageBytes);
            && r.Ok? && r.value.Keys == {"client_message_id", "seq", "type"}
            && r.value["client_message_id"] == Str(ToText(id)) && r.value["seq"] == Str(Decimal(n))
            && r.value["type"] == Str("publish_ack")
  {
  }

  /** A fan-out costs 101 bytes, the digits of its number and its escaped text. */
  lemma FanOutLen(rt: Runtime, n: u64, id: Uuid, text: string, maxMessageBytes: u32)
    requires Utf8.Len(text) <= maxMessageBytes
    ensures var r := EncodeMembers(rt, FanOutMsg(n, id, text), maxMessageBytes);
            r.Ok? && Utf8.Len(Print(Obj(r.value))) == 101 + |Decimal(n)| + EscapedLen(text)
  {
    FanOutMembers(rt, n, id, text, maxMessageBytes);
    PublishKeys();
    UuidPlain(id);
    DecimalPlain(n);
    TextObjectLen4(EncodeMembers(rt, FanOutMsg(n, id, text), maxMessageBytes).value,
                   "client_message_id", "seq", "text", "type", ToText(id), Decimal(n), text, "chat_message");
  }

  /** An ack costs 90 bytes and the digits of its number. */
  lemma AckLen(rt: Runtime, n: u64, id: Uuid, maxMessageBytes: u32)
    ensures var r := EncodeMembers(rt, AckMsg(n, id), maxMessageBytes);
            r.Ok? && Utf8.Len(Print(Obj(r.value))) == 90 + |Decimal(n)|
  {
    AckMembers(rt, n, id, maxMessageBytes);
    PublishKeys();
    UuidPlain(id);
    DecimalPlain(n);
    PlainLen(Decimal(n));
    TextObjectLen3(EncodeMembers(rt, AckMsg(n, id), maxMessageBytes).value,
                   "client_message_id", "seq", "type", ToText(id), Decimal(n), "publish_ack");
  }

  lemma PublishMembers(rt: Runtime, id: Uuid, text: string, maxMessageBytes: u32)
    requires Utf8.Len(text) <= maxMessageBytes
    ensures var r := EncodeMembers(rt, PublishMsg(Publish(id, text)), maxMessageBytes);
            && r.Ok? && r.value.Keys == {"client_message_id", "text", "type"}
            && r.value["client_message_id"] == Str(ToText(id)) && r.value["text"] == Str(text)
            && r.value["type"] == Str("publish")
  {
  }

  lemma ClientKeys()
    ensures Before("client_message_id", "text") && Plain("publish")
  {
  }

  /** A publish costs 87 bytes and its escaped text. */
  lemma PublishLen(rt: Runtime, id: Uuid, text: string, maxMessageBytes: u32)
    requires Utf8.Len(text) <= maxMessageBytes
    ensures var r := EncodeMembers(rt, PublishMsg(Publish(id, text)), maxMessageBytes);
            r.Ok? && Utf8.Len(Print(Obj(r.value))) == 87 + EscapedLen(text)
  {
    PublishMembers(rt, id, text, maxMessageBytes);
    PublishKeys();
    ClientKeys();
    UuidPlain(id);
    TextObjectLen3(EncodeMembers(rt, PublishMsg(Publish(id, text)), maxMessageBytes).value,
                   "client_message_id", "text", "type", ToText(id), text, "publish");
  }

  /** The bytes around the text of the longest fan-out. */
  const ENVELOPE: nat := 121

  /** Every publish and fan-out of an in-limit text and every ack fits the frame limit. */
  ghost predicate AllOutboundFits(rt: Runtime, maxFrameBytes: u32, maxMessageBytes: u32) {
    && (forall id: Uuid, text: string | Utf8.Len(text) <= maxMessageBytes ::
          EncodeWithinLimits(rt, PublishMsg(Publish(id, text)), maxFrameBytes, maxMessageBytes).Ok?)
    && (forall n: u64, id: Uuid, text: string | Utf8.Len(text) <= maxMessageBytes ::
          EncodeWithinLimits(rt, FanOutMsg(n, id, text), maxFrameBytes, maxMessageBytes).Ok?)
    && (forall n: u64, id: Uuid :: EncodeWithinLimits(rt, AckMsg(n, id), maxFrameBytes, maxMessageBytes).Ok?)
  }

  lemma OutboundFits(rt: Runtime, n: u64, id: Uuid, text: string, maxFrameBytes: u32, maxMessageBytes: u32)
    requires maxFrameBytes >= 6 * maxMessageBytes + ENVELOPE
    ensures EncodeWithinLimits(rt, AckMsg(n, id), maxFrameBytes, maxMessageBytes).Ok?
    ensures Utf8.Len(text) <= maxMessageBytes ==>
              && EncodeWithinLimits(rt, FanOutMsg(n, id, text), maxFrameBytes, maxMessageBytes).Ok?
              && EncodeWithinLimits(rt, PublishMsg(Publish(id, text)), maxFrameBytes, maxMessageBytes).Ok?
  {
    U64Digits(n);
    AckLen(rt, n, id, maxMessageBytes);
    if Utf8.Len(text) <= maxMessageBytes {
      PublishLen(rt, id, text, maxMessageBytes);
      FanOutLen(rt, n, id, text, maxMessageBytes);
      EscapeExpansion(text);
    }
  }

  /** The frame limit is large enough for every publish and everything the hub may send about one
      exactly when it is at least six times the text limit plus 121. */
  lemma FrameLimitExact(rt: Runtime, maxFrameBytes: u32, maxMessageBytes: u32)
    ensures AllOutboundFits(rt, maxFrameBytes, maxMessageBytes) <==> maxFrameBytes >= 6 * maxMessageBytes + ENVELOPE
  {
    if maxFrameBytes >= 6 * maxMessageBytes + ENVELOPE {
      forall id: Uuid, text: string | Utf8.Len(text) <= maxMessageBytes
        ensures EncodeWithinLimits(rt, PublishMsg(Publish(id, text)), maxFrameBytes, maxMessageBytes).Ok?
      {
        OutboundFits(rt, 0, id, text, maxFrameBytes, maxMessageBytes);
      }
      forall n: u64, id: Uuid, text: string | Utf8.Len(text) <= maxMessageBytes
        ensures EncodeWithinLimits(rt, FanOutMsg(n, id, text), maxFrameBytes, maxMessageBytes).Ok?
      {
        OutboundFits(rt, n, id, text, maxFrameBytes, maxMessageBytes);
      }
      forall n: u64, id: Uuid ensures EncodeWithinLimits(rt, AckMsg(n, id), maxFrameBytes, maxMessageBytes).Ok? {
        OutboundFits(rt, n, id, "", maxFrameBytes, maxMessageBytes);
      }
    } else {
      var n: u64, id: Uuid, text := 10_000_000_000_000_000_000, seq(16, _ => 0), Controls(maxMessageBytes);
      ControlsReachBound(maxMessageBytes);
      U64Digits(n);
      FanOutLen(rt, n, id, text, maxMessageBytes);
      assert EncodeWithinLimits(rt, FanOutMsg(n, id, text), maxFrameBytes, maxMessageBytes).Err?;
    }
  }

  /** The limits of ADR 0003 meet the bound. */
  lemma AdrLimitsSuffice(rt: Runtime)
    ensures AllOutboundFits(rt, MAX_FRAME_BYTES_ADR_V1, MAX_MESSAGE_BYTES_ADR_V1)
  {
    FrameLimitExact(rt, MAX_FRAME_BYTES_ADR_V1, MAX_MESSAGE_BYTES_ADR_V1);
  }

  /** Whatever dispatch sends for a publish encodes under the session's own limits. */
  lemma HandledEncodes(rt: Runtime, session: Session, publish: Publish, rooms: Rooms)
    requires session.Attached? && session.maxFrameBytes >= 6 * session.maxMessageBytes + ENVELOPE
    ensures var outcome := DispatchPublish(session.roomId, publish, session.maxMessageBytes, rooms).0;
            outcome.PublishHandled? ==>
              && EncodeWithinLimits(rt, PublishAckMsg(outcome.publisherAck), session.maxFrameBytes, session.maxMessageBytes).Ok?
              && (outcome.observerChat.Some? ==>
                    EncodeWithinLimits(rt, ChatMsg(outcome.observerChat.value), session.maxFrameBytes, session.maxMessageBytes).Ok?)
  {
    var outcome := DispatchPublish(session.roomId, publish, session.maxMessageBytes, rooms).0;
    if outcome.PublishHandled? {
      OutboundFits(rt, outcome.publisherAck.seqNo, publish.clientMessageId, publish.text,
                   session.maxFrameBytes, session.maxMessageBytes);
    }
  }

  // ---- attach_ack ----------------------------------------------------------------------------

  predicate KeepaliveInRange(policy: AttachPolicy) {
    policy.keepaliveIntervalSeconds.Some? ==> policy.keepaliveIntervalSeconds.value <= U31_MAX
  }

  /** The digits of the four integers every ack states. */
  function AckDigits(a: AttachAck): nat {
    |Decimal(a.maxFrameBytes)| + |Decimal(a.maxMessageBytes)| + |Decimal(a.protocolMajor)| + |Decimal(a.serverProtocolMinor)|
  }

  /** The bytes of an ack: 117, the digits of its integers, its escaped room, and 30 more and its
      digits for a keepalive interval. */
  function AttachAckBytes(a: AttachAck): nat {
    var interval: nat := match a.keepaliveIntervalSeconds case None => 0 case Some(k) => 30 + |Decimal(k)|;
    117 + AckDigits(a) + EscapedLen(a.roomId) + interval
  }

  lemma AttachAckOrder()
    ensures Before("keepalive_interval_seconds", "max_frame_bytes") && Before("max_frame_bytes", "max_message_bytes")
    ensures Before("max_message_bytes", "protocol_major") && Before("protocol_major", "room_id")
    ensures Before("room_id", "server_protocol_minor") && Before("server_protocol_minor", "type")
  {
  }

  lemma IntKeysPlain()
    ensures Plain("max_frame_bytes") && Plain("max_message_bytes") && Plain("protocol_major")
    ensures Plain("server_protocol_minor") && Plain("keepalive_interval_seconds")
  {
  }

  lemma NamedKeysPlain()
    ensures Plain("type") && Plain("room_id") && Plain("attach_ack")
  {
  }

  lemma AttachAckKeySet(a: AttachAck)
    requires EncodeAttachAck(a).Ok?
    ensures EncodeAttachAck(a).value.Keys
         == {"max_frame_bytes", "max_message_bytes", "protocol_major", "room_id", "server_protocol_minor", "type"}
            + if a.keepaliveIntervalSeconds.None? then {} else {"keepalive_interval_seconds"}
  {
  }

  /** The six keys every ack has, in order. */
  const ACK_KEYS: seq<string> :=
    ["max_frame_bytes"] + (["max_message_bytes"] + (["protocol_major"] + (["room_id"] + (["server_protocol_minor"] + ["type"]))))

  lemma AckKeysAscend()
    ensures Ascending(ACK_KEYS) && Ascending(["keepalive_interval_seconds"] + ACK_KEYS)
  {
    AttachAckOrder();
    AscendingNeighbours(ACK_KEYS);
    AscendingNeighbours(["keepalive_interval_seconds"] + ACK_KEYS);
  }

  lemma SixKeys(k1: string, k2: string, k3: string, k4: string, k5: string, k6: string)
    ensures (set k | k in [k1] + ([k2] + ([k3] + ([k4] + ([k5] + [k6]))))) == {k1, k2, k3, k4, k5, k6}
  {
  }

  lemma OneMoreKey(k0: string, ks: seq<string>)
    ensures (set k | k in [k0] + ks) == {k0} + set k | k in ks
  {
  }

  /** The keys of an ack, given those of every ack and the optional one. */
  function WithKeepalive(a: AttachAck, keepalive: string, ks: seq<string>): seq<string> {
    if a.keepaliveIntervalSeconds.None? then ks else [keepalive] + ks
  }

  lemma AckKeysListed(a: AttachAck)
    requires EncodeAttachAck(a).Ok?
    ensures EncodeAttachAck(a).value.Keys == set k | k in WithKeepalive(a, "keepalive_interval_seconds", ACK_KEYS)
  {
    AttachAckKeySet(a);
    SixKeys("max_frame_bytes", "max_message_bytes", "protocol_major", "room_id", "server_protocol_minor", "type");
    OneMoreKey("keepalive_interval_seconds", ACK_KEYS);
  }

  /** Six members in order: integers, the fourth a string, the last a plain string. */
  lemma SixMembersCost(m: Members, k1: string, k2: string, k3: string, k4: string, k5: string, k6: string,
                       n1: u32, n2: u32, n3: u32, room: string, n5: u32, name: string)
    requires Plain(k1) && Plain(k2) && Plain(k3) && Plain(k4) && Plain(k5) && Plain(k6) && Plain(name)
    requires CodecTheorems.HasInt(m, k1, n1) && CodecTheorems.HasInt(m, k2, n2) && CodecTheorems.HasInt(m, k3, n3)
    requires CodecTheorems.HasStr(m, k4, room) && CodecTheorems.HasInt(m, k5, n5) && CodecTheorems.HasStr(m, k6, name)
    ensures forall k | k in [k1] + ([k2] + ([k3] + ([k4] + ([k5] + [k6])))) :: k in m
    ensures MembersCost(Obj(m), [k1] + ([k2] + ([k3] + ([k4] + ([k5] + [k6])))))
         == 27 + |k1 + k2 + k3 + k4 + k5 + k6 + name| + |Decimal(n1) + Decimal(n2) + Decimal(n3) + Decimal(n5)| + EscapedLen(room)
  {
    CostOne(Obj(m), k6);
    PlainMemberLen(m, k6, name);
    IntCost(m, k5, n5, [k6]);
    StrCost(m, k4, room, [k5] + [k6]);
    IntCost(m, k3, n3, [k4] + ([k5] + [k6]));
    IntCost(m, k2, n2, [k3] + ([k4] + ([k5] + [k6])));
    IntCost(m, k1, n1, [k2] + ([k3] + ([k4] + ([k5] + [k6]))));
  }

  lemma AckKeysCost(m: Members, a: AttachAck)
    requires CodecTheorems.CarriesAttachAck(m, a) && CodecTheorems.HasStr(m, "type", "attach_ack")
    ensures (forall k | k in ACK_KEYS :: k in m) && MembersCost(Obj(m), ACK_KEYS) == 115 + AckDigits(a) + EscapedLen(a.roomId)
  {
    NamedKeysPlain();
    IntKeysPlain();
    SixMembersCost(m, "max_frame_bytes", "max_message_bytes", "protocol_major", "room_id", "server_protocol_minor", "type",
                   a.maxFrameBytes, a.maxMessageBytes, a.protocolMajor, a.roomId, a.serverProtocolMinor, "attach_ack");
  }

  /** The cost of the keepalive member in front of the others. */
  lemma KeepaliveCost(m: Members, n: u32, ks: seq<string>)
    requires CodecTheorems.HasInt(m, "keepalive_interval_seconds", n) && ks != [] && forall k | k in ks :: k in m
    ensures MembersCost(Obj(m), ["keepalive_interval_seconds"] + ks) == 30 + |Decimal(n)| + MembersCost(Obj(m), ks)
  {
    IntKeysPlain();
    IntCost(m, "keepalive_interval_seconds", n, ks);
  }

  lemma AckObjectLen(m: Members, a: AttachAck, keepalive: string, ks: seq<string>, cost: nat)
    requires ks != [] && Ascending(ks) && Ascending([keepalive] + ks) && (forall k | k in ks :: k in m)
    requires m.Keys == set k | k in WithKeepalive(a, keepalive, ks)
    requires MembersCost(Obj(m), ks) == cost
    requires a.keepaliveIntervalSeconds.Some? ==>
               keepalive in m && MembersCost(Obj(m), [keepalive] + ks) == 30 + |Decimal(a.keepaliveIntervalSeconds.value)| + cost
    ensures Utf8.Len(Print(Obj(m)))
         == 2 + cost + match a.keepaliveIntervalSeconds case None => 0 case Some(k) => 30 + |Decimal(k)|
  {
    ObjectLen(m, WithKeepalive(a, keepalive, ks));
  }

  lemma AckObjectCost(a: AttachAck) returns (keepalive: string, ks: seq<string>)
    requires EncodeAttachAck(a).Ok?
    ensures var m := EncodeAttachAck(a).value;
            && ks != [] && Ascending(ks) && Ascending([keepalive] + ks) && (forall k | k in ks :: k in m)
            && m.Keys == (set k | k in WithKeepalive(a, keepalive, ks))
            && MembersCost(Obj(m), ks) == 115 + AckDigits(a) + EscapedLen(a.roomId)
            && (a.keepaliveIntervalSeconds.Some? ==>
                  && keepalive in m
                  && MembersCost(Obj(m), [keepalive] + ks)
                     == 30 + |Decimal(a.keepaliveIntervalSeconds.value)| + MembersCost(Obj(m), ks))
  {
    keepalive, ks := "keepalive_interval_seconds", ACK_KEYS;
    var m := EncodeAttachAck(a).value;
    CodecTheorems.EncodeAckExact(a);
    AckKeysListed(a);
    AckKeysAscend();
    AckKeysCost(m, a);
    if a.keepaliveIntervalSeconds.Some? {
      KeepaliveCost(m, a.keepaliveIntervalSeconds.value, ks);
    }
  }

  /** The exact length of the ack for any room and any policy. */
  lemma AttachAckLen(a: AttachAck)
    requires EncodeAttachAck(a).Ok?
    ensures Utf8.Len(Print(Obj(EncodeAttachAck(a).value))) == AttachAckBytes(a)
  {
    var keepalive, ks := AckObjectCost(a);
    AckObjectLen(EncodeAttachAck(a).value, a, keepalive, ks, 115 + AckDigits(a) + EscapedLen(a.roomId));
  }

  /** A policy may carry a keepalive interval that no ack can state, and the verifier may answer
      with any room. The ack to an accepted attach can be encoded under its own limits exactly
      when the interval is absent or at most 2^31 - 1 and the frame limit holds the ack. */
  lemma AttachAckEncodesExact(rt: Runtime, attach: Attach, policy: AttachPolicy, verify: Verifier)
    requires AcceptAttach(attach, policy, verify).Ok?
    ensures var ack := AcceptAttach(attach, policy, verify).value;
            (EncodeWithinLimits(rt, AttachAckMsg(ack), policy.maxFrameBytes, policy.maxMessageBytes).Ok?
             <==> KeepaliveInRange(policy) && AttachAckBytes(ack) <= policy.maxFrameBytes)
  {
    var ack := AcceptAttach(attach, policy, verify).value;
    AcceptAttachExact(attach, policy, verify, ack);
    CodecTheorems.EncodeAckExact(ack);
    if KeepaliveInRange(policy) {
      AttachAckLen(ack);
    }
  }

  /** For a room named by a UUID, as reference tickets give, 233 bytes always suffice, and some
      ack needs them all. */
  lemma UuidRoomAckBytes(a: AttachAck, room: Uuid)
    requires a.roomId == ToText(room)
    ensures AttachAckBytes(a) <= 233
    ensures AttachAckBytes(AttachAck(ToText(room), U32_MAX, U32_MAX, U31_MAX, U31_MAX, Some(U31_MAX))) == 233
  {
    UuidPlain(room);
    PlainLen(ToText(room));
    U32Digits(a.maxFrameBytes);
    U32Digits(a.maxMessageBytes);
    U32Digits(a.protocolMajor);
    U32Digits(a.serverProtocolMinor);
    if a.keepaliveIntervalSeconds.Some? {
      U32Digits(a.keepaliveIntervalSeconds.value);
    }
    TenDigits(U32_MAX);
    TenDigits(U31_MAX);
  }

  lemma TenDigits(n: u32)
    requires n >= 1_000_000_000
    ensures |Decimal(n)| == 10
  {
    assert Pow10(9) == 1_000_000_000;
    DecimalLength(n, 9);
    U32Digits(n);
  }

  /** The stream is then attached although its ack cannot be sent. */
  lemma UnsendableAckExists(rt: Runtime)
    ensures exists policy: AttachPolicy, attach: Attach, verify: Verifier ::
              && Handle(AwaitingAttach, AttachMsg(attach), policy, verify, map[]).0.Attached?
              && AcceptAttach(attach, policy, verify).Ok?
              && EncodeDefault(rt, AttachAckMsg(AcceptAttach(attach, policy, verify).value)).Err?
  {
    var policy := AttachPolicy(MAX_FRAME_BYTES_ADR_V1, MAX_MESSAGE_BYTES_ADR_V1, Some(0x8000_0000), 1, 0);
    var attach := Attach(1, 0, "");
    var verify: Verifier := _ => Ok("r");
    assert Handle(AwaitingAttach, AttachMsg(attach), policy, verify, map[]).0.Attached?;
    assert EncodeDefault(rt, AttachAckMsg(AcceptAttach(attach, policy, verify).value)).Err?;
  }
}
