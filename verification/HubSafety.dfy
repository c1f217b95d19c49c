/** Attach safety over whole runs, and the closed set of error codes. */
module HubSafety {
  import opened Prelude
  import opened UuidText
  import opened WireAttach
  import opened WireMessages
  import opened PublishLedger
  import opened HubDispatch
  import opened HubRuns
  import opened HubIsolation
  import opened ReferenceTicket
  import CodecTheorems

  predicate IsAttachAck(outcome: Outcome) {
    outcome.Reply? && outcome.msg.AttachAckMsg?
  }

  /** An ack is sent exactly when the session leaves the awaiting state, and states the session. */
  lemma AckIsTheTransition(hub: Hub, e: Event)
    ensures var (hub', outcome) := Step(hub, e);
            var before, after := SessionOf(hub, e.conn), SessionOf(hub', e.conn);
            && (IsAttachAck(outcome) <==> before.AwaitingAttach? && after.Attached?)
            && (IsAttachAck(outcome) ==>
                  && e.msg.AttachMsg?
                  && AcceptAttach(e.msg.attach, e.policy, e.verify) == Ok(outcome.msg.attachAck)
                  && var ack := outcome.msg.attachAck;
                  after == Attached(ack.roomId, ack.maxFrameBytes, ack.maxMessageBytes))
            && (!IsAttachAck(outcome) ==> after == before)
  {
  }

  /** At most one `attach_ack` is ever sent on a stream. */
  lemma AckAtMostOnce(events: seq<Event>, j: nat, k: nat)
    requires j < k < |events| && events[j].conn == events[k].conn
    ensures !(IsAttachAck(OutcomeAt(events, j)) && IsAttachAck(OutcomeAt(events, k)))
  {
    if IsAttachAck(OutcomeAt(events, j)) && IsAttachAck(OutcomeAt(events, k)) {
      AckIsTheTransition(HubAfter(events[..j]), events[j]);
      AckIsTheTransition(HubAfter(events[..k]), events[k]);
      var first := events[..j + 1];
      assert first[..|first| - 1] == events[..j];
      assert events[..k][..j + 1] == first;
      AttachedForGood(events[..k], j + 1, events[k].conn);
    }
  }

  /** The event at `j` attached `conn` and its ack stated exactly this session. */
  ghost predicate AckedSession(events: seq<Event>, j: nat, conn: Conn, session: Session) {
    && j < |events| && events[j].conn == conn && session.Attached?
    && IsAttachAck(OutcomeAt(events, j))
    && var ack := OutcomeAt(events, j).msg.attachAck;
    session == Attached(ack.roomId, ack.maxFrameBytes, ack.maxMessageBytes)
  }

  /** Every attached session of a reachable state is the one some ack on its stream stated. */
  lemma {:induction false} AttachedWasAcked(events: seq<Event>, conn: Conn)
    requires SessionOf(HubAfter(events), conn).Attached?
    ensures exists j: nat :: AckedSession(events, j, conn, SessionOf(HubAfter(events), conn))
  {
    if events != [] {
      var init, last := events[..|events| - 1], events[|events| - 1];
      var session := SessionOf(HubAfter(events), conn);
      AckIsTheTransition(HubAfter(init), last);
      StepSessions(HubAfter(init), last, conn);
      if SessionOf(HubAfter(init), conn) == session {
        AttachedWasAcked(init, conn);
        var j: nat :| AckedSession(init, j, conn, session);
        assert init[..j] == events[..j];
        assert AckedSession(events, j, conn, session);
      } else {
        assert events[..|init|] == init;
        assert AckedSession(events, |init|, conn, session);
      }
    }
  }

  /** No publish is handled on a stream before that stream's ack, and it goes to the acked room
      within the acked text limit. */
  lemma HandledAfterAck(events: seq<Event>, k: nat)
    requires k < |events| && OutcomeAt(events, k).PublishHandled?
    ensures exists j: nat :: j < k && AckedSession(events, j, events[k].conn, SessionOf(HubAfter(events[..k]), events[k].conn))
  {
    var session := SessionOf(HubAfter(events[..k]), events[k].conn);
    StepLedger(HubAfter(events[..k]), events[k]);
    AttachedWasAcked(events[..k], events[k].conn);
    var j: nat :| AckedSession(events[..k], j, events[k].conn, session);
    assert events[..k][..j] == events[..j];
    assert AckedSession(events, j, events[k].conn, session);
  }

  // ---- With reference tickets ----------------------------------------------------------------

  /** Every event is verified against reference tickets under one key, at its own time. */
  ghost predicate Ticketed(events: seq<Event>, hmac: Hmac, key: Octets32, now: nat -> u64) {
    forall j, ticket | 0 <= j < |events| ::
      events[j].verify(ticket) == DecodeReferenceV1(hmac, ticket, key, now(j))
  }

  /** A ticket the issuer made for this room was presented at `j`, unexpired at that time. */
  ghost predicate PresentedTicket(events: seq<Event>, j: nat, conn: Conn, hmac: Hmac, key: Octets32, now: nat -> u64, roomId: string) {
    && j < |events| && events[j].conn == conn && events[j].msg.AttachMsg?
    && exists room: Uuid, expires: u64 ::
         && events[j].msg.attach.ticket == TicketText(hmac, key, room, expires)
         && roomId == ToText(room) && Unexpired(expires, now(j))
  }

  /** Rooms are ticketed: a connection is attached to a room only if it presented the issuer's
      ticket for that very room, unexpired when presented. */
  lemma RoomsAreTicketed(events: seq<Event>, conn: Conn, hmac: Hmac, key: Octets32, now: nat -> u64)
    requires Ticketed(events, hmac, key, now)
    requires SessionOf(HubAfter(events), conn).Attached?
    ensures exists j: nat :: PresentedTicket(events, j, conn, hmac, key, now, SessionOf(HubAfter(events), conn).roomId)
  {
    AttachedWasAcked(events, conn);
    var session := SessionOf(HubAfter(events), conn);
    var j: nat :| AckedSession(events, j, conn, session);
    AckIsTheTransition(HubAfter(events[..j]), events[j]);
    var ticket := events[j].msg.attach.ticket;
    assert events[j].verify(ticket) == Ok(session.roomId);
    AcceptanceExact(hmac, ticket, key, now(j), session.roomId);
    assert PresentedTicket(events, j, conn, hmac, key, now, session.roomId);
  }

  // ---- Error codes ---------------------------------------------------------------------------

  /** The closed v1 table of Appendix A. */
  const V1_CODES: set<string> :=
    {"protocol_major_unsupported", "invalid_attach", "ticket_decode_failed", "invalid_ticket", "frame_too_large",
     "message_too_large", "malformed_json", "unknown_message_type", "attach_required", "invalid_client_message_id"}

  // In pieces, like the long texts of `WireAttach`.
  const MSG_MALFORMED_JSON := "Bytes are not valid UTF-8 " + "or do not parse as a JSON " + "object for this protocol."
  const MSG_MISSING_TYPE := "Missing or " + "invalid `type` field."
  const MSG_BODY_TOO_LARGE := "Internal encode error:" + " JSON body exceeds " + "max_frame_bytes."

  /** The reply to a body that did not decode (`outbound_error_from_message_error`). */
  function OutboundErrorFromMessageError(rt: Runtime, e: MessageError): Message {
    match e
    case MalformedJson =>
      WireError("malformed_json", MSG_MALFORMED_JSON)
    case UnknownMessageType(t) =>
      WireError("unknown_message_type",
                match t
                case Some(name) => "Unknown message type " + rt.debug(name) + "."
                case None => MSG_MISSING_TYPE)
    case InvalidAttachPayload => WireError("invalid_attach", MSG_INVALID_ATTACH)
    case MessageTooLarge(bytes, limit) => OutboundMessageTooLarge(bytes, limit)
    case InvalidClientMessageId(raw) =>
      WireError("invalid_client_message_id", "client_message_id " + rt.debug(raw) + " is not a canonical UUID string.")
    case JsonBodyTooLarge(_, _) =>
      WireError("malformed_json", MSG_BODY_TOO_LARGE)
  }

  /** One inbound body: decode it, then dispatch it or answer its decode error. */
  function Receive(rt: Runtime, hub: Hub, conn: Conn, body: string, policy: AttachPolicy, verify: Verifier): (Hub, Outcome) {
    match Decode(rt, body)
    case Err(e) => (hub, Reply(OutboundErrorFromMessageError(rt, e)))
    case Ok(msg) => Step(hub, Event(conn, msg, policy, verify))
  }

  /** The code answering a failed attach names the first check that fails. */
  lemma AttachFailureCode(hub: Hub, e: Event)
    requires e.msg.AttachMsg? && !IsAttachAck(Step(hub, e).1)
    ensures var attach, outcome := e.msg.attach, Step(hub, e).1;
            && outcome.Reply? && outcome.msg.ErrorMsg?
            && outcome.msg.envelope.code ==
                 if SessionOf(hub, e.conn).Attached? || attach.protocolMajor > U31_MAX || attach.protocolMinor > U31_MAX
                 then "invalid_attach"
                 else if attach.protocolMajor != e.policy.supportedMajor then "protocol_major_unsupported"
                 else if e.verify(attach.ticket) == Err(TicketDecodeFailed) then "ticket_decode_failed"
                 else "invalid_ticket"
  {
  }

  /** Which messages get no answer, and which get `attach_required`: before the attach only
      `detach` and `keepalive` are silent and only an attach is looked at; after it everything but
      attaches and publishes is silently ignored. Silence and errors leave the hub as it was. */
  lemma SilenceExact(hub: Hub, e: Event)
    ensures var (hub', outcome) := Step(hub, e);
            var attached := SessionOf(hub, e.conn).Attached?;
            && (outcome.NoReply? <==>
                  if attached then !e.msg.AttachMsg? && !e.msg.PublishMsg? else e.msg.DetachMsg? || e.msg.KeepaliveMsg?)
            && (outcome.Reply? && outcome.msg.ErrorMsg? && outcome.msg.envelope.code == "attach_required" <==>
                  !attached && !e.msg.AttachMsg? && !e.msg.DetachMsg? && !e.msg.KeepaliveMsg?)
            && (outcome.NoReply? || (outcome.Reply? && outcome.msg.ErrorMsg?) ==> hub' == hub)
  {
    if e.msg.AttachMsg? {
      var r := AcceptAttach(e.msg.attach, e.policy, e.verify);
      if r.Err? {
        HandshakeCodesClosed(r.error);
      }
    }
  }

  lemma HandshakeCodesClosed(e: HandshakeError)
    ensures HandshakePortable(e).0 in V1_CODES
  {
  }

  /** The code of the reply to each kind of decode error. */
  function ReplyCode(e: MessageError): string {
    match e
    case MalformedJson => "malformed_json"
    case UnknownMessageType(_) => "unknown_message_type"
    case InvalidAttachPayload => "invalid_attach"
    case MessageTooLarge(_, _) => "message_too_large"
    case JsonBodyTooLarge(_, _) => "malformed_json"
    case InvalidClientMessageId(_) => "invalid_client_message_id"
  }

  lemma ReplyStatesCode(rt: Runtime, e: MessageError)
    ensures var msg := OutboundErrorFromMessageError(rt, e);
            msg.ErrorMsg? && msg.envelope.code == ReplyCode(e) && msg.envelope.details == None
  {
  }

  lemma DecodeErrorCodesClosed(rt: Runtime, e: MessageError)
    ensures var msg := OutboundErrorFromMessageError(rt, e);
            msg.ErrorMsg? && msg.envelope.code in V1_CODES && msg.envelope.details == None
  {
    ReplyStatesCode(rt, e);
  }

  lemma StepErrorCodesClosed(hub: Hub, e: Event)
    ensures var outcome := Step(hub, e).1;
            && (outcome.Reply? ==> outcome.msg.ErrorMsg? || outcome.msg.AttachAckMsg?)
            && (outcome.Reply? && outcome.msg.ErrorMsg? ==>
                  outcome.msg.envelope.code in V1_CODES && outcome.msg.envelope.details == None)
  {
    if e.msg.AttachMsg? {
      var r := AcceptAttach(e.msg.attach, e.policy, e.verify);
      if r.Err? {
        HandshakeCodesClosed(r.error);
      }
    }
  }

  /** The reply to an object that states no message says which rule it breaks. */
  lemma UndecodableReplyCode(rt: Runtime, hub: Hub, conn: Conn, body: string, policy: AttachPolicy, verify: Verifier)
    requires Inverts(rt) && Decode(rt, body).Err?
    ensures var outcome, doc := Receive(rt, hub, conn, body, policy, verify).1, rt.parseJson(body);
            && outcome.Reply? && outcome.msg.ErrorMsg?
            && outcome.msg.envelope.code ==
                 if doc.None? || !doc.value.Obj? then "malformed_json"
                 else
                   var m := doc.value.members;
                   if "type" !in m then "unknown_message_type"
                   else if !m["type"].Str? then "malformed_json"
                   else if KindOfType(m["type"].s).None? then "unknown_message_type"
                   else if m["type"].s == "attach" then "invalid_attach"
                   else if CodecTheorems.NamesNoUuid(m, KindOfType(m["type"].s).value) then "invalid_client_message_id"
                   else "malformed_json"
  {
    ReplyStatesCode(rt, Decode(rt, body).error);
    var doc := rt.parseJson(body);
    if doc.Some? && doc.value.Obj? {
      CodecTheorems.UndecodedCarriesNothing(rt, doc.value.members);
      CodecTheorems.DecodeErrorExact(rt, doc.value.members);
    }
  }

  /** Closed error set: whatever the body, the state and the policy, an error sent in answer to it
      has a code of the v1 table and no details, and a body that does not decode changes nothing. */
  lemma ErrorCodesClosed(rt: Runtime, hub: Hub, conn: Conn, body: string, policy: AttachPolicy, verify: Verifier)
    ensures var (hub', outcome) := Receive(rt, hub, conn, body, policy, verify);
            && (outcome.Reply? && outcome.msg.ErrorMsg? ==>
                  outcome.msg.envelope.code in V1_CODES && outcome.msg.envelope.details == None)
            && (outcome.Reply? ==> outcome.msg.ErrorMsg? || outcome.msg.AttachAckMsg?)
            && (Decode(rt, body).Err? ==> hub' == hub)
  {
    match Decode(rt, body)
    case Err(e) => DecodeErrorCodesClosed(rt, e);
    case Ok(msg) => StepErrorCodesClosed(hub, Event(conn, msg, policy, verify));
  }
}
