/** Routing one decoded client message through the attach session and the publish ledger
    (`handle_client_message` in guyos_core/src/domain/guyos_wire_v1.rs). */
module HubDispatch {
  import opened Prelude
  import opened WireAttach
  import opened WireMessages
  import opened PublishLedger
  import CanonicalSeq
  import Utf8

  datatype Session =
    | AwaitingAttach
    | Attached(roomId: string, maxFrameBytes: u32, maxMessageBytes: u32)

  /** `CounterOverflow` stands for the panic of a full room counter. */
  datatype Outcome =
    | NoReply
    | Reply(msg: Message)
    | PublishHandled(publisherAck: PublishAck, observerChat: Option<ChatMessage>)
    | CounterOverflow

  function WireError(code: string, message: string): Message {
    ErrorMsg(ErrorEnvelope(code, message, None))
  }

  function OutboundMessageTooLarge(bytes: nat, limit: u32): Message {
    WireError("message_too_large",
              "text is " + CanonicalSeq.Decimal(bytes) + " bytes (limit " + CanonicalSeq.Decimal(limit) + ")")
  }

  function DispatchPublish(room: string, publish: Publish, maxMessageBytes: u32, rooms: Rooms): (Outcome, Rooms) {
    if Utf8.Len(publish.text) > maxMessageBytes then
      (Reply(OutboundMessageTooLarge(Utf8.Len(publish.text), maxMessageBytes)), rooms)
    else
      var (rooms', decision) := RoomsStep(rooms, room, publish.clientMessageId);
      match decision
      case None => (CounterOverflow, rooms')
      case Some(FirstAcceptance(n)) =>
        (PublishHandled(PublishAck(n, publish.clientMessageId, None),
                        Some(ChatMessage(n, publish.clientMessageId, publish.text, None, None))), rooms')
      case Some(IdempotentReplay(n)) =>
        (PublishHandled(PublishAck(n, publish.clientMessageId, None), None), rooms')
  }

  /** The whole step on values: the next session, what to send, and the next ledger. */
  function Handle(session: Session, msg: Message, policy: AttachPolicy, verify: Verifier, rooms: Rooms)
    : (Session, Outcome, Rooms)
  {
    match session
    case AwaitingAttach =>
      (match msg
       case DetachMsg => (session, NoReply, rooms)
       case KeepaliveMsg => (session, NoReply, rooms)
       case AttachMsg(attach) =>
         (match AcceptAttach(attach, policy, verify)
          case Ok(ack) =>
            (Attached(ack.roomId, ack.maxFrameBytes, ack.maxMessageBytes), Reply(AttachAckMsg(ack)), rooms)
          case Err(e) =>
            var (code, message) := HandshakePortable(e);
            (session, Reply(WireError(code, message)), rooms))
       case _ => (session, Reply(WireError("attach_required", MSG_ATTACH_REQUIRED)), rooms))
    case Attached(room, _, maxMessageBytes) =>
      (match msg
       case AttachMsg(_) => (session, Reply(WireError("invalid_attach", MSG_DUPLICATE_ATTACH)), rooms)
       case PublishMsg(publish) =>
         var (outcome, rooms') := DispatchPublish(room, publish, maxMessageBytes, rooms);
         (session, outcome, rooms')
       case _ => (session, NoReply, rooms))
  }

  method DispatchPublishForRoom(room: string, publish: Publish, maxMessageBytes: u32, ledger: RoomPublishState)
    returns (outcome: Outcome)
    modifies ledger
    ensures (outcome, ledger.rooms) == DispatchPublish(room, publish, maxMessageBytes, old(ledger.rooms))
  {
    if Utf8.Len(publish.text) > maxMessageBytes {
      return Reply(OutboundMessageTooLarge(Utf8.Len(publish.text), maxMessageBytes));
    }
    var decision := ledger.AcceptOrReplay(room, publish.clientMessageId);
    if decision.None? {
      return CounterOverflow;
    }
    var ack := PublishAck(decision.value.seqNo, publish.clientMessageId, None);
    var chat := None;
    if decision.value.FirstAcceptance? {
      chat := Some(ChatMessage(ack.seqNo, publish.clientMessageId, publish.text, None, None));
    }
    return PublishHandled(ack, chat);
  }

  method HandleClientMessage(session: Session, msg: Message, policy: AttachPolicy, verify: Verifier,
                             ledger: RoomPublishState)
    returns (next: Session, outcome: Outcome)
    modifies ledger
    ensures (next, outcome, ledger.rooms) == Handle(session, msg, policy, verify, old(ledger.rooms))
  {
    next := session;
    match session {
      case AwaitingAttach =>
        match msg {
          case DetachMsg => outcome := NoReply;
          case KeepaliveMsg => outcome := NoReply;
          case AttachMsg(attach) =>
            match AcceptAttach(attach, policy, verify) {
              case Ok(ack) =>
                next := Attached(ack.roomId, ack.maxFrameBytes, ack.maxMessageBytes);
                outcome := Reply(AttachAckMsg(ack));
              case Err(e) =>
                var (code, message) := HandshakePortable(e);
                outcome := Reply(WireError(code, message));
            }
          case _ => outcome := Reply(WireError("attach_required", MSG_ATTACH_REQUIRED));
        }
      case Attached(room, _, maxMessageBytes) =>
        match msg {
          case AttachMsg(_) => outcome := Reply(WireError("invalid_attach", MSG_DUPLICATE_ATTACH));
          case PublishMsg(publish) =>
            outcome := DispatchPublishForRoom(room, publish, maxMessageBytes, ledger);
          case _ => outcome := NoReply;
        }
    }
  }
}
