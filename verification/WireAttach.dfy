/** Attach negotiation: payloads, hub policy, preamble checks and the handshake
    (guyos_core/src/domain/guyos_wire_attach.rs). */
module WireAttach {
  import opened Prelude
  import opened Json
  import opened ReferenceTicket

  datatype Attach = Attach(protocolMajor: u32, protocolMinor: u32, ticket: string)

  datatype AttachAck = AttachAck(
    roomId: string,
    maxFrameBytes: u32,
    maxMessageBytes: u32,
    protocolMajor: u32,
    serverProtocolMinor: u32,
    keepaliveIntervalSeconds: Option<u32>)

  datatype AttachPolicy = AttachPolicy(
    maxFrameBytes: u32,
    maxMessageBytes: u32,
    keepaliveIntervalSeconds: Option<u32>,
    supportedMajor: u32,
    hubMinorCeiling: u32)
  {
    function HubProtocolMinorCeiling(major: u32): Option<u32> {
      if major == supportedMajor then Some(hubMinorCeiling) else None
    }
  }

  predicate PreambleOk(attach: Attach) {
    attach.protocolMajor <= U31_MAX && attach.protocolMinor <= U31_MAX
  }

  function RequireAttachU31(members: map<string, Value>, key: string): Result<u32, ()> {
    if key in members && members[key].Num? && members[key].number.PosInt? && members[key].number.n <= U31_MAX
    then Ok(members[key].number.n)
    else Err(())
  }

  function RequireAttachString(members: map<string, Value>, key: string): Result<string, ()> {
    if key in members && members[key].Str? then Ok(members[key].s) else Err(())
  }

  function AttachFromDecodedMap(members: map<string, Value>): Result<Attach, ()> {
    var major :- RequireAttachU31(members, "protocol_major");
    var minor :- RequireAttachU31(members, "protocol_minor");
    var ticket :- RequireAttachString(members, "ticket");
    var attach := Attach(major, minor, ticket);
    if PreambleOk(attach) then Ok(attach) else Err(())
  }

  datatype HandshakeError = InvalidAttach | ProtocolMajorUnsupported | Ticket(error: TicketError)

  /** Ticket verification, injected at the hub boundary. */
  type Verifier = string -> Result<string, TicketError>

  /** Preamble, then major policy, then ticket. */
  function AcceptAttach(attach: Attach, policy: AttachPolicy, verify: Verifier): Result<AttachAck, HandshakeError> {
    if !PreambleOk(attach) then Err(InvalidAttach)
    else
      match policy.HubProtocolMinorCeiling(attach.protocolMajor)
      case None => Err(ProtocolMajorUnsupported)
      case Some(ceiling) =>
        match verify(attach.ticket)
        case Err(e) => Err(Ticket(e))
        case Ok(roomId) =>
          var minor := if attach.protocolMinor <= ceiling then attach.protocolMinor else ceiling;
          Ok(AttachAck(roomId, policy.maxFrameBytes, policy.maxMessageBytes, attach.protocolMajor, minor,
                       policy.keepaliveIntervalSeconds))
  }

  // Long texts are written in pieces, which keeps the proofs of their lengths short.
  const MSG_INVALID_ATTACH := "Attach payload failed " + "semantic validation."
  const MSG_MAJOR_UNSUPPORTED := "Protocol major is not " + "supported by this hub."
  const MSG_DUPLICATE_ATTACH := "A second attach is not " + "allowed after attach_ack " + "on this stream."
  const MSG_TICKET_DECODE_FAILED := "Ticket could not be decoded."
  const MSG_INVALID_TICKET := "Ticket validation failed."
  const MSG_ATTACH_REQUIRED := "A successful attach is " + "required before this message."

  /** The portable code and the stable message of a handshake failure. */
  function HandshakePortable(e: HandshakeError): (string, string) {
    match e
    case InvalidAttach => ("invalid_attach", MSG_INVALID_ATTACH)
    case ProtocolMajorUnsupported => ("protocol_major_unsupported", MSG_MAJOR_UNSUPPORTED)
    case Ticket(t) =>
      (t.PortableCode(), if t.TicketDecodeFailed? then MSG_TICKET_DECODE_FAILED else MSG_INVALID_TICKET)
  }

  /** Negotiation: an ack is built exactly for an attach within u31, on the supported major, with
      an accepted ticket; it echoes the major and the policy's limits, and its minor is the
      largest both sides implement. */
  lemma AcceptAttachExact(attach: Attach, policy: AttachPolicy, verify: Verifier, ack: AttachAck)
    ensures AcceptAttach(attach, policy, verify) == Ok(ack) <==>
              && attach.protocolMajor == policy.supportedMajor <= U31_MAX
              && attach.protocolMinor <= U31_MAX
              && verify(attach.ticket) == Ok(ack.roomId)
              && ack.protocolMajor == attach.protocolMajor
              && ack.serverProtocolMinor <= attach.protocolMinor
              && ack.serverProtocolMinor <= policy.hubMinorCeiling
              && ack.serverProtocolMinor in {attach.protocolMinor, policy.hubMinorCeiling}
              && ack.maxFrameBytes == policy.maxFrameBytes
              && ack.maxMessageBytes == policy.maxMessageBytes
              && ack.keepaliveIntervalSeconds == policy.keepaliveIntervalSeconds
  {
  }

  /** The ordered checks: no ticket verdict can change the answer to an attach that fails before it. */
  lemma VerifierIrrelevantBeforeTicket(attach: Attach, policy: AttachPolicy, verify: Verifier, verify': Verifier)
    requires !PreambleOk(attach) || attach.protocolMajor != policy.supportedMajor
    ensures AcceptAttach(attach, policy, verify) == AcceptAttach(attach, policy, verify')
    ensures AcceptAttach(attach, policy, verify) in {Err(InvalidAttach), Err(ProtocolMajorUnsupported)}
  {
  }
}
