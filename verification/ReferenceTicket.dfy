/** The reference ticket profile `guyos.reference_v1` (ADR 0004;
    guyos_core/src/domain/reference_ticket_v1.rs). HMAC-SHA256 is a parameter. */
module ReferenceTicket {
  import opened Prelude
  import opened UuidText
  import Base64Url

  const VERSION_V1: byte := 1
  const TICKET_BINARY_LEN := 57

  /** UTF-8 `guyos-ticket-v1`, then NUL. */
  const PREFIX: seq<byte> := [0x67, 0x75, 0x79, 0x6F, 0x73, 0x2D, 0x74, 0x69, 0x63, 0x6B, 0x65, 0x74, 0x2D, 0x76, 0x31, 0x00]

  type Octets32 = octets: seq<byte> | |octets| == 32 witness seq(32, _ => 0)
  type Hmac = (Octets32, seq<byte>) -> Octets32

  datatype TicketError = TicketDecodeFailed | InvalidTicket {
    function PortableCode(): string {
      match this
      case TicketDecodeFailed => "ticket_decode_failed"
      case InvalidTicket => "invalid_ticket"
    }
  }

  /** version || room || expiry: the 25 octets that are signed. */
  function Body(room: Uuid, expires: u64): (body: seq<byte>)
    ensures |body| == 25
  {
    [VERSION_V1] + room + BigEndian(expires, 8)
  }

  /** What the issuer signs and sends for a room and an expiry (0 means no expiry). */
  function TicketText(hmac: Hmac, key: Octets32, room: Uuid, expires: u64): string {
    var body := Body(room, expires);
    Base64Url.Encode(body + hmac(key, PREFIX + body))
  }

  method EncodeReferenceV1(hmac: Hmac, key: Octets32, room: Uuid, expires: u64) returns (ticket: string)
    ensures ticket == TicketText(hmac, key, room, expires)
  {
    var body := new byte[25](_ => 0);
    body[0] := VERSION_V1;
    forall i | 0 <= i < 16 {
      body[1 + i] := room[i];
    }
    var expiry := BigEndian(expires, 8);
    forall i | 0 <= i < 8 {
      body[17 + i] := expiry[i];
    }
    var signed := body[..];
    assert signed == Body(room, expires);
    var signature := hmac(key, PREFIX + signed);
    var binary := new byte[TICKET_BINARY_LEN](_ => 0);
    forall i | 0 <= i < 25 {
      binary[i] := body[i];
    }
    forall i | 0 <= i < 32 {
      binary[25 + i] := signature[i];
    }
    assert binary[..] == signed + signature;
    ticket := Base64Url.Encode(binary[..]);
  }

  method PadStrictScan(ticket: string) returns (r: Result<(), TicketError>)
    ensures r == if Base64Url.AllSymbols(ticket) then Ok(()) else Err(TicketDecodeFailed)
  {
    for i := 0 to |ticket|
      invariant Base64Url.AllSymbols(ticket[..i])
    {
      if !Base64Url.IsSymbol(ticket[i]) {
        return Err(TicketDecodeFailed);
      }
    }
    assert ticket[..|ticket|] == ticket;
    return Ok(());
  }

  /** The hub's ordered checklist. */
  function DecodeReferenceV1(hmac: Hmac, ticket: string, key: Octets32, now: u64): Result<string, TicketError> {
    if !Base64Url.AllSymbols(ticket) then Err(TicketDecodeFailed)
    else
      match Base64Url.Decode(ticket)
      case None => Err(TicketDecodeFailed)
      case Some(binary) =>
        if |binary| != TICKET_BINARY_LEN then Err(TicketDecodeFailed)
        else if binary[0] != VERSION_V1 then Err(TicketDecodeFailed)
        else
          var body, signature := binary[..25], binary[25..];
          if signature != hmac(key, PREFIX + body) then Err(InvalidTicket)
          else
            var expires := FromBigEndian(body[17..25]);
            if expires != 0 && now > expires then Err(InvalidTicket)
            else Ok(ToText(body[1..17]))
  }

  predicate Unexpired(expires: u64, now: u64) {
    expires == 0 || now <= expires
  }

  lemma BodyFields(body: seq<byte>)
    requires |body| == 25 && body[0] == VERSION_V1
    ensures FromBigEndian(body[17..25]) <= U64_MAX
    ensures body == Body(body[1..17], FromBigEndian(body[17..25]))
  {
    FromBigEndianRoundTrip(body[17..25]);
    Pow256Values();
    assert body == [body[0]] + body[1..17] + body[17..25];
  }

  lemma BodyInjective(room: Uuid, expires: u64)
    ensures var body := Body(room, expires); body[1..17] == room && FromBigEndian(body[17..25]) == expires
  {
    Pow256Values();
    BigEndianRoundTrip(expires, 8);
    assert Body(room, expires)[17..25] == BigEndian(expires, 8);
  }

  lemma LayoutFields(version: byte, room: Uuid, expiry: seq<byte>, signature: Octets32)
    requires |expiry| == 8
    ensures var body := [version] + room + expiry;
            var t := body + signature;
            && |t| == TICKET_BINARY_LEN && t[0] == version && t[1..17] == room && t[17..25] == expiry
            && t[..25] == body && t[25..] == signature
  {
  }

  /** ADR 0004's layout: version, room, big-endian expiry, then the HMAC of the domain prefix and
      those 25 octets. */
  lemma TicketLayout(hmac: Hmac, key: Octets32, room: Uuid, expires: u64)
    ensures var t := Base64Url.Decode(TicketText(hmac, key, room, expires));
            && t.Some? && |t.value| == TICKET_BINARY_LEN && t.value[0] == 1
            && t.value[1..17] == room && t.value[17..25] == BigEndian(expires, 8)
            && t.value[25..] == hmac(key, PREFIX + t.value[..25])
  {
    var body := Body(room, expires);
    Base64Url.DecodeOfEncode(body + hmac(key, PREFIX + body));
    LayoutFields(VERSION_V1, room, BigEndian(expires, 8), hmac(key, PREFIX + body));
  }

  /** The domain prefix is the text it is documented to be. */
  lemma PrefixIsText()
    ensures |PREFIX| == 16 && PREFIX[15] == 0
    ensures forall i | 0 <= i < 15 :: PREFIX[i] == "guyos-ticket-v1"[i] as int
  {
  }

  /** An unexpired ticket the issuer made for a room decodes to that room. */
  lemma IssuedIsAccepted(hmac: Hmac, key: Octets32, room: Uuid, expires: u64, now: u64)
    ensures var r := DecodeReferenceV1(hmac, TicketText(hmac, key, room, expires), key, now);
            r == if Unexpired(expires, now) then Ok(ToText(room)) else Err(InvalidTicket)
  {
    var body := Body(room, expires);
    var signature := hmac(key, PREFIX + body);
    Base64Url.DecodeOfEncode(body + signature);
    assert (body + signature)[..25] == body && (body + signature)[25..] == signature;
    BodyInjective(room, expires);
  }

  /** Acceptance: the hub accepts exactly the strings the issuer makes for some room and an
      expiry not yet past, and answers with that room's canonical text. */
  lemma AcceptanceExact(hmac: Hmac, ticket: string, key: Octets32, now: u64, answer: string)
    ensures DecodeReferenceV1(hmac, ticket, key, now) == Ok(answer)
       <==> exists room: Uuid, expires: u64 ::
              && ticket == TicketText(hmac, key, room, expires)
              && answer == ToText(room) && Unexpired(expires, now)
  {
    if DecodeReferenceV1(hmac, ticket, key, now) == Ok(answer) {
      var binary := Base64Url.Decode(ticket).value;
      Base64Url.EncodeOfDecode(ticket);
      var body := binary[..25];
      BodyFields(body);
      var room, expires := body[1..17], FromBigEndian(body[17..25]);
      assert binary == body + binary[25..];
      assert ticket == TicketText(hmac, key, room, expires);
    }
    forall room: Uuid, expires: u64 | ticket == TicketText(hmac, key, room, expires) && Unexpired(expires, now)
      ensures DecodeReferenceV1(hmac, ticket, key, now) == Ok(ToText(room))
    {
      IssuedIsAccepted(hmac, key, room, expires, now);
    }
  }

  /** A text with the ticket layout: base64url of 57 octets that start with the version. */
  ghost predicate HasLayout(ticket: string) {
    exists binary: seq<byte> :: ticket == Base64Url.Encode(binary) && |binary| == TICKET_BINARY_LEN && binary[0] == VERSION_V1
  }

  /** The error codes: `ticket_decode_failed` exactly when the layout is wrong, `invalid_ticket`
      exactly when a ticket with the layout is not accepted. */
  lemma RejectionExact(hmac: Hmac, ticket: string, key: Octets32, now: u64)
    ensures DecodeReferenceV1(hmac, ticket, key, now) == Err(TicketDecodeFailed) <==> !HasLayout(ticket)
  {
    if HasLayout(ticket) {
      var binary: seq<byte> :| ticket == Base64Url.Encode(binary) && |binary| == TICKET_BINARY_LEN && binary[0] == VERSION_V1;
      Base64Url.DecodeOfEncode(binary);
    }
    if Base64Url.Decode(ticket).Some? {
      Base64Url.EncodeOfDecode(ticket);
    }
  }

  /** Under one key, a ticket determines the room and the expiry it was issued for. */
  lemma TicketTextInjective(hmac: Hmac, key: Octets32, room: Uuid, expires: u64, room': Uuid, expires': u64)
    requires TicketText(hmac, key, room, expires) == TicketText(hmac, key, room', expires')
    ensures room == room' && expires == expires'
  {
    var body, body' := Body(room, expires), Body(room', expires');
    var binary, binary' := body + hmac(key, PREFIX + body), body' + hmac(key, PREFIX + body');
    Base64Url.DecodeOfEncode(binary);
    Base64Url.DecodeOfEncode(binary');
    assert binary[..25] == body && binary'[..25] == body';
    BodyInjective(room, expires);
    BodyInjective(room', expires');
  }
}
