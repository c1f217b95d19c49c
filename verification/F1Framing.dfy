/** F1 framing: a u32 big-endian payload length, then that many bytes of UTF-8
    (guyos_core/src/ports/outbound/f1_framing.rs). */
module F1Framing {
  import opened Prelude
  import Utf8

  /** The default `max_frame_bytes` of ADR 0003. */
  const MAX_FRAME_BYTES_ADR_V1: u32 := 1_048_576

  datatype SessionError =
    | FrameTooLarge(declared: u32, limit: u32)
    | UnexpectedEof
    | InvalidUtf8
    | Io

  type FrameResult = Result<Option<string>, SessionError>

  /** One unit of the wire grammar: the length prefix of `payload`, then `payload`. */
  function Unit(payload: seq<byte>): (bytes: seq<byte>)
    ensures |bytes| == 4 + |payload|
  {
    BigEndian(|payload|, 4) + payload
  }

  method EncodeApplicationFrame(body: string, maxFrameBytes: u32) returns (r: Result<seq<byte>, SessionError>)
    ensures Utf8.Len(body) <= maxFrameBytes ==> r == Ok(Unit(Utf8.Encode(body)))
    ensures maxFrameBytes < Utf8.Len(body) <= U32_MAX ==> r == Err(FrameTooLarge(Utf8.Len(body), maxFrameBytes))
    ensures Utf8.Len(body) > U32_MAX ==> r == Err(FrameTooLarge(U32_MAX, maxFrameBytes))
  {
    var bytes := Utf8.Encode(body);
    if |bytes| > U32_MAX {
      return Err(FrameTooLarge(U32_MAX, maxFrameBytes));
    }
    if |bytes| > maxFrameBytes {
      return Err(FrameTooLarge(|bytes|, maxFrameBytes));
    }
    var out: seq<byte> := [];
    out := out + BigEndian(|bytes|, 4);
    out := out + bytes;
    assert out == Unit(bytes);
    return Ok(out);
  }

  /** What one call of `pop_complete_frame` returns and leaves in the buffer. */
  function PopFrame(buf: seq<byte>, limit: u32): (FrameResult, seq<byte>) {
    if |buf| < 4 then (Ok(None), buf)
    else
      var declared := FromBigEndian(buf[..4]);
      Declared4(buf);
      if declared > limit then (Err(FrameTooLarge(declared, limit)), buf)
      else if |buf| < 4 + declared then (Ok(None), buf)
      else
        var rest := buf[4 + declared..];
        match Utf8.Decode(buf[4..4 + declared])
        case None => (Err(InvalidUtf8), rest)
        case Some(s) => (Ok(Some(s)), rest)
  }

  lemma Declared4(buf: seq<byte>)
    requires |buf| >= 4
    ensures FromBigEndian(buf[..4]) <= U32_MAX
    ensures BigEndian(FromBigEndian(buf[..4]), 4) == buf[..4]
  {
    FromBigEndianRoundTrip(buf[..4]);
    Pow256Values();
  }

  class F1FrameDecoder {
    const maxFrameBytes: u32
    var buf: seq<byte>

    constructor (maxFrameBytes: u32)
      ensures this.maxFrameBytes == maxFrameBytes && buf == []
    {
      this.maxFrameBytes := maxFrameBytes;
      buf := [];
    }

    method Feed(chunk: seq<byte>)
      modifies this
      ensures buf == old(buf) + chunk
    {
      buf := buf + chunk;
    }

    method PopCompleteFrame() returns (r: FrameResult)
      modifies this
      ensures (r, buf) == PopFrame(old(buf), maxFrameBytes)
    {
      if |buf| < 4 {
        return Ok(None);
      }
      Declared4(buf);
      var declared: u32 := FromBigEndian(buf[..4]);
      if declared > maxFrameBytes {
        return Err(FrameTooLarge(declared, maxFrameBytes));
      }
      var frameLen := 4 + declared;
      if |buf| < frameLen {
        return Ok(None);
      }
      var payload := buf[4..frameLen];
      buf := buf[frameLen..];
      var text := Utf8.Decode(payload);
      r := if text.None? then Err(InvalidUtf8) else Ok(text);
    }

    method HasBufferedData() returns (r: bool)
      ensures r <==> buf != []
    {
      r := |buf| > 0;
    }
  }

  /** A unit in front of the buffer is recognised as itself, whatever follows it. */
  lemma PrefixOfUnit(payload: seq<byte>, rest: seq<byte>)
    requires |payload| <= U32_MAX
    ensures var buf := Unit(payload) + rest;
            && FromBigEndian(buf[..4]) == |payload|
            && buf[4..4 + |payload|] == payload
            && buf[4 + |payload|..] == rest
  {
    Pow256Values();
    BigEndianRoundTrip(|payload|, 4);
    var buf := Unit(payload) + rest;
    assert buf[..4] == BigEndian(|payload|, 4);
  }

  /** Conversely a buffer whose prefix is covered splits into a unit and the remainder. */
  lemma SplitUnit(buf: seq<byte>)
    requires |buf| >= 4 && |buf| >= 4 + FromBigEndian(buf[..4])
    ensures var n := FromBigEndian(buf[..4]); buf == Unit(buf[4..4 + n]) + buf[4 + n..]
  {
    Declared4(buf);
  }

  /** A pop returns a frame exactly when the buffer starts with the unit of that frame's
      UTF-8 within the limit, and it removes that unit and nothing else. */
  lemma PopFrameExact(buf: seq<byte>, limit: u32, s: string, rest: seq<byte>)
    ensures PopFrame(buf, limit) == (Ok(Some(s)), rest)
       <==> Utf8.Len(s) <= limit && buf == Unit(Utf8.Encode(s)) + rest
  {
    if Utf8.Len(s) <= limit && buf == Unit(Utf8.Encode(s)) + rest {
      PrefixOfUnit(Utf8.Encode(s), rest);
      Utf8.DecodeOfEncode(s);
    }
    if PopFrame(buf, limit) == (Ok(Some(s)), rest) {
      SplitUnit(buf);
      Utf8.EncodeOfDecode(buf[4..4 + FromBigEndian(buf[..4])]);
    }
  }
}
