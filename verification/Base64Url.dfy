/** Base64url without padding (section 5 of RFC 4648), rejecting nonzero trailing bits as the
    `BASE64URL_NOPAD` codec does. */
module Base64Url {
  import opened Prelude

  function Symbol(d: nat): char
    requires d < 64
  {
    if d < 26 then ('A' as int + d) as char
    else if d < 52 then ('a' as int + (d - 26)) as char
    else if d < 62 then ('0' as int + (d - 52)) as char
    else if d == 62 then '-'
    else '_'
  }

  predicate IsSymbol(c: char) {
    'A' <= c <= 'Z' || 'a' <= c <= 'z' || '0' <= c <= '9' || c == '-' || c == '_'
  }

  function Sextet(c: char): (d: nat)
    requires IsSymbol(c)
    ensures d < 64 && Symbol(d) == c
  {
    if 'A' <= c <= 'Z' then c as int - 'A' as int
    else if 'a' <= c <= 'z' then c as int - 'a' as int + 26
    else if '0' <= c <= '9' then c as int - '0' as int + 52
    else if c == '-' then 62
    else 63
  }

  predicate AllSymbols(text: string) {
    forall i | 0 <= i < |text| :: IsSymbol(text[i])
  }

  // Three octets as four sextets, and back.

  function Sextet1(b0: byte, b1: byte): (d: nat)
    ensures d < 64
  {
    b0 % 4 * 16 + b1 / 16
  }

  function Sextet2(b1: byte, b2: byte): (d: nat)
    ensures d < 64
  {
    b1 % 16 * 4 + b2 / 64
  }

  function Octet0(s0: nat, s1: nat): byte
    requires s0 < 64 && s1 < 64
  {
    s0 * 4 + s1 / 16
  }

  function Octet1(s1: nat, s2: nat): byte
    requires s1 < 64 && s2 < 64
  {
    s1 % 16 * 16 + s2 / 4
  }

  function Octet2(s2: nat, s3: nat): byte
    requires s2 < 64 && s3 < 64
  {
    s2 % 4 * 64 + s3
  }

  lemma Pack4(q: nat, r: nat)
    requires r < 4
    ensures (q * 4 + r) / 4 == q && (q * 4 + r) % 4 == r
  {
  }

  lemma Pack16(q: nat, r: nat)
    requires r < 16
    ensures (q * 16 + r) / 16 == q && (q * 16 + r) % 16 == r
  {
  }

  lemma Pack64(q: nat, r: nat)
    requires r < 64
    ensures (q * 64 + r) / 64 == q && (q * 64 + r) % 64 == r
  {
  }

  lemma Sextet1Parts(b0: byte, b1: byte)
    ensures Sextet1(b0, b1) / 16 == b0 % 4 && Sextet1(b0, b1) % 16 == b1 / 16
  {
    Pack16(b0 % 4, b1 / 16);
  }

  lemma Sextet2Parts(b1: byte, b2: byte)
    ensures Sextet2(b1, b2) / 4 == b1 % 16 && Sextet2(b1, b2) % 4 == b2 / 64
  {
    Pack4(b1 % 16, b2 / 64);
  }

  lemma OctetsOfSextets(b0: byte, b1: byte, b2: byte)
    ensures Octet0(b0 / 4, Sextet1(b0, b1)) == b0
    ensures Octet1(Sextet1(b0, b1), Sextet2(b1, b2)) == b1
    ensures Octet2(Sextet2(b1, b2), b2 % 64) == b2
    ensures Sextet1(b0, 0) % 16 == 0 && Sextet2(b1, 0) % 4 == 0
  {
    Sextet1Parts(b0, b1);
    Sextet1Parts(b0, 0);
    Sextet2Parts(b1, b2);
    Sextet2Parts(b1, 0);
  }

  lemma SextetsOfOctets(s0: nat, s1: nat, s2: nat, s3: nat)
    requires s0 < 64 && s1 < 64 && s2 < 64 && s3 < 64
    ensures Octet0(s0, s1) / 4 == s0
    ensures Sextet1(Octet0(s0, s1), Octet1(s1, s2)) == s1
    ensures Sextet2(Octet1(s1, s2), Octet2(s2, s3)) == s2
    ensures Octet2(s2, s3) % 64 == s3
    ensures s1 % 16 == 0 ==> Sextet1(Octet0(s0, s1), 0) == s1
    ensures s2 % 4 == 0 ==> Sextet2(Octet1(s1, s2), 0) == s2
  {
    Pack4(s0, s1 / 16);
    Pack16(s1 % 16, s2 / 4);
    Pack64(s2 % 4, s3);
  }

  /** The four symbols of three octets. */
  function Quad(b0: byte, b1: byte, b2: byte): (q: string)
    ensures |q| == 4
  {
    [Symbol(b0 / 4), Symbol(Sextet1(b0, b1)), Symbol(Sextet2(b1, b2)), Symbol(b2 % 64)]
  }

  const ALPHABET: string := "ABCDEFGHIJKLMNOPQRSTUVWXYZ" + "abcdefghijklmnopqrstuvwxyz" + "0123456789-_"

  /** Against the RFC's own words: the symbols of a group are the alphabet's at the four base-64
      digits of the 24-bit number its octets make. */
  lemma QuadIsBase64(b0: byte, b1: byte, b2: byte)
    ensures var d0, d1, d2, d3 := b0 / 4, Sextet1(b0, b1), Sextet2(b1, b2), b2 % 64;
            && ((d0 * 64 + d1) * 64 + d2) * 64 + d3 == (b0 * 256 + b1) * 256 + b2
            && Quad(b0, b1, b2) == [ALPHABET[d0], ALPHABET[d1], ALPHABET[d2], ALPHABET[d3]]
  {
    SymbolInAlphabet(b0 / 4);
    SymbolInAlphabet(Sextet1(b0, b1));
    SymbolInAlphabet(Sextet2(b1, b2));
    SymbolInAlphabet(b2 % 64);
  }

  lemma SymbolInAlphabet(d: nat)
    requires d < 64
    ensures |ALPHABET| == 64 && ALPHABET[d] == Symbol(d)
  {
  }

  function Encode(b: seq<byte>): string {
    if |b| == 0 then ""
    else if |b| == 1 then Quad(b[0], 0, 0)[..2]
    else if |b| == 2 then Quad(b[0], b[1], 0)[..3]
    else Quad(b[0], b[1], b[2]) + Encode(b[3..])
  }

  function Decode(text: string): Option<seq<byte>> {
    if |text| == 0 then Some([])
    else if !AllSymbols(text) || |text| == 1 then None
    else
      var s0, s1 := Sextet(text[0]), Sextet(text[1]);
      if |text| == 2 then
        if s1 % 16 != 0 then None else Some([Octet0(s0, s1)])
      else
        var s2 := Sextet(text[2]);
        if |text| == 3 then
          if s2 % 4 != 0 then None else Some([Octet0(s0, s1), Octet1(s1, s2)])
        else
          match Decode(text[4..])
          case None => None
          case Some(rest) => Some([Octet0(s0, s1), Octet1(s1, s2), Octet2(s2, Sextet(text[3]))] + rest)
  }

  lemma SextetOfSymbol(d: nat)
    requires d < 64
    ensures IsSymbol(Symbol(d)) && Sextet(Symbol(d)) == d
  {
  }

  lemma QuadSextets(b0: byte, b1: byte, b2: byte)
    ensures AllSymbols(Quad(b0, b1, b2))
    ensures var q := Quad(b0, b1, b2);
            && Sextet(q[0]) == b0 / 4 && Sextet(q[1]) == Sextet1(b0, b1)
            && Sextet(q[2]) == Sextet2(b1, b2) && Sextet(q[3]) == b2 % 64
  {
    SextetOfSymbol(b0 / 4);
    SextetOfSymbol(Sextet1(b0, b1));
    SextetOfSymbol(Sextet2(b1, b2));
    SextetOfSymbol(b2 % 64);
  }

  lemma DecodeQuad(b0: byte, b1: byte, b2: byte, text: string)
    requires AllSymbols(text) && Decode(text).Some?
    ensures AllSymbols(Quad(b0, b1, b2) + text)
    ensures Decode(Quad(b0, b1, b2) + text) == Some([b0, b1, b2] + Decode(text).value)
  {
    QuadSextets(b0, b1, b2);
    OctetsOfSextets(b0, b1, b2);
    assert (Quad(b0, b1, b2) + text)[4..] == text;
  }

  lemma DecodeTail1(b0: byte)
    ensures AllSymbols(Quad(b0, 0, 0)[..2]) && Decode(Quad(b0, 0, 0)[..2]) == Some([b0])
  {
    QuadSextets(b0, 0, 0);
    OctetsOfSextets(b0, 0, 0);
  }

  lemma DecodeTail2(b0: byte, b1: byte)
    ensures AllSymbols(Quad(b0, b1, 0)[..3]) && Decode(Quad(b0, b1, 0)[..3]) == Some([b0, b1])
  {
    QuadSextets(b0, b1, 0);
    OctetsOfSextets(b0, b1, 0);
  }

  lemma EncodeTail1(b: seq<byte>)
    requires |b| == 1
    ensures Encode(b) == Quad(b[0], 0, 0)[..2]
  {
  }

  lemma EncodeTail2(b: seq<byte>)
    requires |b| == 2
    ensures Encode(b) == Quad(b[0], b[1], 0)[..3]
  {
  }

  lemma DecodeOfTail(b: seq<byte>)
    requires |b| < 3
    ensures AllSymbols(Encode(b)) && Decode(Encode(b)) == Some(b)
  {
    if |b| == 1 {
      assert b == [b[0]];
      DecodeTail1(b[0]);
      EncodeTail1(b);
    } else if |b| == 2 {
      assert b == [b[0], b[1]];
      DecodeTail2(b[0], b[1]);
      EncodeTail2(b);
    }
  }

  lemma EncodeFront(b0: byte, b1: byte, b2: byte, rest: seq<byte>)
    ensures Encode([b0, b1, b2] + rest) == Quad(b0, b1, b2) + Encode(rest)
  {
    assert ([b0, b1, b2] + rest)[3..] == rest;
  }

  lemma {:induction false} DecodeOfEncode(b: seq<byte>)
    ensures AllSymbols(Encode(b)) && Decode(Encode(b)) == Some(b)
  {
    if |b| < 3 {
      DecodeOfTail(b);
    } else {
      DecodeOfEncode(b[3..]);
      DecodeQuad(b[0], b[1], b[2], Encode(b[3..]));
      EncodeFront(b[0], b[1], b[2], b[3..]);
      assert b == [b[0], b[1], b[2]] + b[3..];
    }
  }

  lemma EncodeOfDecodeTail(text: string)
    requires |text| < 4 && Decode(text).Some?
    ensures Encode(Decode(text).value) == text
  {
    if |text| == 2 {
      QuadOfOctets(text + "AA");
    } else if |text| == 3 {
      QuadOfOctets(text + "A");
    }
  }

  lemma QuadOfOctets(text: string)
    requires |text| == 4 && AllSymbols(text)
    ensures var s0, s1, s2, s3 := Sextet(text[0]), Sextet(text[1]), Sextet(text[2]), Sextet(text[3]);
            && Quad(Octet0(s0, s1), Octet1(s1, s2), Octet2(s2, s3)) == text
            && (s1 % 16 == 0 ==> Quad(Octet0(s0, s1), 0, 0)[..2] == text[..2])
            && (s2 % 4 == 0 ==> Quad(Octet0(s0, s1), Octet1(s1, s2), 0)[..3] == text[..3])
  {
    SextetsOfOctets(Sextet(text[0]), Sextet(text[1]), Sextet(text[2]), Sextet(text[3]));
  }

  lemma {:induction false} EncodeOfDecode(text: string)
    requires Decode(text).Some?
    ensures Encode(Decode(text).value) == text
  {
    if |text| < 4 {
      EncodeOfDecodeTail(text);
    } else {
      EncodeOfDecode(text[4..]);
      QuadOfOctets(text[..4]);
      var b, rest := Decode(text).value, Decode(text[4..]).value;
      assert b == [b[0], b[1], b[2]] + rest;
      EncodeFront(b[0], b[1], b[2], rest);
      assert text == text[..4] + text[4..];
    }
  }

  /** The codec is canonical: a text decodes to at most one byte string, and only its own encoding does. */
  lemma DecodeExact(text: string, b: seq<byte>)
    ensures Decode(text) == Some(b) <==> text == Encode(b)
  {
    DecodeOfEncode(b);
    if Decode(text).Some? {
      EncodeOfDecode(text);
    }
  }
}
