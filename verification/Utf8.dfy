/** UTF-8 as Rust's `String` keeps it: a Dafny `string` is a sequence of Unicode scalar
    values, `Encode` gives its bytes and `Decode` is `String::from_utf8`. */
module Utf8 {
  import opened Prelude

  function EncodeChar(c: char): (bytes: seq<byte>)
    ensures 1 <= |bytes| <= 4
  {
    var v := c as int;
    if v < 0x80 then [v]
    else if v < 0x800 then [0xC0 + v / 64, 0x80 + v % 64]
    else if v < 0x1_0000 then [0xE0 + v / 4096, 0x80 + v / 64 % 64, 0x80 + v % 64]
    else [0xF0 + v / 262144, 0x80 + v / 4096 % 64, 0x80 + v / 64 % 64, 0x80 + v % 64]
  }

  function Encode(s: string): seq<byte> {
    if s == [] then [] else EncodeChar(s[0]) + Encode(s[1..])
  }

  /** The byte length of a Rust string (`str::len`). */
  function Len(s: string): nat {
    |Encode(s)|
  }

  predicate IsTail(b: byte) {
    0x80 <= b <= 0xBF
  }

  /** The payload of a byte whose marker bits are worth `mark`. */
  function Bits(b: byte, mark: int): int {
    b - mark
  }

  function Scalar2(b: seq<byte>): int
    requires |b| >= 2
  {
    Bits(b[0], 0xC0) * 64 + Bits(b[1], 0x80)
  }

  function Scalar3(b: seq<byte>): int
    requires |b| >= 3
  {
    Bits(b[0], 0xE0) * 4096 + Bits(b[1], 0x80) * 64 + Bits(b[2], 0x80)
  }

  function Scalar4(b: seq<byte>): int
    requires |b| >= 4
  {
    Bits(b[0], 0xF0) * 262144 + Bits(b[1], 0x80) * 4096 + Bits(b[2], 0x80) * 64 + Bits(b[3], 0x80)
  }

  predicate Starts2(b: seq<byte>) {
    |b| >= 2 && 0xC2 <= b[0] <= 0xDF && IsTail(b[1])
  }

  predicate Starts3(b: seq<byte>) {
    && |b| >= 3 && 0xE0 <= b[0] <= 0xEF && IsTail(b[1]) && IsTail(b[2])
    && (b[0] == 0xE0 ==> 0xA0 <= b[1]) && (b[0] == 0xED ==> b[1] <= 0x9F)
  }

  predicate Starts4(b: seq<byte>) {
    && |b| >= 4 && 0xF0 <= b[0] <= 0xF4 && IsTail(b[1]) && IsTail(b[2]) && IsTail(b[3])
    && (b[0] == 0xF0 ==> 0x90 <= b[1]) && (b[0] == 0xF4 ==> b[1] <= 0x8F)
  }

  /** The first scalar value of `b` and its width, or None when no well-formed sequence
      (Unicode Standard, Table 3-7) starts there. */
  function DecodeChar(b: seq<byte>): (r: Option<(char, nat)>)
    ensures r.Some? ==> 1 <= r.value.1 <= |b|
  {
    if |b| >= 1 && b[0] < 0x80 then Some((b[0] as char, 1))
    else if Starts2(b) then Some((Scalar2(b) as char, 2))
    else if Starts3(b) then Some((Scalar3(b) as char, 3))
    else if Starts4(b) then Some((Scalar4(b) as char, 4))
    else None
  }

  function Decode(bytes: seq<byte>): Option<string>
    decreases |bytes|
  {
    if bytes == [] then Some("")
    else
      match DecodeChar(bytes)
      case None => None
      case Some((c, width)) =>
        match Decode(bytes[width..])
        case None => None
        case Some(rest) => Some([c] + rest)
  }

  /** The base-64 digits of a scalar value put it back together. */
  lemma Digits64(v: int)
    requires 0 <= v
    ensures v == v / 64 * 64 + v % 64
    ensures v == v / 4096 * 4096 + v / 64 % 64 * 64 + v % 64
    ensures v == v / 262144 * 262144 + v / 4096 % 64 * 4096 + v / 64 % 64 * 64 + v % 64
  {
    assert v / 4096 == v / 64 / 64 && v / 262144 == v / 4096 / 64;
  }

  lemma DecodeCharOfEncode(c: char, rest: seq<byte>)
    ensures DecodeChar(EncodeChar(c) + rest) == Some((c, |EncodeChar(c)|))
  {
    var v := c as int;
    var e := EncodeChar(c);
    var b := e + rest;
    Digits64(v);
    assert forall i | 0 <= i < |e| :: b[i] == e[i];
    if 0x80 <= v < 0x800 {
      assert Starts2(b) && Scalar2(b) == v;
    } else if 0x800 <= v < 0x1_0000 {
      assert Starts3(b) && Scalar3(b) == v;
    } else if 0x1_0000 <= v {
      assert Starts4(b) && Scalar4(b) == v;
    }
  }

  lemma EncodeOfScalar3(b: seq<byte>)
    requires Starts3(b)
    ensures EncodeChar(Scalar3(b) as char) == b[..3]
  {
    assert Scalar3(b) / 64 == Bits(b[0], 0xE0) * 64 + Bits(b[1], 0x80);
  }

  lemma EncodeOfScalar4(b: seq<byte>)
    requires Starts4(b)
    ensures EncodeChar(Scalar4(b) as char) == b[..4]
  {
    var v := Scalar4(b);
    assert v / 64 == Bits(b[0], 0xF0) * 4096 + Bits(b[1], 0x80) * 64 + Bits(b[2], 0x80);
    assert v / 4096 == Bits(b[0], 0xF0) * 64 + Bits(b[1], 0x80);
  }

  lemma EncodeOfDecodeChar(b: seq<byte>)
    requires DecodeChar(b).Some?
    ensures var (c, width) := DecodeChar(b).value; EncodeChar(c) == b[..width]
  {
    if Starts3(b) {
      EncodeOfScalar3(b);
    } else if Starts4(b) {
      EncodeOfScalar4(b);
    }
  }

  lemma {:induction false} DecodeOfEncode(s: string)
    ensures Decode(Encode(s)) == Some(s)
  {
    if s != [] {
      DecodeCharOfEncode(s[0], Encode(s[1..]));
      assert Encode(s)[|EncodeChar(s[0])|..] == Encode(s[1..]);
      DecodeOfEncode(s[1..]);
      assert s == [s[0]] + s[1..];
    }
  }

  lemma {:induction false} EncodeOfDecode(bytes: seq<byte>)
    requires Decode(bytes).Some?
    ensures Encode(Decode(bytes).value) == bytes
    decreases |bytes|
  {
    if bytes != [] {
      EncodeOfDecodeChar(bytes);
      EncodeOfDecode(bytes[DecodeChar(bytes).value.1..]);
    }
  }

  /** `from_utf8` accepts exactly the encodings, and no byte string encodes two strings. */
  lemma DecodeExact(bytes: seq<byte>, s: string)
    ensures Decode(bytes) == Some(s) <==> bytes == Encode(s)
  {
    DecodeOfEncode(s);
    if Decode(bytes).Some? {
      EncodeOfDecode(bytes);
    }
  }

  lemma {:induction false} EncodeAppend(a: string, b: string)
    ensures Encode(a + b) == Encode(a) + Encode(b)
  {
    if a == [] {
      assert a + b == b;
    } else {
      EncodeAppend(a[1..], b);
      assert (a + b)[1..] == a[1..] + b;
      ConcatAssoc(EncodeChar(a[0]), Encode(a[1..]), Encode(b));
    }
  }

  lemma LenAppend(a: string, b: string)
    ensures Len(a + b) == Len(a) + Len(b)
  {
    EncodeAppend(a, b);
  }

  ghost predicate IsAscii(s: string) {
    forall i | 0 <= i < |s| :: s[i] as int < 0x80
  }

  lemma {:induction false} AsciiLen(s: string)
    requires IsAscii(s)
    ensures Len(s) == |s|
  {
    if s != [] {
      AsciiLen(s[1..]);
    }
  }
}
