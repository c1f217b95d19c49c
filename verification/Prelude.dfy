/** Types shared by every module: results, machine integers, bytes and byte strings. */
module Prelude {

  datatype Option<+T> = None | Some(value: T)

  datatype Result<+T, +E> = Ok(value: T) | Err(error: E) {
    predicate IsFailure() {
      Err?
    }

    function PropagateFailure<U>(): Result<U, E>
      requires Err?
    {
      Err(error)
    }

    function Extract(): T
      requires Ok?
    {
      value
    }
  }

  const U31_MAX: nat := 0x7FFF_FFFF
  const U32_MAX: nat := 0xFFFF_FFFF
  const U64_MAX: nat := 0xFFFF_FFFF_FFFF_FFFF

  const HEX: string := "0123456789abcdef"

  /** The value of a lowercase hexadecimal digit. */
  function HexValue(c: char): Option<nat> {
    if '0' <= c <= '9' then Some(c as int - '0' as int)
    else if 'a' <= c <= 'f' then Some(c as int - 'a' as int + 10)
    else None
  }

  lemma HexDigitValue(i: nat)
    requires i < 16
    ensures HexValue(HEX[i]) == Some(i)
  {
  }

  type byte = b: int | 0 <= b < 256
  type u32 = n: nat | n <= U32_MAX
  type u64 = n: nat | n <= U64_MAX

  /** The concatenation of the chunks, in order. */
  function Flatten<T>(chunks: seq<seq<T>>): seq<T> {
    if chunks == [] then [] else chunks[0] + Flatten(chunks[1..])
  }

  lemma {:induction false} FlattenAppend<T>(a: seq<seq<T>>, b: seq<seq<T>>)
    ensures Flatten(a + b) == Flatten(a) + Flatten(b)
  {
    if a == [] {
      assert a + b == b;
    } else {
      FlattenAppend(a[1..], b);
      assert (a + b)[1..] == a[1..] + b;
      assert a[0] + (Flatten(a[1..]) + Flatten(b)) == Flatten(a) + Flatten(b);
    }
  }

  lemma FlattenSnoc<T>(a: seq<seq<T>>, c: seq<T>)
    ensures Flatten(a + [c]) == Flatten(a) + c
  {
    FlattenAppend(a, [c]);
    assert Flatten([c]) == c + Flatten([]);
  }

  lemma ConcatAssoc<T>(a: seq<T>, b: seq<T>, c: seq<T>)
    ensures (a + b) + c == a + (b + c)
  {
  }

  // Big-endian integers of a fixed width (u32 frame lengths, u64 expiry times).

  function Pow256(width: nat): nat {
    if width == 0 then 1 else 256 * Pow256(width - 1)
  }

  function BigEndian(n: nat, width: nat): (bytes: seq<byte>)
    ensures |bytes| == width
  {
    if width == 0 then [] else BigEndian(n / 256, width - 1) + [n % 256]
  }

  /** Most significant byte first, at the two widths in use. */
  lemma BigEndian4(n: nat)
    ensures BigEndian(n, 4) == [n / 0x100_0000 % 256, n / 0x1_0000 % 256, n / 256 % 256, n % 256]
  {
    var q1, q2 := n / 256, n / 0x1_0000;
    assert q1 / 256 == q2 && q2 / 256 == n / 0x100_0000;
    assert BigEndian(n / 0x100_0000, 1) == [] + [n / 0x100_0000 % 256];
    assert BigEndian(q2, 2) == BigEndian(q2 / 256, 1) + [q2 % 256];
    assert BigEndian(q1, 3) == BigEndian(q1 / 256, 2) + [q1 % 256];
  }

  lemma BigEndian8(n: nat)
    ensures BigEndian(n, 8) == BigEndian(n / 0x1_0000_0000, 4) + BigEndian(n, 4)
  {
    var q1, q2, q3, q4 := n / 256, n / 0x1_0000, n / 0x100_0000, n / 0x1_0000_0000;
    assert q1 / 256 == q2 && q2 / 256 == q3 && q3 / 256 == q4;
    var front := BigEndian(q4, 4);
    assert BigEndian(q3, 5) == front + [q3 % 256];
    assert BigEndian(q2, 6) == front + [q3 % 256] + [q2 % 256];
    assert BigEndian(q1, 7) == front + [q3 % 256] + [q2 % 256] + [q1 % 256];
    BigEndian4(n);
  }

  function FromBigEndian(bytes: seq<byte>): nat {
    if bytes == [] then 0
    else FromBigEndian(bytes[..|bytes| - 1]) * 256 + bytes[|bytes| - 1]
  }

  lemma {:induction false} BigEndianRoundTrip(n: nat, width: nat)
    requires n < Pow256(width)
    ensures FromBigEndian(BigEndian(n, width)) == n
  {
    if width > 0 {
      BigEndianRoundTrip(n / 256, width - 1);
      var bytes := BigEndian(n, width);
      assert bytes[..|bytes| - 1] == BigEndian(n / 256, width - 1);
    }
  }

  lemma {:induction false} FromBigEndianRoundTrip(bytes: seq<byte>)
    ensures FromBigEndian(bytes) < Pow256(|bytes|)
    ensures BigEndian(FromBigEndian(bytes), |bytes|) == bytes
  {
    if bytes != [] {
      var init, last := bytes[..|bytes| - 1], bytes[|bytes| - 1];
      FromBigEndianRoundTrip(init);
      var n := FromBigEndian(bytes);
      assert n / 256 == FromBigEndian(init) && n % 256 == last;
      assert init + [last] == bytes;
    }
  }

  lemma Pow256Values()
    ensures Pow256(4) == U32_MAX + 1 == 2 * (U31_MAX + 1)
    ensures Pow256(8) == U64_MAX + 1
  {
  }
}
