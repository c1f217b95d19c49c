/** UUID octets and their canonical text (section 4 of RFC 9562): lowercase hexadecimal, hyphens
    after 8, 12, 16 and 20 digits (`Uuid::to_string`). */
module UuidText {
  import opened Prelude

  type Uuid = octets: seq<byte> | |octets| == 16 witness seq(16, _ => 0)

  function Hex(bytes: seq<byte>): (s: string)
    ensures |s| == 2 * |bytes|
  {
    if bytes == [] then "" else [HEX[bytes[0] / 16], HEX[bytes[0] % 16]] + Hex(bytes[1..])
  }

  function ToText(u: Uuid): (s: string)
    ensures |s| == 36
  {
    Hex(u[..4]) + "-" + Hex(u[4..6]) + "-" + Hex(u[6..8]) + "-" + Hex(u[8..10]) + "-" + Hex(u[10..])
  }

  lemma HexDigit(i: nat)
    requires i < 16
    ensures HEX[i] as int == if i < 10 then '0' as int + i else 'a' as int + (i - 10)
  {
  }

  lemma HexPairInjective(x: byte, y: byte)
    requires HEX[x / 16] == HEX[y / 16] && HEX[x % 16] == HEX[y % 16]
    ensures x == y
  {
    HexDigit(x / 16);
    HexDigit(y / 16);
    HexDigit(x % 16);
    HexDigit(y % 16);
  }

  lemma {:induction false} HexInjective(a: seq<byte>, b: seq<byte>)
    requires |a| == |b| && Hex(a) == Hex(b)
    ensures a == b
  {
    if a != [] {
      assert Hex(a)[0] == HEX[a[0] / 16] && Hex(b)[0] == HEX[b[0] / 16];
      assert Hex(a)[1] == HEX[a[0] % 16] && Hex(b)[1] == HEX[b[0] % 16];
      HexPairInjective(a[0], b[0]);
      assert Hex(a)[2..] == Hex(a[1..]) && Hex(b)[2..] == Hex(b[1..]);
      HexInjective(a[1..], b[1..]);
      assert a == [a[0]] + a[1..] && b == [b[0]] + b[1..];
    }
  }

  lemma HyphenatedParts(a: string, b: string, c: string, d: string, e: string)
    requires |a| == 8 && |b| == 4 && |c| == 4 && |d| == 4
    ensures var s := a + "-" + b + "-" + c + "-" + d + "-" + e;
            s[..8] == a && s[9..13] == b && s[14..18] == c && s[19..23] == d && s[24..] == e
  {
  }

  lemma TextParts(u: Uuid)
    ensures var s := ToText(u);
            && s[..8] == Hex(u[..4]) && s[9..13] == Hex(u[4..6]) && s[14..18] == Hex(u[6..8])
            && s[19..23] == Hex(u[8..10]) && s[24..] == Hex(u[10..])
  {
    HyphenatedParts(Hex(u[..4]), Hex(u[4..6]), Hex(u[6..8]), Hex(u[8..10]), Hex(u[10..]));
  }

  /** Distinct octets have distinct canonical texts. */
  lemma ToTextInjective(u: Uuid, v: Uuid)
    requires ToText(u) == ToText(v)
    ensures u == v
  {
    TextParts(u);
    TextParts(v);
    HexInjective(u[..4], v[..4]);
    HexInjective(u[4..6], v[4..6]);
    HexInjective(u[6..8], v[6..8]);
    HexInjective(u[8..10], v[8..10]);
    HexInjective(u[10..], v[10..]);
    assert u == u[..4] + u[4..6] + u[6..8] + u[8..10] + u[10..];
    assert v == v[..4] + v[4..6] + v[6..8] + v[8..10] + v[10..];
  }

  // ---- The text, digit by digit --------------------------------------------------------------

  /** Two digits state an octet, the high one first. */
  predicate StatesOctet(high: char, low: char, octet: byte) {
    HexValue(high).Some? && HexValue(low).Some? && HexValue(high).value * 16 + HexValue(low).value == octet
  }

  lemma {:induction false} HexStates(bytes: seq<byte>, k: nat)
    requires k < |bytes|
    ensures StatesOctet(Hex(bytes)[2 * k], Hex(bytes)[2 * k + 1], bytes[k])
  {
    if k == 0 {
      HexDigitValue(bytes[0] / 16);
      HexDigitValue(bytes[0] % 16);
    } else {
      HexStates(bytes[1..], k - 1);
    }
  }

  /** Where the digits of octet `k` stand: two for each octet before it, and the hyphens. */
  function DigitAt(k: nat): nat {
    2 * k + (if k < 4 then 0 else if k < 6 then 1 else if k < 8 then 2 else if k < 10 then 3 else 4)
  }

  lemma GroupStates(text: string, at: nat, bytes: seq<byte>, k: nat)
    requires k < |bytes| && at + 2 * |bytes| <= |text| && text[at..at + 2 * |bytes|] == Hex(bytes)
    ensures StatesOctet(text[at + 2 * k], text[at + 2 * k + 1], bytes[k])
  {
    HexStates(bytes, k);
    assert text[at + 2 * k] == Hex(bytes)[2 * k] && text[at + 2 * k + 1] == Hex(bytes)[2 * k + 1];
  }

  lemma PartsState(s: string, u: Uuid, k: nat)
    requires |s| == 36 && k < 16
    requires s[..8] == Hex(u[..4]) && s[9..13] == Hex(u[4..6]) && s[14..18] == Hex(u[6..8])
    requires s[19..23] == Hex(u[8..10]) && s[24..] == Hex(u[10..])
    ensures StatesOctet(s[DigitAt(k)], s[DigitAt(k) + 1], u[k])
  {
    if k < 4 {
      GroupStates(s, 0, u[..4], k);
    } else if k < 6 {
      GroupStates(s, 9, u[4..6], k - 4);
    } else if k < 8 {
      GroupStates(s, 14, u[6..8], k - 6);
    } else if k < 10 {
      GroupStates(s, 19, u[8..10], k - 8);
    } else {
      assert s[24..36] == s[24..];
      GroupStates(s, 24, u[10..], k - 10);
    }
  }

  /** The canonical text against section 4 of RFC 9562: octet `k` is stated by two lowercase
      hexadecimal digits at its place, the high one first, and hyphens fill the other places. */
  lemma TextStatesOctets(u: Uuid, k: nat)
    requires k < 16
    ensures DigitAt(k) + 1 < 36 && StatesOctet(ToText(u)[DigitAt(k)], ToText(u)[DigitAt(k) + 1], u[k])
    ensures forall i | i in {8, 13, 18, 23} :: ToText(u)[i] == '-'
  {
    TextParts(u);
    PartsState(ToText(u), u, k);
    HyphenPlaces(Hex(u[..4]), Hex(u[4..6]), Hex(u[6..8]), Hex(u[8..10]), Hex(u[10..]));
  }

  lemma HyphenPlaces(a: string, b: string, c: string, d: string, e: string)
    requires |a| == 8 && |b| == 4 && |c| == 4 && |d| == 4
    ensures var s := a + "-" + b + "-" + c + "-" + d + "-" + e; s[8] == s[13] == s[18] == s[23] == '-'
  {
  }

  predicate IsHexOrHyphen(c: char) {
    c == '-' || '0' <= c <= '9' || 'a' <= c <= 'f'
  }

  lemma {:induction false} HexChars(bytes: seq<byte>)
    ensures forall c | c in Hex(bytes) :: IsHexOrHyphen(c)
  {
    if bytes != [] {
      HexChars(bytes[1..]);
      assert forall i | 0 <= i < 16 :: IsHexOrHyphen(HEX[i]);
    }
  }

  /** The text is printable ASCII: hexadecimal digits and hyphens only. */
  lemma TextChars(u: Uuid)
    ensures forall c | c in ToText(u) :: IsHexOrHyphen(c)
  {
    HexChars(u[..4]);
    HexChars(u[4..6]);
    HexChars(u[6..8]);
    HexChars(u[8..10]);
    HexChars(u[10..]);
  }
}
