/** Decimal text of integers, and the canonical decimal u64 of `seq` (ADR 0003, rule N2). */
module CanonicalSeq {
  import opened Prelude

  function Digit(d: nat): char
    requires d < 10
  {
    (d + '0' as int) as char
  }

  predicate IsDigit(c: char) {
    '0' <= c <= '9'
  }

  /** Decimal text without leading zeros (`u64::to_string`, and `seq_to_wire`). */
  function Decimal(n: nat): (s: string)
    ensures s != []
  {
    if n < 10 then [Digit(n)] else Decimal(n / 10) + [Digit(n % 10)]
  }

  predicate AllDigits(s: string) {
    forall i | 0 <= i < |s| :: IsDigit(s[i])
  }

  /** The number a run of digits denotes (what `str::parse` computes before its range check). */
  function DigitsValue(s: string): nat
    requires AllDigits(s)
  {
    if s == [] then 0
    else DigitsValue(s[..|s| - 1]) * 10 + (s[|s| - 1] as int - '0' as int)
  }

  predicate IsAsciiWhitespace(c: char) {
    c == ' ' || c == '\t' || c == '\n' || c as int == 12 || c == '\r'
  }

  function ParseSeq(s: string): Option<u64> {
    if s == "0" then Some(0)
    else if s == "" || !('1' <= s[0] <= '9') || !AllDigits(s) then None
    else if DigitsValue(s) <= U64_MAX then Some(DigitsValue(s))
    else None
  }

  /** The checks in the source's order; its two scans are the two loops. */
  method ParseSeqWire(raw: string) returns (r: Option<u64>)
    ensures r == ParseSeq(raw)
    ensures forall n: u64 :: r == Some(n) <==> raw == Decimal(n)
  {
    forall n: u64 {
      ParseSeqExact(raw, n);
    }
    if raw == [] {
      return None;
    }
    for i := 0 to |raw|
      invariant forall j | 0 <= j < i :: !IsAsciiWhitespace(raw[j])
    {
      if IsAsciiWhitespace(raw[i]) {
        assert !IsDigit(raw[i]);
        return None;
      }
    }
    if raw == "0" {
      return Some(0);
    }
    if raw[0] < '1' || raw[0] > '9' {
      return None;
    }
    var value := raw[0] as int - '0' as int;
    for i := 1 to |raw|
      invariant AllDigits(raw[..i]) && value == DigitsValue(raw[..i])
    {
      if !IsDigit(raw[i]) {
        return None;
      }
      assert raw[..i + 1][..i] == raw[..i];
      value := value * 10 + (raw[i] as int - '0' as int);
    }
    assert raw[..|raw|] == raw;
    r := if value <= U64_MAX then Some(value) else None;
  }

  lemma {:induction false} DecimalParses(n: nat)
    ensures AllDigits(Decimal(n)) && DigitsValue(Decimal(n)) == n
    ensures n > 0 ==> '1' <= Decimal(n)[0] <= '9'
  {
    if n >= 10 {
      DecimalParses(n / 10);
      var s := Decimal(n);
      assert s[..|s| - 1] == Decimal(n / 10);
    } else {
      assert Decimal(n)[..0] == [];
    }
  }

  lemma {:induction false} ValueHasDecimal(s: string)
    requires s != [] && AllDigits(s) && s[0] != '0'
    ensures DigitsValue(s) > 0 && Decimal(DigitsValue(s)) == s
  {
    var init, last := s[..|s| - 1], s[|s| - 1];
    assert s == init + [last];
    if init == [] {
      assert DigitsValue(init) == 0;
    } else {
      ValueHasDecimal(init);
      assert DigitsValue(s) / 10 == DigitsValue(init);
    }
  }

  /** Canonical decimal: the parser accepts exactly the printed form of each u64. */
  lemma ParseSeqExact(s: string, n: u64)
    ensures ParseSeq(s) == Some(n) <==> s == Decimal(n)
  {
    DecimalParses(n);
    if s != [] && '1' <= s[0] <= '9' && AllDigits(s) {
      ValueHasDecimal(s);
    }
    assert Decimal(0) == "0";
  }

  lemma DecimalInjective(m: nat, n: nat)
    requires Decimal(m) == Decimal(n)
    ensures m == n
  {
    DecimalParses(m);
    DecimalParses(n);
  }

  // Lengths: at most ten digits for a u32, at most twenty (and exactly twenty from 10^19) for a u64.

  function Pow10(k: nat): (p: nat)
    ensures p > 0
  {
    if k == 0 then 1 else 10 * Pow10(k - 1)
  }

  lemma {:induction false} DecimalLength(n: nat, k: nat)
    requires k > 0
    ensures n < Pow10(k) ==> |Decimal(n)| <= k
    ensures n >= Pow10(k) ==> |Decimal(n)| > k
  {
    if n >= 10 && k > 1 {
      DecimalLength(n / 10, k - 1);
    } else {
      assert Pow10(k) == 10 * Pow10(k - 1) && Pow10(0) == 1;
    }
  }

  lemma U32Digits(n: u32)
    ensures |Decimal(n)| <= 10
  {
    assert Pow10(10) == 10_000_000_000;
    DecimalLength(n, 10);
  }

  lemma U64Digits(n: u64)
    ensures |Decimal(n)| <= 20
    ensures n >= 10_000_000_000_000_000_000 ==> |Decimal(n)| == 20
  {
    assert Pow10(10) == 10_000_000_000;
    assert Pow10(15) == 1_000_000_000_000_000;
    assert Pow10(20) == 100_000_000_000_000_000_000;
    assert Pow10(19) == 10_000_000_000_000_000_000;
    DecimalLength(n, 20);
    DecimalLength(n, 19);
  }
}
