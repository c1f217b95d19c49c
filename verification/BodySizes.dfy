/** How long printed bodies are: the escape expansion bound, and exact lengths of the bodies the
    hub sends. */
module BodySizes {
  import opened Prelude
  import opened Json
  import opened UuidText
  import opened CanonicalSeq
  import Utf8

  // ---- Escaping ------------------------------------------------------------------------------

  function EscapedLen(s: string): nat {
    Utf8.Len(Escape(s))
  }

  lemma EscapeCharExpansion(c: char)
    ensures |Utf8.EncodeChar(c)| <= Utf8.Len(EscapeChar(c)) <= 6 * |Utf8.EncodeChar(c)|
    ensures c as int == 1 ==> Utf8.Len(EscapeChar(c)) == 6
  {
    if |EscapeChar(c)| > 1 {
      Utf8.AsciiLen(EscapeChar(c));
    } else {
      assert EscapeChar(c)[1..] == "";
      assert Utf8.Encode(EscapeChar(c)) == Utf8.EncodeChar(c) + Utf8.Encode("");
    }
  }

  /** Escaping never shortens a text and makes it at most six times as long. */
  lemma {:induction false} EscapeExpansion(s: string)
    ensures Utf8.Len(s) <= EscapedLen(s) <= 6 * Utf8.Len(s)
  {
    if s != "" {
      EscapeExpansion(s[1..]);
      EscapeCharExpansion(s[0]);
      Utf8.LenAppend(EscapeChar(s[0]), Escape(s[1..]));
    }
  }

  /** The number of characters of a class. */
  function Count(s: string, class_: char -> bool): nat {
    if s == "" then 0 else (if class_(s[0]) then 1 else 0) + Count(s[1..], class_)
  }

  lemma EscapedCharLen(c: char)
    ensures Utf8.Len(EscapeChar(c))
         == |Utf8.EncodeChar(c)| + (if HasShortEscape(c) then 1 else 0) + (if HasLongEscape(c) then 5 else 0)
  {
    EscapeTable(c);
    if HasShortEscape(c) || HasLongEscape(c) {
      assert Utf8.IsAscii(EscapeChar(c));
      Utf8.AsciiLen(EscapeChar(c));
    } else {
      assert EscapeChar(c)[1..] == "";
      assert Utf8.Encode(EscapeChar(c)) == Utf8.EncodeChar(c) + Utf8.Encode("");
    }
  }

  /** The exact length of an escaped text: its own bytes, one more for each character with a letter
      and five more for each other control character. */
  lemma {:induction false} EscapedLenExact(s: string)
    ensures EscapedLen(s) == Utf8.Len(s) + Count(s, HasShortEscape) + 5 * Count(s, HasLongEscape)
  {
    if s != "" {
      EscapedLenExact(s[1..]);
      EscapedCharLen(s[0]);
      Utf8.LenAppend(EscapeChar(s[0]), Escape(s[1..]));
    }
  }

  /** Lengths of escaped texts add up. */
  lemma {:induction false} EscapedAppend(a: string, b: string)
    ensures EscapedLen(a + b) == EscapedLen(a) + EscapedLen(b)
  {
    if a == "" {
      assert a + b == b;
    } else {
      EscapedAppend(a[1..], b);
      assert (a + b)[1..] == a[1..] + b;
      Utf8.LenAppend(EscapeChar(a[0]), Escape(a[1..]));
      Utf8.LenAppend(EscapeChar(a[0]), Escape(a[1..] + b));
    }
  }

  /** A text of `n` control characters, the worst case of the bound. */
  function Controls(n: nat): string {
    seq(n, _ => 1 as char)
  }

  /** The bound is reached, at every length. */
  lemma {:induction false} ControlsReachBound(n: nat)
    ensures Utf8.Len(Controls(n)) == n && EscapedLen(Controls(n)) == 6 * n
  {
    if n > 0 {
      var s := Controls(n);
      assert s[1..] == Controls(n - 1);
      ControlsReachBound(n - 1);
      EscapeCharExpansion(s[0]);
      Utf8.LenAppend(EscapeChar(s[0]), Escape(s[1..]));
    }
  }

  predicate PlainChar(c: char) {
    0x20 <= c as int < 0x7F && c != '"' && c != '\\'
  }

  ghost predicate Plain(s: string) {
    forall i | 0 <= i < |s| :: PlainChar(s[i])
  }

  /** Printable ASCII without quotes and backslashes prints as itself. */
  lemma {:induction false} PlainLen(s: string)
    requires Plain(s)
    ensures Escape(s) == s && EscapedLen(s) == Utf8.Len(s) == |s|
  {
    if s != "" {
      PlainLen(s[1..]);
      assert s == [s[0]] + s[1..];
    }
  }

  lemma {:induction false} DecimalPlain(n: nat)
    ensures Plain(Decimal(n))
  {
    if n >= 10 {
      DecimalPlain(n / 10);
    }
  }

  lemma UuidPlain(u: Uuid)
    ensures Plain(ToText(u))
  {
    TextChars(u);
    forall i | 0 <= i < 36 ensures PlainChar(ToText(u)[i]) {
      assert ToText(u)[i] in ToText(u);
    }
  }

  // ---- Values and members --------------------------------------------------------------------

  lemma QuoteLen(s: string)
    ensures Utf8.Len(Quote(s)) == 2 + EscapedLen(s)
  {
    Utf8.AsciiLen("\"");
    Utf8.LenAppend("\"", Escape(s));
    Utf8.LenAppend("\"" + Escape(s), "\"");
  }

  lemma IntLen(n: u64)
    ensures Utf8.Len(Print(Num(PosInt(n)))) == |Decimal(n)|
  {
    DecimalPlain(n);
    PlainLen(Decimal(n));
  }

  /** A member with a plain key costs the key, three punctuation marks and its value. */
  lemma MemberLen(v: Value, k: string)
    requires v.Obj? && k in v.members && Plain(k)
    ensures Utf8.Len(PrintMember(v, k)) == |k| + 3 + Utf8.Len(Print(v.members[k]))
  {
    PlainLen(k);
    QuoteLen(k);
    Utf8.AsciiLen(":");
    Utf8.LenAppend(Quote(k), ":");
    Utf8.LenAppend(Quote(k) + ":", Print(v.members[k]));
  }

  /** The members of a list of keys: their own lengths and the commas between them. */
  function MembersCost(v: Value, ks: seq<string>): nat
    requires v.Obj? && forall k | k in ks :: k in v.members
  {
    if ks == [] then 0
    else Utf8.Len(PrintMember(v, ks[0])) + (if |ks| == 1 then 0 else 1) + MembersCost(v, ks[1..])
  }

  lemma {:induction false} MembersLen(v: Value, ks: seq<string>)
    requires v.Obj? && forall k | k in ks :: k in v.members
    ensures Utf8.Len(PrintMembers(v, ks)) == MembersCost(v, ks)
  {
    if ks != [] {
      MembersLen(v, ks[1..]);
      var comma := if |ks| == 1 then "" else ",";
      Utf8.AsciiLen(comma);
      Utf8.LenAppend(PrintMember(v, ks[0]), comma);
      Utf8.LenAppend(PrintMember(v, ks[0]) + comma, PrintMembers(v, ks[1..]));
    }
  }

  lemma BracesLen(inner: string)
    ensures Utf8.Len("{" + inner + "}") == 2 + Utf8.Len(inner)
  {
    Utf8.AsciiLen("{");
    Utf8.AsciiLen("}");
    Utf8.LenAppend("{", inner);
    Utf8.LenAppend("{" + inner, "}");
  }

  /** An object whose keys ascend in the order `ks`. */
  lemma ObjectLen(m: map<string, Value>, ks: seq<string>)
    requires Ascending(ks) && m.Keys == set k | k in ks
    ensures Utf8.Len(Print(Obj(m))) == 2 + MembersCost(Obj(m), ks)
  {
    SortedKeysUnique(m.Keys, ks);
    MembersLen(Obj(m), ks);
    BracesLen(PrintMembers(Obj(m), ks));
  }

  /** Neighbours in order make the whole list ascend. */
  lemma {:induction false} AscendingNeighbours(ks: seq<string>)
    requires forall i | 0 <= i < |ks| - 1 :: Before(ks[i], ks[i + 1])
    ensures Ascending(ks)
  {
    if |ks| > 1 {
      var tail := ks[1..];
      forall i | 0 <= i < |tail| - 1 ensures Before(tail[i], tail[i + 1]) {
        assert tail[i] == ks[i + 1] && tail[i + 1] == ks[(i + 1) + 1];
      }
      AscendingNeighbours(tail);
      forall j | 0 < j < |ks| ensures Before(ks[0], ks[j]) {
        if j > 1 {
          assert ks[1] == tail[0] && ks[j] == tail[j - 1];
          BeforeTransitive(ks[0], ks[1], ks[j]);
        }
      }
      forall i, j | 0 <= i < j < |ks| ensures Before(ks[i], ks[j]) {
        if i > 0 {
          assert ks[i] == tail[i - 1] && ks[j] == tail[j - 1];
        }
      }
    }
  }

  lemma CostOne(v: Value, k: string)
    requires v.Obj? && k in v.members
    ensures MembersCost(v, [k]) == Utf8.Len(PrintMember(v, k))
  {
    assert [k][1..] == [];
  }

  lemma CostMore(v: Value, k: string, ks: seq<string>)
    requires v.Obj? && k in v.members && ks != [] && forall other | other in ks :: other in v.members
    ensures MembersCost(v, [k] + ks) == Utf8.Len(PrintMember(v, k)) + 1 + MembersCost(v, ks)
  {
    assert ([k] + ks)[1..] == ks;
  }

  lemma ObjectLen2(m: map<string, Value>, k1: string, k2: string)
    requires m.Keys == {k1, k2} && Before(k1, k2)
    ensures Utf8.Len(Print(Obj(m))) == 3 + Utf8.Len(PrintMember(Obj(m), k1)) + Utf8.Len(PrintMember(Obj(m), k2))
  {
    var v, ks := Obj(m), [k1] + [k2];
    AscendingNeighbours(ks);
    ObjectLen(m, ks);
    CostOne(v, k2);
    CostMore(v, k1, [k2]);
  }

  lemma ObjectLen3(m: map<string, Value>, k1: string, k2: string, k3: string)
    requires m.Keys == {k1, k2, k3} && Before(k1, k2) && Before(k2, k3)
    ensures Utf8.Len(Print(Obj(m)))
         == 4 + Utf8.Len(PrintMember(Obj(m), k1)) + Utf8.Len(PrintMember(Obj(m), k2)) + Utf8.Len(PrintMember(Obj(m), k3))
  {
    var v, ks := Obj(m), [k1] + ([k2] + [k3]);
    AscendingNeighbours(ks);
    ObjectLen(m, ks);
    CostOne(v, k3);
    CostMore(v, k2, [k3]);
    CostMore(v, k1, [k2] + [k3]);
  }

  lemma ObjectLen4(m: map<string, Value>, k1: string, k2: string, k3: string, k4: string)
    requires m.Keys == {k1, k2, k3, k4} && Before(k1, k2) && Before(k2, k3) && Before(k3, k4)
    ensures Utf8.Len(Print(Obj(m)))
         == 5 + Utf8.Len(PrintMember(Obj(m), k1)) + Utf8.Len(PrintMember(Obj(m), k2))
              + Utf8.Len(PrintMember(Obj(m), k3)) + Utf8.Len(PrintMember(Obj(m), k4))
  {
    var v, ks := Obj(m), [k1] + ([k2] + ([k3] + [k4]));
    AscendingNeighbours(ks);
    ObjectLen(m, ks);
    CostOne(v, k4);
    CostMore(v, k3, [k4]);
    CostMore(v, k2, [k3] + [k4]);
    CostMore(v, k1, [k2] + ([k3] + [k4]));
  }

  /** The value of a string member. */
  lemma StrMemberLen(m: map<string, Value>, k: string, s: string)
    requires k in m && m[k] == Str(s) && Plain(k)
    ensures Utf8.Len(PrintMember(Obj(m), k)) == |k| + 5 + EscapedLen(s)
  {
    MemberLen(Obj(m), k);
    QuoteLen(s);
  }

  lemma PlainMemberLen(m: map<string, Value>, k: string, s: string)
    requires k in m && m[k] == Str(s) && Plain(k) && Plain(s)
    ensures Utf8.Len(PrintMember(Obj(m), k)) == |k| + 5 + |s|
  {
    StrMemberLen(m, k, s);
    PlainLen(s);
  }

  lemma IntMemberLen(m: map<string, Value>, k: string, n: u64)
    requires k in m && m[k] == Num(PosInt(n)) && Plain(k)
    ensures Utf8.Len(PrintMember(Obj(m), k)) == |k| + 3 + |Decimal(n)|
  {
    MemberLen(Obj(m), k);
    IntLen(n);
  }

  /** One more integer member in front of a list of keys. */
  lemma IntCost(m: map<string, Value>, k: string, n: u64, ks: seq<string>)
    requires k in m && m[k] == Num(PosInt(n)) && Plain(k) && ks != [] && forall other | other in ks :: other in m
    ensures MembersCost(Obj(m), [k] + ks) == |k| + 4 + |Decimal(n)| + MembersCost(Obj(m), ks)
  {
    CostMore(Obj(m), k, ks);
    IntMemberLen(m, k, n);
  }

  /** One more string member in front of a list of keys. */
  lemma StrCost(m: map<string, Value>, k: string, s: string, ks: seq<string>)
    requires k in m && m[k] == Str(s) && Plain(k) && ks != [] && forall other | other in ks :: other in m
    ensures MembersCost(Obj(m), [k] + ks) == |k| + 6 + EscapedLen(s) + MembersCost(Obj(m), ks)
  {
    CostMore(Obj(m), k, ks);
    StrMemberLen(m, k, s);
  }

  /** An object of two string members. */
  lemma TextObjectLen2(m: map<string, Value>, k1: string, k2: string, s1: string, s2: string)
    requires m.Keys == {k1, k2} && Before(k1, k2) && Plain(k1) && Plain(k2)
    requires m[k1] == Str(s1) && m[k2] == Str(s2)
    ensures Utf8.Len(Print(Obj(m))) == 13 + |k1| + |k2| + EscapedLen(s1) + EscapedLen(s2)
  {
    ObjectLen2(m, k1, k2);
    StrMemberLen(m, k1, s1);
    StrMemberLen(m, k2, s2);
  }

  /** An object of three string members, all plain but the second. */
  lemma TextObjectLen3(m: map<string, Value>, k1: string, k2: string, k3: string, s1: string, text: string, s3: string)
    requires m.Keys == {k1, k2, k3} && Before(k1, k2) && Before(k2, k3) && Plain(k1) && Plain(k2) && Plain(k3)
    requires m[k1] == Str(s1) && m[k2] == Str(text) && m[k3] == Str(s3) && Plain(s1) && Plain(s3)
    ensures Utf8.Len(Print(Obj(m))) == 19 + |k1| + |k2| + |k3| + |s1| + EscapedLen(text) + |s3|
  {
    ObjectLen3(m, k1, k2, k3);
    PlainMemberLen(m, k1, s1);
    StrMemberLen(m, k2, text);
    PlainMemberLen(m, k3, s3);
  }

  /** An object of four string members, all plain but the third. */
  lemma TextObjectLen4(m: map<string, Value>, k1: string, k2: string, k3: string, k4: string,
                       s1: string, s2: string, text: string, s4: string)
    requires m.Keys == {k1, k2, k3, k4} && Before(k1, k2) && Before(k2, k3) && Before(k3, k4)
    requires Plain(k1) && Plain(k2) && Plain(k3) && Plain(k4) && Plain(s1) && Plain(s2) && Plain(s4)
    requires m[k1] == Str(s1) && m[k2] == Str(s2) && m[k3] == Str(text) && m[k4] == Str(s4)
    ensures Utf8.Len(Print(Obj(m)))
         == 25 + |k1| + |k2| + |k3| + |k4| + |s1| + |s2| + EscapedLen(text) + |s4|
  {
    ObjectLen4(m, k1, k2, k3, k4);
    PlainMemberLen(m, k1, s1);
    PlainMemberLen(m, k2, s2);
    StrMemberLen(m, k3, text);
    PlainMemberLen(m, k4, s4);
  }

  lemma PlainAppend(a: string, b: string)
    requires Plain(a) && Plain(b)
    ensures Plain(a + b)
  {
  }
}
