/** JSON values as `serde_json` holds them, and their minified text (`serde_json::to_string`):
    object members in ascending key order, strings escaped as in section 7 of RFC 8259. */
module Json {
  import opened Prelude
  import opened CanonicalSeq

  /** The magnitudes of the negative i64 values. */
  type negative = n: nat | 0 < n <= 0x8000_0000_0000_0000 witness 1

  /** A JSON number, split as `Number::as_u64` sees it. `Float` keeps its text. */
  datatype Number = PosInt(n: u64) | NegInt(magnitude: negative) | Float(text: string)

  datatype Value =
    | Null
    | Bool(b: bool)
    | Num(number: Number)
    | Str(s: string)
    | Arr(items: seq<Value>)
    | Obj(members: map<string, Value>)

  // ---- Strings -------------------------------------------------------------------------------

  function EscapeChar(c: char): (e: string)
    ensures e != []
  {
    if c == '"' then "\\\""
    else if c == '\\' then "\\\\"
    else if c as int == 8 then "\\b"
    else if c == '\t' then "\\t"
    else if c == '\n' then "\\n"
    else if c as int == 12 then "\\f"
    else if c == '\r' then "\\r"
    else if c as int < 0x20 then "\\u00" + [HEX[c as int / 16], HEX[c as int % 16]]
    else [c]
  }

  /** The letter of the two-character escape of section 7 of RFC 8259, for the characters that
      have one and are written with it. */
  const SHORT_ESCAPES: map<int, char> :=
    map[0x22 := '"', 0x5C := '\\', 8 := 'b', 9 := 't', 10 := 'n', 12 := 'f', 13 := 'r']

  predicate HasShortEscape(c: char) {
    c as int in SHORT_ESCAPES
  }

  /** A control character without a letter. */
  predicate HasLongEscape(c: char) {
    c as int < 0x20 && !HasShortEscape(c)
  }

  /** The escapes: a backslash and the letter of the table; `\u00` and the two digits of any other
      control character, the high one first; and every other character as itself. */
  lemma EscapeTable(c: char)
    ensures HasShortEscape(c) ==> EscapeChar(c) == ['\\', SHORT_ESCAPES[c as int]]
    ensures HasLongEscape(c) ==>
              var e := EscapeChar(c);
              && |e| == 6 && e[..4] == ['\\', 'u', '0', '0']
              && HexValue(e[4]).Some? && HexValue(e[5]).Some?
              && HexValue(e[4]).value * 16 + HexValue(e[5]).value == c as int
    ensures !HasShortEscape(c) && !HasLongEscape(c) ==> EscapeChar(c) == [c]
  {
    if HasLongEscape(c) {
      HexDigitValue(c as int / 16);
      HexDigitValue(c as int % 16);
    }
  }

  function Escape(s: string): string {
    if s == "" then "" else EscapeChar(s[0]) + Escape(s[1..])
  }

  function Quote(s: string): string {
    "\"" + Escape(s) + "\""
  }

  // ---- Key order -----------------------------------------------------------------------------

  /** `a` sorts strictly before `b` (UTF-8 byte order and scalar value order coincide). */
  predicate Before(a: string, b: string) {
    b != "" && (a == "" || a[0] < b[0] || (a[0] == b[0] && Before(a[1..], b[1..])))
  }

  lemma {:induction false} BeforeTrichotomy(a: string, b: string)
    ensures a == b || Before(a, b) || Before(b, a)
    ensures !(Before(a, b) && Before(b, a)) && !Before(a, a)
  {
    if a != "" && b != "" {
      BeforeTrichotomy(a[1..], b[1..]);
      assert a == [a[0]] + a[1..] && b == [b[0]] + b[1..];
      BeforeTrichotomy(a[1..], a[1..]);
    } else if a != "" {
      BeforeTrichotomy(a[1..], a[1..]);
    }
  }

  /** Up to `n` the texts agree, and there `a` ends or has the smaller character. */
  predicate DiffersAt(a: string, b: string, n: nat) {
    n <= |a| && n < |b| && a[..n] == b[..n] && (n == |a| || a[n] < b[n])
  }

  /** The order is the lexicographic one. */
  lemma {:induction false} BeforeExact(a: string, b: string)
    ensures Before(a, b) <==> exists n: nat :: DiffersAt(a, b, n)
  {
    if b != "" {
      if a == "" || a[0] < b[0] {
        assert DiffersAt(a, b, 0);
      } else if a[0] == b[0] {
        BeforeExact(a[1..], b[1..]);
        forall n: nat | DiffersAt(a[1..], b[1..], n) ensures DiffersAt(a, b, n + 1) {
          assert a[..n + 1] == [a[0]] + a[1..][..n] && b[..n + 1] == [b[0]] + b[1..][..n];
        }
        forall n: nat | DiffersAt(a, b, n) ensures n > 0 && DiffersAt(a[1..], b[1..], n - 1) {
          assert a[..n][1..] == a[1..][..n - 1] && b[..n][1..] == b[1..][..n - 1];
        }
      } else {
        forall n: nat ensures !DiffersAt(a, b, n) {
          assert n > 0 && n <= |a| && n < |b| ==> a[..n][0] == a[0] && b[..n][0] == b[0];
        }
      }
    }
  }

  lemma {:induction false} BeforeTransitive(a: string, b: string, c: string)
    requires Before(a, b) && Before(b, c)
    ensures Before(a, c)
  {
    if a != "" && a[0] == b[0] && b[0] == c[0] {
      BeforeTransitive(a[1..], b[1..], c[1..]);
    }
  }

  predicate IsLeast(k: string, keys: set<string>) {
    k in keys && forall other | other in keys :: k == other || Before(k, other)
  }

  lemma {:induction false} LeastExists(keys: set<string>)
    requires keys != {}
    ensures exists k :: IsLeast(k, keys)
  {
    var k :| k in keys;
    var others := keys - {k};
    if others == {} {
      assert keys == {k};
      assert IsLeast(k, keys);
    } else {
      LeastExists(others);
      var least :| IsLeast(least, others);
      BeforeTrichotomy(k, least);
      if Before(k, least) {
        forall other | other in keys ensures k == other || Before(k, other) {
          if other != k && other != least {
            BeforeTransitive(k, least, other);
          }
        }
        assert IsLeast(k, keys);
      } else {
        assert IsLeast(least, keys);
      }
    }
  }

  lemma LeastUnique(a: string, b: string, keys: set<string>)
    requires IsLeast(a, keys) && IsLeast(b, keys)
    ensures a == b
  {
    BeforeTrichotomy(a, b);
  }

  lemma LeastAlwaysUnique(keys: set<string>)
    ensures forall a, b | IsLeast(a, keys) && IsLeast(b, keys) :: a == b
  {
    forall a, b | IsLeast(a, keys) && IsLeast(b, keys) ensures a == b {
      LeastUnique(a, b, keys);
    }
  }

  function Least(keys: set<string>): (k: string)
    requires keys != {}
    ensures IsLeast(k, keys)
  {
    LeastExists(keys);
    LeastAlwaysUnique(keys);
    var k :| k in keys && IsLeast(k, keys);
    k
  }

  /** The keys of an object in ascending order. */
  function SortedKeys(keys: set<string>): (ks: seq<string>)
    ensures forall k :: k in ks <==> k in keys
    decreases |keys|
  {
    if keys == {} then [] else
    var k := Least(keys);
    [k] + SortedKeys(keys - {k})
  }

  lemma {:induction false} SortedKeysCount(keys: set<string>)
    ensures |SortedKeys(keys)| == |keys|
    decreases |keys|
  {
    if keys != {} {
      SortedKeysCount(keys - {Least(keys)});
    }
  }

  ghost predicate Ascending(ks: seq<string>) {
    forall i, j | 0 <= i < j < |ks| :: Before(ks[i], ks[j])
  }

  /** A strictly ascending listing of the keys is the order they print in. */
  lemma {:induction false} SortedKeysUnique(keys: set<string>, ks: seq<string>)
    requires Ascending(ks) && keys == set k | k in ks
    ensures SortedKeys(keys) == ks
  {
    if ks != [] {
      var k := ks[0];
      assert IsLeast(k, keys);
      LeastUnique(k, Least(keys), keys);
      forall other | other in ks[1..] ensures other != k {
        BeforeTrichotomy(k, k);
      }
      assert keys - {k} == set other | other in ks[1..];
      assert Ascending(ks[1..]);
      SortedKeysUnique(keys - {k}, ks[1..]);
    } else {
      assert keys == {};
    }
  }

  // ---- Printing ------------------------------------------------------------------------------

  function PrintNumber(n: Number): string {
    match n
    case PosInt(v) => Decimal(v)
    case NegInt(v) => "-" + Decimal(v)
    case Float(text) => text
  }

  /** Minified JSON text. */
  function Print(v: Value): string
    decreases v, 2, 0
  {
    match v
    case Null => "null"
    case Bool(b) => if b then "true" else "false"
    case Num(n) => PrintNumber(n)
    case Str(s) => Quote(s)
    case Arr(items) => "[" + PrintItems(v, 0) + "]"
    case Obj(members) => "{" + PrintMembers(v, SortedKeys(members.Keys)) + "}"
  }

  function PrintItems(v: Value, from: nat): string
    requires v.Arr? && from <= |v.items|
    decreases v, 1, |v.items| - from
  {
    if from == |v.items| then ""
    else Print(v.items[from]) + (if from + 1 == |v.items| then "" else ",") + PrintItems(v, from + 1)
  }

  function PrintMembers(v: Value, ks: seq<string>): string
    requires v.Obj? && forall k | k in ks :: k in v.members
    decreases v, 1, |ks|
  {
    if ks == [] then ""
    else PrintMember(v, ks[0]) + (if |ks| == 1 then "" else ",") + PrintMembers(v, ks[1..])
  }

  function PrintMember(v: Value, k: string): string
    requires v.Obj? && k in v.members
    decreases v, 0, 0
  {
    Quote(k) + ":" + Print(v.members[k])
  }

  // ---- The text of a document ----------------------------------------------------------------

  /** The texts with a comma between each two. */
  function CommaJoined(parts: seq<string>): string {
    if parts == [] then ""
    else if |parts| == 1 then parts[0]
    else parts[0] + "," + CommaJoined(parts[1..])
  }

  function MemberTexts(m: map<string, Value>, ks: seq<string>): seq<string>
    requires forall k | k in ks :: k in m
  {
    seq(|ks|, i requires 0 <= i < |ks| => "\"" + Escape(ks[i]) + "\":" + Print(m[ks[i]]))
  }

  function ItemTexts(items: seq<Value>): seq<string> {
    seq(|items|, i requires 0 <= i < |items| => Print(items[i]))
  }

  lemma QuotedMember(e: string, value: string)
    ensures ("\"" + e + "\"") + ":" + value == "\"" + e + "\":" + value
  {
  }

  lemma JoinedFirst(texts: seq<string>, last: bool)
    requires texts != [] && last == (|texts| == 1)
    ensures CommaJoined(texts) == texts[0] + (if last then "" else ",") + CommaJoined(texts[1..])
  {
    if last {
      assert texts[1..] == [] && texts[0] + "" + "" == texts[0];
    }
  }

  lemma {:induction false} MembersJoined(v: Value, ks: seq<string>)
    requires v.Obj? && forall k | k in ks :: k in v.members
    ensures PrintMembers(v, ks) == CommaJoined(MemberTexts(v.members, ks))
  {
    if ks != [] {
      MembersJoined(v, ks[1..]);
      var texts := MemberTexts(v.members, ks);
      assert texts[1..] == MemberTexts(v.members, ks[1..]);
      QuotedMember(Escape(ks[0]), Print(v.members[ks[0]]));
      JoinedFirst(texts, |ks| == 1);
    }
  }

  /** Minified objects: between braces the members in strictly ascending key order, with commas
      between them, each a quoted escaped key, a colon and the printed value. */
  lemma ObjectPrints(m: map<string, Value>, ks: seq<string>)
    requires Ascending(ks) && m.Keys == set k | k in ks
    ensures Print(Obj(m)) == "{" + CommaJoined(MemberTexts(m, ks)) + "}"
  {
    SortedKeysUnique(m.Keys, ks);
    MembersJoined(Obj(m), ks);
  }

  lemma {:induction false} ItemsJoined(v: Value, from: nat)
    requires v.Arr? && from <= |v.items|
    ensures PrintItems(v, from) == CommaJoined(ItemTexts(v.items[from..]))
    decreases |v.items| - from
  {
    if from < |v.items| {
      ItemsJoined(v, from + 1);
      var texts := ItemTexts(v.items[from..]);
      assert texts[1..] == ItemTexts(v.items[from + 1..]);
      JoinedFirst(texts, from + 1 == |v.items|);
    }
  }

  /** Minified arrays and scalars. */
  lemma OtherPrints(v: Value)
    ensures v.Arr? ==> Print(v) == "[" + CommaJoined(ItemTexts(v.items)) + "]"
    ensures v.Str? ==> Print(v) == "\"" + Escape(v.s) + "\""
    ensures v.Num? && v.number.PosInt? ==> Print(v) == Decimal(v.number.n)
    ensures v.Num? && v.number.NegInt? ==> Print(v) == "-" + Decimal(v.number.magnitude)
    ensures v.Num? && v.number.Float? ==> Print(v) == v.number.text
    ensures v == Null ==> Print(v) == "null"
    ensures v.Bool? ==> Print(v) == if v.b then "true" else "false"
  {
    if v.Arr? {
      ItemsJoined(v, 0);
      assert v.items[0..] == v.items;
    }
  }
}
