/** A reader of minified JSON documents, proved to read back everything the printer writes except
    floating-point numbers. It shows that the codec theorems' assumption on the JSON parser can be
    met: printing loses nothing. */
module JsonReader {
  import opened Prelude
  import opened CanonicalSeq
  import opened Json

  datatype Parsed<T> = Fail | Got(v: T, rest: string)

  // ---- Strings -------------------------------------------------------------------------------

  /** A `\u00xx` escape: the character and the number of characters read. */
  function ReadHexEscape(s: string): Option<char> {
    if |s| >= 6 && s[2] == '0' && s[3] == '0' && HexValue(s[4]).Some? && HexValue(s[5]).Some?
    then Some((HexValue(s[4]).value * 16 + HexValue(s[5]).value) as char)
    else None
  }

  /** The first character of a string body and its width in the text. */
  function ReadChar(s: string): (r: Option<(char, nat)>)
    ensures r.Some? ==> 1 <= r.value.1 <= |s|
  {
    if s == "" || s[0] as int < 0x20 || s[0] == '"' then None
    else if s[0] != '\\' then Some((s[0], 1))
    else if |s| < 2 then None
    else if s[1] == '"' || s[1] == '\\' then Some((s[1], 2))
    else if s[1] == 'b' then Some((8 as char, 2))
    else if s[1] == 't' then Some(('\t', 2))
    else if s[1] == 'n' then Some(('\n', 2))
    else if s[1] == 'f' then Some((12 as char, 2))
    else if s[1] == 'r' then Some(('\r', 2))
    else if s[1] == 'u' && ReadHexEscape(s).Some? then Some((ReadHexEscape(s).value, 6))
    else None
  }

  /** A string body up to its closing quote. */
  function ReadString(s: string): (r: Parsed<string>)
    ensures r.Got? ==> |r.rest| < |s|
    decreases |s|
  {
    if s != "" && s[0] == '"' then Got("", s[1..])
    else
      match ReadChar(s)
      case None => Fail
      case Some((c, width)) =>
        match ReadString(s[width..])
        case Fail => Fail
        case Got(t, rest) => Got([c] + t, rest)
  }

  lemma ReadHexDigits(c: char)
    requires c as int < 0x20
    ensures HexValue(HEX[c as int / 16]) == Some(c as int / 16)
    ensures HexValue(HEX[c as int % 16]) == Some(c as int % 16)
  {
    assert forall i | 0 <= i < 16 :: HexValue(HEX[i]) == Some(i);
  }

  lemma ReadCharOfEscape(c: char, rest: string)
    ensures ReadChar(EscapeChar(c) + rest) == Some((c, |EscapeChar(c)|))
    ensures EscapeChar(c)[0] != '"'
  {
    var e := EscapeChar(c);
    var s := e + rest;
    assert forall i | 0 <= i < |e| :: s[i] == e[i];
    if |e| == 6 {
      ReadHexDigits(c);
      assert ReadHexEscape(s) == Some(c);
    }
  }

  lemma {:induction false} ReadStringOfEscape(t: string, rest: string)
    ensures ReadString(Escape(t) + "\"" + rest) == Got(t, rest)
  {
    if t == "" {
      assert Escape(t) + "\"" + rest == "\"" + rest;
    } else {
      var tail := Escape(t[1..]) + "\"" + rest;
      assert Escape(t) + "\"" + rest == EscapeChar(t[0]) + tail;
      ReadCharOfEscape(t[0], tail);
      ReadStringOfEscape(t[1..], rest);
      assert (EscapeChar(t[0]) + tail)[|EscapeChar(t[0])|..] == tail;
      assert t == [t[0]] + t[1..];
    }
  }

  // ---- Numbers -------------------------------------------------------------------------------

  /** The length of the digits `s` starts with. */
  function DigitRun(s: string): (n: nat)
    ensures n <= |s| && AllDigits(s[..n])
  {
    if s == "" || !IsDigit(s[0]) then 0 else 1 + DigitRun(s[1..])
  }

  predicate EndsNumber(rest: string) {
    rest == "" || !IsDigit(rest[0])
  }

  lemma {:induction false} DigitRunExact(digits: string, rest: string)
    requires AllDigits(digits) && EndsNumber(rest)
    ensures DigitRun(digits + rest) == |digits|
  {
    if digits == "" {
      assert digits + rest == rest;
    } else {
      DigitRunExact(digits[1..], rest);
      assert (digits + rest)[1..] == digits[1..] + rest;
    }
  }

  function ReadNumber(s: string): (r: Parsed<Number>)
    ensures r.Got? ==> |r.rest| < |s|
  {
    var negative := s != "" && s[0] == '-';
    var body := if negative then s[1..] else s;
    var n := DigitRun(body);
    if n == 0 then Fail
    else
      var value := DigitsValue(body[..n]);
      if negative then
        if 0 < value <= 0x8000_0000_0000_0000 then Got(NegInt(value), body[n..]) else Fail
      else if value <= U64_MAX then Got(PosInt(value), body[n..])
      else Fail
  }

  lemma ReadNumberOfPrint(n: Number, rest: string)
    requires !n.Float? && EndsNumber(rest)
    ensures ReadNumber(PrintNumber(n) + rest) == Got(n, rest)
    ensures PrintNumber(n) != "" && (PrintNumber(n)[0] == '-' || IsDigit(PrintNumber(n)[0]))
  {
    var v: nat := if n.PosInt? then n.n else n.magnitude;
    var body := Decimal(v) + rest;
    DecimalParses(v);
    DigitRunExact(Decimal(v), rest);
    assert body[..|Decimal(v)|] == Decimal(v) && body[|Decimal(v)|..] == rest;
    if n.NegInt? {
      assert (PrintNumber(n) + rest)[1..] == body;
    } else {
      assert PrintNumber(n) + rest == body;
    }
  }

  // ---- Values --------------------------------------------------------------------------------

  function ReadValue(s: string): (r: Parsed<Value>)
    ensures r.Got? ==> |r.rest| < |s|
    decreases |s|, 1
  {
    if s == "" then Fail
    else if s[0] == 'n' then (if "null" <= s then Got(Null, s[4..]) else Fail)
    else if s[0] == 't' then (if "true" <= s then Got(Bool(true), s[4..]) else Fail)
    else if s[0] == 'f' then (if "false" <= s then Got(Bool(false), s[5..]) else Fail)
    else if s[0] == '"' then
      match ReadString(s[1..])
      case Fail => Fail
      case Got(t, rest) => Got(Str(t), rest)
    else if s[0] == '[' then
      if |s| > 1 && s[1] == ']' then Got(Arr([]), s[2..])
      else
        match ReadItems(s[1..])
        case Fail => Fail
        case Got(items, rest) => Got(Arr(items), rest)
    else if s[0] == '{' then
      if |s| > 1 && s[1] == '}' then Got(Obj(map[]), s[2..])
      else
        match ReadMembers(s[1..])
        case Fail => Fail
        case Got(m, rest) => Got(Obj(m), rest)
    else
      match ReadNumber(s)
      case Fail => Fail
      case Got(n, rest) => Got(Num(n), rest)
  }

  function ReadItems(s: string): (r: Parsed<seq<Value>>)
    ensures r.Got? ==> |r.rest| < |s|
    decreases |s|, 2
  {
    match ReadValue(s)
    case Fail => Fail
    case Got(v, rest) =>
      if rest != "" && rest[0] == ']' then Got([v], rest[1..])
      else if rest != "" && rest[0] == ',' then
        match ReadItems(rest[1..])
        case Fail => Fail
        case Got(vs, rest') => Got([v] + vs, rest')
      else Fail
  }

  function ReadMember(s: string): (r: Parsed<(string, Value)>)
    ensures r.Got? ==> |r.rest| < |s|
    decreases |s|, 2
  {
    if s == "" || s[0] != '"' then Fail
    else
      match ReadString(s[1..])
      case Fail => Fail
      case Got(k, rest) =>
        if rest == "" || rest[0] != ':' then Fail
        else
          match ReadValue(rest[1..])
          case Fail => Fail
          case Got(v, rest') => Got((k, v), rest')
  }

  /** Members up to the closing brace; a repeated key keeps its last value. */
  function ReadMembers(s: string): (r: Parsed<map<string, Value>>)
    ensures r.Got? ==> |r.rest| < |s|
    decreases |s|, 3
  {
    match ReadMember(s)
    case Fail => Fail
    case Got((k, v), rest) =>
      if rest != "" && rest[0] == '}' then Got(map[k := v], rest[1..])
      else if rest != "" && rest[0] == ',' then
        match ReadMembers(rest[1..])
        case Fail => Fail
        case Got(m, rest') => Got(map[k := v] + m, rest')
      else Fail
  }

  /** A whole document. */
  function Read(s: string): Option<Value> {
    match ReadValue(s)
    case Fail => None
    case Got(v, rest) => if rest == "" then Some(v) else None
  }

  // ---- Reading back what was printed ---------------------------------------------------------

  /** No floating-point number anywhere in the value. */
  ghost predicate FloatFree(v: Value) {
    match v
    case Num(n) => !n.Float?
    case Arr(items) => forall i | 0 <= i < |items| :: FloatFree(items[i])
    case Obj(members) => forall k | k in members :: FloatFree(members[k])
    case _ => true
  }

  lemma PrintStarts(v: Value)
    requires FloatFree(v)
    ensures Print(v) != "" && Print(v)[0] != ']' && Print(v)[0] != '}'
  {
    if v.Num? {
      ReadNumberOfPrint(v.number, "");
    }
  }

  lemma ReadLeaf(v: Value, rest: string)
    requires v.Null? || v.Bool?
    ensures ReadValue(Print(v) + rest) == Got(v, rest)
  {
    var s := Print(v) + rest;
    if v == Bool(false) {
      assert s[..5] == "false" && s[5..] == rest;
    } else {
      assert s[..4] == Print(v) && s[4..] == rest;
    }
  }

  // How printed texts fall apart, stated away from the reader.

  lemma QuoteText(t: string, rest: string)
    ensures Quote(t) + rest == "\"" + (Escape(t) + "\"" + rest)
  {
  }

  lemma ArrayText(v: Value, rest: string)
    requires v.Arr?
    ensures Print(v) + rest == "[" + (PrintItems(v, 0) + "]" + rest)
  {
  }

  lemma ObjectText(v: Value, rest: string)
    requires v.Obj?
    ensures Print(v) + rest == "{" + (PrintMembers(v, SortedKeys(v.members.Keys)) + "}" + rest)
  {
  }

  lemma ListText(first: string, isLast: bool, tail: string, close: string, rest: string)
    requires isLast ==> tail == ""
    ensures first + (if isLast then "" else ",") + tail + close + rest
         == first + (if isLast then close + rest else "," + (tail + close + rest))
  {
  }

  lemma ItemsText(v: Value, from: nat, rest: string)
    requires v.Arr? && from < |v.items|
    ensures PrintItems(v, from) + "]" + rest ==
            Print(v.items[from])
            + (if from + 1 == |v.items| then "]" + rest else "," + (PrintItems(v, from + 1) + "]" + rest))
  {
    ListText(Print(v.items[from]), from + 1 == |v.items|, PrintItems(v, from + 1), "]", rest);
  }

  lemma ReadLastItem(s: string, v: Value, rest: string)
    requires ReadValue(s) == Got(v, "]" + rest)
    ensures ReadItems(s) == Got([v], rest)
  {
    assert ("]" + rest)[1..] == rest;
  }

  lemma ReadMoreItems(s: string, v: Value, tail: string, vs: seq<Value>, rest: string)
    requires ReadValue(s) == Got(v, "," + tail) && ReadItems(tail) == Got(vs, rest)
    ensures ReadItems(s) == Got([v] + vs, rest)
  {
    assert ("," + tail)[1..] == tail;
  }

  lemma MemberText(v: Value, k: string, rest: string)
    requires v.Obj? && k in v.members
    ensures PrintMember(v, k) + rest == Quote(k) + ":" + (Print(v.members[k]) + rest)
  {
  }

  lemma MembersText(v: Value, ks: seq<string>, rest: string)
    requires v.Obj? && ks != [] && forall k | k in ks :: k in v.members
    ensures PrintMembers(v, ks) + "}" + rest ==
            PrintMember(v, ks[0]) + (if |ks| == 1 then "}" + rest else "," + (PrintMembers(v, ks[1..]) + "}" + rest))
  {
    ListText(PrintMember(v, ks[0]), |ks| == 1, PrintMembers(v, ks[1..]), "}", rest);
  }

  lemma MembersStart(v: Value, ks: seq<string>)
    requires v.Obj? && ks != [] && forall k | k in ks :: k in v.members
    ensures PrintMembers(v, ks) != "" && PrintMembers(v, ks)[0] == '"'
  {
  }

  lemma ReadQuoted(inner: string, t: string, rest: string)
    requires ReadString(inner) == Got(t, rest)
    ensures ReadValue("\"" + inner) == Got(Str(t), rest)
  {
    assert ("\"" + inner)[1..] == inner;
  }

  lemma ReadText(t: string, rest: string)
    ensures ReadValue(Quote(t) + rest) == Got(Str(t), rest)
  {
    QuoteText(t, rest);
    ReadStringOfEscape(t, rest);
    ReadQuoted(Escape(t) + "\"" + rest, t, rest);
  }

  lemma ReadBracketed(inner: string, items: seq<Value>, rest: string)
    requires inner != "" && inner[0] != ']' && ReadItems(inner) == Got(items, rest)
    ensures ReadValue("[" + inner) == Got(Arr(items), rest)
  {
    assert ("[" + inner)[1..] == inner;
  }

  lemma ReadBraced(inner: string, m: map<string, Value>, rest: string)
    requires inner != "" && inner[0] != '}' && ReadMembers(inner) == Got(m, rest)
    ensures ReadValue("{" + inner) == Got(Obj(m), rest)
  {
    assert ("{" + inner)[1..] == inner;
  }

  lemma {:induction false} ReadPrinted(v: Value, rest: string)
    requires FloatFree(v) && EndsNumber(rest)
    ensures ReadValue(Print(v) + rest) == Got(v, rest)
    decreases v, 2, 0
  {
    match v
    case Null => ReadLeaf(v, rest);
    case Bool(_) => ReadLeaf(v, rest);
    case Num(n) => ReadNumberOfPrint(n, rest);
    case Str(t) => ReadText(t, rest);
    case Arr(items) => ReadPrintedArray(v, rest);
    case Obj(members) => ReadPrintedObject(v, rest);
  }

  lemma {:induction false} ReadPrintedArray(v: Value, rest: string)
    requires v.Arr? && FloatFree(v)
    ensures ReadValue(Print(v) + rest) == Got(v, rest)
    decreases v, 1, |v.items| + 1
  {
    ArrayText(v, rest);
    if v.items == [] {
      assert Print(v) + rest == "[]" + rest;
    } else {
      ReadPrintedItems(v, 0, rest);
      var inner := PrintItems(v, 0) + "]" + rest;
      PrintStarts(v.items[0]);
      assert v.items[0..] == v.items;
      ReadBracketed(inner, v.items, rest);
    }
  }

  lemma {:induction false} ReadPrintedObject(v: Value, rest: string)
    requires v.Obj? && FloatFree(v)
    ensures ReadValue(Print(v) + rest) == Got(v, rest)
    decreases v, 1, |v.members.Keys| + 1
  {
    var ks := SortedKeys(v.members.Keys);
    ObjectText(v, rest);
    if ks == [] {
      assert v.members == map[];
      assert Print(v) + rest == "{}" + rest;
    } else {
      SortedKeysCount(v.members.Keys);
      ReadPrintedMembers(v, ks, rest);
      MembersStart(v, ks);
      assert Listed(v.members, ks) == v.members;
      ReadBraced(PrintMembers(v, ks) + "}" + rest, v.members, rest);
    }
  }

  lemma {:induction false} ReadPrintedItems(v: Value, from: nat, rest: string)
    requires v.Arr? && from < |v.items| && FloatFree(v)
    ensures ReadItems(PrintItems(v, from) + "]" + rest) == Got(v.items[from..], rest)
    decreases v, 1, |v.items| - from
  {
    var first, all := v.items[from], PrintItems(v, from) + "]" + rest;
    ItemsText(v, from, rest);
    if from + 1 == |v.items| {
      ReadPrinted(first, "]" + rest);
      ReadLastItem(all, first, rest);
      assert v.items[from..] == [first];
    } else {
      var tail := PrintItems(v, from + 1) + "]" + rest;
      ReadPrinted(first, "," + tail);
      ReadPrintedItems(v, from + 1, rest);
      ReadMoreItems(all, first, tail, v.items[from + 1..], rest);
      assert v.items[from..] == [first] + v.items[from + 1..];
    }
  }

  lemma QuotedTail(body: string, value: string)
    ensures ("\"" + body + "\"" + ":" + value)[1..] == body + "\"" + (":" + value)
  {
  }

  lemma ReadMemberOf(k: string, value: string, v: Value, rest: string)
    requires ReadValue(value) == Got(v, rest)
    ensures ReadMember(Quote(k) + ":" + value) == Got((k, v), rest)
  {
    var s := Quote(k) + ":" + value;
    ReadStringOfEscape(k, ":" + value);
    QuotedTail(Escape(k), value);
    assert (":" + value)[1..] == value;
  }

  lemma {:induction false} ReadPrintedMember(v: Value, k: string, rest: string)
    requires v.Obj? && k in v.members && FloatFree(v) && EndsNumber(rest)
    ensures ReadMember(PrintMember(v, k) + rest) == Got((k, v.members[k]), rest)
    decreases v, 0, 0
  {
    var value := Print(v.members[k]) + rest;
    ReadPrinted(v.members[k], rest);
    ReadMemberOf(k, value, v.members[k], rest);
    MemberText(v, k, rest);
  }

  lemma ReadLastMember(s: string, k: string, v: Value, rest: string)
    requires ReadMember(s) == Got((k, v), "}" + rest)
    ensures ReadMembers(s) == Got(map[k := v], rest)
  {
    assert ("}" + rest)[1..] == rest;
  }

  lemma ReadMoreMembers(s: string, k: string, v: Value, tail: string, m: map<string, Value>, rest: string)
    requires ReadMember(s) == Got((k, v), "," + tail) && ReadMembers(tail) == Got(m, rest)
    ensures ReadMembers(s) == Got(map[k := v] + m, rest)
  {
    assert ("," + tail)[1..] == tail;
  }

  /** The members of an object listed by distinct keys. */
  function Listed(m: map<string, Value>, ks: seq<string>): map<string, Value>
    requires forall k | k in ks :: k in m
  {
    map k | k in ks :: m[k]
  }

  lemma ListedCons(m: map<string, Value>, ks: seq<string>)
    requires ks != [] && forall k | k in ks :: k in m
    ensures Listed(m, ks) == map[ks[0] := m[ks[0]]] + Listed(m, ks[1..])
  {
    assert forall k :: k in ks <==> k == ks[0] || k in ks[1..];
  }

  lemma {:induction false} ReadPrintedMembers(v: Value, ks: seq<string>, rest: string)
    requires v.Obj? && ks != [] && (forall k | k in ks :: k in v.members) && FloatFree(v)
    ensures ReadMembers(PrintMembers(v, ks) + "}" + rest) == Got(Listed(v.members, ks), rest)
    decreases v, 1, |ks|
  {
    var k, all := ks[0], PrintMembers(v, ks) + "}" + rest;
    ListedCons(v.members, ks);
    MembersText(v, ks, rest);
    if |ks| == 1 {
      ReadPrintedMember(v, k, "}" + rest);
      ReadLastMember(all, k, v.members[k], rest);
      assert Listed(v.members, ks) == map[k := v.members[k]];
    } else {
      var tail := PrintMembers(v, ks[1..]) + "}" + rest;
      ReadPrintedMember(v, k, "," + tail);
      ReadPrintedMembers(v, ks[1..], rest);
      ReadMoreMembers(all, k, v.members[k], tail, Listed(v.members, ks[1..]), rest);
    }
  }

  /** Printing loses nothing: the reader reads back every value without floating-point numbers,
      nested objects and arrays and all Unicode strings included. */
  lemma ReadInvertsPrint(v: Value)
    requires FloatFree(v)
    ensures Read(Print(v)) == Some(v)
  {
    ReadPrinted(v, "");
    assert Print(v) + "" == Print(v);
  }
}
