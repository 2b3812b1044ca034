/**
  JSON values and text: the canonical printer's output form and an RFC 8259 reader for
  it. An object is a map, so a value carries no member order; numbers are integers.
 */
module JsonText {
  import opened Common
  import opened TextOrder
  import Unicode

  datatype Json =
    | JNull
    | JBool(b: bool)
    | JNumber(n: int)
    | JString(s: Text)
    | JArray(items: seq<Json>)
    | JObject(members: map<Text, Json>)

  const QUOTE: Unit := 0x22
  const BACKSLASH: Unit := 0x5C
  const COMMA: Unit := 0x2C
  const COLON: Unit := 0x3A
  const MINUS: Unit := 0x2D
  const ARRAY_OPEN: Unit := 0x5B
  const ARRAY_CLOSE: Unit := 0x5D
  const OBJECT_OPEN: Unit := 0x7B
  const OBJECT_CLOSE: Unit := 0x7D
  const NULL_TEXT: Text := [0x6E, 0x75, 0x6C, 0x6C]
  const TRUE_TEXT: Text := [0x74, 0x72, 0x75, 0x65]
  const FALSE_TEXT: Text := [0x66, 0x61, 0x6C, 0x73, 0x65]

  // ----- Printing -----

  function HexDigit(n: int): Unit
    requires 0 <= n < 16
  {
    if n < 10 then 0x30 + n else 0x61 + n - 10
  }

  function Hex4(u: Unit): Text {
    [HexDigit(u / 0x1000), HexDigit(u / 0x100 % 0x10), HexDigit(u / 0x10 % 0x10), HexDigit(u % 0x10)]
  }

  /** The letter after the backslash in a two-character escape, if there is one. */
  function ShortEscape(u: Unit): Option<Unit> {
    if u == 0x08 then Some(0x62)
    else if u == 0x09 then Some(0x74)
    else if u == 0x0A then Some(0x6E)
    else if u == 0x0C then Some(0x66)
    else if u == 0x0D then Some(0x72)
    else if u == QUOTE || u == BACKSLASH then Some(u)
    else None
  }

  function EscapeUnit(u: Unit): Text {
    match ShortEscape(u)
    case Some(c) => [BACKSLASH, c]
    case None =>
      if u < 0x20 || Unicode.IsHigh(u) || Unicode.IsLow(u) then [BACKSLASH, 0x75] + Hex4(u) else [u]
  }

  /** Well-formed JSON.stringify: surrogate pairs stay, lone surrogates are escaped. */
  function QuoteBody(s: Text): Text {
    if s == [] then []
    else if Unicode.IsHigh(s[0]) && |s| > 1 && Unicode.IsLow(s[1]) then s[..2] + QuoteBody(s[2..])
    else EscapeUnit(s[0]) + QuoteBody(s[1..])
  }

  function Quote(s: Text): Text {
    [QUOTE] + QuoteBody(s) + [QUOTE]
  }

  function PrintNat(n: nat): Text {
    if n < 10 then [0x30 + n] else PrintNat(n / 10) + [0x30 + n % 10]
  }

  function PrintNumber(n: int): Text {
    if n < 0 then [MINUS] + PrintNat(-n) else PrintNat(n)
  }

  function Join(parts: seq<Text>): Text {
    JoinWith(parts, COMMA)
  }

  function PrintBool(b: bool): Text {
    if b then TRUE_TEXT else FALSE_TEXT
  }

  function Entry(key: Text, printed: Text): Text {
    Quote(key) + [COLON] + printed
  }

  /** The canonical text of a value: no white space, members in ascending key order. */
  ghost function Print(t: Json): Text {
    match t
    case JNull => NULL_TEXT
    case JBool(b) => PrintBool(b)
    case JNumber(n) => PrintNumber(n)
    case JString(s) => Quote(s)
    case JArray(items) =>
      [ARRAY_OPEN] + Join(seq(|items|, i requires 0 <= i < |items| => Print(items[i]))) + [ARRAY_CLOSE]
    case JObject(members) =>
      var keys := InOrder(members.Keys);
      [OBJECT_OPEN]
      + Join(seq(|keys|, i requires 0 <= i < |keys| => Entry(keys[i], Print(members[keys[i]]))))
      + [OBJECT_CLOSE]
  }

  // ----- What is escaped, and the order of members -----

  /** A character that stands for itself between the quotes. */
  predicate Verbatim(u: Unit) {
    u >= 0x20 && u != 0x22 && u != 0x5C
  }

  /** Exactly control characters, the quote, the backslash and lone surrogates are escaped. */
  lemma EscapedIff(u: Unit)
    ensures EscapeUnit(u) == [u] <==> Verbatim(u) && !(0xD800 <= u <= 0xDFFF)
  {
  }

  predicate IsLowerHex(u: Unit) {
    IsDigit(u) || 0x61 <= u <= 0x66
  }

  /** The two-character escapes. */
  lemma ShortEscapes()
    ensures EscapeUnit(0x08) == Units("\\b") && EscapeUnit(0x09) == Units("\\t") && EscapeUnit(0x0A) == Units("\\n")
    ensures EscapeUnit(0x0C) == Units("\\f") && EscapeUnit(0x0D) == Units("\\r")
    ensures EscapeUnit(0x22) == Units("\\\"") && EscapeUnit(0x5C) == Units("\\\\")
  {
  }

  /** Every other escape is `\u` and four lower-case digits that spell the unit. */
  lemma LongEscapes(u: Unit)
    requires EscapeUnit(u) != [u] && u !in {0x08, 0x09, 0x0A, 0x0C, 0x0D, 0x22, 0x5C}
    ensures var e := EscapeUnit(u);
            && |e| == 6 && e[0] == 0x5C && e[1] == 0x75 && ReadHex4(e[2..]) == Some(u)
            && forall i :: 2 <= i < 6 ==> IsLowerHex(e[i])
  {
    Hex4RoundTrip(u, []);
    assert Hex4(u) + [] == Hex4(u) && ([BACKSLASH, 0x75] + Hex4(u))[2..] == Hex4(u);
    assert forall i :: 0 <= i < 4 ==> IsLowerHex(Hex4(u)[i]);
  }

  lemma EscapeLength(u: Unit)
    ensures |EscapeUnit(u)| >= 1 && (EscapeUnit(u) != [u] ==> |EscapeUnit(u)| > 1)
  {
  }

  lemma {:induction false} QuoteLonger(s: Text)
    ensures |QuoteBody(s)| >= |s|
    ensures |QuoteBody(s)| == |s| <==> Unicode.WellFormed(s) && forall u :: u in s ==> Verbatim(u)
    ensures |QuoteBody(s)| == |s| ==> QuoteBody(s) == s
  {
    if s == [] {
    } else if Unicode.IsHigh(s[0]) && |s| > 1 && Unicode.IsLow(s[1]) {
      QuoteLonger(s[2..]);
      assert s == [s[0], s[1]] + s[2..] == s[..2] + s[2..];
      assert forall u :: u in s <==> u == s[0] || u == s[1] || u in s[2..];
    } else {
      QuoteLonger(s[1..]);
      EscapedIff(s[0]);
      EscapeLength(s[0]);
      assert s == [s[0]] + s[1..];
      assert forall u :: u in s <==> u == s[0] || u in s[1..];
    }
  }

  /** A string is printed as it is exactly when it is well-formed and holds nothing to escape; surrogate pairs stay. */
  lemma QuotedAsIsIff(s: Text)
    ensures QuoteBody(s) == s <==> Unicode.WellFormed(s) && forall u :: u in s ==> Verbatim(u)
  {
    QuoteLonger(s);
  }

  lemma EscapeIsWellFormed(u: Unit, rest: Text)
    requires Unicode.WellFormed(rest)
    ensures Unicode.WellFormed(EscapeUnit(u) + rest)
  {
    var e := EscapeUnit(u);
    PlainPrefix(e, rest);
  }

  lemma {:induction false} PlainPrefix(e: Text, rest: Text)
    requires Unicode.WellFormed(rest) && forall i :: 0 <= i < |e| ==> !(0xD800 <= e[i] <= 0xDFFF)
    ensures Unicode.WellFormed(e + rest)
  {
    if e == [] {
      assert e + rest == rest;
    } else {
      PlainPrefix(e[1..], rest);
      assert (e + rest)[1..] == e[1..] + rest;
    }
  }

  /** Whatever the string, what is printed is well-formed. */
  lemma {:induction false} QuotedIsWellFormed(s: Text)
    ensures Unicode.WellFormed(QuoteBody(s))
  {
    if s == [] {
    } else if Unicode.IsHigh(s[0]) && |s| > 1 && Unicode.IsLow(s[1]) {
      QuotedIsWellFormed(s[2..]);
      assert (s[..2] + QuoteBody(s[2..]))[2..] == QuoteBody(s[2..]);
    } else {
      QuotedIsWellFormed(s[1..]);
      EscapeIsWellFormed(s[0], QuoteBody(s[1..]));
    }
  }

  /** The members of a printed object, each key before those after it. */
  lemma MembersAscend(members: map<Text, Json>) returns (keys: seq<Text>)
    ensures Elements(keys) == members.Keys && Ascending(keys)
    ensures forall i :: 0 <= i < |keys| ==> keys[i] in members
    ensures Print(JObject(members)) == [OBJECT_OPEN] + Join(PrintEntries(members, keys)) + [OBJECT_CLOSE]
  {
    keys := InOrder(members.Keys);
    SortedIsAscending(keys);
  }

  /** The words and the separators of RFC 8259. */
  lemma Words()
    ensures NULL_TEXT == Units("null") && PrintBool(true) == Units("true") && PrintBool(false) == Units("false")
    ensures [OBJECT_OPEN, OBJECT_CLOSE, ARRAY_OPEN, ARRAY_CLOSE, COLON, COMMA, QUOTE, MINUS] == Units("{}[]:,\"-")
  {
  }

  /** The members of `{a: .., A: .., ab: ..}`: upper case first, and a prefix before what it begins. */
  lemma SampleOrder(members: map<Text, Json>)
    requires members.Keys == {Units("a"), Units("A"), Units("ab")}
    ensures InOrder(members.Keys) == [Units("A"), Units("a"), Units("ab")]
  {
    var keys := [Units("A"), Units("a"), Units("ab")];
    assert DiffersAt(keys[0], keys[1], 0) && DiffersAt(keys[0], keys[2], 0) && DiffersAt(keys[1], keys[2], 1);
    assert Ascending(keys);
    SortedIsAscending(keys);
    assert Elements(keys) == members.Keys;
    SortedUnique(keys, InOrder(members.Keys));
  }

  // ----- Reading (RFC 8259) -----

  predicate IsSpace(u: Unit) {
    u == 0x20 || u == 0x09 || u == 0x0A || u == 0x0D
  }

  function SkipSpace(t: Text): (r: Text)
    ensures |r| <= |t|
  {
    if t != [] && IsSpace(t[0]) then SkipSpace(t[1..]) else t
  }

  function HexValue(u: Unit): Option<int> {
    if IsDigit(u) then Some(u - 0x30)
    else if 0x61 <= u <= 0x66 then Some(u - 0x61 + 10)
    else if 0x41 <= u <= 0x46 then Some(u - 0x41 + 10)
    else None
  }

  function ReadHex4(t: Text): (r: Option<Unit>)
    requires |t| >= 4
  {
    var a :- HexValue(t[0]);
    var b :- HexValue(t[1]);
    var c :- HexValue(t[2]);
    var d :- HexValue(t[3]);
    var u := a * 0x1000 + b * 0x100 + c * 0x10 + d;
    if 0 <= u < 0x1_0000 then Some(u) else None
  }

  function Unescape(c: Unit): Option<Unit> {
    if c == 0x62 then Some(0x08)
    else if c == 0x74 then Some(0x09)
    else if c == 0x6E then Some(0x0A)
    else if c == 0x66 then Some(0x0C)
    else if c == 0x72 then Some(0x0D)
    else if c == QUOTE || c == BACKSLASH || c == 0x2F then Some(c)
    else None
  }

  /** The characters of a string after its opening quote, and the text after its closing one. */
  function ReadString(t: Text): (r: Option<(Text, Text)>)
    ensures r.Some? ==> |r.value.1| < |t|
  {
    if t == [] then None
    else if t[0] == QUOTE then Some(([], t[1..]))
    else if t[0] < 0x20 then None
    else if t[0] != BACKSLASH then
      var (s, rest) :- ReadString(t[1..]);
      Some(([t[0]] + s, rest))
    else if |t| >= 6 && t[1] == 0x75 then
      var u :- ReadHex4(t[2..]);
      var (s, rest) :- ReadString(t[6..]);
      Some(([u] + s, rest))
    else if |t| >= 2 then
      var u :- Unescape(t[1]);
      var (s, rest) :- ReadString(t[2..]);
      Some(([u] + s, rest))
    else None
  }

  /** The letters that may follow a backslash, `u` apart (section 7 of RFC 8259). */
  lemma UnescapeListed(c: Unit)
    ensures Unescape(c).Some? <==> c in Units("\"\\/bfnrt")
  {
    assert Units("\"\\/bfnrt") == [QUOTE, BACKSLASH, 0x2F, 0x62, 0x66, 0x6E, 0x72, 0x74];
  }

  function ReadDigits(t: Text, acc: nat): (r: (nat, Text))
    ensures |r.1| <= |t|
  {
    if t != [] && IsDigit(t[0]) then ReadDigits(t[1..], acc * 10 + (t[0] - 0x30)) else (acc, t)
  }

  function ReadNat(t: Text): (r: Option<(nat, Text)>)
    ensures r.Some? ==> |r.value.1| < |t|
  {
    if t == [] || !IsDigit(t[0]) then None
    else
      var (n, rest) := if t[0] == 0x30 then (0, t[1..]) else ReadDigits(t[1..], t[0] - 0x30);
      // a fraction or an exponent is not an integer
      if rest != [] && rest[0] in {0x2E, 0x45, 0x65} then None else Some((n, rest))
  }

  function ReadWord(t: Text, word: Text, value: Json): (r: Option<(Json, Text)>)
    requires word != []
    ensures r.Some? ==> |r.value.1| < |t|
  {
    if word <= t then Some((value, t[|word|..])) else None
  }

  /** A word, string or number; `t` starts with it. */
  function ReadPlain(t: Text): (r: Option<(Json, Text)>)
    requires t != []
    ensures r.Some? ==> |r.value.1| < |t|
  {
    if t[0] == NULL_TEXT[0] then ReadWord(t, NULL_TEXT, JNull)
    else if t[0] == TRUE_TEXT[0] then ReadWord(t, TRUE_TEXT, JBool(true))
    else if t[0] == FALSE_TEXT[0] then ReadWord(t, FALSE_TEXT, JBool(false))
    else if t[0] == QUOTE then
      var (s, rest) :- ReadString(t[1..]);
      Some((JString(s), rest))
    else if t[0] == MINUS then
      var (n, rest) :- ReadNat(t[1..]);
      Some((JNumber(-(n as int)), rest))
    else if IsDigit(t[0]) then
      var (n, rest) :- ReadNat(t);
      Some((JNumber(n), rest))
    else None
  }

  function ReadValue(text: Text): (r: Option<(Json, Text)>)
    ensures r.Some? ==> |r.value.1| < |text|
    decreases |text|, 2
  {
    var t := SkipSpace(text);
    if t == [] then None
    else if t[0] == ARRAY_OPEN then ReadArray(SkipSpace(t[1..]))
    else if t[0] == OBJECT_OPEN then ReadObject(SkipSpace(t[1..]))
    else ReadPlain(t)
  }

  /** The inside of an array, from its first character that is not space. */
  function ReadArray(inside: Text): (r: Option<(Json, Text)>)
    ensures r.Some? ==> |r.value.1| < |inside|
    decreases |inside|, 4
  {
    if inside != [] && inside[0] == ARRAY_CLOSE then Some((JArray([]), inside[1..]))
    else
      var (items, rest) :- ReadItems(inside);
      Some((JArray(items), rest))
  }

  function ReadObject(inside: Text): (r: Option<(Json, Text)>)
    ensures r.Some? ==> |r.value.1| < |inside|
    decreases |inside|, 4
  {
    if inside != [] && inside[0] == OBJECT_CLOSE then Some((JObject(map[]), inside[1..]))
    else
      var (members, rest) :- ReadMembers(inside, map[]);
      Some((JObject(members), rest))
  }

  function ReadItems(t: Text): (r: Option<(seq<Json>, Text)>)
    ensures r.Some? ==> |r.value.1| < |t|
    decreases |t|, 3
  {
    var (item, after) :- ReadValue(t);
    var rest := SkipSpace(after);
    if rest == [] then None
    else if rest[0] == ARRAY_CLOSE then Some(([item], rest[1..]))
    else if rest[0] == COMMA then
      var (items, end) :- ReadItems(rest[1..]);
      Some(([item] + items, end))
    else None
  }

  /** Members after `members`; a repeated key takes its last value. */
  function ReadMembers(t: Text, members: map<Text, Json>): (r: Option<(map<Text, Json>, Text)>)
    ensures r.Some? ==> |r.value.1| < |t|
    decreases |t|, 3
  {
    var start := SkipSpace(t);
    if start == [] || start[0] != QUOTE then None
    else
      var (key, afterKey) :- ReadString(start[1..]);
      var colon := SkipSpace(afterKey);
      if colon == [] || colon[0] != COLON then None
      else
        var (value, after) :- ReadValue(colon[1..]);
        var rest := SkipSpace(after);
        var extended := members[key := value];
        if rest == [] then None
        else if rest[0] == OBJECT_CLOSE then Some((extended, rest[1..]))
        else if rest[0] == COMMA then ReadMembers(rest[1..], extended)
        else None
  }

  /** JSON.parse: one value and nothing else. */
  function Parse(text: Text): Option<Json> {
    var (value, rest) :- ReadValue(text);
    if SkipSpace(rest) == [] then Some(value) else None
  }

  // ----- Parsing what was printed -----

  lemma HexDigitRoundTrip(n: int)
    requires 0 <= n < 16
    ensures HexValue(HexDigit(n)) == Some(n)
  {
  }

  lemma Nibbles(u: Unit)
    ensures u == u / 0x1000 * 0x1000 + u / 0x100 % 0x10 * 0x100 + u / 0x10 % 0x10 * 0x10 + u % 0x10
    ensures 0 <= u / 0x1000 < 0x10
  {
    assert u / 0x100 == u / 0x10 / 0x10 && u / 0x1000 == u / 0x100 / 0x10;
  }

  lemma Hex4RoundTrip(u: Unit, rest: Text)
    ensures ReadHex4(Hex4(u) + rest) == Some(u)
  {
    var a, b, c, d := u / 0x1000, u / 0x100 % 0x10, u / 0x10 % 0x10, u % 0x10;
    Nibbles(u);
    HexDigitRoundTrip(a);
    HexDigitRoundTrip(b);
    HexDigitRoundTrip(c);
    HexDigitRoundTrip(d);
    var t := Hex4(u) + rest;
    assert t[0] == HexDigit(a) && t[1] == HexDigit(b) && t[2] == HexDigit(c) && t[3] == HexDigit(d);
  }

  /** Reading a string whose first character was printed as `printed`. */
  ghost function Prefixed(chars: Text, read: Option<(Text, Text)>): Option<(Text, Text)> {
    match read
    case None => None
    case Some(r) => Some((chars + r.0, r.1))
  }

  lemma RawRoundTrip(u: Unit, rest: Text)
    requires u >= 0x20 && u != QUOTE && u != BACKSLASH
    ensures ReadString([u] + rest) == Prefixed([u], ReadString(rest))
  {
    assert ([u] + rest)[1..] == rest;
  }

  lemma ShortRoundTrip(u: Unit, c: Unit, rest: Text)
    requires ShortEscape(u) == Some(c)
    ensures ReadString([BACKSLASH, c] + rest) == Prefixed([u], ReadString(rest))
  {
    assert ([BACKSLASH, c] + rest)[2..] == rest;
  }

  lemma HexRoundTrip(u: Unit, rest: Text)
    ensures ReadString([BACKSLASH, 0x75] + Hex4(u) + rest) == Prefixed([u], ReadString(rest))
  {
    var t := [BACKSLASH, 0x75] + Hex4(u) + rest;
    Hex4RoundTrip(u, rest);
    assert t[2..] == Hex4(u) + rest && t[6..] == rest;
  }

  lemma EscapeRoundTrip(u: Unit, rest: Text)
    ensures ReadString(EscapeUnit(u) + rest) == Prefixed([u], ReadString(rest))
  {
    match ShortEscape(u)
    case Some(c) => ShortRoundTrip(u, c, rest);
    case None =>
      if u < 0x20 || Unicode.IsHigh(u) || Unicode.IsLow(u) {
        HexRoundTrip(u, rest);
      } else {
        RawRoundTrip(u, rest);
      }
  }

  lemma PairRoundTrip(high: Unit, low: Unit, rest: Text)
    requires Unicode.IsHigh(high) && Unicode.IsLow(low)
    ensures ReadString([high] + ([low] + rest)) == Prefixed([high] + [low], ReadString(rest))
  {
    RawRoundTrip(high, [low] + rest);
    RawRoundTrip(low, rest);
    if ReadString(rest).Some? {
      var chars := ReadString(rest).value.0;
      assert [high] + ([low] + chars) == [high] + [low] + chars;
    }
  }

  lemma {:induction false} QuoteRoundTrip(s: Text, rest: Text)
    ensures ReadString(QuoteBody(s) + ([QUOTE] + rest)) == Some((s, rest))
    decreases s, 1
  {
    if s == [] {
      assert ([QUOTE] + rest)[1..] == rest;
      assert QuoteBody(s) + ([QUOTE] + rest) == [QUOTE] + rest;
    } else if Unicode.IsHigh(s[0]) && |s| > 1 && Unicode.IsLow(s[1]) {
      QuoteRoundTripPair(s, rest);
    } else {
      QuoteRoundTripUnit(s, rest);
    }
  }

  lemma {:induction false} QuoteRoundTripUnit(s: Text, rest: Text)
    requires s != [] && !(Unicode.IsHigh(s[0]) && |s| > 1 && Unicode.IsLow(s[1]))
    ensures ReadString(QuoteBody(s) + ([QUOTE] + rest)) == Some((s, rest))
    decreases s, 0
  {
    var tail := QuoteBody(s[1..]) + ([QUOTE] + rest);
    QuoteRoundTrip(s[1..], rest);
    EscapeRoundTrip(s[0], tail);
    QuoteUnit(s);
    Regroup(EscapeUnit(s[0]), QuoteBody(s[1..]), [QUOTE] + rest);
    assert s == [s[0]] + s[1..];
  }

  lemma Regroup(first: Text, more: Text, end: Text)
    ensures (first + more) + end == first + (more + end)
  {
  }

  lemma QuoteUnit(s: Text)
    requires s != [] && !(Unicode.IsHigh(s[0]) && |s| > 1 && Unicode.IsLow(s[1]))
    ensures QuoteBody(s) == EscapeUnit(s[0]) + QuoteBody(s[1..])
  {
  }

  lemma {:induction false} QuoteRoundTripPair(s: Text, rest: Text)
    requires |s| > 1 && Unicode.IsHigh(s[0]) && Unicode.IsLow(s[1])
    ensures ReadString(QuoteBody(s) + ([QUOTE] + rest)) == Some((s, rest))
    decreases s, 0
  {
    var tail := QuoteBody(s[2..]) + ([QUOTE] + rest);
    assert QuoteBody(s) + ([QUOTE] + rest) == [s[0]] + ([s[1]] + tail);
    PairRoundTrip(s[0], s[1], tail);
    QuoteRoundTrip(s[2..], rest);
    assert s == [s[0]] + [s[1]] + s[2..];
  }

  lemma {:induction false} DigitsRoundTrip(n: nat, rest: Text)
    ensures ReadDigits(PrintNat(n) + rest, 0) == ReadDigits(rest, n)
    ensures IsDigit(PrintNat(n)[0]) && (n > 0 ==> PrintNat(n)[0] != 0x30)
  {
    if n < 10 {
      assert ([0x30 + n] + rest)[1..] == rest;
    } else {
      var last: Text := [0x30 + n % 10];
      DigitsRoundTrip(n / 10, last + rest);
      assert PrintNat(n) + rest == PrintNat(n / 10) + (last + rest);
      assert (last + rest)[1..] == rest;
    }
  }

  /** What may follow a printed value: nothing, a comma or a closing bracket. */
  predicate Follows(rest: Text) {
    rest == [] || rest[0] == COMMA || rest[0] == ARRAY_CLOSE || rest[0] == OBJECT_CLOSE
  }

  lemma NatRoundTrip(n: nat, rest: Text)
    requires Follows(rest)
    ensures ReadNat(PrintNat(n) + rest) == Some((n, rest))
  {
    DigitsRoundTrip(n, rest);
    if n == 0 {
      assert (PrintNat(n) + rest)[1..] == rest;
    } else {
      ReadsDigits(PrintNat(n) + rest, n, rest);
    }
  }

  lemma ReadsDigits(t: Text, n: nat, rest: Text)
    requires t != [] && IsDigit(t[0]) && t[0] != 0x30 && Follows(rest)
    requires ReadDigits(t, 0) == ReadDigits(rest, n)
    ensures ReadNat(t) == Some((n, rest))
  {
    assert ReadDigits(t, 0) == ReadDigits(t[1..], t[0] - 0x30);
    assert ReadDigits(rest, n) == (n, rest);
  }

  /** The first unit of a printed value decides the reader's branch. */
  predicate Opens(u: Unit, t: Json) {
    match t
    case JNull => u == NULL_TEXT[0]
    case JBool(b) => u == PrintBool(b)[0]
    case JNumber(n) => if n < 0 then u == MINUS else IsDigit(u)
    case JString(_) => u == QUOTE
    case JArray(_) => u == ARRAY_OPEN
    case JObject(_) => u == OBJECT_OPEN
  }

  lemma PrintOpens(t: Json)
    ensures Print(t) != [] && Opens(Print(t)[0], t) && !IsSpace(Print(t)[0])
  {
    if t.JNumber? && t.n >= 0 {
      DigitsRoundTrip(t.n, []);
    }
  }

  ghost function PrintAll(items: seq<Json>): seq<Text> {
    seq(|items|, i requires 0 <= i < |items| => Print(items[i]))
  }

  ghost function PrintEntries(members: map<Text, Json>, keys: seq<Text>): seq<Text>
    requires forall i :: 0 <= i < |keys| ==> keys[i] in members
  {
    seq(|keys|, i requires 0 <= i < |keys| => Entry(keys[i], Print(members[keys[i]])))
  }

  lemma JoinCons(part: Text, parts: seq<Text>, end: Text)
    ensures Join([part] + parts) + end == part + (if parts == [] then end else [COMMA] + (Join(parts) + end))
  {
    assert ([part] + parts)[1..] == parts;
  }

  lemma ReadPrintedWord(t: Json, word: Text, rest: Text)
    requires (t.JNull? && word == NULL_TEXT) || (t.JBool? && word == PrintBool(t.b))
    ensures ReadValue(word + rest) == Some((t, rest))
  {
    var text := word + rest;
    assert text[0] == word[0];
    PlainStep(text);
    assert word <= text && text[|word|..] == rest;
  }

  lemma ReadPrintedNat(n: nat, rest: Text)
    requires Follows(rest)
    ensures ReadValue(PrintNat(n) + rest) == Some((JNumber(n), rest))
  {
    PrintOpens(JNumber(n));
    var text := PrintNat(n) + rest;
    assert text[0] == PrintNat(n)[0];
    PlainStep(text);
    NatRoundTrip(n, rest);
  }

  lemma ReadPrintedNegative(n: nat, rest: Text)
    requires Follows(rest)
    ensures ReadValue([MINUS] + PrintNat(n) + rest) == Some((JNumber(0 - n), rest))
  {
    Regroup([MINUS], PrintNat(n), rest);
    ReadMinus(PrintNat(n) + rest);
    NatRoundTrip(n, rest);
  }

  lemma ReadMinus(digits: Text)
    ensures ReadValue([MINUS] + digits) ==
            match ReadNat(digits) case None => None case Some(r) => Some((JNumber(0 - r.0), r.1))
  {
    var text := [MINUS] + digits;
    assert text[0] == MINUS && text[1..] == digits;
    PlainStep(text);
  }

  lemma ReadPrintedString(s: Text, rest: Text)
    ensures ReadValue(Quote(s) + rest) == Some((JString(s), rest))
  {
    var text := Quote(s) + rest;
    assert text[0] == QUOTE;
    PlainStep(text);
    QuoteRoundTrip(s, rest);
    assert text[1..] == QuoteBody(s) + ([QUOTE] + rest);
  }

  lemma ReadScalar(t: Json, rest: Text)
    requires !t.JArray? && !t.JObject? && Follows(rest)
    ensures ReadValue(Print(t) + rest) == Some((t, rest))
  {
    match t
    case JNull => ReadPrintedWord(t, NULL_TEXT, rest);
    case JBool(b) => ReadPrintedWord(t, PrintBool(b), rest);
    case JNumber(n) => if n < 0 { ReadPrintedNegative(-n, rest); } else { ReadPrintedNat(n, rest); }
    case JString(s) => ReadPrintedString(s, rest);
  }

  /** Printing then reading gives back the value and leaves the text that followed it. */
  lemma {:induction false} ReadPrinted(t: Json, rest: Text)
    requires Follows(rest)
    ensures ReadValue(Print(t) + rest) == Some((t, rest))
    decreases t, 2, 0
  {
    if t.JArray? {
      ReadPrintedArray(t, rest);
    } else if t.JObject? {
      ReadPrintedObject(t, rest);
    } else {
      ReadScalar(t, rest);
    }
  }

  lemma ArrayStep(inside: Text)
    requires inside != [] && !IsSpace(inside[0])
    ensures ReadValue([ARRAY_OPEN] + inside) == ReadArray(inside)
  {
    assert ([ARRAY_OPEN] + inside)[1..] == inside;
    assert SkipSpace([ARRAY_OPEN] + inside) == [ARRAY_OPEN] + inside;
  }

  lemma {:induction false} ReadPrintedArray(t: Json, rest: Text)
    requires t.JArray? && Follows(rest)
    ensures ReadValue(Print(t) + rest) == Some((t, rest))
    decreases t, 1, |t.items| + 1
  {
    var end := [ARRAY_CLOSE] + rest;
    var inside := Join(PrintAll(t.items)) + end;
    assert Print(t) + rest == [ARRAY_OPEN] + inside;
    if t.items == [] {
      assert inside == end && end[1..] == rest;
    } else {
      ReadPrintedItems(t, 0, rest);
      assert t.items[0..] == t.items;
      PrintOpens(t.items[0]);
      assert inside[0] == Print(t.items[0])[0];
    }
    ArrayStep(inside);
  }

  lemma ObjectStep(inside: Text)
    requires inside != [] && !IsSpace(inside[0])
    ensures ReadValue([OBJECT_OPEN] + inside) == ReadObject(inside)
  {
    assert ([OBJECT_OPEN] + inside)[1..] == inside;
    assert SkipSpace([OBJECT_OPEN] + inside) == [OBJECT_OPEN] + inside;
  }

  lemma PlainStep(text: Text)
    requires text != [] && !IsSpace(text[0]) && text[0] != ARRAY_OPEN && text[0] != OBJECT_OPEN
    ensures ReadValue(text) == ReadPlain(text)
  {
    assert SkipSpace(text) == text;
  }

  lemma ReadEmptyObject(t: Json, rest: Text)
    requires t.JObject? && InOrder(t.members.Keys) == []
    ensures ReadValue(Print(t) + rest) == Some((t, rest))
  {
    var inside := [OBJECT_CLOSE] + rest;
    assert Print(t) + rest == [OBJECT_OPEN] + inside && inside[1..] == rest;
    assert t.members.Keys == {};
    assert t.members == map[];
    ObjectStep(inside);
  }

  lemma {:induction false} ReadPrintedObject(t: Json, rest: Text)
    requires t.JObject? && Follows(rest)
    ensures ReadValue(Print(t) + rest) == Some((t, rest))
    decreases t, 1, |InOrder(t.members.Keys)| + 1
  {
    var keys := InOrder(t.members.Keys);
    if keys == [] {
      ReadEmptyObject(t, rest);
    } else {
      var inside := Join(PrintEntries(t.members, keys)) + ([OBJECT_CLOSE] + rest);
      ObjectText(t.members, rest);
      EntriesOpen(t.members, keys, [OBJECT_CLOSE] + rest);
      assert keys[0..] == keys;
      assert FirstMembers(t.members, keys, 0, map[]);
      ReadPrintedMembers(t, keys, 0, map[], rest);
      ObjectStep(inside);
    }
  }

  lemma ObjectText(members: map<Text, Json>, rest: Text)
    ensures Print(JObject(members)) + rest ==
            [OBJECT_OPEN] + (Join(PrintEntries(members, InOrder(members.Keys))) + ([OBJECT_CLOSE] + rest))
  {
  }

  lemma EntriesOpen(members: map<Text, Json>, keys: seq<Text>, end: Text)
    requires keys != [] && forall i :: 0 <= i < |keys| ==> keys[i] in members
    ensures Join(PrintEntries(members, keys)) != [] && (Join(PrintEntries(members, keys)) + end)[0] == QUOTE
  {
    var entries := PrintEntries(members, keys);
    assert entries == [entries[0]] + entries[1..];
    JoinCons(entries[0], entries[1..], end);
  }

  lemma ItemStep(text: Text, item: Json, after: Text)
    requires ReadValue(text) == Some((item, after))
    requires after != [] && (after[0] == ARRAY_CLOSE || after[0] == COMMA)
    ensures ReadItems(text) ==
            if after[0] == ARRAY_CLOSE then Some(([item], after[1..]))
            else match ReadItems(after[1..])
                 case None => None
                 case Some(more) => Some(([item] + more.0, more.1))
  {
    assert SkipSpace(after) == after;
  }

  lemma ItemsCons(items: seq<Json>, end: Text)
    requires items != []
    ensures Join(PrintAll(items)) + end ==
            Print(items[0]) + if |items| == 1 then end else [COMMA] + (Join(PrintAll(items[1..])) + end)
  {
    assert PrintAll(items) == [Print(items[0])] + PrintAll(items[1..]);
    JoinCons(Print(items[0]), PrintAll(items[1..]), end);
  }

  lemma {:induction false} ReadPrintedItems(t: Json, i: nat, rest: Text)
    requires t.JArray? && i < |t.items| && Follows(rest)
    ensures ReadItems(Join(PrintAll(t.items[i..])) + ([ARRAY_CLOSE] + rest)) == Some((t.items[i..], rest))
    decreases t, 1, |t.items| - i
  {
    var items, end := t.items[i..], [ARRAY_CLOSE] + rest;
    ItemsCons(items, end);
    if i + 1 == |t.items| {
      assert items == [t.items[i]];
      ReadPrinted(t.items[i], end);
      ItemStep(Print(t.items[i]) + end, t.items[i], end);
      assert end[1..] == rest;
    } else {
      var after := Join(PrintAll(items[1..])) + end;
      assert items[1..] == t.items[i + 1..];
      ReadPrinted(t.items[i], [COMMA] + after);
      ReadPrintedItems(t, i + 1, rest);
      assert ([COMMA] + after)[1..] == after;
      ItemStep(Print(t.items[i]) + ([COMMA] + after), t.items[i], [COMMA] + after);
      assert items == [t.items[i]] + items[1..];
    }
  }

  /** One printed member is read as that member, whatever follows. */
  lemma ReadPrintedEntry(key: Text, printed: Text, after: Text)
    ensures var text := Entry(key, printed) + after;
            text != [] && text[0] == QUOTE
            && ReadString(text[1..]) == Some((key, [COLON] + (printed + after)))
  {
    var text := Entry(key, printed) + after;
    var colon := [COLON] + (printed + after);
    assert text == [QUOTE] + (QuoteBody(key) + ([QUOTE] + colon));
    assert text[1..] == QuoteBody(key) + ([QUOTE] + colon);
    QuoteRoundTrip(key, colon);
  }

  lemma MemberStep(text: Text, done: map<Text, Json>, key: Text, colon: Text, value: Json, after: Text)
    requires text != [] && text[0] == QUOTE && ReadString(text[1..]) == Some((key, colon))
    requires colon != [] && colon[0] == COLON && ReadValue(colon[1..]) == Some((value, after))
    requires after != [] && (after[0] == OBJECT_CLOSE || after[0] == COMMA)
    ensures ReadMembers(text, done) ==
            if after[0] == OBJECT_CLOSE then Some((done[key := value], after[1..]))
            else ReadMembers(after[1..], done[key := value])
  {
  }

  /** `done` holds the members named by the first i keys. */
  ghost predicate FirstMembers(all: map<Text, Json>, keys: seq<Text>, i: nat, done: map<Text, Json>)
    requires i <= |keys|
  {
    && done.Keys == Elements(keys[..i])
    && forall k :: k in done ==> k in all && done[k] == all[k]
  }

  lemma NextMember(all: map<Text, Json>, keys: seq<Text>, i: nat, done: map<Text, Json>)
    requires i < |keys| && keys[i] in all && FirstMembers(all, keys, i, done)
    ensures FirstMembers(all, keys, i + 1, done[keys[i] := all[keys[i]]])
  {
    assert keys[..i + 1] == keys[..i] + [keys[i]];
  }

  lemma AllMembers(all: map<Text, Json>, keys: seq<Text>, done: map<Text, Json>)
    requires Elements(keys) == all.Keys && FirstMembers(all, keys, |keys|, done)
    ensures done == all
  {
    assert keys[..|keys|] == keys;
  }

  lemma {:induction false} ReadPrintedMembers(t: Json, keys: seq<Text>, i: nat, done: map<Text, Json>, rest: Text)
    requires t.JObject? && i < |keys| && Follows(rest)
    requires Elements(keys) == t.members.Keys
    requires forall j :: 0 <= j < |keys| ==> keys[j] in t.members
    requires FirstMembers(t.members, keys, i, done)
    ensures ReadMembers(Join(PrintEntries(t.members, keys[i..])) + ([OBJECT_CLOSE] + rest), done)
            == Some((t.members, rest))
    decreases t, 1, |keys| - i
  {
    var key, value, end := keys[i], t.members[keys[i]], [OBJECT_CLOSE] + rest;
    var later := PrintEntries(t.members, keys[i + 1..]);
    var after := if later == [] then end else [COMMA] + (Join(later) + end);
    assert PrintEntries(t.members, keys[i..]) == [Entry(key, Print(value))] + later;
    JoinCons(Entry(key, Print(value)), later, end);
    ReadPrintedEntry(key, Print(value), after);
    var colon := [COLON] + (Print(value) + after);
    assert colon[1..] == Print(value) + after;
    ReadPrinted(value, after);
    MemberStep(Entry(key, Print(value)) + after, done, key, colon, value, after);
    var extended := done[key := value];
    NextMember(t.members, keys, i, done);
    if i + 1 == |keys| {
      AllMembers(t.members, keys, extended);
      assert end[1..] == rest;
    } else {
      assert after[1..] == Join(later) + end;
      ReadPrintedMembers(t, keys, i + 1, extended, rest);
    }
  }

  /** Canonical text read back is the value it was printed from. */
  lemma ParsePrint(t: Json)
    ensures Parse(Print(t)) == Some(t)
  {
    ReadPrinted(t, []);
    assert Print(t) + [] == Print(t);
  }

  /** Canonical text is unambiguous: equal text means equal values. */
  lemma PrintInjective(a: Json, b: Json)
    requires Print(a) == Print(b)
    ensures a == b
  {
    ParsePrint(a);
    ParsePrint(b);
  }
}
