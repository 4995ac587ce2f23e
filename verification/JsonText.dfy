/** JSON texts as JSON.stringify prints them, over UTF-16 code units. */
module JsonText {
  import opened Characters

  type CodeUnit = u: int | 0 <= u < 0x1_0000

  type Text = seq<CodeUnit>

  /** What JSON can express. A number is the text JavaScript prints for it. */
  datatype Json =
    | JNull
    | JBool(b: bool)
    | JNumber(lexeme: Text)
    | JString(s: Text)
    | JArray(items: seq<Json>)
    | JObject(members: seq<Entry<Json>>)

  datatype Entry<+V> = Entry(key: Text, value: V)

  const QUOTE: CodeUnit := 34
  const PLUS: CodeUnit := 43
  const COMMA: CodeUnit := 44
  const MINUS: CodeUnit := 45
  const DOT: CodeUnit := 46
  const COLON: CodeUnit := 58
  const LBRACKET: CodeUnit := 91
  const BACKSLASH: CodeUnit := 92
  const RBRACKET: CodeUnit := 93
  const LBRACE: CodeUnit := 123
  const RBRACE: CodeUnit := 125

  const NULL_TEXT: Text := [110, 117, 108, 108]
  const TRUE_TEXT: Text := [116, 114, 117, 101]
  const FALSE_TEXT: Text := [102, 97, 108, 115, 101]

  /** Units that occur in printed numbers: digits, signs, the point and the exponent mark. */
  predicate IsNumberUnit(u: int) {
    IsDigit(u) || u == PLUS || u == MINUS || u == DOT || u == 101
  }

  predicate IsLexeme(lexeme: Text) {
    && lexeme != []
    && (IsDigit(lexeme[0]) || lexeme[0] == MINUS)
    && forall i | 0 <= i < |lexeme| :: IsNumberUnit(lexeme[i])
  }

  // ---------------------------------------------------------------- quoting

  predicate IsHigh(u: int) {
    0xD800 <= u <= 0xDBFF
  }

  predicate IsLow(u: int) {
    0xDC00 <= u <= 0xDFFF
  }

  function HexDigit(d: int): CodeUnit
    requires 0 <= d < 16
  {
    if d < 10 then 48 + d else 87 + d
  }

  function HexValue(u: int): int {
    if u <= 57 then u - 48 else u - 87
  }

  function Hex4(u: CodeUnit): Text {
    var a := u / 16;
    var b := a / 16;
    var c := b / 16;
    [HexDigit(c), HexDigit(b % 16), HexDigit(a % 16), HexDigit(u % 16)]
  }

  /** One unit inside quotes: a short escape, a \uXXXX escape, or itself. */
  function EscapeUnit(u: CodeUnit): Text {
    if u == 8 then [BACKSLASH, 98]
    else if u == 9 then [BACKSLASH, 116]
    else if u == 10 then [BACKSLASH, 110]
    else if u == 12 then [BACKSLASH, 102]
    else if u == 13 then [BACKSLASH, 114]
    else if u == QUOTE || u == BACKSLASH then [BACKSLASH, u]
    else if u < 0x20 || IsHigh(u) || IsLow(u) then [BACKSLASH, 117] + Hex4(u)
    else [u]
  }

  /** Surrogate pairs pass as they are; a lone surrogate is escaped. */
  function Escaped(s: Text): Text {
    if s == [] then []
    else if |s| >= 2 && IsHigh(s[0]) && IsLow(s[1]) then s[..2] + Escaped(s[2..])
    else EscapeUnit(s[0]) + Escaped(s[1..])
  }

  function Quote(s: Text): Text {
    [QUOTE] + Escaped(s) + [QUOTE]
  }

  // ---------------------------------------------------------------- printing

  function Print(j: Json): Text
    decreases j, 1
  {
    match j
    case JNull => NULL_TEXT
    case JBool(b) => if b then TRUE_TEXT else FALSE_TEXT
    case JNumber(lexeme) => lexeme
    case JString(s) => Quote(s)
    case JArray(items) => [LBRACKET] + PrintItems(items, true)
    case JObject(members) => [LBRACE] + PrintMembers(members, true)
  }

  /** The items up to and including the closing bracket, with a comma before all but the first. */
  function PrintItems(items: seq<Json>, first: bool): Text
    decreases items, 0
  {
    if items == [] then [RBRACKET]
    else Separator(first) + (Print(items[0]) + PrintItems(items[1..], false))
  }

  function PrintMembers(members: seq<Entry<Json>>, first: bool): Text
    decreases members, 0
  {
    if members == [] then [RBRACE]
    else Separator(first) +
         (Quote(members[0].key) + ([COLON] + (Print(members[0].value) + PrintMembers(members[1..], false))))
  }

  function Separator(first: bool): Text {
    if first then [] else [COMMA]
  }

  /** Every number in `j` is written as JavaScript writes numbers. */
  predicate Printable(j: Json)
    decreases j
  {
    match j
    case JNumber(lexeme) => IsLexeme(lexeme)
    case JArray(items) => forall i | 0 <= i < |items| :: Printable(items[i])
    case JObject(members) => forall i | 0 <= i < |members| :: Printable(members[i].value)
    case _ => true
  }

  // ---------------------------------------------------------------- quoted strings read back

  datatype Reading = NoReading | Reading(s: Text, rest: Text)

  /** Reads a quoted string whose opening quote is already consumed. */
  function ReadQuoted(t: Text): (r: Reading)
    ensures r.Reading? ==> |r.rest| < |t|
    decreases |t|
  {
    if t == [] then NoReading
    else if t[0] == QUOTE then Reading([], t[1..])
    else if t[0] != BACKSLASH then Prepend(t[0], ReadQuoted(t[1..]))
    else if |t| < 2 then NoReading
    else if t[1] != 117 then Prepend(Unescape(t[1]), ReadQuoted(t[2..]))
    else if |t| < 6 then NoReading
    else Prepend(Unhex(t[2], t[3], t[4], t[5]), ReadQuoted(t[6..]))
  }

  function Prepend(u: int, r: Reading): Reading {
    if r.Reading? && 0 <= u < 0x1_0000 then Reading([u] + r.s, r.rest) else NoReading
  }

  function Unescape(u: CodeUnit): CodeUnit {
    if u == 98 then 8 else if u == 116 then 9 else if u == 110 then 10
    else if u == 102 then 12 else if u == 114 then 13 else u
  }

  function Unhex(a: int, b: int, c: int, d: int): int {
    HexValue(a) * 4096 + HexValue(b) * 256 + HexValue(c) * 16 + HexValue(d)
  }

  /** Quoting escapes what it must and nothing else: quotes, backslashes, control characters and lone surrogates. */
  lemma EscapesOnlyWhatItMust(u: CodeUnit)
    ensures EscapeUnit(u) == [u] <==> u >= 0x20 && u != 34 && u != 92 && !(0xD800 <= u <= 0xDFFF)
    ensures |EscapeUnit(u)| == 2 <==> u in {8, 9, 10, 12, 13, 34, 92}
    ensures |EscapeUnit(u)| in {1, 2, 6}
  {
  }

  lemma UnhexHex(u: CodeUnit, t: Text)
    requires |t| >= 6 && t[2..6] == Hex4(u)
    ensures Unhex(t[2], t[3], t[4], t[5]) == u
  {
    var a := u / 16;
    var b := a / 16;
    var c := b / 16;
    assert t[2..6][0] == t[2] && t[2..6][1] == t[3] && t[2..6][2] == t[4] && t[2..6][3] == t[5];
    assert u == 16 * a + u % 16 && a == 16 * b + a % 16 && b == 16 * c + b % 16;
  }

  lemma ReadEnd(rest: Text)
    ensures ReadQuoted([QUOTE] + rest) == Reading([], rest)
  {
    assert ([QUOTE] + rest)[1..] == rest;
  }

  lemma ReadRaw(u: CodeUnit, t: Text)
    requires u != QUOTE && u != BACKSLASH
    ensures ReadQuoted([u] + t) == Prepend(u, ReadQuoted(t))
  {
    assert ([u] + t)[1..] == t;
  }

  lemma ReadShort(v: CodeUnit, t: Text)
    requires v != 117
    ensures ReadQuoted([BACKSLASH, v] + t) == Prepend(Unescape(v), ReadQuoted(t))
  {
    assert ([BACKSLASH, v] + t)[2..] == t;
  }

  lemma ReadHex(u: CodeUnit, t: Text)
    ensures ReadQuoted([BACKSLASH, 117] + Hex4(u) + t) == Prepend(u, ReadQuoted(t))
  {
    hide Unhex;
    var all := [BACKSLASH, 117] + Hex4(u) + t;
    assert |Hex4(u)| == 4;
    hide Hex4;
    assert all[6..] == t && all[2..6] == Hex4(u);
    UnhexHex(u, all);
  }

  lemma ReadUnit(u: CodeUnit, t: Text)
    ensures ReadQuoted(EscapeUnit(u) + t) == Prepend(u, ReadQuoted(t))
  {
    hide ReadQuoted, Hex4;
    var e := EscapeUnit(u);
    if e == [u] && u != QUOTE && u != BACKSLASH {
      ReadRaw(u, t);
    } else if (u < 0x20 && u !in {8, 9, 10, 12, 13}) || IsHigh(u) || IsLow(u) {
      ReadHex(u, t);
    } else {
      ReadShort(e[1], t);
    }
  }

  /** Reading a quoted string gives back the string and what follows it. */
  lemma {:induction false} ReadBack(s: Text, rest: Text)
    ensures ReadQuoted(Escaped(s) + ([QUOTE] + rest)) == Reading(s, rest)
    decreases |s|
  {
    hide ReadQuoted, EscapeUnit;
    var tail := [QUOTE] + rest;
    if s == [] {
      assert Escaped(s) + tail == tail;
      ReadEnd(rest);
    } else if |s| >= 2 && IsHigh(s[0]) && IsLow(s[1]) {
      ReadBack(s[2..], rest);
      var t := Escaped(s[2..]) + tail;
      ReadRaw(s[1], t);
      ReadRaw(s[0], [s[1]] + t);
      assert s[..2] + Escaped(s[2..]) + tail == [s[0]] + ([s[1]] + t);
      assert [s[0]] + ([s[1]] + s[2..]) == s;
    } else {
      ReadBack(s[1..], rest);
      ReadUnit(s[0], Escaped(s[1..]) + tail);
      assert EscapeUnit(s[0]) + Escaped(s[1..]) + tail == EscapeUnit(s[0]) + (Escaped(s[1..]) + tail);
      assert [s[0]] + s[1..] == s;
    }
  }

  lemma UniqueQuote(s: Text, t: Text, x: Text, y: Text)
    requires Quote(s) + x == Quote(t) + y
    ensures s == t && x == y
  {
    hide ReadQuoted, Escaped;
    ReadBack(s, x);
    ReadBack(t, y);
    assert (Quote(s) + x)[1..] == Escaped(s) + ([QUOTE] + x);
    assert (Quote(t) + y)[1..] == Escaped(t) + ([QUOTE] + y);
  }

  // ---------------------------------------------------------------- a text prints one value

  /** What can follow a printed value: nothing, a comma or a closing bracket. */
  predicate Ends(rest: Text) {
    rest != [] ==> rest[0] == COMMA || rest[0] == RBRACKET || rest[0] == RBRACE
  }

  /** The first unit of a printed value tells its kind. */
  predicate Opens(j: Json, u: int) {
    match j
    case JNull => u == 110
    case JBool(b) => u == if b then 116 else 102
    case JNumber(_) => IsDigit(u) || u == MINUS
    case JString(_) => u == QUOTE
    case JArray(_) => u == LBRACKET
    case JObject(_) => u == LBRACE
  }

  lemma FirstUnit(j: Json)
    requires Printable(j)
    ensures Print(j) != [] && Opens(j, Print(j)[0])
  {
  }

  lemma UniqueLexeme(a: Text, b: Text, x: Text, y: Text)
    requires IsLexeme(a) && IsLexeme(b) && Ends(x) && Ends(y) && a + x == b + y
    ensures a == b && x == y
  {
    var all := a + x;
    assert forall i | 0 <= i < |b| :: IsNumberUnit((b + y)[i]);
    assert forall i | 0 <= i < |a| :: IsNumberUnit((a + x)[i]);
    assert |a| < |all| ==> !IsNumberUnit(all[|a|]);
    assert |b| < |all| ==> !IsNumberUnit(all[|b|]);
    SameHead(a, b, x, y);
  }

  lemma SameHead<T>(a: seq<T>, b: seq<T>, x: seq<T>, y: seq<T>)
    requires |a| == |b| && a + x == b + y
    ensures a == b && x == y
  {
    assert a == (a + x)[..|a|] && b == (b + y)[..|b|];
    assert x == (a + x)[|a|..] && y == (b + y)[|b|..];
  }

  lemma Assoc(a: Text, b: Text, c: Text)
    ensures a + b + c == a + (b + c)
  {
  }

  /** Printing is uniquely readable: the printed value and what follows it are determined. */
  lemma {:induction false} UniquePrint(a: Json, b: Json, x: Text, y: Text)
    requires Printable(a) && Printable(b) && Ends(x) && Ends(y)
    requires Print(a) + x == Print(b) + y
    ensures a == b && x == y
    decreases a, 1
  {
    hide Quote, PrintItems, PrintMembers, IsLexeme;
    SameKind(a, b, x, y);
    match a
    case JNull => SameHead(Print(a), Print(b), x, y);
    case JBool(_) => SameHead(Print(a), Print(b), x, y);
    case JNumber(lexeme) => UniqueLexeme(lexeme, b.lexeme, x, y);
    case JString(s) => UniqueQuote(s, b.s, x, y);
    case JArray(items) =>
      Assoc([LBRACKET], PrintItems(items, true), x);
      Assoc([LBRACKET], PrintItems(b.items, true), y);
      SameHead([LBRACKET], [LBRACKET], PrintItems(items, true) + x, PrintItems(b.items, true) + y);
      UniqueItems(items, b.items, true, x, y);
    case JObject(members) =>
      Assoc([LBRACE], PrintMembers(members, true), x);
      Assoc([LBRACE], PrintMembers(b.members, true), y);
      SameHead([LBRACE], [LBRACE], PrintMembers(members, true) + x, PrintMembers(b.members, true) + y);
      UniqueMembers(members, b.members, true, x, y);
  }

  lemma SameKind(a: Json, b: Json, x: Text, y: Text)
    requires Printable(a) && Printable(b) && Print(a) + x == Print(b) + y
    ensures exists u :: Opens(a, u) && Opens(b, u)
  {
    hide Print;
    FirstUnit(a);
    FirstUnit(b);
    assert (Print(a) + x)[0] == Print(a)[0] && (Print(b) + y)[0] == Print(b)[0];
  }

  lemma ItemsFirst(items: seq<Json>, first: bool)
    requires forall i | 0 <= i < |items| :: Printable(items[i])
    ensures PrintItems(items, first) != [] && (PrintItems(items, first)[0] == RBRACKET <==> items == [])
    ensures Ends(PrintItems(items, false))
  {
    if items != [] {
      FirstUnit(items[0]);
    }
  }

  lemma {:induction false} UniqueItems(a: seq<Json>, b: seq<Json>, first: bool, x: Text, y: Text)
    requires forall i | 0 <= i < |a| :: Printable(a[i])
    requires forall i | 0 <= i < |b| :: Printable(b[i])
    requires PrintItems(a, first) + x == PrintItems(b, first) + y
    ensures a == b && x == y
    decreases a, 0
  {
    hide Print, Printable;
    ItemsFirst(a, first);
    ItemsFirst(b, first);
    assert (PrintItems(a, first) + x)[0] == PrintItems(a, first)[0] &&
           (PrintItems(b, first) + y)[0] == PrintItems(b, first)[0];
    if a == [] {
      SameHead([RBRACKET], [RBRACKET], x, y);
    } else {
      var sep, aTail, bTail := Separator(first), PrintItems(a[1..], false), PrintItems(b[1..], false);
      Assoc(sep, Print(a[0]) + aTail, x);
      Assoc(sep, Print(b[0]) + bTail, y);
      SameHead(sep, sep, Print(a[0]) + aTail + x, Print(b[0]) + bTail + y);
      Assoc(Print(a[0]), aTail, x);
      Assoc(Print(b[0]), bTail, y);
      ItemsFirst(a[1..], false);
      ItemsFirst(b[1..], false);
      UniquePrint(a[0], b[0], aTail + x, bTail + y);
      UniqueItems(a[1..], b[1..], false, x, y);
      assert a == [a[0]] + a[1..] && b == [b[0]] + b[1..];
    }
  }

  lemma MembersFirst(members: seq<Entry<Json>>, first: bool)
    ensures PrintMembers(members, first) != [] && (PrintMembers(members, first)[0] == RBRACE <==> members == [])
    ensures Ends(PrintMembers(members, false))
  {
  }

  lemma {:induction false} UniqueMembers(a: seq<Entry<Json>>, b: seq<Entry<Json>>, first: bool, x: Text, y: Text)
    requires forall i | 0 <= i < |a| :: Printable(a[i].value)
    requires forall i | 0 <= i < |b| :: Printable(b[i].value)
    requires PrintMembers(a, first) + x == PrintMembers(b, first) + y
    ensures a == b && x == y
    decreases a, 0
  {
    hide Print, Printable, Quote;
    MembersFirst(a, first);
    MembersFirst(b, first);
    assert (PrintMembers(a, first) + x)[0] == PrintMembers(a, first)[0] &&
           (PrintMembers(b, first) + y)[0] == PrintMembers(b, first)[0];
    if a == [] {
      SameHead([RBRACE], [RBRACE], x, y);
    } else {
      var sep, colon, aTail, bTail :=
        Separator(first), [COLON], PrintMembers(a[1..], false), PrintMembers(b[1..], false);
      var aValue, bValue := Print(a[0].value), Print(b[0].value);
      Regroup(sep, Quote(a[0].key), colon, aValue, aTail, x);
      Regroup(sep, Quote(b[0].key), colon, bValue, bTail, y);
      SameHead(sep, sep, Quote(a[0].key) + (colon + (aValue + (aTail + x))),
               Quote(b[0].key) + (colon + (bValue + (bTail + y))));
      UniqueQuote(a[0].key, b[0].key, colon + (aValue + (aTail + x)), colon + (bValue + (bTail + y)));
      SameHead(colon, colon, aValue + (aTail + x), bValue + (bTail + y));
      MembersFirst(a[1..], false);
      MembersFirst(b[1..], false);
      UniquePrint(a[0].value, b[0].value, aTail + x, bTail + y);
      UniqueMembers(a[1..], b[1..], false, x, y);
      assert a == [a[0]] + a[1..] && b == [b[0]] + b[1..];
    }
  }

  lemma Regroup(sep: Text, key: Text, colon: Text, value: Text, tail: Text, x: Text)
    ensures sep + (key + (colon + (value + tail))) + x == sep + (key + (colon + (value + (tail + x))))
  {
  }

  /** Different JSON values print differently. */
  lemma PrintIsInjective(a: Json, b: Json)
    requires Printable(a) && Printable(b) && Print(a) == Print(b)
    ensures a == b
  {
    hide Print;
    assert Print(a) + [] == Print(a) && Print(b) + [] == Print(b);
    UniquePrint(a, b, [], []);
  }
}
