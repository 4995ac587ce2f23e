/** A reader of JSON texts, made without regard to how they are printed: what a receiver finds in a serialized
    submission. */
module JsonReader {
  import opened Characters
  import opened JsonText
  import opened KeyOrder
  import opened PublicSubmissions

  datatype Read = Unreadable | Read(value: Value, rest: Text)

  datatype ReadItems = NoItems | Items(items: seq<Value>, rest: Text)

  datatype ReadFields = NoFields | Fields(fields: seq<Entry<Value>>, rest: Text)

  /** How many characters of a number stand at the head of `t`. */
  function NumberLength(t: Text): (n: nat)
    ensures n <= |t|
  {
    if t == [] || t[0] !in Codes("0123456789+-.e") then 0 else 1 + NumberLength(t[1..])
  }

  /** Reads a value, and says what follows it. */
  function ReadValue(t: Text): (r: Read)
    ensures r.Read? ==> |r.rest| < |t|
    decreases |t|, 0
  {
    if Codes("null") <= t then Read(Null, t[4..])
    else if Codes("true") <= t then Read(Bool(true), t[4..])
    else if Codes("false") <= t then Read(Bool(false), t[5..])
    else if t == [] then Unreadable
    else if t[0] == '"' as int then
      (match ReadQuoted(t[1..])
       case NoReading => Unreadable
       case Reading(s, rest) => Read(String(s), rest))
    else if t[0] == '[' as int then
      (match ReadArray(t[1..], true)
       case NoItems => Unreadable
       case Items(items, rest) => Read(Array(items), rest))
    else if t[0] == '{' as int then
      (match ReadObject(t[1..], true)
       case NoFields => Unreadable
       case Fields(fields, rest) => Read(Object(fields), rest))
    else if NumberLength(t) > 0 then Read(Number(t[..NumberLength(t)]), t[NumberLength(t)..])
    else Unreadable
  }

  /** Reads the items of an array up to its closing bracket. */
  function ReadArray(t: Text, first: bool): (r: ReadItems)
    ensures r.Items? ==> |r.rest| < |t|
    decreases |t|, 1
  {
    if t == [] then NoItems
    else if t[0] == ']' as int then Items([], t[1..])
    else if !first && t[0] != ',' as int then NoItems
    else
      match ReadValue(if first then t else t[1..])
      case Unreadable => NoItems
      case Read(item, rest) =>
        match ReadArray(rest, false)
        case NoItems => NoItems
        case Items(items, end) => Items([item] + items, end)
  }

  /** Reads the properties of an object up to its closing brace. */
  function ReadObject(t: Text, first: bool): (r: ReadFields)
    ensures r.Fields? ==> |r.rest| < |t|
    decreases |t|, 1
  {
    if t == [] then NoFields
    else if t[0] == '}' as int then Fields([], t[1..])
    else if !first && t[0] != ',' as int then NoFields
    else
      var body := if first then t else t[1..];
      if body == [] || body[0] != '"' as int then NoFields
      else
        match ReadQuoted(body[1..])
        case NoReading => NoFields
        case Reading(key, colon) =>
          if colon == [] || colon[0] != ':' as int then NoFields
          else
            match ReadValue(colon[1..])
            case Unreadable => NoFields
            case Read(value, rest) =>
              match ReadObject(rest, false)
              case NoFields => NoFields
              case Fields(fields, end) => Fields([Entry(key, value)] + fields, end)
  }

  // ---------------------------------------------------------------- printed values are read

  /** A JSON value as JavaScript data. */
  function AsValue(j: Json): Value
    decreases j, 1
  {
    match j
    case JNull => Null
    case JBool(b) => Bool(b)
    case JNumber(lexeme) => Number(lexeme)
    case JString(s) => String(s)
    case JArray(items) => Array(AsItems(items))
    case JObject(members) => Object(AsFields(members))
  }

  function AsItems(items: seq<Json>): (vs: seq<Value>)
    ensures |vs| == |items|
    ensures forall i | 0 <= i < |items| :: vs[i] == AsValue(items[i])
    decreases items, 0
  {
    if items == [] then [] else [AsValue(items[0])] + AsItems(items[1..])
  }

  function AsFields(members: seq<Entry<Json>>): (fields: seq<Entry<Value>>)
    ensures |fields| == |members|
    ensures forall i | 0 <= i < |members| :: fields[i] == Entry(members[i].key, AsValue(members[i].value))
    decreases members, 0
  {
    if members == [] then [] else [Entry(members[0].key, AsValue(members[0].value))] + AsFields(members[1..])
  }

  lemma NumberUnits(u: int)
    ensures u in Codes("0123456789+-.e") <==> IsNumberUnit(u)
  {
    var codes := Codes("0123456789+-.e");
    assert codes == [48, 49, 50, 51, 52, 53, 54, 55, 56, 57, 43, 45, 46, 101];
  }

  lemma {:induction false} LexemeLength(lexeme: Text, rest: Text)
    requires Ends(rest) && forall i | 0 <= i < |lexeme| :: IsNumberUnit(lexeme[i])
    ensures NumberLength(lexeme + rest) == |lexeme|
    decreases |lexeme|
  {
    var t := lexeme + rest;
    if t != [] {
      NumberUnits(t[0]);
    }
    if lexeme != [] {
      assert t[1..] == lexeme[1..] + rest;
      LexemeLength(lexeme[1..], rest);
    }
  }

  lemma Words()
    ensures NULL_TEXT == Codes("null") && TRUE_TEXT == Codes("true") && FALSE_TEXT == Codes("false")
  {
  }

  /** A text that opens like something else is none of the three words. */
  lemma NoWord(t: Text)
    requires t == [] || t[0] !in {110, 116, 102}
    ensures !(Codes("null") <= t) && !(Codes("true") <= t) && !(Codes("false") <= t)
  {
    assert Codes("null")[0] == 110 && Codes("true")[0] == 116 && Codes("false")[0] == 102;
  }

  lemma ReadsWord(j: Json, rest: Text)
    requires j.JNull? || j.JBool?
    ensures ReadValue(Print(j) + rest) == Read(AsValue(j), rest)
  {
    Words();
    var t := Print(j) + rest;
    assert Codes("null")[0] == 110 && Codes("true")[0] == 116 && Codes("false")[0] == 102;
    assert t[0] == Print(j)[0];
    assert Print(j) <= t && t[|Print(j)|..] == rest;
  }

  lemma ReadsNumber(lexeme: Text, rest: Text)
    requires IsLexeme(lexeme) && Ends(rest)
    ensures ReadValue(lexeme + rest) == Read(Number(lexeme), rest)
  {
    var t := lexeme + rest;
    LexemeLength(lexeme, rest);
    NoWord(t);
    assert t[..|lexeme|] == lexeme && t[|lexeme|..] == rest;
  }

  lemma ReadsString(s: Text, rest: Text)
    ensures ReadValue(Quote(s) + rest) == Read(String(s), rest)
    ensures (Quote(s) + rest)[0] == QUOTE && ReadQuoted((Quote(s) + rest)[1..]) == Reading(s, rest)
  {
    hide ReadQuoted, Escaped;
    var t := Quote(s) + rest;
    ReadBack(s, rest);
    assert t[1..] == Escaped(s) + ([QUOTE] + rest);
    NoWord(t);
  }

  /** Whatever follows, the reader finds the value that was printed and nothing more. */
  lemma {:induction false} ReadsPrint(j: Json, rest: Text)
    requires Printable(j) && Ends(rest)
    ensures ReadValue(Print(j) + rest) == Read(AsValue(j), rest)
    decreases j, 1
  {
    hide ReadValue, ReadArray, ReadObject, PrintItems, PrintMembers;
    match j
    case JNull => ReadsWord(j, rest);
    case JBool(_) => ReadsWord(j, rest);
    case JNumber(lexeme) => ReadsNumber(lexeme, rest);
    case JString(s) => ReadsString(s, rest);
    case JArray(items) =>
      ReadsItems(items, true, rest);
      ReadsBracket(PrintItems(items, true) + rest, AsItems(items), rest);
      assert Print(j) + rest == [LBRACKET] + (PrintItems(items, true) + rest);
    case JObject(members) =>
      ReadsMembers(members, true, rest);
      ReadsBrace(PrintMembers(members, true) + rest, AsFields(members), rest);
      assert Print(j) + rest == [LBRACE] + (PrintMembers(members, true) + rest);
  }

  lemma ReadsBracket(t: Text, items: seq<Value>, rest: Text)
    requires ReadArray(t, true) == Items(items, rest)
    ensures ReadValue([LBRACKET] + t) == Read(Array(items), rest)
  {
    hide ReadArray;
    assert ([LBRACKET] + t)[1..] == t;
    NoWord([LBRACKET] + t);
  }

  lemma ReadsBrace(t: Text, fields: seq<Entry<Value>>, rest: Text)
    requires ReadObject(t, true) == Fields(fields, rest)
    ensures ReadValue([LBRACE] + t) == Read(Object(fields), rest)
  {
    hide ReadObject;
    assert ([LBRACE] + t)[1..] == t;
    NoWord([LBRACE] + t);
  }

  lemma {:induction false} ReadsItems(items: seq<Json>, first: bool, rest: Text)
    requires forall i | 0 <= i < |items| :: Printable(items[i])
    ensures ReadArray(PrintItems(items, first) + rest, first) == Items(AsItems(items), rest)
    decreases items, 0
  {
    var t := PrintItems(items, first) + rest;
    if items == [] {
      assert t[0] == RBRACKET && t[1..] == rest;
    } else {
      var tail := PrintItems(items[1..], false) + rest;
      ItemsFirst(items[1..], false);
      ItemsFirst(items, first);
      ReadsPrint(items[0], tail);
      ReadsItems(items[1..], false, rest);
      hide ReadValue, PrintItems, Print, Printable;
      ItemsAre(items, first, rest, tail);
      assert t[0] == PrintItems(items, first)[0];
    }
  }

  lemma ItemsAre(items: seq<Json>, first: bool, rest: Text, tail: Text)
    requires items != [] && tail == PrintItems(items[1..], false) + rest
    ensures PrintItems(items, first) + rest == Separator(first) + (Print(items[0]) + tail)
    ensures !first ==> (Separator(first) + (Print(items[0]) + tail))[1..] == Print(items[0]) + tail
    ensures first ==> Separator(first) + (Print(items[0]) + tail) == Print(items[0]) + tail
  {
    hide Print;
  }

  lemma {:induction false} ReadsMembers(members: seq<Entry<Json>>, first: bool, rest: Text)
    requires forall i | 0 <= i < |members| :: Printable(members[i].value)
    ensures ReadObject(PrintMembers(members, first) + rest, first) == Fields(AsFields(members), rest)
    decreases members, 0
  {
    var t := PrintMembers(members, first) + rest;
    if members == [] {
      assert t[0] == RBRACE && t[1..] == rest;
    } else {
      var tail := PrintMembers(members[1..], false) + rest;
      var value := Print(members[0].value) + tail;
      MembersFirst(members[1..], false);
      ReadsPrint(members[0].value, tail);
      ReadsMembers(members[1..], false, rest);
      ReadsString(members[0].key, [COLON] + value);
      hide ReadValue, ReadObject, ReadQuoted, PrintMembers, Print, Printable, Quote;
      MembersAre(members, first, rest, tail);
      ReadsMember(Quote(members[0].key) + ([COLON] + value), first, members[0].key, value,
                  AsValue(members[0].value), tail, AsFields(members[1..]), rest);
    }
  }

  /** One property, and then the others. */
  lemma ReadsMember(body: Text, first: bool, key: Text, text: Text, value: Value, tail: Text,
                    fields: seq<Entry<Value>>, rest: Text)
    requires body != [] && body[0] == QUOTE && ReadQuoted(body[1..]) == Reading(key, [COLON] + text)
    requires ReadValue(text) == Read(value, tail) && ReadObject(tail, false) == Fields(fields, rest)
    ensures ReadObject(Separator(first) + body, first) == Fields([Entry(key, value)] + fields, rest)
  {
    hide ReadValue, ReadQuoted;
    var t := Separator(first) + body;
    assert ([COLON] + text)[1..] == text;
    assert if first then t == body else t[0] == COMMA && t[1..] == body;
  }

  lemma MembersAre(members: seq<Entry<Json>>, first: bool, rest: Text, tail: Text)
    requires members != [] && tail == PrintMembers(members[1..], false) + rest
    ensures PrintMembers(members, first) + rest ==
            Separator(first) + (Quote(members[0].key) + ([COLON] + (Print(members[0].value) + tail)))
  {
    var key, value, next := Quote(members[0].key), Print(members[0].value), PrintMembers(members[1..], false);
    hide Print, Quote;
    Regroup(Separator(first), key, [COLON], value, next, rest);
  }

  // ---------------------------------------------------------------- and carry the same data

  /** The value that is printed, taken as data, is the data it was printed for. */
  lemma {:induction false} DataIsKept(v: Value)
    requires WellFormed(v) && !v.Undefined?
    ensures SameData(v, AsValue(Normal(v)))
    decreases v
  {
    match v
    case Array(items) =>
      ItemsAreKept(items);
    case Object(fields) =>
      FieldsAreKept(fields);
    case _ =>
  }

  lemma {:induction false} ItemsAreKept(items: seq<Value>)
    requires WellFormed(Array(items))
    ensures SameData(Array(items), AsValue(Normal(Array(items))))
    decreases items, 0
  {
    ArrayLengths(items);
    var read := AsValue(Normal(Array(items)));
    forall i | 0 <= i < |items|
      ensures (ReadsNull(items[i]) && ReadsNull(read.items[i])) || SameData(items[i], read.items[i])
    {
      NormalArray(items, i);
      if !items[i].Undefined? {
        DataIsKept(items[i]);
      }
    }
  }

  lemma {:induction false} FieldsAreKept(fields: seq<Entry<Value>>)
    requires WellFormed(Object(fields))
    ensures SameData(Object(fields), AsValue(Normal(Object(fields))))
    decreases fields, 0
  {
    NormalObject(fields);
    var members := Normal(Object(fields)).members;
    var read := AsFields(members);
    assert AsValue(Normal(Object(fields))) == Object(read);
    forall i, j | 0 <= i < |fields| && 0 <= j < |read| && fields[i].key == read[j].key
      ensures SameData(fields[i].value, read[j].value)
    {
      assert members[j] in members && FromNormal(fields, members[j]);
      var k :| 0 <= k < |fields| && !fields[k].value.Undefined? && fields[k].key == members[j].key &&
        Normal(fields[k].value) == members[j].value;
      assert k == i;
      DataIsKept(fields[i].value);
    }
    hide Normal, SameData, AsValue;
    forall key
      ensures key in DefinedKeys(fields) <==> key in DefinedKeys(read)
    {
      KeysAreKept(fields, members, read, key);
    }
  }

  lemma KeysAreKept(fields: seq<Entry<Value>>, members: seq<Entry<Json>>, read: seq<Entry<Value>>, key: Text)
    requires forall e :: e in members <==> FromNormal(fields, e)
    requires |read| == |members|
    requires forall i | 0 <= i < |read| :: read[i] == Entry(members[i].key, AsValue(members[i].value))
    ensures key in DefinedKeys(fields) <==> key in DefinedKeys(read)
  {
    if key in DefinedKeys(fields) {
      var i := DefinedAt(fields, key);
      var e := Entry(key, Normal(fields[i].value));
      assert FromNormal(fields, e);
      var j :| 0 <= j < |members| && members[j] == e;
      assert read[j].key == key && !read[j].value.Undefined?;
    }
    if key in DefinedKeys(read) {
      var j := DefinedAt(read, key);
      assert members[j] in members;
    }
  }

  /** What stableSerialize writes for a value reads back, with nothing left over, as the same data; only undefined has
      no text. */
  lemma SerializedReadsBack(v: Value) returns (w: Value)
    requires WellFormed(v)
    ensures StableSerialize(v).None? <==> v.Undefined?
    ensures StableSerialize(v).Some? ==> ReadValue(StableSerialize(v).value) == Read(w, []) && SameData(v, w)
  {
    hide ReadValue, SameData, Print;
    w := Undefined;
    CanonicalIsUndefined(v);
    if !v.Undefined? {
      var j := Normal(v);
      w := AsValue(j);
      NormalIsPrintable(v);
      ReadsPrint(j, []);
      assert Print(j) + [] == Print(j);
      DataIsKept(v);
    }
  }
}
