/** The order in which a JavaScript object lists the properties that canonicalize()
    gave it: array indices by value, then the other keys by UTF-16 code units. */
module KeyOrder {
  import opened JsonText
  import opened LexOrder
  import opened Characters

  /** A canonical numeral below 2^32 - 1. */
  predicate IsIndexKey(k: Text) {
    k != [] && AllDigits(k) && (k[0] == 48 ==> |k| == 1) && DecimalValue(k) < 0xFFFF_FFFF
  }

  predicate KeyBefore(a: Text, b: Text) {
    if IsIndexKey(a) then IsIndexKey(b) ==> DecimalValue(a) < DecimalValue(b)
    else !IsIndexKey(b) && Less(a, b)
  }

  lemma KeyBeforeIsTotal(a: Text, b: Text)
    ensures KeyBefore(a, b) || a == b || KeyBefore(b, a)
    ensures KeyBefore(a, b) ==> a != b && !KeyBefore(b, a)
  {
    if IsIndexKey(a) && IsIndexKey(b) && DecimalValue(a) == DecimalValue(b) {
      NumeralIsUnique(a, b);
    }
    LessIsTotal(a, b);
    if Less(a, b) {
      LessIsStrict(a, b);
    }
  }

  lemma KeyBeforeIsTransitive(a: Text, b: Text, c: Text)
    requires KeyBefore(a, b) && KeyBefore(b, c)
    ensures KeyBefore(a, c)
  {
    if Less(a, b) && Less(b, c) {
      LessIsTransitive(a, b, c);
    }
  }

  /** Index keys are the numerals of the numbers below 2^32 - 1. */
  lemma IndexKeysAreNumerals(k: Text)
    ensures IsIndexKey(k) <==> exists n: nat :: n < 0xFFFF_FFFF && k == Codes(Numeral(n))
  {
    if IsIndexKey(k) {
      var n := DecimalValue(k);
      NumeralReadsBack(n);
      NumeralIsUnique(k, Codes(Numeral(n)));
    }
    if n: nat :| n < 0xFFFF_FFFF && k == Codes(Numeral(n)) {
      NumeralReadsBack(n);
    }
  }

  /** Index keys come first, by their numbers; the others follow, unit by unit. */
  lemma KeysInOrder(a: Text, b: Text, n: nat, m: nat)
    requires n < 0xFFFF_FFFF && m < 0xFFFF_FFFF
    ensures a == Codes(Numeral(n)) && b == Codes(Numeral(m)) ==> (KeyBefore(a, b) <==> n < m)
    ensures a == Codes(Numeral(n)) && !IsIndexKey(b) ==> KeyBefore(a, b) && !KeyBefore(b, a)
    ensures !IsIndexKey(a) && !IsIndexKey(b) ==> (KeyBefore(a, b) <==> Less(a, b))
  {
    IndexKeysAreNumerals(a);
    IndexKeysAreNumerals(b);
    NumeralReadsBack(n);
    NumeralReadsBack(m);
  }

  // ---------------------------------------------------------------- lists sorted by key

  ghost predicate Sorted<V>(s: seq<Entry<V>>) {
    forall i, j | 0 <= i < j < |s| :: KeyBefore(s[i].key, s[j].key)
  }

  ghost predicate DistinctKeys<V>(s: seq<Entry<V>>) {
    forall i, j | 0 <= i < j < |s| :: s[i].key != s[j].key
  }

  ghost predicate SameElements<V>(a: seq<Entry<V>>, b: seq<Entry<V>>) {
    (forall e | e in a :: e in b) && (forall e | e in b :: e in a)
  }

  function Insert<V>(e: Entry<V>, s: seq<Entry<V>>): seq<Entry<V>> {
    if s == [] || KeyBefore(e.key, s[0].key) then [e] + s else [s[0]] + Insert(e, s[1..])
  }

  function Arranged<V>(s: seq<Entry<V>>): seq<Entry<V>> {
    if s == [] then [] else Insert(s[0], Arranged(s[1..]))
  }

  lemma {:induction false} InsertElements<V>(e: Entry<V>, s: seq<Entry<V>>, x: Entry<V>)
    ensures x in Insert(e, s) <==> x == e || x in s
  {
    if s != [] && !KeyBefore(e.key, s[0].key) {
      InsertElements(e, s[1..], x);
      assert s == [s[0]] + s[1..];
    }
  }

  lemma SortedTail<V>(s: seq<Entry<V>>)
    requires Sorted(s) && s != []
    ensures Sorted(s[1..]) && forall x | x in s[1..] :: KeyBefore(s[0].key, x.key)
    ensures s[0] !in s[1..]
  {
    hide KeyBefore;
    KeyBeforeIsTotal(s[0].key, s[0].key);
  }

  lemma SortedCons<V>(e: Entry<V>, s: seq<Entry<V>>)
    requires Sorted(s) && forall x | x in s :: KeyBefore(e.key, x.key)
    ensures Sorted([e] + s)
  {
    assert forall i | 0 <= i < |s| :: s[i] in s;
  }

  lemma {:induction false} InsertSorts<V>(e: Entry<V>, s: seq<Entry<V>>)
    requires Sorted(s) && forall x | x in s :: x.key != e.key
    ensures Sorted(Insert(e, s))
  {
    hide KeyBefore;
    if s == [] {
    } else {
      SortedTail(s);
      KeyBeforeIsTotal(e.key, s[0].key);
      if KeyBefore(e.key, s[0].key) {
        forall x | x in s
          ensures KeyBefore(e.key, x.key)
        {
          if x != s[0] {
            KeyBeforeIsTransitive(e.key, s[0].key, x.key);
          }
        }
        SortedCons(e, s);
      } else {
        assert s[0] in s;
        InsertSorts(e, s[1..]);
        forall x | x in Insert(e, s[1..])
          ensures KeyBefore(s[0].key, x.key)
        {
          InsertElements(e, s[1..], x);
        }
        SortedCons(s[0], Insert(e, s[1..]));
      }
    }
  }

  /** Arranging sorts by key and keeps the entries. */
  lemma {:induction false} ArrangedSorts<V(!new)>(s: seq<Entry<V>>)
    requires DistinctKeys(s)
    ensures Sorted(Arranged(s)) && SameElements(Arranged(s), s)
  {
    hide KeyBefore;
    if s != [] {
      ArrangedSorts(s[1..]);
      forall x
        ensures x in Arranged(s) <==> x in s
      {
        InsertElements(s[0], Arranged(s[1..]), x);
        assert s == [s[0]] + s[1..];
      }
      InsertSorts(s[0], Arranged(s[1..]));
    }
  }

  /** Sorted lists with the same entries are the same list. */
  lemma {:induction false} SortedIsUnique<V>(a: seq<Entry<V>>, b: seq<Entry<V>>)
    requires Sorted(a) && Sorted(b) && SameElements(a, b)
    ensures a == b
  {
    hide KeyBefore;
    if a == [] {
      if b != [] {
        FirstIsShared(a, b);
      }
    } else {
      FirstIsShared(b, a);
      SortedTail(a);
      SortedTail(b);
      HeadsAgree(a, b);
      TailsAgree(a, b);
      SortedIsUnique(a[1..], b[1..]);
      assert a == [a[0]] + a[1..] && b == [b[0]] + b[1..];
    }
  }

  lemma FirstIsShared<V>(a: seq<Entry<V>>, b: seq<Entry<V>>)
    requires SameElements(a, b) && b != []
    ensures b[0] in a
  {
    assert b[0] in b;
  }

  lemma HeadsAgree<V>(a: seq<Entry<V>>, b: seq<Entry<V>>)
    requires a != [] && b != [] && Sorted(a) && Sorted(b) && SameElements(a, b)
    ensures a[0] == b[0]
  {
    hide KeyBefore;
    assert a[0] in b && b[0] in a;
    var i :| 0 <= i < |b| && b[i] == a[0];
    var j :| 0 <= j < |a| && a[j] == b[0];
    KeyBeforeIsTotal(a[0].key, b[0].key);
  }

  lemma TailsAgree<V>(a: seq<Entry<V>>, b: seq<Entry<V>>)
    requires a != [] && b != [] && Sorted(a) && Sorted(b) && SameElements(a, b) && a[0] == b[0]
    ensures SameElements(a[1..], b[1..])
  {
    hide KeyBefore;
    SortedTail(a);
    SortedTail(b);
    assert a == [a[0]] + a[1..] && b == [b[0]] + b[1..];
    assert forall e | e in a[1..] :: e in a && e != a[0];
    assert forall e | e in b[1..] :: e in b && e != b[0];
  }
}

/** canonicalize(), stableSerialize() and JSON.stringify() on JavaScript data. */
module PublicSubmissions {
  import opened Characters
  import opened JsonText
  import opened KeyOrder
  import opened LexOrder
  import opened Options

  /** JavaScript data. An object lists its own properties in order; NonFinite stands for NaN and the infinities. */
  datatype Value =
    | Undefined
    | Null
    | Bool(b: bool)
    | Number(lexeme: Text)
    | NonFinite
    | String(s: Text)
    | Array(items: seq<Value>)
    | Object(fields: seq<Entry<Value>>)

  /** Property names are distinct and numbers are written as JavaScript writes them. */
  ghost predicate WellFormed(v: Value)
    decreases v
  {
    match v
    case Number(lexeme) => IsLexeme(lexeme)
    case Array(items) => forall i | 0 <= i < |items| :: WellFormed(items[i])
    case Object(fields) => DistinctKeys(fields) && forall i | 0 <= i < |fields| :: WellFormed(fields[i].value)
    case _ => true
  }

  // ---------------------------------------------------------------- JSON.stringify

  function ToJson(v: Value): Json
    requires !v.Undefined?
    decreases v, 1
  {
    match v
    case Null => JNull
    case NonFinite => JNull
    case Bool(b) => JBool(b)
    case Number(lexeme) => JNumber(lexeme)
    case String(s) => JString(s)
    case Array(items) => JArray(ItemsJson(items))
    case Object(fields) => JObject(MembersJson(fields))
  }

  /** An undefined array element is printed as null. */
  function ItemsJson(items: seq<Value>): (js: seq<Json>)
    ensures |js| == |items|
    decreases items, 0
  {
    if items == [] then []
    else [if items[0].Undefined? then JNull else ToJson(items[0])] + ItemsJson(items[1..])
  }

  /** A property whose value is undefined is left out. */
  function MembersJson(fields: seq<Entry<Value>>): seq<Entry<Json>>
    decreases fields, 0
  {
    if fields == [] then []
    else if fields[0].value.Undefined? then MembersJson(fields[1..])
    else [Entry(fields[0].key, ToJson(fields[0].value))] + MembersJson(fields[1..])
  }

  function Stringify(v: Value): Option<Text> {
    if v.Undefined? then None else Some(Print(ToJson(v)))
  }

  // ---------------------------------------------------------------- canonicalize, on values

  function Canonical(v: Value): Value
    decreases v, 1
  {
    match v
    case Array(items) => Array(CanonicalItems(items))
    case Object(fields) => Object(Arranged(CanonicalFields(fields)))
    case _ => v
  }

  function CanonicalItems(items: seq<Value>): (cs: seq<Value>)
    ensures |cs| == |items|
    decreases items, 0
  {
    if items == [] then [] else [Canonical(items[0])] + CanonicalItems(items[1..])
  }

  function CanonicalFields(fields: seq<Entry<Value>>): seq<Entry<Value>>
    decreases fields, 0
  {
    if fields == [] then []
    else if fields[0].value.Undefined? then CanonicalFields(fields[1..])
    else [Entry(fields[0].key, Canonical(fields[0].value))] + CanonicalFields(fields[1..])
  }

  /** None is the TypeError of a payload that is not JSON serializable. */
  function StableSerialize(v: Value): Option<Text> {
    Stringify(Canonical(v))
  }

  // ---------------------------------------------------------------- what it means to carry the same data

  /** What JSON.stringify prints as null inside an array. */
  predicate ReadsNull(v: Value) {
    v.Undefined? || v.Null? || v.NonFinite?
  }

  /** The names of the defined properties. */
  ghost function DefinedKeys(fields: seq<Entry<Value>>): set<Text> {
    set i | 0 <= i < |fields| && !fields[i].value.Undefined? :: fields[i].key
  }

  /** Equal up to the order of properties, properties that are undefined, and the values
      JSON has no notation for, which read as null. */
  ghost predicate SameData(a: Value, b: Value)
    decreases a
  {
    match a
    case Undefined => b.Undefined?
    case Null => b.Null? || b.NonFinite?
    case NonFinite => b.Null? || b.NonFinite?
    case Bool(_) => a == b
    case Number(_) => a == b
    case String(_) => a == b
    case Array(items) =>
      && b.Array? && |items| == |b.items|
      && forall i | 0 <= i < |items| :: (ReadsNull(items[i]) && ReadsNull(b.items[i])) || SameData(items[i], b.items[i])
    case Object(fields) =>
      && b.Object? && DefinedKeys(fields) == DefinedKeys(b.fields)
      && forall i, j | 0 <= i < |fields| && 0 <= j < |b.fields| && fields[i].key == b.fields[j].key ::
           SameData(fields[i].value, b.fields[j].value)
  }

  // ---------------------------------------------------------------- the JSON value that is printed

  /** The JSON value stableSerialize prints for `v`. */
  function Normal(v: Value): Json
    requires !v.Undefined?
  {
    ToJson(Canonical(v))
  }

  function NormalItem(v: Value): Json {
    if v.Undefined? then JNull else Normal(v)
  }

  lemma {:induction false} ItemAt(items: seq<Value>, i: nat)
    requires i < |items|
    ensures CanonicalItems(items)[i] == Canonical(items[i])
    ensures ItemsJson(items)[i] == if items[i].Undefined? then JNull else ToJson(items[i])
  {
    if i > 0 {
      ItemAt(items[1..], i - 1);
    }
  }

  lemma NormalArray(items: seq<Value>, i: nat)
    requires i < |items|
    ensures Normal(Array(items)).JArray? && |Normal(Array(items)).items| == |items|
    ensures Normal(Array(items)).items[i] == NormalItem(items[i])
  {
    ItemAt(items, i);
    ItemAt(CanonicalItems(items), i);
  }

  /** `e` is a defined property of `fields`, with its value mapped to canonical form. */
  ghost predicate FromField(fields: seq<Entry<Value>>, key: Text, value: Value) {
    exists i :: 0 <= i < |fields| && !fields[i].value.Undefined? && fields[i].key == key &&
      Canonical(fields[i].value) == value
  }

  lemma {:induction false} CanonicalFieldsAre(fields: seq<Entry<Value>>, e: Entry<Value>)
    ensures e in CanonicalFields(fields) <==> FromField(fields, e.key, e.value)
  {
    hide Canonical;
    if fields != [] {
      var rest := fields[1..];
      CanonicalFieldsAre(rest, e);
      if FromField(rest, e.key, e.value) {
        var i :| 0 <= i < |rest| && !rest[i].value.Undefined? && rest[i].key == e.key &&
          Canonical(rest[i].value) == e.value;
        assert fields[i + 1] == rest[i];
      }
      if FromField(fields, e.key, e.value) {
        var i :| 0 <= i < |fields| && !fields[i].value.Undefined? && fields[i].key == e.key &&
          Canonical(fields[i].value) == e.value;
        assert i > 0 ==> rest[i - 1] == fields[i];
      }
    }
  }

  lemma {:induction false} CanonicalKeysDistinct(fields: seq<Entry<Value>>)
    requires DistinctKeys(fields)
    ensures DistinctKeys(CanonicalFields(fields))
  {
    hide Canonical;
    if fields != [] {
      CanonicalKeysDistinct(fields[1..]);
      forall e | e in CanonicalFields(fields[1..])
        ensures e.key != fields[0].key
      {
        CanonicalFieldsAre(fields[1..], e);
      }
    }
  }

  lemma CanonicalIsUndefined(v: Value)
    ensures Canonical(v).Undefined? <==> v.Undefined?
  {
  }

  lemma {:induction false} MembersOfDefined(fields: seq<Entry<Value>>)
    requires forall i | 0 <= i < |fields| :: !fields[i].value.Undefined?
    ensures |MembersJson(fields)| == |fields|
    ensures forall i | 0 <= i < |fields| :: MembersJson(fields)[i] == Entry(fields[i].key, ToJson(fields[i].value))
  {
    hide ToJson;
    if fields != [] {
      MembersOfDefined(fields[1..]);
    }
  }

  ghost predicate FromNormal(fields: seq<Entry<Value>>, e: Entry<Json>) {
    exists i :: 0 <= i < |fields| && !fields[i].value.Undefined? && fields[i].key == e.key &&
      Normal(fields[i].value) == e.value
  }

  /** The canonical fields: sorted, all defined, one for each defined property. */
  lemma CanonicalObject(fields: seq<Entry<Value>>)
    requires DistinctKeys(fields)
    ensures Sorted(Arranged(CanonicalFields(fields)))
    ensures forall e :: e in Arranged(CanonicalFields(fields)) <==> FromField(fields, e.key, e.value)
    ensures forall i | 0 <= i < |Arranged(CanonicalFields(fields))| ::
            !Arranged(CanonicalFields(fields))[i].value.Undefined?
  {
    hide Canonical, CanonicalFields, Arranged, Sorted;
    var canonical := CanonicalFields(fields);
    CanonicalKeysDistinct(fields);
    ArrangedSorts(canonical);
    forall e
      ensures e in Arranged(canonical) <==> FromField(fields, e.key, e.value)
    {
      CanonicalFieldsAre(fields, e);
    }
    forall i | 0 <= i < |Arranged(canonical)|
      ensures !Arranged(canonical)[i].value.Undefined?
    {
      var e := Arranged(canonical)[i];
      assert FromField(fields, e.key, e.value);
      var k :| 0 <= k < |fields| && !fields[k].value.Undefined? && fields[k].key == e.key &&
        Canonical(fields[k].value) == e.value;
      CanonicalIsUndefined(fields[k].value);
    }
  }

  /** The members printed for an object: sorted, one for each defined property. */
  lemma NormalObject(fields: seq<Entry<Value>>)
    requires DistinctKeys(fields)
    ensures Normal(Object(fields)).JObject? && Sorted(Normal(Object(fields)).members)
    ensures forall e :: e in Normal(Object(fields)).members <==> FromNormal(fields, e)
  {
    hide CanonicalFields, Arranged, KeyBefore, MembersJson;
    var sorted := Arranged(CanonicalFields(fields));
    CanonicalObject(fields);
    MembersOfDefined(sorted);
    var members := Normal(Object(fields)).members;
    assert members == MembersJson(sorted);
    hide Canonical, ToJson;
    forall e
      ensures e in members <==> FromNormal(fields, e)
    {
      MemberFromField(fields, sorted, members, e);
    }
  }

  lemma MemberFromField(fields: seq<Entry<Value>>, sorted: seq<Entry<Value>>, members: seq<Entry<Json>>, e: Entry<Json>)
    requires forall f :: f in sorted <==> FromField(fields, f.key, f.value)
    requires forall i | 0 <= i < |sorted| :: !sorted[i].value.Undefined?
    requires |members| == |sorted|
    requires forall i | 0 <= i < |sorted| :: members[i] == Entry(sorted[i].key, ToJson(sorted[i].value))
    ensures e in members <==> FromNormal(fields, e)
  {
    hide Canonical, ToJson;
    if e in members {
      var i :| 0 <= i < |members| && members[i] == e;
      assert sorted[i] in sorted;
      var k :| 0 <= k < |fields| && !fields[k].value.Undefined? && fields[k].key == sorted[i].key &&
        Canonical(fields[k].value) == sorted[i].value;
      assert Normal(fields[k].value) == e.value;
    }
    if FromNormal(fields, e) {
      var k :| 0 <= k < |fields| && !fields[k].value.Undefined? && fields[k].key == e.key &&
        Normal(fields[k].value) == e.value;
      var f := Entry(e.key, Canonical(fields[k].value));
      assert FromField(fields, f.key, f.value);
      var i :| 0 <= i < |sorted| && sorted[i] == f;
      assert members[i] == e;
    }
  }

  lemma DefinedAt(fields: seq<Entry<Value>>, key: Text) returns (i: nat)
    requires key in DefinedKeys(fields)
    ensures i < |fields| && fields[i].key == key && !fields[i].value.Undefined?
  {
    var k :| 0 <= k < |fields| && !fields[k].value.Undefined? && fields[k].key == key;
    i := k;
  }

  /** One property: its name and normalised value are printed, so equal members mean equal data. */
  lemma SameMembers(a: seq<Entry<Value>>, b: seq<Entry<Value>>)
    requires DistinctKeys(a) && DistinctKeys(b)
    requires DefinedKeys(a) == DefinedKeys(b)
    requires forall i, j | 0 <= i < |a| && 0 <= j < |b| && a[i].key == b[j].key && !a[i].value.Undefined? &&
             !b[j].value.Undefined? ::
               Normal(a[i].value) == Normal(b[j].value)
    ensures forall e | FromNormal(a, e) :: FromNormal(b, e)
  {
    hide Normal;
    forall e | FromNormal(a, e)
      ensures FromNormal(b, e)
    {
      var i :| 0 <= i < |a| && !a[i].value.Undefined? && a[i].key == e.key && Normal(a[i].value) == e.value;
      assert a[i].key in DefinedKeys(b);
      var j := DefinedAt(b, e.key);
    }
  }

  lemma ObjectsNormalAlike(a: seq<Entry<Value>>, b: seq<Entry<Value>>)
    requires DistinctKeys(a) && DistinctKeys(b)
    requires DefinedKeys(a) == DefinedKeys(b)
    requires forall i, j | 0 <= i < |a| && 0 <= j < |b| && a[i].key == b[j].key && !a[i].value.Undefined? &&
             !b[j].value.Undefined? ::
               Normal(a[i].value) == Normal(b[j].value)
    ensures Normal(Object(a)) == Normal(Object(b))
  {
    NormalObject(a);
    NormalObject(b);
    hide Normal, Sorted, FromNormal;
    SameMembers(a, b);
    SameMembers(b, a);
    SortedIsUnique(Normal(Object(a)).members, Normal(Object(b)).members);
  }

  /** If two objects print alike, every defined property of one is a property of the other with the same
      printed value. */
  lemma PropertiesPrintAlike(a: seq<Entry<Value>>, b: seq<Entry<Value>>, i: nat)
    requires DistinctKeys(a) && DistinctKeys(b) && Normal(Object(a)) == Normal(Object(b))
    requires i < |a| && !a[i].value.Undefined?
    ensures a[i].key in DefinedKeys(b)
    ensures forall j | 0 <= j < |b| && b[j].key == a[i].key ::
              !b[j].value.Undefined? && Normal(b[j].value) == Normal(a[i].value)
  {
    NormalObject(a);
    NormalObject(b);
    hide Normal;
    var e := Entry(a[i].key, Normal(a[i].value));
    assert FromNormal(a, e);
    assert e in Normal(Object(a)).members;
    assert FromNormal(b, e);
    var k :| 0 <= k < |b| && !b[k].value.Undefined? && b[k].key == e.key && Normal(b[k].value) == e.value;
  }

  // ---------------------------------------------------------------- main results

  /** Values print alike exactly when they carry the same data. */
  lemma {:induction false} NormalExactly(a: Value, b: Value)
    requires WellFormed(a) && WellFormed(b) && !a.Undefined? && !b.Undefined?
    ensures Normal(a) == Normal(b) <==> SameData(a, b)
    decreases a
  {
    match a
    case Array(items) =>
      if b.Array? {
        ArraysExactly(items, b.items);
      } else {
        KindsDiffer(a, b);
      }
    case Object(fields) =>
      if b.Object? {
        ObjectsExactly(fields, b.fields);
      } else {
        KindsDiffer(a, b);
      }
    case _ => KindsDiffer(a, b);
  }

  /** Outside arrays and objects the printed value shows the value. */
  lemma KindsDiffer(a: Value, b: Value)
    requires !a.Undefined? && !b.Undefined?
    requires !(a.Array? && b.Array?) && !(a.Object? && b.Object?)
    ensures Normal(a) == Normal(b) <==> SameData(a, b)
  {
    hide CanonicalItems, ItemsJson, MembersJson, CanonicalFields, Arranged;
  }

  lemma {:induction false} ArraysExactly(a: seq<Value>, b: seq<Value>)
    requires WellFormed(Array(a)) && WellFormed(Array(b))
    ensures Normal(Array(a)) == Normal(Array(b)) <==> SameData(Array(a), Array(b))
    decreases a, 0
  {
    ArrayLengths(a);
    ArrayLengths(b);
    hide Normal;
    if |a| == |b| {
      forall i | 0 <= i < |a|
        ensures NormalItem(a[i]) == NormalItem(b[i]) <==> (ReadsNull(a[i]) && ReadsNull(b[i])) || SameData(a[i], b[i])
        ensures Normal(Array(a)).items[i] == NormalItem(a[i]) && Normal(Array(b)).items[i] == NormalItem(b[i])
      {
        NormalArray(a, i);
        NormalArray(b, i);
        if !a[i].Undefined? && !b[i].Undefined? {
          NormalExactly(a[i], b[i]);
        } else {
          NormalNull(a[i]);
          NormalNull(b[i]);
        }
      }
    }
  }

  lemma ArrayLengths(items: seq<Value>)
    ensures Normal(Array(items)).JArray? && |Normal(Array(items)).items| == |items|
  {
  }

  lemma NormalNull(v: Value)
    ensures NormalItem(v) == JNull <==> ReadsNull(v)
  {
    hide CanonicalItems, ItemsJson, MembersJson, CanonicalFields, Arranged;
  }

  lemma {:induction false} ObjectsExactly(a: seq<Entry<Value>>, b: seq<Entry<Value>>)
    requires WellFormed(Object(a)) && WellFormed(Object(b))
    ensures Normal(Object(a)) == Normal(Object(b)) <==> SameData(Object(a), Object(b))
    decreases a, 0
  {
    hide Normal;
    forall i, j | 0 <= i < |a| && 0 <= j < |b| && !a[i].value.Undefined? && !b[j].value.Undefined?
      ensures Normal(a[i].value) == Normal(b[j].value) <==> SameData(a[i].value, b[j].value)
    {
      NormalExactly(a[i].value, b[j].value);
    }
    if Normal(Object(a)) == Normal(Object(b)) {
      forall i | 0 <= i < |a| && !a[i].value.Undefined?
        ensures a[i].key in DefinedKeys(b)
        ensures forall j | 0 <= j < |b| && b[j].key == a[i].key ::
                  !b[j].value.Undefined? && Normal(b[j].value) == Normal(a[i].value)
      {
        PropertiesPrintAlike(a, b, i);
      }
      forall j | 0 <= j < |b| && !b[j].value.Undefined?
        ensures b[j].key in DefinedKeys(a)
        ensures forall i | 0 <= i < |a| && a[i].key == b[j].key ::
                  !a[i].value.Undefined? && Normal(a[i].value) == Normal(b[j].value)
      {
        PropertiesPrintAlike(b, a, j);
      }
      forall i, j | 0 <= i < |a| && 0 <= j < |b| && a[i].key == b[j].key
        ensures SameData(a[i].value, b[j].value)
      {
      }
      assert DefinedKeys(a) == DefinedKeys(b);
    }
    if SameData(Object(a), Object(b)) {
      ObjectsNormalAlike(a, b);
    }
  }

  lemma {:induction false} NormalIsPrintable(v: Value)
    requires WellFormed(v) && !v.Undefined?
    ensures Printable(Normal(v))
    decreases v
  {
    match v
    case Array(items) =>
      ArrayLengths(items);
      forall i | 0 <= i < |items|
        ensures Printable(Normal(v).items[i])
      {
        NormalArray(items, i);
        if !items[i].Undefined? {
          NormalIsPrintable(items[i]);
        }
      }
    case Object(fields) =>
      NormalObject(fields);
      forall i | 0 <= i < |Normal(v).members|
        ensures Printable(Normal(v).members[i].value)
      {
        var e := Normal(v).members[i];
        assert FromNormal(fields, e);
        var k :| 0 <= k < |fields| && !fields[k].value.Undefined? && fields[k].key == e.key &&
          Normal(fields[k].value) == e.value;
        NormalIsPrintable(fields[k].value);
      }
    case _ =>
  }

  /** Two payloads serialize to the same text exactly when they carry the same data. */
  lemma SerializesAlikeExactly(a: Value, b: Value)
    requires WellFormed(a) && WellFormed(b)
    ensures StableSerialize(a) == StableSerialize(b) <==> SameData(a, b)
  {
    CanonicalIsUndefined(a);
    CanonicalIsUndefined(b);
    hide Canonical, ToJson, Print;
    if a.Undefined? || b.Undefined? {
      UndefinedData(a, b);
    } else {
      NormalExactly(a, b);
      NormalIsPrintable(a);
      NormalIsPrintable(b);
      if Print(Normal(a)) == Print(Normal(b)) {
        PrintIsInjective(Normal(a), Normal(b));
      }
    }
  }

  lemma UndefinedData(a: Value, b: Value)
    requires a.Undefined? || b.Undefined?
    ensures SameData(a, b) <==> a.Undefined? && b.Undefined?
  {
  }

  /** canonicalize is idempotent. */
  lemma {:induction false} CanonicalTwice(v: Value)
    requires WellFormed(v)
    ensures Canonical(Canonical(v)) == Canonical(v)
    decreases v
  {
    match v
    case Array(items) =>
      var once := CanonicalItems(items);
      forall i | 0 <= i < |items|
        ensures CanonicalItems(once)[i] == once[i]
      {
        ItemAt(items, i);
        ItemAt(once, i);
        CanonicalTwice(items[i]);
      }
      assert CanonicalItems(once) == once;
    case Object(fields) =>
      var once := Arranged(CanonicalFields(fields));
      CanonicalObject(fields);
      forall i | 0 <= i < |once|
        ensures Canonical(once[i].value) == once[i].value
      {
        assert FromField(fields, once[i].key, once[i].value);
        var k :| 0 <= k < |fields| && !fields[k].value.Undefined? && fields[k].key == once[i].key &&
          Canonical(fields[k].value) == once[i].value;
        CanonicalTwice(fields[k].value);
      }
      FixedFields(once);
      SortedIsDistinct(once);
      ArrangedSorts(once);
      SortedIsUnique(Arranged(once), once);
    case _ =>
  }

  lemma {:induction false} FixedFields(fields: seq<Entry<Value>>)
    requires forall i | 0 <= i < |fields| ::
               !fields[i].value.Undefined? && Canonical(fields[i].value) == fields[i].value
    ensures CanonicalFields(fields) == fields
  {
    hide Canonical;
    if fields != [] {
      FixedFields(fields[1..]);
      assert fields == [fields[0]] + fields[1..];
    }
  }

  lemma SortedIsDistinct(fields: seq<Entry<Value>>)
    requires Sorted(fields)
    ensures DistinctKeys(fields)
  {
    hide KeyBefore;
    forall i, j | 0 <= i < j < |fields|
      ensures fields[i].key != fields[j].key
    {
      KeyBeforeIsTotal(fields[i].key, fields[j].key);
    }
  }

  // ---------------------------------------------------------------- canonicalize, as the loop it is

  function InsertKey(k: Text, keys: seq<Text>): seq<Text> {
    if keys == [] || Less(k, keys[0]) then [k] + keys else [keys[0]] + InsertKey(k, keys[1..])
  }

  /** Object.keys(record).sort() */
  function SortedKeys(fields: seq<Entry<Value>>): seq<Text> {
    if fields == [] then [] else InsertKey(fields[0].key, SortedKeys(fields[1..]))
  }

  /** Ascending by code units, without repetition. */
  ghost predicate Ascending(keys: seq<Text>) {
    forall i, j | 0 <= i < j < |keys| :: Less(keys[i], keys[j])
  }

  lemma {:induction false} InsertKeyAscends(k: Text, keys: seq<Text>)
    requires Ascending(keys) && k !in keys
    ensures Ascending(InsertKey(k, keys))
    ensures forall x :: x in InsertKey(k, keys) <==> x == k || x in keys
  {
    hide Less;
    if keys != [] {
      assert keys == [keys[0]] + keys[1..];
      LessIsTotal(k, keys[0]);
      if Less(k, keys[0]) {
        forall i | 0 < i < |keys|
          ensures Less(k, keys[i])
        {
          LessIsTransitive(k, keys[0], keys[i]);
        }
      } else {
        InsertKeyAscends(k, keys[1..]);
        var rest := InsertKey(k, keys[1..]);
        forall i | 0 <= i < |rest|
          ensures Less(keys[0], rest[i])
        {
          assert rest[i] in rest;
        }
      }
    }
  }

  lemma {:induction false} SortedKeysAscend(fields: seq<Entry<Value>>)
    requires DistinctKeys(fields)
    ensures Ascending(SortedKeys(fields))
    ensures forall k :: k in SortedKeys(fields) <==> exists i :: 0 <= i < |fields| && fields[i].key == k
  {
    if fields != [] {
      var rest := fields[1..];
      SortedKeysAscend(rest);
      InsertKeyAscends(fields[0].key, SortedKeys(rest));
      forall k
        ensures k in SortedKeys(fields) <==> exists i :: 0 <= i < |fields| && fields[i].key == k
      {
        if i :| 0 <= i < |rest| && rest[i].key == k {
          assert fields[i + 1].key == k;
        }
        if i :| 0 < i < |fields| && fields[i].key == k {
          assert rest[i - 1].key == k;
        }
      }
    }
  }

  /** result[key] = value for a new key: an index key goes among the index keys by value, any other key goes last. */
  function Put(fields: seq<Entry<Value>>, e: Entry<Value>): seq<Entry<Value>> {
    if !IsIndexKey(e.key) || fields == [] then fields + [e]
    else if !IsIndexKey(fields[0].key) || DecimalValue(e.key) < DecimalValue(fields[0].key) then [e] + fields
    else [fields[0]] + Put(fields[1..], e)
  }

  /** Assigning keys in ascending order keeps the properties in enumeration order. */
  lemma {:induction false} PutKeepsOrder(fields: seq<Entry<Value>>, e: Entry<Value>)
    requires Sorted(fields) && forall f | f in fields :: Less(f.key, e.key)
    ensures Sorted(Put(fields, e))
    ensures forall f :: f in Put(fields, e) <==> f == e || f in fields
  {
    if !IsIndexKey(e.key) || fields == [] {
      assert forall i | 0 <= i < |fields| :: fields[i] in fields;
    } else {
      SortedTail(fields);
      assert fields == [fields[0]] + fields[1..];
      assert fields[0] in fields;
      if !IsIndexKey(fields[0].key) || DecimalValue(e.key) < DecimalValue(fields[0].key) {
        assert KeyBefore(e.key, fields[0].key);
        forall f | f in fields
          ensures KeyBefore(e.key, f.key)
        {
          if f != fields[0] {
            KeyBeforeIsTransitive(e.key, fields[0].key, f.key);
          }
        }
        SortedCons(e, fields);
      } else {
        PutKeepsOrder(fields[1..], e);
        LessIsStrict(fields[0].key, e.key);
        KeyBeforeIsTotal(fields[0].key, e.key);
        SortedCons(fields[0], Put(fields[1..], e));
      }
    }
  }

  /** record[key] */
  method Lookup(fields: seq<Entry<Value>>, key: Text) returns (i: nat)
    requires exists k :: 0 <= k < |fields| && fields[k].key == key
    ensures i < |fields| && fields[i].key == key
  {
    i := 0;
    while fields[i].key != key
      invariant i < |fields| && exists k :: i <= k < |fields| && fields[k].key == key
      decreases |fields| - i
    {
      i := i + 1;
    }
  }

  /** Exactly the defined properties named in `done` have been copied. */
  ghost predicate Copied(out: seq<Entry<Value>>, fields: seq<Entry<Value>>, done: seq<Text>) {
    forall e :: e in out <==> e.key in done && FromField(fields, e.key, e.value)
  }

  method Canonicalize(value: Value) returns (result: Value)
    requires WellFormed(value)
    ensures result == Canonical(value)
    decreases value
  {
    if value.Array? {
      var items: seq<Value> := [];
      for i := 0 to |value.items|
        invariant |items| == i && forall j | 0 <= j < i :: items[j] == Canonical(value.items[j])
      {
        var item := Canonicalize(value.items[i]);
        items := items + [item];
      }
      assert items == CanonicalItems(value.items) by {
        forall i | 0 <= i < |items|
          ensures items[i] == CanonicalItems(value.items)[i]
        {
          ItemAt(value.items, i);
        }
      }
      return Array(items);
    }
    if value.Object? {
      var fields := value.fields;
      var keys := SortedKeys(fields);
      SortedKeysAscend(fields);
      var out: seq<Entry<Value>> := [];
      for n := 0 to |keys|
        invariant Sorted(out) && Copied(out, fields, keys[..n])
      {
        assert keys[n] in keys;
        var i := Lookup(fields, keys[n]);
        ghost var before := out;
        if !fields[i].value.Undefined? {
          var canonical := Canonicalize(fields[i].value);
          KeysSoFarAreLess(out, fields, keys, n);
          PutKeepsOrder(out, Entry(keys[n], canonical));
          out := Put(out, Entry(keys[n], canonical));
        }
        CopyOne(before, out, fields, keys, n, i);
      }
      assert keys[..|keys|] == keys;
      AllCopied(out, fields, keys);
      return Object(out);
    }
    return value;
  }

  lemma KeysSoFarAreLess(out: seq<Entry<Value>>, fields: seq<Entry<Value>>, keys: seq<Text>, n: nat)
    requires n < |keys| && Ascending(keys) && Copied(out, fields, keys[..n])
    ensures forall f | f in out :: Less(f.key, keys[n])
  {
    hide Less, FromField;
  }

  lemma CopyOne(before: seq<Entry<Value>>, after: seq<Entry<Value>>, fields: seq<Entry<Value>>, keys: seq<Text>, n: nat,
                i: nat)
    requires n < |keys| && i < |fields| && fields[i].key == keys[n] && DistinctKeys(fields)
    requires Copied(before, fields, keys[..n])
    requires if fields[i].value.Undefined? then after == before
             else forall e :: e in after <==> e == Entry(keys[n], Canonical(fields[i].value)) || e in before
    ensures Copied(after, fields, keys[..n + 1])
  {
    hide Canonical;
    forall e
      ensures e in after <==> e.key in keys[..n + 1] && FromField(fields, e.key, e.value)
    {
      assert e.key in keys[..n + 1] <==> e.key in keys[..n] || e.key == keys[n];
      if e.key == keys[n] {
        assert FromField(fields, e.key, e.value) <==>
               !fields[i].value.Undefined? && Canonical(fields[i].value) == e.value;
      }
    }
  }

  lemma AllCopied(out: seq<Entry<Value>>, fields: seq<Entry<Value>>, keys: seq<Text>)
    requires DistinctKeys(fields) && Sorted(out) && Copied(out, fields, keys)
    requires forall k :: k in keys <==> exists i :: 0 <= i < |fields| && fields[i].key == k
    ensures out == Arranged(CanonicalFields(fields))
  {
    hide Sorted, Canonical, CanonicalFields, Arranged;
    CanonicalObject(fields);
    SortedIsUnique(out, Arranged(CanonicalFields(fields)));
  }
}
