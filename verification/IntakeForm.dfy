/** The public intake form: prepareSubmissionAttempt() and the attempt and consent
    timestamp that submit() keeps between attempts. */
module IntakeForm {
  import opened Characters
  import opened JsonText
  import opened JsonReader
  import opened KeyOrder
  import opened PublicSubmissions
  import opened Options

  type Payload = seq<Entry<Value>>

  datatype Attempt = Attempt(idempotencyKey: string, serialized: Text)

  /** "consent_timestamp" */
  const CONSENT_TIMESTAMP: Text := [99, 111, 110, 115, 101, 110, 116, 95, 116, 105, 109, 101, 115, 116, 97, 109, 112]

  /** { ...fields, [key]: value } */
  function With(fields: Payload, key: Text, value: Value): Payload {
    if fields == [] then [Entry(key, value)]
    else if fields[0].key == key then [Entry(key, value)] + fields[1..]
    else [fields[0]] + With(fields[1..], key, value)
  }

  /** The text an object serializes to. */
  function Serialized(fields: Payload): Text {
    Print(Normal(Object(fields)))
  }

  lemma SerializedIsStable(fields: Payload)
    ensures StableSerialize(Object(fields)) == Some(Serialized(fields))
  {
  }

  /** The consent timestamp as a property value; no timestamp is null. */
  function Stamp(timestamp: Option<Text>): Value {
    if timestamp.Some? then String(timestamp.value) else Null
  }

  /** The body of a request for `fields` stamped `timestamp`. */
  function Body(fields: Payload, timestamp: Option<Text>): Text {
    Serialized(With(fields, CONSENT_TIMESTAMP, Stamp(timestamp)))
  }

  ghost predicate IsPayload(fields: Payload) {
    WellFormed(Object(fields))
  }

  ghost predicate SamePayload(a: Payload, b: Payload) {
    SameData(Object(a), Object(b))
  }

  /** Equal attempts mean equal data, and equal data the same attempt. */
  lemma SerializedExactly(a: Payload, b: Payload)
    requires IsPayload(a) && IsPayload(b)
    ensures Serialized(a) == Serialized(b) <==> SamePayload(a, b)
  {
    hide WellFormed, SameData, StableSerialize, Serialized;
    SerializedIsStable(a);
    SerializedIsStable(b);
    SerializesAlikeExactly(Object(a), Object(b));
  }

  // ---------------------------------------------------------------- adding the timestamp

  lemma {:induction false} WithElements(fields: Payload, key: Text, value: Value, e: Entry<Value>)
    requires DistinctKeys(fields)
    ensures e in With(fields, key, value) <==> if e.key == key then e.value == value else e in fields
  {
    if fields != [] {
      assert fields == [fields[0]] + fields[1..];
      if fields[0].key == key {
        assert forall i | 0 < i < |fields| :: fields[0].key != fields[i].key;
      } else {
        WithElements(fields[1..], key, value, e);
      }
    }
  }

  lemma {:induction false} WithIsDistinct(fields: Payload, key: Text, value: Value)
    requires DistinctKeys(fields)
    ensures DistinctKeys(With(fields, key, value))
  {
    if fields != [] && fields[0].key != key {
      WithIsDistinct(fields[1..], key, value);
      var rest := With(fields[1..], key, value);
      forall i | 0 <= i < |rest|
        ensures rest[i].key != fields[0].key
      {
        WithElements(fields[1..], key, value, rest[i]);
        assert rest[i] in rest;
      }
    }
  }

  lemma WithIsPayload(fields: Payload, key: Text, value: Value)
    requires IsPayload(fields) && WellFormed(value)
    ensures IsPayload(With(fields, key, value))
  {
    var more := With(fields, key, value);
    WithIsDistinct(fields, key, value);
    forall i | 0 <= i < |more|
      ensures WellFormed(more[i].value)
    {
      assert more[i] in more;
      WithElements(fields, key, value, more[i]);
    }
  }

  ghost predicate HasDefined(fields: Payload, k: Text) {
    exists e :: e in fields && e.key == k && !e.value.Undefined?
  }

  /** SamePayload, said with entries instead of positions. */
  ghost predicate SameEntries(a: Payload, b: Payload) {
    && (forall k :: HasDefined(a, k) <==> HasDefined(b, k))
    && (forall e, f | e in a && f in b && e.key == f.key :: SameData(e.value, f.value))
  }

  lemma KeysByEntries(fields: Payload, k: Text)
    ensures k in DefinedKeys(fields) <==> HasDefined(fields, k)
  {
    if k in DefinedKeys(fields) {
      var i := DefinedAt(fields, k);
      assert fields[i] in fields;
    }
  }

  lemma SamePayloadByEntries(a: Payload, b: Payload)
    ensures SamePayload(a, b) <==> SameEntries(a, b)
  {
    forall k
      ensures k in DefinedKeys(a) <==> HasDefined(a, k)
      ensures k in DefinedKeys(b) <==> HasDefined(b, k)
    {
      KeysByEntries(a, k);
      KeysByEntries(b, k);
    }
    assert (forall k :: HasDefined(a, k) <==> HasDefined(b, k)) <==> DefinedKeys(a) == DefinedKeys(b);
    hide DefinedKeys, HasDefined;
    if SameEntries(a, b) {
      forall i, j | 0 <= i < |a| && 0 <= j < |b| && a[i].key == b[j].key
        ensures SameData(a[i].value, b[j].value)
      {
        assert a[i] in a && b[j] in b;
      }
    }
  }

  lemma WithHasDefined(fields: Payload, key: Text, value: Value, k: Text)
    requires DistinctKeys(fields)
    ensures HasDefined(With(fields, key, value), k) <==> if k == key then !value.Undefined? else HasDefined(fields, k)
  {
    hide With;
    WithElements(fields, key, value, Entry(key, value));
    forall e: Entry<Value> | e.key == k
      ensures e in With(fields, key, value) <==> if e.key == key then e.value == value else e in fields
    {
      WithElements(fields, key, value, e);
    }
    if k == key && !value.Undefined? {
      assert Entry(key, value) in With(fields, key, value);
    }
  }

  /** The same data, stamped with the same time, is the same data. */
  lemma StampKeepsData(a: Payload, b: Payload, key: Text, value: Value)
    requires DistinctKeys(a) && DistinctKeys(b) && SamePayload(a, b) && SameData(value, value)
    ensures SamePayload(With(a, key, value), With(b, key, value))
  {
    hide SameData, With;
    SamePayloadByEntries(a, b);
    SamePayloadByEntries(With(a, key, value), With(b, key, value));
    forall k
      ensures HasDefined(With(a, key, value), k) <==> HasDefined(With(b, key, value), k)
    {
      WithHasDefined(a, key, value, k);
      WithHasDefined(b, key, value, k);
    }
    forall e, f | e in With(a, key, value) && f in With(b, key, value) && e.key == f.key
      ensures SameData(e.value, f.value)
    {
      WithElements(a, key, value, e);
      WithElements(b, key, value, f);
    }
  }

  /** Payloads with the same data and timestamp have byte-identical bodies. */
  lemma SameBody(a: Payload, b: Payload, timestamp: Option<Text>)
    requires IsPayload(a) && IsPayload(b) && SamePayload(a, b)
    ensures Body(a, timestamp) == Body(b, timestamp)
  {
    var stamp := Stamp(timestamp);
    StampKeepsData(a, b, CONSENT_TIMESTAMP, stamp);
    WithIsPayload(a, CONSENT_TIMESTAMP, stamp);
    WithIsPayload(b, CONSENT_TIMESTAMP, stamp);
    hide SameData, WellFormed, With;
    SerializedExactly(With(a, CONSENT_TIMESTAMP, stamp), With(b, CONSENT_TIMESTAMP, stamp));
  }

  // ---------------------------------------------------------------- one attempt

  /** The attempt to use, and whether it is a new one. */
  function PrepareSubmissionAttempt(previous: Option<Attempt>, fields: Payload, createdKey: string): (Attempt, bool) {
    var serialized := Serialized(fields);
    if previous.Some? && previous.value.serialized == serialized then (previous.value, false)
    else (Attempt(createdKey, serialized), true)
  }

  /** attemptRef and consentTimestampRef. */
  datatype Refs = Refs(attempt: Option<Attempt>, timestamp: Option<Text>)

  datatype Sent = Sent(idempotencyKey: string, body: Text)

  function Dispatch(refs: Refs, fields: Payload, now: Text, createdKey: string): (Refs, Sent) {
    var (attempt, isNew) := PrepareSubmissionAttempt(refs.attempt, fields, createdKey);
    var timestamp := if isNew then Some(now) else refs.timestamp;
    (Refs(Some(attempt), timestamp), Sent(attempt.idempotencyKey, Body(fields, timestamp)))
  }

  class Form {
    var attemptRef: Option<Attempt>
    var consentTimestampRef: Option<Text>

    ghost function State(): Refs
      reads this
    {
      Refs(attemptRef, consentTimestampRef)
    }

    constructor ()
      ensures State() == Refs(None, None)
    {
      attemptRef := None;
      consentTimestampRef := None;
    }

    /** From preparing the attempt to handing the request to fetch; nothing is awaited in between. */
    method SendAttempt(fields: Payload, now: Text, createdKey: string) returns (sent: Sent)
      modifies this
      ensures (State(), sent) == Dispatch(old(State()), fields, now, createdKey)
    {
      var previous := attemptRef;
      var (attempt, isNew) := PrepareSubmissionAttempt(previous, fields, createdKey);
      if isNew {
        consentTimestampRef := Some(now);
      }
      attemptRef := Some(attempt);
      sent := Sent(attempt.idempotencyKey, Body(fields, consentTimestampRef));
    }

    /** An accepted response closes the attempt; a failed one leaves it for the retry. */
    method Settle(accepted: bool)
      modifies this
      ensures accepted ==> State() == Refs(None, None)
      ensures !accepted ==> State() == old(State())
    {
      if accepted {
        attemptRef := None;
        consentTimestampRef := None;
      }
    }
  }

  // ---------------------------------------------------------------- whole runs

  /** What happens to the form. Edits, lost responses and errors leave the refs alone. */
  datatype Action =
    | Send(fields: Payload, now: Text, createdKey: string)
    | Accepted
    | Failed
    | Edited

  ghost function RefsAfter(run: seq<Action>): Refs {
    if run == [] then Refs(None, None)
    else
      var refs, action := RefsAfter(run[..|run| - 1]), run[|run| - 1];
      match action
      case Send(fields, now, createdKey) => Dispatch(refs, fields, now, createdKey).0
      case Accepted => Refs(None, None)
      case _ => refs
  }

  /** The request that step `i` of the run sends. */
  ghost function SentAt(run: seq<Action>, i: nat): Sent
    requires i < |run| && run[i].Send?
  {
    Dispatch(RefsAfter(run[..i]), run[i].fields, run[i].now, run[i].createdKey).1
  }

  /** Payloads are JSON objects, and createKey never repeats itself. */
  ghost predicate Proper(run: seq<Action>) {
    && (forall i | 0 <= i < |run| && run[i].Send? :: IsPayload(run[i].fields))
    && (forall i, j | 0 <= i < j < |run| && run[i].Send? && run[j].Send? :: run[i].createdKey != run[j].createdKey)
  }

  /** Step `start` opened the attempt that is current after `n` steps: since then there was
      no acceptance, and every request carried its data, its key and its timestamp. */
  ghost predicate OpenedBy(run: seq<Action>, n: nat, start: nat)
    requires n <= |run|
  {
    && start < n && run[start].Send?
    && RefsAfter(run[..n]) ==
       Refs(Some(Attempt(run[start].createdKey, Serialized(run[start].fields))), Some(run[start].now))
    && forall k | start <= k < n ::
         !run[k].Accepted? && (run[k].Send? ==> SamePayload(run[start].fields, run[k].fields))
  }

  lemma RefsStep(run: seq<Action>, n: nat)
    requires n < |run|
    ensures RefsAfter(run[..n + 1]) ==
            match run[n]
            case Send(fields, now, createdKey) => Dispatch(RefsAfter(run[..n]), fields, now, createdKey).0
            case Accepted => Refs(None, None)
            case _ => RefsAfter(run[..n])
  {
    assert run[..n + 1][..n] == run[..n] && run[..n + 1][n] == run[n];
  }

  /** A step that neither accepts nor changes the data keeps the attempt open. */
  lemma StaysOpen(run: seq<Action>, n: nat, start: nat)
    requires n < |run| && OpenedBy(run, n, start) && RefsAfter(run[..n + 1]) == RefsAfter(run[..n])
    requires !run[n].Accepted? && (run[n].Send? ==> SamePayload(run[start].fields, run[n].fields))
    ensures OpenedBy(run, n + 1, start)
  {
    hide SameData, Serialized, RefsAfter;
  }

  /** A current attempt was opened by some send. */
  lemma {:induction false} CurrentAttemptHasAStart(run: seq<Action>, n: nat) returns (start: nat)
    requires Proper(run) && n <= |run| && RefsAfter(run[..n]).attempt.Some?
    ensures OpenedBy(run, n, start)
    decreases n
  {
    assert n > 0;
    RefsStep(run, n - 1);
    hide SameData, Serialized, Body, RefsAfter;
    var refs := RefsAfter(run[..n - 1]);
    if run[n - 1].Send? && !(refs.attempt.Some? && refs.attempt.value.serialized == Serialized(run[n - 1].fields)) {
      start := n - 1;
      SerializedExactly(run[start].fields, run[start].fields);
    } else {
      start := CurrentAttemptHasAStart(run, n - 1);
      if run[n - 1].Send? {
        SerializedExactly(run[start].fields, run[n - 1].fields);
      }
      StaysOpen(run, n - 1, start);
    }
  }

  /** Every request carries the key and timestamp of the send that opened its attempt, and that send's body. */
  lemma SentFromStart(run: seq<Action>, i: nat) returns (start: nat)
    requires Proper(run) && i < |run| && run[i].Send?
    ensures OpenedBy(run, i + 1, start)
    ensures SentAt(run, i) == Sent(run[start].createdKey, Body(run[start].fields, Some(run[start].now)))
  {
    hide Body, Serialized, SameData;
    RefsStep(run, i);
    start := CurrentAttemptHasAStart(run, i + 1);
    SameBody(run[start].fields, run[i].fields, Some(run[start].now));
  }

  /** In every run, all requests that carry one Idempotency-Key carry byte-identical bodies,
      consent timestamp included. */
  lemma OneKeyOneBody(run: seq<Action>, i: nat, j: nat)
    requires Proper(run) && i < |run| && j < |run| && run[i].Send? && run[j].Send?
    requires SentAt(run, i).idempotencyKey == SentAt(run, j).idempotencyKey
    ensures SentAt(run, i).body == SentAt(run, j).body
  {
    hide Body, SentAt, RefsAfter, SameData;
    var a := SentFromStart(run, i);
    var b := SentFromStart(run, j);
    assert a == b;
  }

  /** The value `w` is an object with the properties of the form, and the consent timestamp set to `stamp`. */
  ghost predicate CarriesForm(w: Value, fields: Payload, stamp: Text) {
    && w.Object?
    && (forall k :: HasDefined(w.fields, k) <==> k == Codes("consent_timestamp") || HasDefined(fields, k))
    && (forall e | e in w.fields && e.key == Codes("consent_timestamp") :: e.value == String(stamp))
    && (forall e, f | e in w.fields && f in fields && e.key == f.key && e.key != Codes("consent_timestamp") ::
          SameData(f.value, e.value))
  }

  lemma ConsentKey()
    ensures CONSENT_TIMESTAMP == Codes("consent_timestamp")
  {
  }

  /** The body for `fields`, read back. */
  lemma BodyCarriesForm(fields: Payload, stamp: Text) returns (w: Value)
    requires IsPayload(fields)
    ensures ReadValue(Body(fields, Some(stamp))) == Read(w, []) && CarriesForm(w, fields, stamp)
  {
    ConsentKey();
    var key, value := CONSENT_TIMESTAMP, String(stamp);
    var stamped := With(fields, key, value);
    WithIsPayload(fields, key, value);
    assert DistinctKeys(fields);
    SerializedIsStable(stamped);
    w := SerializedReadsBack(Object(stamped));
    assert w.Object?;
    SamePayloadByEntries(stamped, w.fields);
    assert forall v | SameData(value, v) :: v == value;
    hide SameData, With, WellFormed, Serialized, ReadValue, HasDefined, StableSerialize;
    forall k
      ensures HasDefined(w.fields, k) <==> k == key || HasDefined(fields, k)
    {
      WithHasDefined(fields, key, value, k);
    }
    forall e | e in w.fields && e.key == key
      ensures e.value == value
    {
      WithElements(fields, key, value, Entry(key, value));
    }
    forall e, f | e in w.fields && f in fields && e.key == f.key && e.key != key
      ensures SameData(f.value, e.value)
    {
      WithElements(fields, key, value, f);
    }
  }

  /** In every run, every request reads back as the data of the form at that time, stamped with the time of the send
      that created its Idempotency-Key. */
  lemma RequestCarriesForm(run: seq<Action>, i: nat) returns (start: nat, w: Value)
    requires Proper(run) && i < |run| && run[i].Send?
    ensures start <= i && run[start].Send? && run[start].createdKey == SentAt(run, i).idempotencyKey
    ensures ReadValue(SentAt(run, i).body) == Read(w, []) && CarriesForm(w, run[i].fields, run[start].now)
  {
    hide Body, SentAt, RefsAfter, SameData, ReadValue, CarriesForm, Serialized;
    start := SentFromStart(run, i);
    SameBody(run[start].fields, run[i].fields, Some(run[start].now));
    w := BodyCarriesForm(run[i].fields, run[start].now);
  }

  /** The submitter keeps at it: no acceptance, and no change of data since step `i`. */
  ghost predicate Unchanged(run: seq<Action>, i: nat, j: nat)
    requires i < j < |run| && run[i].Send?
  {
    forall k | i < k <= j ::
      !run[k].Accepted? && (run[k].Send? ==> SamePayload(run[i].fields, run[k].fields))
  }

  /** While nothing changes, the attempt that step `i` used stays current. */
  lemma {:induction false} AttemptStays(run: seq<Action>, i: nat, n: nat)
    requires Proper(run) && i < n <= |run| && run[i].Send?
    requires forall k | i < k < n :: !run[k].Accepted? && (run[k].Send? ==> SamePayload(run[i].fields, run[k].fields))
    ensures RefsAfter(run[..n]) == RefsAfter(run[..i + 1])
    ensures RefsAfter(run[..n]).attempt.Some? &&
            RefsAfter(run[..n]).attempt.value.serialized == Serialized(run[i].fields)
    decreases n
  {
    hide Serialized, SameData;
    RefsStep(run, n - 1);
    if n > i + 1 {
      AttemptStays(run, i, n - 1);
      if run[n - 1].Send? {
        SerializedExactly(run[i].fields, run[n - 1].fields);
      }
    }
  }

  /** A later request reuses the key exactly when there was no acceptance and no change of data in between. */
  lemma KeyIsReusedExactly(run: seq<Action>, i: nat, j: nat)
    requires Proper(run) && i < j < |run| && run[i].Send? && run[j].Send?
    ensures SentAt(run, i).idempotencyKey == SentAt(run, j).idempotencyKey <==> Unchanged(run, i, j)
  {
    hide Body, Serialized, SameData;
    var a := SentFromStart(run, i);
    var b := SentFromStart(run, j);
    if run[a].createdKey == run[b].createdKey {
      assert a == b;
      forall k | i < k <= j
        ensures !run[k].Accepted? && (run[k].Send? ==> SamePayload(run[i].fields, run[k].fields))
      {
        if run[k].Send? {
          SerializedExactly(run[a].fields, run[i].fields);
          SerializedExactly(run[a].fields, run[k].fields);
          SerializedExactly(run[i].fields, run[k].fields);
        }
      }
    }
    if Unchanged(run, i, j) {
      AttemptStays(run, i, j + 1);
    }
  }
}
