/** The process-local fallback: one dictionary of buckets with lazy expiry, a bulk
    purge and a cap at which unseen identities are refused. */
module LocalBuckets {
  import opened TickBucket
  import opened TokenBucket
  import opened Options

  const LOCAL_BUCKET_MAX_KEYS: nat := 1_024

  datatype Bucket = Bucket(tokens: real, updatedAt: real, expiresAt: real)

  type Table = map<string, Bucket>

  // ---------------------------------------------------------------- one call, on values

  /** At the cap, expired buckets are reclaimed first. */
  function Reclaimed(table: Table, cap: nat, now: real): Table {
    if |table| >= cap
    then map name | name in table && table[name].expiresAt > now :: table[name]
    else table
  }

  predicate Live(table: Table, key: string, now: real) {
    key in table && table[key].expiresAt > now
  }

  /** Still at the cap after reclaiming, and the identity has no live bucket. */
  predicate CapRefuses(table: Table, cap: nat, key: string, now: real) {
    var kept := Reclaimed(table, cap, now);
    !Live(kept, key, now) && |kept - {key}| >= cap
  }

  function Found(table: Table, key: string, now: real): Option<Level> {
    if Live(table, key, now) then Some(Level(table[key].tokens, table[key].updatedAt)) else None
  }

  /** The bucket a call is judged by: the live one topped up, or a full new one. */
  function ToppedBucket(table: Table, key: string, limit: Limit, now: real): Bucket
    requires limit.Valid()
  {
    Bucket(Topped(limit, Found(table, key, now), now), now, now + (limit.window * 2) as real)
  }

  function Settled(table: Table, key: string, limit: Limit, bucket: Bucket): (Table, Verdict)
    requires limit.Valid()
  {
    (table[key := bucket.(tokens := Spend(bucket.tokens))], Judge(limit, bucket.tokens))
  }

  function Step(table: Table, cap: nat, key: string, limit: Limit, now: real): (Table, Verdict)
    requires limit.Valid()
  {
    var kept := Reclaimed(table, cap, now);
    if CapRefuses(table, cap, key, now) then
      (kept - {key}, Verdict(false, Max(1, limit.window)))
    else
      Settled(kept, key, limit, ToppedBucket(kept, key, limit, now))
  }

  // ---------------------------------------------------------------- one call, in place

  class BucketTable {
    const cap: nat
    var buckets: Table

    constructor (cap: nat := LOCAL_BUCKET_MAX_KEYS)
      ensures buckets == map[] && this.cap == cap
    {
      this.cap := cap;
      buckets := map[];
    }

    method Purge(now: real)
      modifies this`buckets
      ensures buckets == map name | name in old(buckets) && old(buckets)[name].expiresAt > now :: old(buckets)[name]
    {
      ghost var before := buckets;
      var expired := set name | name in buckets && buckets[name].expiresAt <= now;
      while expired != {}
        invariant forall name | name in expired :: name in before && before[name].expiresAt <= now
        invariant forall name | name in before && before[name].expiresAt <= now :: name in expired || name !in buckets
        invariant forall name | name in before && before[name].expiresAt > now :: name in buckets
        invariant forall name | name in buckets :: name in before && buckets[name] == before[name]
        decreases |expired|
      {
        var name :| name in expired;
        buckets := buckets - {name};
        expired := expired - {name};
      }
    }

    /** Looks the bucket up through expiry and tops it up; None is a refusal at the cap. */
    method Take(key: string, limit: Limit, now: real) returns (bucket: Option<Bucket>)
      requires limit.Valid()
      modifies this`buckets
      ensures var kept := Reclaimed(old(buckets), cap, now);
              if CapRefuses(old(buckets), cap, key, now)
              then bucket == None && buckets == kept - {key}
              else
                && bucket == Some(ToppedBucket(kept, key, limit, now))
                && buckets - {key} == kept - {key}
    {
      if |buckets| >= cap {
        Purge(now);
      }
      bucket := if key in buckets then Some(buckets[key]) else None;
      if bucket.Some? && bucket.value.expiresAt <= now {
        buckets := buckets - {key};
        bucket := None;
      }
      if bucket.None? {
        assert buckets == Reclaimed(old(buckets), cap, now) - {key};
        if |buckets| >= cap {
          return None;
        }
        bucket := Some(Bucket(limit.capacity as real, now, now + (limit.window * 2) as real));
      } else {
        var elapsed := MaxReal(0.0, now - bucket.value.updatedAt);
        bucket := Some(Bucket(MinReal(limit.capacity as real, bucket.value.tokens + Earned(limit.Rate(), elapsed)),
                              now, now + (limit.window * 2) as real));
      }
    }

    /** Judges the topped-up bucket, spends a token if there is one and stores it. */
    method Settle(key: string, limit: Limit, topped: Bucket) returns (verdict: Verdict)
      requires limit.Valid()
      modifies this`buckets
      ensures (buckets, verdict) == Settled(old(buckets), key, limit, topped)
    {
      var bucket := topped;
      var allowed := bucket.tokens >= 1.0;
      var retryAfter := 0;
      if allowed {
        bucket := bucket.(tokens := bucket.tokens - 1.0);
      } else {
        retryAfter := Max(1, Ceil((1.0 - bucket.tokens) / limit.Rate()));
      }
      buckets := buckets[key := bucket];
      verdict := Verdict(allowed, retryAfter);
    }

    method Consume(key: string, limit: Limit, now: real) returns (verdict: Verdict)
      requires limit.Valid()
      modifies this`buckets
      ensures (buckets, verdict) == Step(old(buckets), cap, key, limit, now)
    {
      var bucket := Take(key, limit, now);
      if bucket.None? {
        return Verdict(false, Max(1, limit.window));
      }
      SameElsewhere(buckets, Reclaimed(old(buckets), cap, now), key, limit, bucket.value);
      verdict := Settle(key, limit, bucket.value);
    }
  }

  lemma SameElsewhere(a: Table, b: Table, key: string, limit: Limit, bucket: Bucket)
    requires limit.Valid() && a - {key} == b - {key}
    ensures Settled(a, key, limit, bucket) == Settled(b, key, limit, bucket)
  {
    hide Earned, Limit.Rate, WaitFor;
    var spent := bucket.(tokens := Spend(bucket.tokens));
    assert a[key := spent] == (a - {key})[key := spent];
    assert b[key := spent] == (b - {key})[key := spent];
  }

  // ---------------------------------------------------------------- whole runs

  datatype Call = Call(key: string, now: real)

  /** Every key has one fixed, positive limit. */
  ghost predicate AllValid(limits: string -> Limit) {
    forall key :: limits(key).Valid()
  }

  ghost predicate InOrder(calls: seq<Call>) {
    forall i, j | 0 <= i < j < |calls| :: calls[i].now <= calls[j].now
  }

  /** The dictionary after a run of calls that starts empty. */
  ghost function TableAfter(limits: string -> Limit, cap: nat, calls: seq<Call>): Table
    requires AllValid(limits)
  {
    if calls == [] then map[]
    else
      var call := calls[|calls| - 1];
      Step(TableAfter(limits, cap, calls[..|calls| - 1]), cap, call.key, limits(call.key), call.now).0
  }

  /** What `call` is told after the run `calls`. */
  ghost function Answer(limits: string -> Limit, cap: nat, calls: seq<Call>, call: Call): Verdict
    requires AllValid(limits)
  {
    Step(TableAfter(limits, cap, calls), cap, call.key, limits(call.key), call.now).1
  }

  ghost predicate Capped(limits: string -> Limit, cap: nat, calls: seq<Call>, call: Call)
    requires AllValid(limits)
  {
    CapRefuses(TableAfter(limits, cap, calls), cap, call.key, call.now)
  }

  /** The times at which calls for `key` reached a bucket, that is, were not refused at the cap. */
  ghost function TimesOf(limits: string -> Limit, cap: nat, calls: seq<Call>, key: string): seq<real>
    requires AllValid(limits)
  {
    if calls == [] then []
    else
      var before, call := calls[..|calls| - 1], calls[|calls| - 1];
      if call.key == key && !Capped(limits, cap, before, call)
      then TimesOf(limits, cap, before, key) + [call.now]
      else TimesOf(limits, cap, before, key)
  }

  /** The times at which calls for `key` were let through. */
  ghost function AllowedTimes(limits: string -> Limit, cap: nat, calls: seq<Call>, key: string): seq<real>
    requires AllValid(limits)
  {
    if calls == [] then []
    else
      var before, call := calls[..|calls| - 1], calls[|calls| - 1];
      if call.key == key && Answer(limits, cap, before, call).allowed
      then AllowedTimes(limits, cap, before, key) + [call.now]
      else AllowedTimes(limits, cap, before, key)
  }

  /** The dictionary tracks the never-evicted bucket of `key`: a stored bucket is that
      bucket, and a missing one has been idle long enough to be full again. */
  ghost predicate Tracks(table: Table, key: string, limit: Limit, times: seq<real>, clock: real)
    requires limit.Valid()
  {
    && Ordered(times)
    && (times != [] ==> times[|times| - 1] <= clock)
    && (key in table ==>
          && LevelAt(limit, times) == Some(Level(table[key].tokens, table[key].updatedAt))
          && table[key].expiresAt == table[key].updatedAt + (limit.window * 2) as real)
    && (key !in table && times != [] ==> times[|times| - 1] + (limit.window * 2) as real <= clock)
  }

  /** A bucket idle for two windows has refilled to its capacity. */
  lemma IdleBucketIsFull(limit: Limit, times: seq<real>, now: real)
    requires limit.Valid() && Ordered(times) && times != []
    requires times[|times| - 1] + (limit.window * 2) as real <= now
    ensures Topped(limit, LevelAt(limit, times), now) == limit.capacity as real
  {
    hide Earned, Limit.Rate, WaitFor;
    var before, at := times[..|times| - 1], times[|times| - 1];
    assert times == before + [at];
    TokensAreNonnegative(limit, before, at);
    FullAfterAWindow(limit, LevelAt(limit, times).value, now);
  }

  lemma FullAfterAWindow(limit: Limit, level: Level, now: real)
    requires limit.Valid() && level.tokens >= 0.0
    requires level.updatedAt + limit.window as real <= now
    ensures Topped(limit, Some(level), now) == limit.capacity as real
  {
    var r := limit.Rate();
    RateFacts(limit);
    EarnedIsMonotone(r, limit.window as real, now - level.updatedAt);
  }

  /** Reading through expiry gives what the never-evicted bucket holds. */
  lemma FoundIsTheIdealLevel(table: Table, key: string, limit: Limit, times: seq<real>, clock: real, now: real)
    requires limit.Valid() && Tracks(table, key, limit, times, clock) && clock <= now
    ensures Topped(limit, Found(table, key, now), now) == Topped(limit, LevelAt(limit, times), now)
  {
    hide Earned, Limit.Rate, WaitFor;
    if times != [] && !Live(table, key, now) {
      IdleBucketIsFull(limit, times, now);
    }
  }

  lemma ReclaimKeepsTrack(table: Table, cap: nat, key: string, limit: Limit, times: seq<real>, clock: real, now: real)
    requires limit.Valid() && Tracks(table, key, limit, times, clock) && clock <= now
    ensures Tracks(Reclaimed(table, cap, now), key, limit, times, now)
    ensures Tracks(Reclaimed(table, cap, now) - {key}, key, limit, times, now) || Live(table, key, now)
  {
    hide Earned, Limit.Rate, WaitFor;
  }

  lemma LevelSnoc(limit: Limit, times: seq<real>, now: real)
    requires limit.Valid()
    ensures LevelAt(limit, times + [now]) == Some(Level(Spend(Topped(limit, LevelAt(limit, times), now)), now))
    ensures Passed(limit, times + [now]) ==
            if VerdictAt(limit, times, now).allowed then Passed(limit, times) + [now] else Passed(limit, times)
  {
    assert (times + [now])[..|times|] == times;
  }

  lemma StepKeepsTrack(table: Table, cap: nat, key: string, limit: Limit, times: seq<real>, clock: real, now: real)
    requires limit.Valid() && Tracks(table, key, limit, times, clock) && clock <= now
    ensures var (after, verdict) := Step(table, cap, key, limit, now);
            if CapRefuses(table, cap, key, now) then Tracks(after, key, limit, times, now)
            else Tracks(after, key, limit, times + [now], now) && verdict == VerdictAt(limit, times, now)
  {
    hide Earned, Limit.Rate, WaitFor;
    ReclaimKeepsTrack(table, cap, key, limit, times, clock, now);
    FoundIsTheIdealLevel(Reclaimed(table, cap, now), key, limit, times, now, now);
    LevelSnoc(limit, times, now);
  }

  lemma OtherStepKeepsTrack(table: Table, cap: nat, key: string, limit: Limit, times: seq<real>, clock: real,
                            other: string, otherLimit: Limit, now: real)
    requires limit.Valid() && otherLimit.Valid() && Tracks(table, key, limit, times, clock) && clock <= now
    requires other != key
    ensures Tracks(Step(table, cap, other, otherLimit, now).0, key, limit, times, now)
  {
    hide Earned, Limit.Rate, WaitFor;
    ReclaimKeepsTrack(table, cap, key, limit, times, clock, now);
  }

  ghost function ClockOf(calls: seq<Call>): real {
    if calls == [] then 0.0 else calls[|calls| - 1].now
  }

  /** In every run the dictionary tracks the ideal bucket of every key. */
  lemma {:induction false} RunKeepsTrack(limits: string -> Limit, cap: nat, calls: seq<Call>, key: string)
    requires AllValid(limits) && InOrder(calls)
    ensures Tracks(TableAfter(limits, cap, calls), key, limits(key), TimesOf(limits, cap, calls, key), ClockOf(calls))
    ensures calls == [] ==> TimesOf(limits, cap, calls, key) == []
  {
    hide Earned, Limit.Rate, WaitFor;
    if calls != [] {
      var before, call := calls[..|calls| - 1], calls[|calls| - 1];
      RunKeepsTrack(limits, cap, before, key);
      var table, times := TableAfter(limits, cap, before), TimesOf(limits, cap, before, key);
      var clock := if before == [] then call.now else ClockOf(before);
      assert Tracks(table, key, limits(key), times, clock) && clock <= call.now;
      if call.key == key {
        StepKeepsTrack(table, cap, key, limits(key), times, clock, call.now);
      } else {
        OtherStepKeepsTrack(table, cap, key, limits(key), times, clock, call.key, limits(call.key), call.now);
      }
    }
  }

  /** Expiry and purging are invisible: every call that reaches a bucket is told exactly
      what a bucket that is never evicted would have said. */
  lemma EvictionIsInvisible(limits: string -> Limit, cap: nat, calls: seq<Call>, call: Call)
    requires AllValid(limits) && InOrder(calls + [call])
    requires !Capped(limits, cap, calls, call)
    ensures Answer(limits, cap, calls, call) ==
            VerdictAt(limits(call.key), TimesOf(limits, cap, calls, call.key), call.now)
  {
    hide Earned, Limit.Rate, WaitFor;
    assert calls == (calls + [call])[..|calls|] && (calls + [call])[|calls|] == call;
    assert InOrder(calls) by {
      assert forall i | 0 <= i < |calls| :: calls[i] == (calls + [call])[i];
    }
    RunKeepsTrack(limits, cap, calls, call.key);
    var clock := if calls == [] then call.now else ClockOf(calls);
    assert calls != [] ==> (calls + [call])[|calls| - 1].now <= call.now;
    StepKeepsTrack(TableAfter(limits, cap, calls), cap, call.key, limits(call.key),
                   TimesOf(limits, cap, calls, call.key), clock, call.now);
  }

  /** The calls let through are those the never-evicted bucket lets through. */
  lemma {:induction false} AllowedArePassed(limits: string -> Limit, cap: nat, calls: seq<Call>, key: string)
    requires AllValid(limits) && InOrder(calls)
    ensures AllowedTimes(limits, cap, calls, key) == Passed(limits(key), TimesOf(limits, cap, calls, key))
  {
    hide Earned, Limit.Rate, WaitFor;
    if calls != [] {
      var before, call := calls[..|calls| - 1], calls[|calls| - 1];
      assert calls == before + [call];
      AllowedArePassed(limits, cap, before, key);
      if call.key == key && !Capped(limits, cap, before, call) {
        EvictionIsInvisible(limits, cap, before, call);
        LevelSnoc(limits(key), TimesOf(limits, cap, before, key), call.now);
      }
    }
  }

  /** In every run a call is let through exactly when it is not refused at the cap and the calls let
      through before it leave room for it in every interval. */
  lemma FallbackAdmitsExactly(limits: string -> Limit, cap: nat, calls: seq<Call>, call: Call)
    requires AllValid(limits) && InOrder(calls + [call])
    ensures Answer(limits, cap, calls, call).allowed <==>
            && !Capped(limits, cap, calls, call)
            && FitsEveryWindow(limits(call.key), AllowedTimes(limits, cap, calls, call.key), call.now)
  {
    hide Topped, LevelAt, Judge, Step, TableAfter, TimesOf, Answer, AllowedTimes, Passed, FitsEveryWindow, VerdictAt,
         Capped;
    if Capped(limits, cap, calls, call) {
      CapHolds(limits, cap, calls, call);
    } else {
      InOrderPrefix(calls, call);
      LastUse(limits, cap, calls, call);
      EvictionIsInvisible(limits, cap, calls, call);
      AllowedArePassed(limits, cap, calls, call.key);
      AdmitsExactlyTheQuota(limits(call.key), TimesOf(limits, cap, calls, call.key), call.now);
    }
  }

  /** In every run, with any keys, purges, expiries and cap refusals, the calls let
      through for one key in [from, to] number at most C + (to - from) * C / W. */
  lemma FallbackKeepsTheQuota(limits: string -> Limit, cap: nat, calls: seq<Call>, key: string, from: real, to: real)
    requires AllValid(limits) && InOrder(calls) && from <= to
    ensures CountIn(AllowedTimes(limits, cap, calls, key), from, to) as real <= Quota(limits(key), to - from)
  {
    hide Topped, LevelAt, Judge, Step, TableAfter, TimesOf, Answer, AllowedTimes, Passed, CountIn, Quota;
    RunKeepsTrack(limits, cap, calls, key);
    AllowedArePassed(limits, cap, calls, key);
    PassedWithinQuota(limits(key), TimesOf(limits, cap, calls, key), from, to);
  }

  // ---------------------------------------------------------------- the cap

  lemma KeysOfStep(table: Table, cap: nat, key: string, limit: Limit, now: real)
    requires limit.Valid()
    ensures var kept, after := Reclaimed(table, cap, now), Step(table, cap, key, limit, now).0;
            && kept.Keys <= table.Keys
            && (kept - {key}).Keys == kept.Keys - {key}
            && after.Keys == if CapRefuses(table, cap, key, now) then kept.Keys - {key} else kept.Keys + {key}
  {
    hide Earned, Limit.Rate, WaitFor;
  }

  lemma StepKeepsTheCap(table: Table, cap: nat, key: string, limit: Limit, now: real)
    requires limit.Valid() && |table| <= cap
    ensures |Step(table, cap, key, limit, now).0| <= cap
    ensures Live(table, key, now) ==> !CapRefuses(table, cap, key, now)
  {
    hide Earned, Limit.Rate, WaitFor;
    var kept, after := Reclaimed(table, cap, now), Step(table, cap, key, limit, now).0;
    KeysOfStep(table, cap, key, limit, now);
    SmallerSet(kept.Keys, table.Keys);
    SmallerSet(kept.Keys - {key}, kept.Keys);
    if CapRefuses(table, cap, key, now) {
      assert |after| == |after.Keys|;
    } else if Live(kept, key, now) {
      assert kept.Keys + {key} == kept.Keys;
    } else {
      assert kept.Keys + {key} == kept.Keys - {key} + {key};
    }
  }

  /** Whatever one call drops had expired, and it touches no other identity. */
  lemma OnlyExpiredBucketsGo(table: Table, cap: nat, key: string, limit: Limit, now: real)
    requires limit.Valid()
    ensures forall name | name in table :: var after := Step(table, cap, key, limit, now).0;
              if name !in after then table[name].expiresAt <= now
              else name == key || after[name] == table[name]
  {
    hide Earned, Limit.Rate, WaitFor;
  }

  lemma {:induction false} SmallerSet<T>(a: set<T>, b: set<T>)
    requires a <= b
    ensures |a| <= |b|
  {
    assert b == a + (b - a);
  }

  /** The dictionary never exceeds its cap, a live identity is never refused by it, and whoever is
      refused is told to come back after a whole window. */
  lemma {:induction false} CapHolds(limits: string -> Limit, cap: nat, calls: seq<Call>, call: Call)
    requires AllValid(limits)
    ensures |TableAfter(limits, cap, calls)| <= cap
    ensures Capped(limits, cap, calls, call) ==>
            Answer(limits, cap, calls, call) == Verdict(false, limits(call.key).window)
    ensures Live(TableAfter(limits, cap, calls), call.key, call.now) ==> !Capped(limits, cap, calls, call)
  {
    hide Earned, Limit.Rate, WaitFor;
    if calls != [] {
      var before, last := calls[..|calls| - 1], calls[|calls| - 1];
      CapHolds(limits, cap, before, last);
      StepKeepsTheCap(TableAfter(limits, cap, before), cap, last.key, limits(last.key), last.now);
    }
    StepKeepsTheCap(TableAfter(limits, cap, calls), cap, call.key, limits(call.key), call.now);
  }

  // ---------------------------------------------------------------- Retry-After over whole runs

  lemma TrackedAndRecentIsLive(table: Table, key: string, limit: Limit, times: seq<real>, clock: real, now: real)
    requires limit.Valid() && Tracks(table, key, limit, times, clock) && times != []
    requires clock <= now < times[|times| - 1] + (limit.window * 2) as real
    ensures Live(table, key, now)
  {
    hide Earned, Limit.Rate, WaitFor;
    assert LevelAt(limit, times).value.updatedAt == times[|times| - 1];
  }

  lemma TimesSnoc(limits: string -> Limit, cap: nat, calls: seq<Call>, call: Call, key: string)
    requires AllValid(limits)
    ensures TimesOf(limits, cap, calls + [call], key) ==
            if call.key == key && !Capped(limits, cap, calls, call)
            then TimesOf(limits, cap, calls, key) + [call.now]
            else TimesOf(limits, cap, calls, key)
  {
    hide Earned, Limit.Rate, WaitFor;
    assert (calls + [call])[..|calls|] == calls;
  }

  lemma InOrderPrefix(calls: seq<Call>, call: Call)
    requires InOrder(calls + [call])
    ensures InOrder(calls) && (calls != [] ==> ClockOf(calls) <= call.now)
  {
    assert forall i | 0 <= i < |calls| :: calls[i] == (calls + [call])[i];
    assert (calls + [call])[|calls|] == call;
  }

  /** A call made less than two windows after its bucket was last used reaches that bucket. */
  lemma RecentCallsReachTheBucket(limits: string -> Limit, cap: nat, calls: seq<Call>, call: Call)
    requires AllValid(limits) && InOrder(calls + [call])
    requires var times := TimesOf(limits, cap, calls, call.key);
             times != [] && call.now < times[|times| - 1] + (limits(call.key).window * 2) as real
    ensures !Capped(limits, cap, calls, call)
    ensures TimesOf(limits, cap, calls + [call], call.key) == TimesOf(limits, cap, calls, call.key) + [call.now]
    ensures Answer(limits, cap, calls, call) ==
            VerdictAt(limits(call.key), TimesOf(limits, cap, calls, call.key), call.now)
  {
    hide Topped, LevelAt, Judge, Step, TableAfter, TimesOf, Answer;
    InOrderPrefix(calls, call);
    RunKeepsTrack(limits, cap, calls, call.key);
    TrackedAndRecentIsLive(TableAfter(limits, cap, calls), call.key, limits(call.key),
                           TimesOf(limits, cap, calls, call.key), ClockOf(calls), call.now);
    CapHolds(limits, cap, calls, call);
    TimesSnoc(limits, cap, calls, call, call.key);
    EvictionIsInvisible(limits, cap, calls, call);
  }

  /** Calls for `key` in `after` are all told no. */
  ghost predicate KeepsDenying(limits: string -> Limit, cap: nat, before: seq<Call>, after: seq<Call>, key: string)
    requires AllValid(limits)
    decreases |after|
  {
    after != [] ==>
      && (after[0].key == key ==> !Answer(limits, cap, before, after[0]).allowed)
      && KeepsDenying(limits, cap, before + [after[0]], after[1..], key)
  }

  /** `key` was last served late enough to be live until `horizon`, and no call comes after that. */
  ghost predicate LiveUntil(limit: Limit, times: seq<real>, after: seq<Call>, horizon: real) {
    && times != []
    && horizon < times[|times| - 1] + (limit.window * 2) as real
    && forall i | 0 <= i < |after| :: after[i].now <= horizon
  }

  lemma InOrderCons(before: seq<Call>, next: Call, rest: seq<Call>)
    requires InOrder(before + ([next] + rest))
    ensures InOrder(before + [next]) && InOrder(before + [next] + rest)
    ensures before + [next] + rest == before + ([next] + rest)
  {
    assert before + [next] + rest == before + ([next] + rest);
    assert forall i | 0 <= i < |before + [next]| :: (before + [next])[i] == (before + [next] + rest)[i];
  }

  lemma Regroup<T>(a: seq<T>, x: T, b: seq<T>)
    ensures a + [x] + b == a + ([x] + b) && ([x] + b)[1..] == b && |a + [x]| == |a| + 1
    ensures (a + [x])[..|a|] == a && (a + [x])[|a|] == x
  {
  }

  lemma LastUseIsPast(limits: string -> Limit, cap: nat, calls: seq<Call>, call: Call, key: string)
    requires AllValid(limits) && InOrder(calls + [call])
    requires TimesOf(limits, cap, calls, key) != []
    ensures TimesOf(limits, cap, calls, key)[|TimesOf(limits, cap, calls, key)| - 1] <= call.now
  {
    hide Topped, LevelAt, Judge, Step, TableAfter, TimesOf, Answer;
    InOrderPrefix(calls, call);
    RunKeepsTrack(limits, cap, calls, key);
  }

  /** Within two windows of its last use, whatever else happens, the denied calls of
      `key` all reach its bucket, as polls. */
  lemma {:induction false} DeniedCallsArePolls(limits: string -> Limit, cap: nat, before: seq<Call>, after: seq<Call>,
                                               key: string, horizon: real)
    returns (polls: seq<real>)
    requires AllValid(limits) && InOrder(before + after)
    requires KeepsDenying(limits, cap, before, after, key)
    requires LiveUntil(limits(key), TimesOf(limits, cap, before, key), after, horizon)
    ensures TimesOf(limits, cap, before + after, key) == TimesOf(limits, cap, before, key) + polls
    ensures AllRefused(limits(key), TimesOf(limits, cap, before, key), polls)
    decreases |after|
  {
    hide VerdictAt, Step, TableAfter, TimesOf, Answer;
    var times := TimesOf(limits, cap, before, key);
    if after == [] {
      polls := [];
      assert before + after == before && times + polls == times;
    } else {
      var next, rest := after[0], after[1..];
      assert after == [next] + rest;
      InOrderCons(before, next, rest);
      if next.key == key {
        LastUseIsPast(limits, cap, before, next, key);
        RecentCallsReachTheBucket(limits, cap, before, next);
        var more := DeniedCallsArePolls(limits, cap, before + [next], rest, key, horizon);
        polls := [next.now] + more;
        Regroup(times, next.now, more);
      } else {
        TimesSnoc(limits, cap, before, next, key);
        polls := DeniedCallsArePolls(limits, cap, before + [next], rest, key, horizon);
      }
    }
  }

  lemma OrderedTail(times: seq<real>, x: real, polls: seq<real>, later: real)
    requires Ordered(times + [x] + polls) && (times + [x] + polls)[|times| + |polls|] <= later
    ensures Ordered([x] + polls + [later])
    ensures x <= (times + [x] + polls)[|times| + |polls|]
  {
    var all, tail := times + [x] + polls, [x] + polls + [later];
    assert forall i | 0 <= i < |tail| - 1 :: tail[i] == all[|times| + i];
    assert tail[0] == x && tail[|polls|] == all[|times| + |polls|];
  }

  lemma InOrderMiddle(before: seq<Call>, call: Call, after: seq<Call>, later: Call)
    requires InOrder(before + [call] + after + [later])
    ensures InOrder(before) && InOrder(before + [call]) && InOrder(before + [call] + after)
    ensures forall i | 0 <= i < |after| :: after[i].now <= later.now
    ensures ClockOf(before + [call] + after) <= later.now
  {
    var start := before + [call];
    InOrderPrefix(start + after, later);
    assert (start + after)[..|start|] == start && start[..|before|] == before;
    forall i | 0 <= i < |after|
      ensures after[i].now <= later.now
    {
      assert (start + after + [later])[|start| + i] == after[i] && (start + after + [later])[|start + after|] == later;
    }
  }

  /** The calls of a denied caller, up to `later`, as its bucket sees them. */
  lemma DenialAndPolls(limits: string -> Limit, cap: nat, before: seq<Call>, call: Call, after: seq<Call>, later: Call)
    returns (polls: seq<real>)
    requires AllValid(limits) && InOrder(before + [call] + after + [later]) && later.key == call.key
    requires !Capped(limits, cap, before, call)
    requires KeepsDenying(limits, cap, before + [call], after, call.key)
    requires later.now < call.now + (limits(call.key).window * 2) as real
    ensures var limit, times := limits(call.key), TimesOf(limits, cap, before, call.key);
            && Ordered(times + [call.now]) && Ordered([call.now] + polls + [later.now])
            && AllRefused(limit, times + [call.now], polls)
            && Answer(limits, cap, before, call) == VerdictAt(limit, times, call.now)
            && Answer(limits, cap, before + [call] + after, later) ==
               VerdictAt(limit, times + [call.now] + polls, later.now)
  {
    hide Topped, LevelAt, Judge, Step, TableAfter, TimesOf, Answer;
    var key, start := call.key, before + [call];
    var times := TimesOf(limits, cap, before, key);
    InOrderMiddle(before, call, after, later);
    EvictionIsInvisible(limits, cap, before, call);
    TimesSnoc(limits, cap, before, call, key);
    RunKeepsTrack(limits, cap, start, key);
    Regroup(times, call.now, []);
    polls := DeniedCallsArePolls(limits, cap, start, after, key, later.now);
    RunKeepsTrack(limits, cap, start + after, key);
    assert |times + [call.now] + polls| == |times| + |polls| + 1;
    OrderedTail(times, call.now, polls, later.now);
    RecentCallsReachTheBucket(limits, cap, start + after, later);
  }

  /** Nobody who is denied, by a bucket or at the cap, is told to wait longer than the window. */
  lemma PromiseIsBounded(limits: string -> Limit, cap: nat, before: seq<Call>, call: Call)
    requires AllValid(limits) && InOrder(before + [call]) && !Answer(limits, cap, before, call).allowed
    ensures 1 <= Answer(limits, cap, before, call).retryAfter <= limits(call.key).window
  {
    hide Topped, LevelAt, Judge, Step, TableAfter, TimesOf, Answer;
    if Capped(limits, cap, before, call) {
      CapHolds(limits, cap, before, call);
      assert limits(call.key).Valid();
    } else {
      LastUse(limits, cap, before, call);
      EvictionIsInvisible(limits, cap, before, call);
      WaitIsWithinTheWindow(limits(call.key), TimesOf(limits, cap, before, call.key), call.now);
    }
  }

  /** Retry-After, over whole runs of the fallback: a caller whom the bucket denied and
      told `n` is let through `n` seconds later, whatever other identities do and however
      often it polls in vain meanwhile. */
  lemma PromiseIsKept(limits: string -> Limit, cap: nat, before: seq<Call>, call: Call, after: seq<Call>, n: nat,
                      later: Call)
    requires AllValid(limits) && InOrder(before + [call] + after + [later])
    requires !Capped(limits, cap, before, call) && Answer(limits, cap, before, call) == Verdict(false, n)
    requires KeepsDenying(limits, cap, before + [call], after, call.key)
    requires later.key == call.key && later.now == call.now + n as real
    ensures Answer(limits, cap, before + [call] + after, later).allowed
  {
    hide Topped, LevelAt, Judge, Step, TableAfter, TimesOf, Answer;
    InOrderMiddle(before, call, after, later);
    PromiseIsBounded(limits, cap, before, call);
    var polls := DenialAndPolls(limits, cap, before, call, after, later);
    AdmittedWhenTold(limits(call.key), TimesOf(limits, cap, before, call.key), call.now, polls, n, later.now);
  }

  /** And it is not let through one second sooner. */
  lemma PromiseIsTight(limits: string -> Limit, cap: nat, before: seq<Call>, call: Call, after: seq<Call>, n: nat,
                       later: Call)
    requires AllValid(limits) && InOrder(before + [call] + after + [later])
    requires !Capped(limits, cap, before, call) && Answer(limits, cap, before, call) == Verdict(false, n)
    requires KeepsDenying(limits, cap, before + [call], after, call.key)
    requires later.key == call.key && later.now == call.now + (n - 1) as real
    ensures !Answer(limits, cap, before + [call] + after, later).allowed
  {
    hide Topped, LevelAt, Judge, Step, TableAfter, TimesOf, Answer;
    InOrderMiddle(before, call, after, later);
    PromiseIsBounded(limits, cap, before, call);
    var polls := DenialAndPolls(limits, cap, before, call, after, later);
    RefusedASecondEarlier(limits(call.key), TimesOf(limits, cap, before, call.key), call.now, polls, n, later.now);
  }

  lemma LastUse(limits: string -> Limit, cap: nat, calls: seq<Call>, call: Call)
    requires AllValid(limits) && InOrder(calls + [call])
    ensures Ordered(TimesOf(limits, cap, calls, call.key) + [call.now])
  {
    hide Topped, LevelAt, Judge, Step, TableAfter, TimesOf, Answer;
    InOrderPrefix(calls, call);
    RunKeepsTrack(limits, cap, calls, call.key);
  }
}
