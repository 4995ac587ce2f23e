/** What Retry-After is worth. A caller the local dictionary refuses at its cap is promised nothing:
    other identities may fill it again. Of all other refusals the promise is exact, for the bucket that made it. */
module CapRefusals {
  import opened TokenBucket
  import opened LocalBuckets

  /** In every continuation in which the caller only polls in vain, it is let through `n` seconds later. */
  ghost predicate PromiseHolds(limits: string -> Limit, cap: nat, before: seq<Call>, call: Call, n: nat)
    requires AllValid(limits)
  {
    forall after: seq<Call>, later: Call
      | && InOrder(before + [call] + after + [later]) && KeepsDenying(limits, cap, before + [call], after, call.key)
        && later.key == call.key && later.now == call.now + n as real ::
      Answer(limits, cap, before + [call] + after, later).allowed
  }

  // ---------------------------------------------------------------- a dictionary that fills up

  /** The dictionary is full of live buckets, none of which belongs to `key`. */
  ghost predicate FullWithout(table: Table, cap: nat, key: string, now: real) {
    |table| >= cap && key !in table && forall name | name in table :: table[name].expiresAt > now
  }

  lemma FullRefuses(table: Table, cap: nat, key: string, now: real)
    requires FullWithout(table, cap, key, now)
    ensures Reclaimed(table, cap, now) == table && CapRefuses(table, cap, key, now)
  {
    assert Reclaimed(table, cap, now) == table;
    assert table - {key} == table;
  }

  /** The identities other than `key` that have a live bucket. */
  ghost function LiveOthers(table: Table, key: string, now: real): set<string> {
    set name | name in table && Live(table, name, now) && name != key
  }

  /** A call is refused at the cap exactly when its own bucket is not live and `cap` others are. */
  lemma CapRefusesExactly(table: Table, cap: nat, key: string, now: real)
    ensures CapRefuses(table, cap, key, now) <==> !Live(table, key, now) && |LiveOthers(table, key, now)| >= cap
  {
    var kept := Reclaimed(table, cap, now);
    if |table| >= cap {
      assert (kept - {key}).Keys == LiveOthers(table, key, now);
    } else {
      SmallerSet((kept - {key}).Keys, table.Keys);
      SmallerSet(LiveOthers(table, key, now), table.Keys);
    }
  }

  /** Where there is room, a new identity takes it. */
  lemma NewcomerFills(table: Table, cap: nat, key: string, name: string, limit: Limit, now: real)
    requires limit.Valid() && name != key && !Live(table, key, now) && !Live(table, name, now)
    requires |LiveOthers(table, key, now)| < cap
    ensures var after := Step(table, cap, name, limit, now).0;
            LiveOthers(after, key, now) == LiveOthers(table, key, now) + {name} && !Live(after, key, now)
  {
    assert LiveOthers(table, name, now) == LiveOthers(table, key, now);
    hide Step, CapRefuses, Reclaimed;
    CapRefusesExactly(table, cap, name, now);
    ServedIsLive(table, cap, name, limit, now, now);
    OnlyExpiredBucketsGo(table, cap, name, limit, now);
    KeysOfStep(table, cap, name, limit, now);
  }

  /** A bucket that has just been used lasts two windows. */
  lemma ServedIsLive(table: Table, cap: nat, name: string, limit: Limit, now: real, later: real)
    requires limit.Valid() && !CapRefuses(table, cap, name, now) && later < now + (limit.window * 2) as real
    ensures Live(Step(table, cap, name, limit, now).0, name, later)
  {
    hide Earned, Limit.Rate, WaitFor;
  }

  lemma {:induction false} LongerThanAll(names: set<string>) returns (length: nat)
    ensures forall name | name in names :: |name| < length
  {
    length := 0;
    if names != {} {
      var name :| name in names;
      length := LongerThanAll(names - {name});
      length := if |name| < length then length else |name| + 1;
    }
  }

  lemma NewName(names: set<string>) returns (name: string)
    ensures name !in names
  {
    var length := LongerThanAll(names);
    name := seq(length, i => 'a');
  }

  /** Unless the caller's bucket is live, new identities can fill the dictionary before it. */
  lemma FillUp(limits: string -> Limit, cap: nat, calls: seq<Call>, key: string, now: real) returns (after: seq<Call>)
    requires AllValid(limits) && !Live(TableAfter(limits, cap, calls), key, now)
    ensures forall i | 0 <= i < |after| :: after[i].key != key && after[i].now == now
    ensures Capped(limits, cap, calls + after, Call(key, now))
  {
    hide Step, Live, LiveOthers, CapRefuses;
    after := [];
    assert calls + after == calls;
    while |LiveOthers(TableAfter(limits, cap, calls + after), key, now)| < cap
      invariant forall i | 0 <= i < |after| :: after[i].key != key && after[i].now == now
      invariant !Live(TableAfter(limits, cap, calls + after), key, now)
      decreases cap - |LiveOthers(TableAfter(limits, cap, calls + after), key, now)|
    {
      var sofar := calls + after;
      var table := TableAfter(limits, cap, sofar);
      var name := NewName(table.Keys + {key});
      AbsentIsNotLive(table, key, name, now);
      NewcomerFills(table, cap, key, name, limits(name), now);
      after := after + [Call(name, now)];
      assert calls + after == sofar + [Call(name, now)] && (calls + after)[..|sofar|] == sofar;
    }
    CapRefusesExactly(TableAfter(limits, cap, calls + after), cap, key, now);
  }

  lemma AbsentIsNotLive(table: Table, key: string, name: string, now: real)
    requires name !in table
    ensures !Live(table, name, now) && name !in LiveOthers(table, key, now)
  {
  }

  lemma {:induction false} OthersDoNotPoll(limits: string -> Limit, cap: nat, before: seq<Call>, after: seq<Call>,
                                           key: string)
    requires AllValid(limits) && forall i | 0 <= i < |after| :: after[i].key != key
    ensures KeepsDenying(limits, cap, before, after, key)
    decreases |after|
  {
    if after != [] {
      OthersDoNotPoll(limits, cap, before + [after[0]], after[1..], key);
    }
  }

  /** Whoever is refused at the cap may be refused again when told to come back. */
  lemma RefusedAgain(limits: string -> Limit, cap: nat, before: seq<Call>, call: Call, n: nat)
    returns (after: seq<Call>, later: Call)
    requires AllValid(limits) && InOrder(before + [call]) && Capped(limits, cap, before, call)
    ensures InOrder(before + [call] + after + [later]) && later == Call(call.key, call.now + n as real)
    ensures forall i | 0 <= i < |after| :: after[i].key != call.key
    ensures !Answer(limits, cap, before + [call] + after, later).allowed
  {
    later := Call(call.key, call.now + n as real);
    CappedIsGone(limits, cap, before, call, later.now);
    hide Capped, Live, Answer, TableAfter, InOrder;
    after := FillUp(limits, cap, before + [call], call.key, later.now);
    CapHolds(limits, cap, before + [call] + after, later);
    AllAtOnce(before, call, after, later);
  }

  lemma AllAtOnce(before: seq<Call>, call: Call, after: seq<Call>, later: Call)
    requires InOrder(before + [call]) && call.now <= later.now
    requires forall i | 0 <= i < |after| :: after[i].now == later.now
    ensures InOrder(before + [call] + after + [later])
  {
    var start := before + [call];
    assert start[|before|] == call;
    assert forall i | 0 <= i < |start| :: start[i].now <= call.now;
  }

  lemma CappedIsGone(limits: string -> Limit, cap: nat, before: seq<Call>, call: Call, now: real)
    requires AllValid(limits) && Capped(limits, cap, before, call)
    ensures !Live(TableAfter(limits, cap, before + [call]), call.key, now)
  {
    hide Earned, Limit.Rate, WaitFor;
    assert (before + [call])[..|before|] == before;
    KeysOfStep(TableAfter(limits, cap, before), cap, call.key, limits(call.key), call.now);
  }

  /** The fallback keeps its Retry-After in every continuation exactly when it was a bucket that refused. */
  lemma PromiseHoldsExactly(limits: string -> Limit, cap: nat, before: seq<Call>, call: Call, n: nat)
    requires AllValid(limits) && InOrder(before + [call]) && Answer(limits, cap, before, call) == Verdict(false, n)
    ensures PromiseHolds(limits, cap, before, call, n) <==> !Capped(limits, cap, before, call)
  {
    hide Answer, Capped, InOrder, KeepsDenying;
    if Capped(limits, cap, before, call) {
      var after, later := RefusedAgain(limits, cap, before, call, n);
      OthersDoNotPoll(limits, cap, before + [call], after, call.key);
    } else {
      forall after: seq<Call>, later: Call
        | && InOrder(before + [call] + after + [later]) && KeepsDenying(limits, cap, before + [call], after, call.key)
          && later.key == call.key && later.now == call.now + n as real
        ensures Answer(limits, cap, before + [call] + after, later).allowed
      {
        PromiseIsKept(limits, cap, before, call, after, n, later);
      }
    }
  }

  function OneInTwoSeconds(key: string): Limit {
    Limit(1, 2)
  }

  /** A dictionary of one: "b" holds it, "a" is told to come back in two seconds and is refused again. */
  lemma CapPromiseFails(b: Call, a: Call, later: Call)
    requires b == Call("b", 0.0) && a == Call("a", 0.5) && later == Call("a", 2.5)
    ensures AllValid(OneInTwoSeconds) && InOrder([b, a, later])
    ensures Answer(OneInTwoSeconds, 1, [b], a) == Verdict(false, 2)
    ensures !Answer(OneInTwoSeconds, 1, [b, a], later).allowed
  {
    FirstCall();
    hide Step, Answer, TableAfter;
    OneFills(OneInTwoSeconds, b, a, later, map["b" := Bucket(0.0, 0.0, 4.0)]);
  }

  lemma OneFills(limits: string -> Limit, b: Call, a: Call, later: Call, t: Table)
    requires AllValid(limits) && Step(map[], 1, b.key, limits(b.key), b.now).0 == t && later.key == a.key
    requires FullWithout(t, 1, a.key, a.now) && FullWithout(t, 1, a.key, later.now)
    ensures Answer(limits, 1, [b], a) == Verdict(false, limits(a.key).window) &&
            !Answer(limits, 1, [b, a], later).allowed
  {
    hide Step, FullWithout, Reclaimed, CapRefuses, Limit.Valid;
    FullStep(t, 1, a.key, limits(a.key), a.now);
    FullStep(t, 1, a.key, limits(a.key), later.now);
    assert [b][..0] == [] && [b, a][..1] == [b];
    assert TableAfter(limits, 1, [b]) == t;
  }

  lemma FullStep(table: Table, cap: nat, key: string, limit: Limit, now: real)
    requires limit.Valid() && FullWithout(table, cap, key, now)
    ensures Step(table, cap, key, limit, now) == (table, Verdict(false, limit.window))
  {
    hide Earned, Limit.Rate, WaitFor;
    FullRefuses(table, cap, key, now);
    assert table - {key} == table;
  }

  lemma FirstCall()
    ensures Step(map[], 1, "b", Limit(1, 2), 0.0).0 == map["b" := Bucket(0.0, 0.0, 4.0)]
  {
    hide Earned, Limit.Rate, WaitFor;
    var none: Table := map[];
    assert Reclaimed(none, 1, 0.0) == none && none - {"b"} == none;
  }
}

/** Retry-After over whole runs of the Redis script, whoever evaluates it. */
module ScriptPromises {
  import opened TickBucket
  import opened TokenBucket
  import opened ScriptBuckets
  import LocalBuckets

  /** Evaluations for `key` in `after` are all told no. */
  ghost predicate KeepsDenying(limits: string -> Limit, before: seq<Eval>, after: seq<Eval>, key: string)
    requires LocalBuckets.AllValid(limits)
    decreases |after|
  {
    after != [] ==>
      && (after[0].key == key ==> !Answer(limits, before, after[0]).allowed)
      && KeepsDenying(limits, before + [after[0]], after[1..], key)
  }

  lemma {:induction false} FaithfulPrefix(limits: string -> Limit, evals: seq<Eval>, more: seq<Eval>)
    requires LocalBuckets.AllValid(limits) && Faithful(limits, evals + more)
    ensures Faithful(limits, evals)
    decreases |more|
  {
    hide StoreAfter, DropsLapsed;
    if more == [] {
      assert evals + more == evals;
    } else {
      assert (evals + more)[..|evals + more| - 1] == evals + more[..|more| - 1];
      FaithfulPrefix(limits, evals, more[..|more| - 1]);
    }
  }

  lemma OrderPrefix(evals: seq<Eval>, more: seq<Eval>)
    requires InOrder(evals + more)
    ensures InOrder(evals)
  {
    assert forall i | 0 <= i < |evals| :: evals[i] == (evals + more)[i];
  }

  lemma TimesSnoc(evals: seq<Eval>, e: Eval, key: string)
    ensures TimesOf(evals + [e], key) == if e.key == key then TimesOf(evals, key) + [e.nowMs as real]
            else TimesOf(evals, key)
  {
    assert (evals + [e])[..|evals|] == evals;
  }

  lemma SecondsSnoc(times: seq<real>, t: real)
    ensures Seconds(times + [t]) == Seconds(times) + [t / 1000.0]
  {
    assert (times + [t])[..|times|] == times;
  }

  lemma {:induction false} SecondsAt(times: seq<real>, i: nat)
    requires i < |times|
    ensures Seconds(times)[i] == times[i] / 1000.0
  {
    if i < |times| - 1 {
      SecondsAt(times[..|times| - 1], i);
    }
  }

  lemma SecondsOrdered(times: seq<real>)
    requires Ordered(times)
    ensures Ordered(Seconds(times))
  {
    forall i, j | 0 <= i < j < |times|
      ensures Seconds(times)[i] <= Seconds(times)[j]
    {
      SecondsAt(times, i);
      SecondsAt(times, j);
    }
  }

  /** The denied evaluations of `key` are polls of its bucket. */
  lemma {:induction false} DeniedEvalsArePolls(limits: string -> Limit, before: seq<Eval>, after: seq<Eval>,
                                               key: string)
    returns (polls: seq<real>)
    requires LocalBuckets.AllValid(limits) && InOrder(before + after) && Faithful(limits, before + after)
    requires KeepsDenying(limits, before, after, key)
    ensures Seconds(TimesOf(before + after, key)) == Seconds(TimesOf(before, key)) + polls
    ensures AllRefused(limits(key), Seconds(TimesOf(before, key)), polls)
    decreases |after|
  {
    hide VerdictAt, Answer, TimesOf, Seconds, Faithful, InOrder;
    var secs := Seconds(TimesOf(before, key));
    if after == [] {
      polls := [];
      assert before + after == before && secs + polls == secs;
    } else {
      var next, rest := after[0], after[1..];
      assert before + after == (before + [next]) + rest;
      TimesSnoc(before, next, key);
      SecondsSnoc(TimesOf(before, key), next.nowMs as real);
      var more := DeniedEvalsArePolls(limits, before + [next], rest, key);
      if next.key == key {
        FaithfulPrefix(limits, before + [next], rest);
        OrderPrefix(before + [next], rest);
        var now := next.nowMs as real / 1000.0;
        ScriptIsTheBucket(limits, before, next, now);
        polls := [now] + more;
        LocalBuckets.Regroup(secs, now, more);
      } else {
        polls := more;
      }
    }
  }

  /** The evaluations of a denied caller, up to `later`, as its bucket sees them. */
  lemma DenialAndPolls(limits: string -> Limit, before: seq<Eval>, e: Eval, after: seq<Eval>, later: Eval, t: real,
                       end: real)
    returns (polls: seq<real>)
    requires LocalBuckets.AllValid(limits) && later.key == e.key
    requires InOrder(before + [e] + after + [later]) && Faithful(limits, before + [e] + after + [later])
    requires KeepsDenying(limits, before + [e], after, e.key)
    requires t == e.nowMs as real / 1000.0 && end == later.nowMs as real / 1000.0
    ensures var limit, times := limits(e.key), Seconds(TimesOf(before, e.key));
            && Ordered(times + [t]) && Ordered([t] + polls + [end])
            && AllRefused(limit, times + [t], polls)
            && Answer(limits, before, e) == VerdictAt(limit, times, t)
            && Answer(limits, before + [e] + after, later) == VerdictAt(limit, times + [t] + polls, end)
  {
    hide VerdictAt, Answer, TimesOf, Seconds, Faithful, InOrder, Ordered, AllRefused, KeepsDenying;
    var start, key := before + [e], e.key;
    var all, times := start + after, Seconds(TimesOf(before, key));
    FaithfulPrefix(limits, all, [later]);
    OrderPrefix(all, [later]);
    FaithfulPrefix(limits, start, after);
    OrderPrefix(start, after);
    ScriptIsTheBucket(limits, before, e, t);
    TimesSnoc(before, e, key);
    SecondsSnoc(TimesOf(before, key), e.nowMs as real);
    polls := DeniedEvalsArePolls(limits, start, after, key);
    ScriptIsTheBucket(limits, all, later, end);
    LastRun(limits, all, later);
    SecondsOrdered(TimesOf(all, key) + [later.nowMs as real]);
    SecondsSnoc(TimesOf(all, key), later.nowMs as real);
    OrderedParts(times, t, polls, end);
  }

  lemma OrderedParts(times: seq<real>, t: real, polls: seq<real>, end: real)
    requires Ordered(times + [t] + polls + [end])
    ensures Ordered(times + [t]) && Ordered([t] + polls + [end])
  {
    var all := times + [t] + polls + [end];
    assert times + [t] == all[..|times| + 1];
    assert [t] + polls + [end] == all[|times|..];
  }

  /** Nobody whom the script denies is told to wait longer than the window. */
  lemma ScriptPromiseIsBounded(limits: string -> Limit, before: seq<Eval>, e: Eval)
    requires LocalBuckets.AllValid(limits) && InOrder(before + [e]) && Faithful(limits, before + [e])
    requires !Answer(limits, before, e).allowed
    ensures 1 <= Answer(limits, before, e).retryAfter <= limits(e.key).window
  {
    hide VerdictAt, Answer, TimesOf, Seconds, Faithful, InOrder, Ordered;
    var t := e.nowMs as real / 1000.0;
    FaithfulPrefix(limits, before, [e]);
    LastRun(limits, before, e);
    SecondsOrdered(TimesOf(before, e.key) + [e.nowMs as real]);
    SecondsSnoc(TimesOf(before, e.key), e.nowMs as real);
    ScriptIsTheBucket(limits, before, e, t);
    WaitIsWithinTheWindow(limits(e.key), Seconds(TimesOf(before, e.key)), t);
  }

  /** Evaluations that are denied add nothing to what was let through. */
  lemma {:induction false} DeniedAddNothing(limits: string -> Limit, before: seq<Eval>, after: seq<Eval>, key: string)
    requires LocalBuckets.AllValid(limits) && KeepsDenying(limits, before, after, key)
    ensures AllowedTimes(limits, before + after, key) == AllowedTimes(limits, before, key)
    decreases |after|
  {
    hide Answer;
    if after == [] {
      assert before + after == before;
    } else {
      var next, rest := after[0], after[1..];
      DeniedAddNothing(limits, before + [next], rest, key);
      assert before + after == (before + [next]) + rest && (before + [next])[..|before|] == before;
    }
  }

  /** A caller whom the script denies and tells `n` is let through `n` seconds later, whatever other keys
      do, whichever lapsed keys Redis drops, and however often the caller polls in vain meanwhile. */
  lemma ScriptPromiseIsKept(limits: string -> Limit, before: seq<Eval>, e: Eval, after: seq<Eval>, n: nat, later: Eval)
    requires LocalBuckets.AllValid(limits) && later.key == e.key && later.nowMs == e.nowMs + 1000 * n
    requires InOrder(before + [e] + after + [later]) && Faithful(limits, before + [e] + after + [later])
    requires Answer(limits, before, e) == Verdict(false, n) && KeepsDenying(limits, before + [e], after, e.key)
    ensures Answer(limits, before + [e] + after, later).allowed
  {
    hide VerdictAt, Answer, TimesOf, Seconds, Faithful, InOrder, Ordered, AllRefused, KeepsDenying;
    var t, end := e.nowMs as real / 1000.0, later.nowMs as real / 1000.0;
    var polls := DenialAndPolls(limits, before, e, after, later, t, end);
    assert end == t + n as real;
    AdmittedWhenTold(limits(e.key), Seconds(TimesOf(before, e.key)), t, polls, n, end);
  }

  /** And it is not let through one second sooner. */
  lemma ScriptPromiseIsTight(limits: string -> Limit, before: seq<Eval>, e: Eval, after: seq<Eval>, n: nat, later: Eval)
    requires LocalBuckets.AllValid(limits) && later.key == e.key && later.nowMs == e.nowMs + 1000 * (n - 1)
    requires InOrder(before + [e] + after + [later]) && Faithful(limits, before + [e] + after + [later])
    requires Answer(limits, before, e) == Verdict(false, n) && KeepsDenying(limits, before + [e], after, e.key)
    ensures !Answer(limits, before + [e] + after, later).allowed
  {
    hide VerdictAt, Answer, TimesOf, Seconds, Faithful, InOrder, Ordered, AllRefused, KeepsDenying;
    var t, end := e.nowMs as real / 1000.0, later.nowMs as real / 1000.0;
    var polls := DenialAndPolls(limits, before, e, after, later, t, end);
    assert end == t + (n - 1) as real;
    RefusedASecondEarlier(limits(e.key), Seconds(TimesOf(before, e.key)), t, polls, n, end);
  }
}

/** Retry-After of enforce_rate_limit, which may meet either bucket at each request. */
module RetryAfter {
  import opened Options
  import opened TickBucket
  import opened TokenBucket
  import opened RateLimiter
  import Local = LocalBuckets
  import Redis = ScriptBuckets
  import Script = ScriptPromises
  import CapRefusals

  /** The bucket that refused `r` lets no further request for its key through. */
  ghost predicate Silent(limits: string -> Limit, cap: nat, before: seq<Request>, r: Request, after: seq<Request>)
    requires Local.AllValid(limits)
  {
    if r.route.Answered?
    then Script.KeepsDenying(limits, Evals(before + [r]), Evals(after), r.key)
    else Local.KeepsDenying(limits, cap, LocalCalls(before + [r]), LocalCalls(after), r.key)
  }

  /** Neither bucket lets a further request for the key of `r` through. */
  ghost predicate InVain(limits: string -> Limit, cap: nat, before: seq<Request>, r: Request, after: seq<Request>)
    requires Local.AllValid(limits)
  {
    && Script.KeepsDenying(limits, Evals(before + [r]), Evals(after), r.key)
    && Local.KeepsDenying(limits, cap, LocalCalls(before + [r]), LocalCalls(after), r.key)
  }

  /** A run in which `r` and then `later`, `n` seconds afterwards and by the given route, ask for one key. */
  ghost predicate Returns(limits: string -> Limit, before: seq<Request>, r: Request, after: seq<Request>,
                          later: Request, n: nat, route: Route)
    requires Local.AllValid(limits)
  {
    && RateLimiter.InOrder(before + [r] + after + [later])
    && Redis.Faithful(limits, Evals(before + [r] + after + [later]))
    && later.key == r.key && later.now == r.now + n as real && later.route == route
  }

  /** Whoever is told `n`, is served nothing meanwhile and returns by `route` then passes, in every continuation. */
  ghost predicate Promised(limits: string -> Limit, cap: nat, before: seq<Request>, r: Request, n: nat, route: Route)
    requires Local.AllValid(limits)
  {
    forall after, later | Returns(limits, before, r, after, later, n, route) && InVain(limits, cap, before, r, after) ::
      Outcome(limits, cap, before + [r] + after, later) == Pass
  }

  /** As things stand after `run`, the bucket met by `route` will have room for `key` at time `t`; the local one
      must be live by then, or other identities may take its place. */
  ghost predicate HasRoom(limits: string -> Limit, cap: nat, run: seq<Request>, key: string, t: real, route: Route)
    requires Local.AllValid(limits)
  {
    if route.Answered?
    then FitsEveryWindow(Redis.PerMs(limits(key)), Redis.AllowedTimes(limits, Evals(run), key), MsAt(t) as real)
    else
      && Local.Live(Local.TableAfter(limits, cap, LocalCalls(run)), key, t)
      && FitsEveryWindow(limits(key), Local.AllowedTimes(limits, cap, LocalCalls(run), key), t)
  }

  // ---------------------------------------------------------------- the two projections

  lemma {:induction false} ProjectionsConcat(a: seq<Request>, b: seq<Request>)
    ensures LocalCalls(a + b) == LocalCalls(a) + LocalCalls(b) && Evals(a + b) == Evals(a) + Evals(b)
    decreases |b|
  {
    if b == [] {
      assert a + b == a;
    } else {
      hide LocalCalls, Evals, CallOf, EvalOf;
      var front, last := b[..|b| - 1], b[|b| - 1];
      ProjectionsConcat(a, front);
      ProjectionSnoc(a + front, last);
      ProjectionSnoc(front, last);
      assert b == front + [last];
      Assoc(a, front, [last]);
      Assoc(LocalCalls(a), LocalCalls(front), CallOf(last));
      Assoc(Evals(a), Evals(front), EvalOf(last));
    }
  }

  lemma Assoc<T>(x: seq<T>, y: seq<T>, z: seq<T>)
    ensures x + y + z == x + (y + z)
  {
  }

  lemma WholeSecondsLater(t: real, n: nat)
    ensures MsAt(t + n as real) == MsAt(t) + 1000 * n
  {
    assert (t + n as real) * 1000.0 == t * 1000.0 + (1000 * n) as real;
  }

  lemma Projections(before: seq<Request>, r: Request, after: seq<Request>, later: Request)
    requires RateLimiter.InOrder(before + [r] + after + [later])
    ensures LocalCalls(before + [r] + after) == LocalCalls(before) + CallOf(r) + LocalCalls(after)
    ensures Evals(before + [r] + after) == Evals(before) + EvalOf(r) + Evals(after)
    ensures Local.InOrder(LocalCalls(before) + CallOf(r) + LocalCalls(after) + CallOf(later))
    ensures Redis.InOrder(Evals(before) + EvalOf(r) + Evals(after) + EvalOf(later))
    ensures Evals(before + [r] + after + [later]) == Evals(before) + EvalOf(r) + Evals(after) + EvalOf(later)
  {
    hide LocalCalls, Evals, CallOf, EvalOf, RateLimiter.InOrder, Local.InOrder, Redis.InOrder;
    ProjectionSnoc(before, r);
    ProjectionsConcat(before + [r], after);
    ProjectionSnoc(before + [r] + after, later);
    ProjectionsInOrder(before + [r] + after + [later]);
  }

  // ---------------------------------------------------------------- the same bucket

  lemma SharedPromise(limits: string -> Limit, cap: nat, before: seq<Request>, r: Request, n: nat, after: seq<Request>,
                      later: Request)
    requires Local.AllValid(limits) && r.route.Answered? && Outcome(limits, cap, before, r) == TooMany(n)
    requires Returns(limits, before, r, after, later, n, Answered) && Silent(limits, cap, before, r, after)
    ensures Outcome(limits, cap, before + [r] + after, later) == Pass
  {
    hide LocalCalls, Evals, RateLimiter.InOrder, Redis.InOrder, Redis.Faithful, MsAt, Script.KeepsDenying;
    var e, f := Redis.Eval(r.key, MsAt(r.now), r.dropped), Redis.Eval(later.key, MsAt(later.now), later.dropped);
    Projections(before, r, after, later);
    ProjectionSnoc(before, r);
    WholeSecondsLater(r.now, n);
    SharedRefusal(limits, cap, before, r, n, e);
    hide Redis.Answer;
    Script.ScriptPromiseIsKept(limits, Evals(before), e, Evals(after), n, f);
  }

  lemma SharedRefusal(limits: string -> Limit, cap: nat, before: seq<Request>, r: Request, n: nat, e: Redis.Eval)
    requires Local.AllValid(limits) && r.route.Answered? && Outcome(limits, cap, before, r) == TooMany(n)
    requires e == Redis.Eval(r.key, MsAt(r.now), r.dropped)
    ensures Redis.Answer(limits, Evals(before), e) == Verdict(false, n)
  {
    hide Redis.Script, Redis.StoreAfter, Evals, MsAt, Local.Answer;
  }

  lemma OwnPromise(limits: string -> Limit, cap: nat, before: seq<Request>, r: Request, n: nat, after: seq<Request>,
                   later: Request, route: Route)
    requires Local.AllValid(limits) && (r.route.NoAnswer? || r.route.ReplyLost?) &&
             (route.NoAnswer? || route.ReplyLost?)
    requires Outcome(limits, cap, before, r) == TooMany(n)
    requires !Local.Capped(limits, cap, LocalCalls(before), Local.Call(r.key, r.now))
    requires Returns(limits, before, r, after, later, n, route) && Silent(limits, cap, before, r, after)
    ensures Outcome(limits, cap, before + [r] + after, later) == Pass
  {
    hide LocalCalls, Evals, RateLimiter.InOrder, Local.InOrder, Local.Capped, Redis.Faithful, MsAt, Local.KeepsDenying,
         Local.Answer, Redis.Answer;
    var c, d := Local.Call(r.key, r.now), Local.Call(later.key, later.now);
    Projections(before, r, after, later);
    ProjectionSnoc(before, r);
    assert LocalCalls(before) + [c] + LocalCalls(after) + [d] == LocalCalls(before) + [c] + (LocalCalls(after) + [d]);
    OrderPrefix(LocalCalls(before) + [c], LocalCalls(after) + [d]);
    Local.PromiseIsBounded(limits, cap, LocalCalls(before), c);
    Local.PromiseIsKept(limits, cap, LocalCalls(before), c, LocalCalls(after), n, d);
  }

  lemma OrderPrefix(calls: seq<Local.Call>, more: seq<Local.Call>)
    requires Local.InOrder(calls + more)
    ensures Local.InOrder(calls)
  {
    assert forall i | 0 <= i < |calls| :: calls[i] == (calls + more)[i];
  }

  /** Whoever meets the bucket that refused it, and was not refused at the cap, passes when told to return, as long as
      that bucket lets nothing else through for it, whatever the other one does. */
  lemma SameBucketKeepsIt(limits: string -> Limit, cap: nat, before: seq<Request>, r: Request, n: nat,
                          after: seq<Request>, later: Request, route: Route)
    requires Local.AllValid(limits) && !r.route.OtherProcess? && !route.OtherProcess?
    requires Outcome(limits, cap, before, r) == TooMany(n) && (route.Answered? <==> r.route.Answered?)
    requires r.route.Answered? || !Local.Capped(limits, cap, LocalCalls(before), Local.Call(r.key, r.now))
    requires Returns(limits, before, r, after, later, n, route) && Silent(limits, cap, before, r, after)
    ensures Outcome(limits, cap, before + [r] + after, later) == Pass
  {
    hide Outcome, Silent, Returns, LocalCalls, Evals, Local.Capped;
    if r.route.Answered? {
      SharedPromise(limits, cap, before, r, n, after, later);
    } else {
      OwnPromise(limits, cap, before, r, n, after, later, route);
    }
  }

  // ---------------------------------------------------------------- either bucket

  lemma {:induction false} DeniedAddNothing(limits: string -> Limit, cap: nat, before: seq<Local.Call>,
                                            after: seq<Local.Call>, key: string)
    requires Local.AllValid(limits) && Local.KeepsDenying(limits, cap, before, after, key)
    ensures Local.AllowedTimes(limits, cap, before + after, key) == Local.AllowedTimes(limits, cap, before, key)
    decreases |after|
  {
    hide Local.Answer;
    if after == [] {
      assert before + after == before;
    } else {
      var next, rest := after[0], after[1..];
      DeniedAddNothing(limits, cap, before + [next], rest, key);
      assert before + after == (before + [next]) + rest && (before + [next])[..|before|] == before;
    }
  }

  /** A bucket that will be live at `t` is not lost before, whoever calls. */
  lemma {:induction false} StaysLive(limits: string -> Limit, cap: nat, calls: seq<Local.Call>, after: seq<Local.Call>,
                                     key: string, t: real)
    requires Local.AllValid(limits) && Local.Live(Local.TableAfter(limits, cap, calls), key, t)
    requires forall i | 0 <= i < |after| :: after[i].now <= t < after[i].now + (limits(key).window * 2) as real
    ensures Local.Live(Local.TableAfter(limits, cap, calls + after), key, t)
    decreases |after|
  {
    if after == [] {
      assert calls + after == calls;
    } else {
      var front, call := after[..|after| - 1], after[|after| - 1];
      StaysLive(limits, cap, calls, front, key, t);
      assert calls + after == (calls + front) + [call] && (calls + after)[..|calls + front|] == calls + front;
      var table := Local.TableAfter(limits, cap, calls + front);
      StepStaysLive(limits, cap, table, call, key, t);
    }
  }

  lemma StepStaysLive(limits: string -> Limit, cap: nat, table: Local.Table, call: Local.Call, key: string, t: real)
    requires Local.AllValid(limits) && Local.Live(table, key, t)
    requires call.now <= t < call.now + (limits(key).window * 2) as real
    ensures Local.Live(Local.Step(table, cap, call.key, limits(call.key), call.now).0, key, t)
  {
    if call.key == key {
      CapRefusals.CapRefusesExactly(table, cap, key, call.now);
      CapRefusals.ServedIsLive(table, cap, key, limits(key), call.now, t);
    } else {
      Local.OnlyExpiredBucketsGo(table, cap, call.key, limits(call.key), call.now);
    }
  }

  /** Nobody is told to wait longer than the window. */
  lemma ToldWithinTheWindow(limits: string -> Limit, cap: nat, before: seq<Request>, r: Request, n: nat)
    requires Local.AllValid(limits) && RateLimiter.InOrder(before + [r]) && Redis.Faithful(limits, Evals(before + [r]))
    requires !r.route.OtherProcess? && Outcome(limits, cap, before, r) == TooMany(n)
    ensures 1 <= n <= limits(r.key).window
  {
    hide Local.Answer, Redis.Answer, LocalCalls, Evals, MsAt, RateLimiter.InOrder, Local.InOrder, Redis.InOrder,
         Redis.Faithful;
    ProjectionsInOrder(before + [r]);
    ProjectionSnoc(before, r);
    if r.route.Answered? {
      Script.ScriptPromiseIsBounded(limits, Evals(before), Redis.Eval(r.key, MsAt(r.now), r.dropped));
    } else {
      Local.PromiseIsBounded(limits, cap, LocalCalls(before), Local.Call(r.key, r.now));
    }
  }

  /** Where there is room now, a caller served nothing meanwhile finds it when it returns. */
  lemma RoomIsFound(limits: string -> Limit, cap: nat, before: seq<Request>, r: Request, n: nat, after: seq<Request>,
                    later: Request, route: Route)
    requires Local.AllValid(limits) && n <= limits(r.key).window && !route.OtherProcess?
    requires Returns(limits, before, r, after, later, n, route) && InVain(limits, cap, before, r, after)
    requires HasRoom(limits, cap, before + [r], r.key, later.now, route)
    ensures Outcome(limits, cap, before + [r] + after, later) == Pass
  {
    hide LocalCalls, Evals, MsAt, Outcome, RateLimiter.InOrder, Redis.Faithful, FitsEveryWindow, Local.TableAfter,
         Local.AllowedTimes, Redis.AllowedTimes, Local.KeepsDenying, Script.KeepsDenying, Local.Live;
    var run, calls := before + [r], LocalCalls(before + [r]);
    ProjectionsConcat(run, after);
    PassesExactly(limits, cap, run + after, later);
    if route.Answered? {
      Script.DeniedAddNothing(limits, Evals(run), Evals(after), r.key);
    } else {
      DeniedAddNothing(limits, cap, calls, LocalCalls(after), r.key);
      LocalCallsBetween(before, r, after, later);
      StaysLive(limits, cap, calls, LocalCalls(after), r.key, later.now);
      Local.CapHolds(limits, cap, calls + LocalCalls(after), Local.Call(r.key, later.now));
    }
  }

  lemma {:induction false} LocalCallsBetween(before: seq<Request>, r: Request, after: seq<Request>, later: Request)
    requires RateLimiter.InOrder(before + [r] + after + [later])
    ensures forall i | 0 <= i < |LocalCalls(after)| :: r.now <= LocalCalls(after)[i].now <= later.now
    decreases |after|
  {
    if after != [] {
      var all, front := before + [r] + after + [later], after[..|after| - 1];
      var last := after[|after| - 1];
      assert all[|before|] == r && all[|before| + |after|] == last && all[|before| + 1 + |after|] == later;
      assert forall i | 0 <= i < |before| + |after| :: (before + [r] + front + [later])[i] == all[i];
      LocalCallsBetween(before, r, front, later);
    }
  }

  // ---------------------------------------------------------------- where there is no room

  lemma ReturnsInOrder(before: seq<Request>, r: Request, after: seq<Request>, later: Request)
    requires RateLimiter.InOrder(before + [r]) && r.now <= later.now
    requires forall i | 0 <= i < |after| :: after[i].now == later.now
    ensures RateLimiter.InOrder(before + [r] + after + [later])
  {
    var start := before + [r];
    assert start[|before|] == r;
    assert forall i | 0 <= i < |start| :: start[i].now <= r.now;
  }

  /** The run before `later`, its last request, satisfies Redis's side; so does the whole run. */
  lemma LastIsFaithful(limits: string -> Limit, run: seq<Request>, later: Request)
    requires Local.AllValid(limits) && Redis.Faithful(limits, Evals(run)) && later.dropped == {}
    ensures Redis.Faithful(limits, Evals(run + [later]))
  {
    hide Redis.Faithful, Redis.StoreAfter, Evals, MsAt;
    ProjectionSnoc(run, later);
    if later.route.NoAnswer? {
      assert Evals(run) + [] == Evals(run);
    } else {
      Redis.FaithfulSnoc(limits, Evals(run), Redis.Eval(later.key, MsAt(later.now), later.dropped));
    }
  }

  /** Calls as requests that Redis does not answer. */
  function Unanswered(calls: seq<Local.Call>): (run: seq<Request>)
    ensures |run| == |calls|
    ensures forall i | 0 <= i < |calls| :: run[i] == Request(calls[i].key, calls[i].now, NoAnswer, {})
  {
    seq(|calls|, i requires 0 <= i < |calls| => Request(calls[i].key, calls[i].now, NoAnswer, {}))
  }

  lemma {:induction false} ProjectUnanswered(calls: seq<Local.Call>)
    ensures LocalCalls(Unanswered(calls)) == calls && Evals(Unanswered(calls)) == []
  {
    hide MsAt;
    if calls != [] {
      var front, last := calls[..|calls| - 1], calls[|calls| - 1];
      ProjectUnanswered(front);
      ProjectionSnoc(Unanswered(front), Request(last.key, last.now, NoAnswer, {}));
      assert Unanswered(calls) == Unanswered(front) + [Request(last.key, last.now, NoAnswer, {})];
      assert calls == front + [last];
    }
  }

  /** Where there is no room, or other identities may take it, some continuation refuses the caller again: one in
      which it makes no request at all before it returns. */
  lemma RefusedOnReturn(limits: string -> Limit, cap: nat, before: seq<Request>, r: Request, n: nat, route: Route)
    returns (after: seq<Request>, later: Request)
    requires Local.AllValid(limits) && !route.OtherProcess?
    requires RateLimiter.InOrder(before + [r]) && Redis.Faithful(limits, Evals(before + [r]))
    requires !HasRoom(limits, cap, before + [r], r.key, r.now + n as real, route)
    ensures Returns(limits, before, r, after, later, n, route) && InVain(limits, cap, before, r, after)
    ensures forall i | 0 <= i < |after| :: after[i].key != r.key
    ensures Outcome(limits, cap, before + [r] + after, later) != Pass
  {
    hide LocalCalls, Evals, MsAt, Outcome, RateLimiter.InOrder, Redis.Faithful, FitsEveryWindow, Local.TableAfter,
         Local.AllowedTimes, Redis.AllowedTimes, Local.Live, Local.Capped;
    later := Request(r.key, r.now + n as real, route, {});
    var run, others := before + [r], [];
    if !route.Answered? && !Local.Live(Local.TableAfter(limits, cap, LocalCalls(run)), r.key, later.now) {
      others := CapRefusals.FillUp(limits, cap, LocalCalls(run), r.key, later.now);
    }
    after := Unanswered(others);
    ProjectUnanswered(others);
    ProjectionsConcat(run, after);
    assert Evals(run) + [] == Evals(run) && (others == [] ==> LocalCalls(run) + others == LocalCalls(run));
    ReturnsInOrder(before, r, after, later);
    LastIsFaithful(limits, run + after, later);
    PassesExactly(limits, cap, run + after, later);
    CapRefusals.OthersDoNotPoll(limits, cap, LocalCalls(run), others, r.key);
  }

  // ---------------------------------------------------------------- the promise, exactly

  /** A caller whom enforce_rate_limit refuses and tells `n`, and who is served nothing before it returns, passes then
      in every continuation exactly when the bucket it will meet has room for it as things stand. */
  lemma RetryAfterExactly(limits: string -> Limit, cap: nat, before: seq<Request>, r: Request, n: nat, route: Route)
    requires Local.AllValid(limits) && !r.route.OtherProcess? && !route.OtherProcess?
    requires RateLimiter.InOrder(before + [r]) && Redis.Faithful(limits, Evals(before + [r]))
    requires Outcome(limits, cap, before, r) == TooMany(n)
    ensures Promised(limits, cap, before, r, n, route) <==>
            HasRoom(limits, cap, before + [r], r.key, r.now + n as real, route)
  {
    hide Outcome, InVain, LocalCalls, Evals, Redis.Faithful, RateLimiter.InOrder, HasRoom;
    ToldWithinTheWindow(limits, cap, before, r, n);
    if HasRoom(limits, cap, before + [r], r.key, r.now + n as real, route) {
      forall after, later | Returns(limits, before, r, after, later, n, route) && InVain(limits, cap, before, r, after)
        ensures Outcome(limits, cap, before + [r] + after, later) == Pass
      {
        RoomIsFound(limits, cap, before, r, n, after, later, route);
      }
    } else {
      var after, later := RefusedOnReturn(limits, cap, before, r, n, route);
    }
  }

  /** The bucket that refused the caller always has room when it said; the dictionary has none for whom it refused
      at the cap. */
  lemma SameBucketExactly(limits: string -> Limit, cap: nat, before: seq<Request>, r: Request, n: nat, route: Route)
    requires Local.AllValid(limits) && !r.route.OtherProcess? && !route.OtherProcess?
    requires RateLimiter.InOrder(before + [r]) && Redis.Faithful(limits, Evals(before + [r]))
    requires Outcome(limits, cap, before, r) == TooMany(n) && (route.Answered? <==> r.route.Answered?)
    ensures Promised(limits, cap, before, r, n, route) <==>
            r.route.Answered? || !Local.Capped(limits, cap, LocalCalls(before), Local.Call(r.key, r.now))
  {
    hide Outcome, Returns, LocalCalls, Evals, Redis.Faithful, RateLimiter.InOrder, Local.Capped, Local.Live,
         Local.TableAfter, Local.KeepsDenying, Script.KeepsDenying, FitsEveryWindow;
    if r.route.Answered? || !Local.Capped(limits, cap, LocalCalls(before), Local.Call(r.key, r.now)) {
      forall after, later | Returns(limits, before, r, after, later, n, route) && InVain(limits, cap, before, r, after)
        ensures Outcome(limits, cap, before + [r] + after, later) == Pass
      {
        SameBucketKeepsIt(limits, cap, before, r, n, after, later, route);
      }
    } else {
      RetryAfterExactly(limits, cap, before, r, n, route);
      ProjectionSnoc(before, r);
      CapRefusals.CappedIsGone(limits, cap, LocalCalls(before), Local.Call(r.key, r.now), r.now + n as real);
    }
  }

  // ---------------------------------------------------------------- a promise broken by the other bucket

  /** What two calls for one key are told. */
  lemma TwoLocalCalls(limits: string -> Limit, cap: nat, first: Local.Call, second: Local.Call)
    requires Local.AllValid(limits) && cap >= 1 && first.key == second.key && first.now <= second.now
    ensures Local.Answer(limits, cap, [], first).allowed
    ensures Local.Answer(limits, cap, [first], second) == VerdictAt(limits(first.key), [first.now], second.now)
  {
    AloneIsNeverCapped(limits, cap, first, second);
    assert Local.TimesOf(limits, cap, [], first.key) == [];
    assert [] + [first] == [first] && [first] + [second] == [first, second];
    hide Local.Answer, VerdictAt, Local.Capped, Local.TimesOf, Local.TableAfter;
    Local.EvictionIsInvisible(limits, cap, [], first);
    Local.EvictionIsInvisible(limits, cap, [first], second);
    Local.TimesSnoc(limits, cap, [], first, first.key);
    OneTime(first.now);
    NeverCalled(limits(first.key), first.now);
  }

  lemma AloneIsNeverCapped(limits: string -> Limit, cap: nat, first: Local.Call, second: Local.Call)
    requires Local.AllValid(limits) && cap >= 1 && first.key == second.key
    ensures !Local.Capped(limits, cap, [], first) && !Local.Capped(limits, cap, [first], second)
  {
    hide Local.Step, Local.CapRefuses, Local.Reclaimed;
    var none: Local.Table := map[];
    var some := Local.TableAfter(limits, cap, [first]);
    assert [first][..0] == [] && Local.TableAfter(limits, cap, []) == none;
    assert some == Local.Step(none, cap, first.key, limits(first.key), first.now).0;
    assert CapRefusals.LiveOthers(none, first.key, first.now) == {};
    CapRefusals.CapRefusesExactly(none, cap, first.key, first.now);
    Local.KeysOfStep(none, cap, first.key, limits(first.key), first.now);
    assert some.Keys <= {first.key};
    assert CapRefusals.LiveOthers(some, first.key, second.now) == {};
    CapRefusals.CapRefusesExactly(some, cap, first.key, second.now);
  }

  lemma OneTime(t: real)
    ensures [] + [t] == [t]
  {
  }

  lemma NeverCalled(limit: Limit, now: real)
    requires limit.Valid()
    ensures VerdictAt(limit, [], now).allowed
  {
  }

  lemma TwoEvals(limits: string -> Limit, first: Redis.Eval, second: Redis.Eval, t: real, u: real)
    requires Local.AllValid(limits) && first.key == second.key && first.nowMs <= second.nowMs
    requires first.dropped == {} && second.dropped == {}
    requires t == first.nowMs as real / 1000.0 && u == second.nowMs as real / 1000.0
    ensures Redis.Faithful(limits, [first, second]) && Redis.Answer(limits, [], first).allowed
    ensures Redis.Answer(limits, [first], second) == VerdictAt(limits(first.key), [t], u)
  {
    assert limits(first.key).Valid();
    hide *;
    PairInOrder(first, second);
    Appended(first, second);
    StartsFaithful(limits, first, second);
    Redis.ScriptIsTheBucket(limits, [], first, t);
    Redis.ScriptIsTheBucket(limits, [first], second, u);
    Script.TimesSnoc([], first, first.key);
    Script.SecondsSnoc([], first.nowMs as real);
    OneTime(first.nowMs as real);
    OneTime(t);
    NeverCalled(limits(first.key), t);
  }

  lemma PairInOrder(first: Redis.Eval, second: Redis.Eval)
    requires first.nowMs <= second.nowMs
    ensures Redis.InOrder([first]) && Redis.InOrder([first, second])
  {
    var pair := [first, second];
    assert pair[0] == first && pair[1] == second && |pair| == 2;
    forall i, j | 0 <= i < j < |pair|
      ensures pair[i].nowMs <= pair[j].nowMs
    {
      assert i == 0 && j == 1;
    }
  }

  lemma Appended<T>(x: T, y: T)
    ensures [] + [x] == [x] && [x] + [y] == [x, y]
  {
  }

  lemma StartsFaithful(limits: string -> Limit, first: Redis.Eval, second: Redis.Eval)
    requires Local.AllValid(limits) && first.dropped == {} && second.dropped == {}
    ensures Redis.Faithful(limits, [first]) && Redis.Faithful(limits, [first, second])
    ensures Redis.TimesOf([], first.key) == [] && Redis.Seconds([]) == []
  {
    assert Redis.Faithful(limits, []);
    Appended(first, second);
    hide Redis.Faithful, Redis.StoreAfter, Redis.Script;
    Redis.FaithfulSnoc(limits, [], first);
    Redis.FaithfulSnoc(limits, [first], second);
  }

  lemma SecondVerdict(limit: Limit, t: real, u: real, tokens: real)
    requires limit == Limit(1, 10) && t <= u && tokens == (u - t) * 0.1 < 1.0
    ensures VerdictAt(limit, [t], u) == Verdict(false, Max(1, Ceil((1.0 - tokens) / 0.1)))
  {
    assert limit.Rate() == 0.1;
    assert [t][..0] == [];
    assert LevelAt(limit, [t]) == Some(Level(0.0, t));
  }

  /** One request in ten seconds. The shared bucket serves one at 0.0 and the local one another at 9.0, while Redis is
      away. At 9.5 the shared bucket refuses and says one second; at 10.5 Redis is away again and the local bucket
      refuses and says nine. The caller was served nothing in between. */
  lemma OtherBucketRefuses(limits: string -> Limit, cap: nat, a: Request, b: Request, r: Request, later: Request)
    requires Local.AllValid(limits) && limits("k") == Limit(1, 10) && cap >= 1
    requires a == Request("k", 0.0, Answered, {}) && b == Request("k", 9.0, NoAnswer, {})
    requires r == Request("k", 9.5, Answered, {}) && later == Request("k", 10.5, NoAnswer, {})
    ensures RateLimiter.InOrder([a, b, r, later]) && Redis.Faithful(limits, Evals([a, b, r, later]))
    ensures Outcome(limits, cap, [], a) == Outcome(limits, cap, [a], b) == Pass
    ensures Outcome(limits, cap, [a, b], r) == TooMany(1)
    ensures Outcome(limits, cap, [a, b, r], later) == TooMany(9)
  {
    assert RateLimiter.InOrder([a, b, r, later]);
    assert Decide(Verdict(false, 1)) == TooMany(1) && Decide(Verdict(false, 9)) == TooMany(9);
    hide *;
    TenSecondWaits();
    FourOutcomes(limits, cap, a, b, r, later, 0.0, 9.5);
  }

  lemma TenSecondWaits()
    ensures VerdictAt(Limit(1, 10), [0.0], 9.5) == Verdict(false, 1)
    ensures VerdictAt(Limit(1, 10), [9.0], 10.5) == Verdict(false, 9)
    ensures MsAt(0.0) as real / 1000.0 == 0.0 && MsAt(9.5) as real / 1000.0 == 9.5
  {
    SecondVerdict(Limit(1, 10), 0.0, 9.5, 0.95);
    SecondVerdict(Limit(1, 10), 9.0, 10.5, 0.15);
    hide VerdictAt;
  }

  /** The shared bucket sees the first and the third of four requests for a key, the local one the others. */
  lemma FourOutcomes(limits: string -> Limit, cap: nat, a: Request, b: Request, r: Request, later: Request, t: real,
                     u: real)
    requires Local.AllValid(limits) && cap >= 1 && a.key == b.key == r.key == later.key
    requires a.route.Answered? && b.route.NoAnswer? && r.route.Answered? && later.route.NoAnswer?
    requires a.now <= r.now && b.now <= later.now && a.dropped == {} && r.dropped == {}
    requires t == MsAt(a.now) as real / 1000.0 && u == MsAt(r.now) as real / 1000.0
    ensures Redis.Faithful(limits, Evals([a, b, r, later]))
    ensures Outcome(limits, cap, [], a) == Outcome(limits, cap, [a], b) == Pass
    ensures Outcome(limits, cap, [a, b], r) == Decide(VerdictAt(limits(a.key), [t], u))
    ensures Outcome(limits, cap, [a, b, r], later) == Decide(VerdictAt(limits(a.key), [b.now], later.now))
  {
    hide LocalCalls, Evals, VerdictAt, Local.Answer, Redis.Answer, Redis.Faithful, MsAt;
    FourProjections(a, b, r, later);
    MsIsMonotone(a.now, r.now);
    TwoLocalCalls(limits, cap, Local.Call(b.key, b.now), Local.Call(later.key, later.now));
    TwoEvals(limits, Redis.Eval(a.key, MsAt(a.now), a.dropped), Redis.Eval(r.key, MsAt(r.now), r.dropped), t, u);
  }

  lemma FourProjections(a: Request, b: Request, r: Request, later: Request)
    requires a.route.Answered? && b.route.NoAnswer? && r.route.Answered? && later.route.NoAnswer?
    ensures LocalCalls([]) == [] && LocalCalls([a]) == [] && LocalCalls([a, b, r]) == [Local.Call(b.key, b.now)]
    ensures Evals([]) == [] && Evals([a, b]) == [Redis.Eval(a.key, MsAt(a.now), a.dropped)]
    ensures Evals([a, b, r, later]) ==
            [Redis.Eval(a.key, MsAt(a.now), a.dropped), Redis.Eval(r.key, MsAt(r.now), r.dropped)]
  {
    hide MsAt;
    ProjectionSnoc([], a);
    ProjectionSnoc([a], b);
    ProjectionSnoc([a, b], r);
    ProjectionSnoc([a, b, r], later);
    assert [] + [a] == [a] && [a] + [b] == [a, b] && [a, b] + [r] == [a, b, r] &&
           [a, b, r] + [later] == [a, b, r, later];
  }
}
