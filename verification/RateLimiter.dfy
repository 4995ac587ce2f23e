/** The Redis script TOKEN_BUCKET_LUA: the same bucket on a millisecond clock, in a
    store whose keys lapse two windows after their last use. */
module ScriptBuckets {
  import opened TickBucket
  import opened TokenBucket
  import LocalBuckets
  import opened Options

  type Table = LocalBuckets.Table

  /** The limit with its window in milliseconds, as the script receives it. */
  function PerMs(limit: Limit): (ms: Limit)
    ensures limit.Valid() ==> ms.Valid()
  {
    Limit(limit.capacity, limit.window * 1_000)
  }

  function Seen(store: Table, key: string): Option<Level> {
    if key in store then Some(Level(store[key].tokens, store[key].updatedAt)) else None
  }

  datatype Reply = Reply(allowed: bool, retryMs: int)

  function ReplyFor(ms: Limit, tokens: real): Reply
    requires ms.Valid()
  {
    if tokens >= 1.0 then Reply(true, 0) else Reply(false, Ceil((1.0 - tokens) / ms.Rate()))
  }

  /** What the script leaves under the key: the hash and its PEXPIRE deadline. */
  function Written(ms: Limit, tokens: real, nowMs: int): LocalBuckets.Bucket {
    LocalBuckets.Bucket(Spend(tokens), nowMs as real, nowMs as real + (ms.window * 2) as real)
  }

  function Script(store: Table, key: string, limit: Limit, nowMs: int): (Table, Reply)
    requires limit.Valid()
  {
    var ms := PerMs(limit);
    var tokens := Topped(ms, Seen(store, key), nowMs as real);
    (store[key := Written(ms, tokens, nowMs)], ReplyFor(ms, tokens))
  }

  class RedisStore {
    var hashes: Table

    constructor ()
      ensures hashes == map[]
    {
      hashes := map[];
    }

    method Eval(key: string, limit: Limit, nowMs: int) returns (reply: Reply)
      requires limit.Valid()
      modifies this
      ensures (hashes, reply) == Script(old(hashes), key, limit, nowMs)
    {
      var ms := PerMs(limit);
      var tokens := if key !in hashes then ms.capacity as real else
        var elapsed := MaxReal(0.0, nowMs as real - hashes[key].updatedAt);
        MinReal(ms.capacity as real, hashes[key].tokens + Earned(ms.Rate(), elapsed));
      assert tokens == Topped(ms, Seen(hashes, key), nowMs as real);
      reply := ReplyFor(ms, tokens);
      hashes := hashes[key := Written(ms, tokens, nowMs)];
    }
  }

  /** How enforce_rate_limit reads a reply: milliseconds become whole seconds. */
  function Read(reply: Reply): Verdict {
    if reply.allowed then Verdict(true, 0) else Verdict(false, Max(1, Ceil(reply.retryMs as real / 1000.0)))
  }

  // ---------------------------------------------------------------- milliseconds and seconds

  /** ceil(ceil(1000 x) / 1000) = ceil(x) */
  lemma CeilTwice(x: real)
    ensures Ceil(Ceil(1000.0 * x) as real / 1000.0) == Ceil(x)
  {
    var n, m := Ceil(x), Ceil(1000.0 * x);
    assert m <= 1000 * n;
    assert (m as real) / 1000.0 <= n as real;
    assert (m as real) / 1000.0 >= x;
  }

  lemma RatePerMs(limit: Limit)
    requires limit.Valid()
    ensures 1000.0 * PerMs(limit).Rate() == limit.Rate()
  {
    var w, r := limit.window as real, PerMs(limit).Rate();
    assert PerMs(limit).window as real == 1000.0 * w;
    RateFacts(limit);
    RateFacts(PerMs(limit));
    assert (1000.0 * r) * w == limit.capacity as real;
    Cancel(1000.0 * r, limit.Rate(), w);
  }

  lemma Cancel(a: real, b: real, w: real)
    requires w > 0.0 && a * w == b * w
    ensures a == b
  {
    assert (a - b) * w == 0.0;
  }

  function Seconds(times: seq<real>): (secs: seq<real>)
    ensures |secs| == |times|
  {
    if times == [] then [] else Seconds(times[..|times| - 1]) + [times[|times| - 1] / 1000.0]
  }

  lemma {:induction false} SameTicks(limit: Limit, times: seq<real>)
    requires limit.Valid()
    ensures Ticks(limit.Rate(), Seconds(times)) == Ticks(PerMs(limit).Rate(), times)
  {
    if times != [] {
      SameTicks(limit, times[..|times| - 1]);
      SameTick(limit, times[|times| - 1]);
      assert Seconds(times)[..|times| - 1] == Seconds(times[..|times| - 1]);
    }
  }

  lemma SameTick(limit: Limit, t: real)
    requires limit.Valid()
    ensures Earned(limit.Rate(), t / 1000.0) == Earned(PerMs(limit).Rate(), t)
  {
    RatePerMs(limit);
  }

  lemma SameTokens(limit: Limit, times: seq<real>, now: real)
    requires limit.Valid()
    ensures Topped(PerMs(limit), LevelAt(PerMs(limit), times), now) ==
            Topped(limit, LevelAt(limit, Seconds(times)), now / 1000.0)
  {
    hide Earned, Limit.Rate, WaitFor;
    InTicks(PerMs(limit), times, now);
    InTicks(limit, Seconds(times), now / 1000.0);
    SameTicks(limit, times);
    SameTick(limit, now);
  }

  /** The reply in seconds is the verdict of the bucket in seconds. */
  lemma SameVerdict(limit: Limit, tokens: real)
    requires limit.Valid()
    ensures Read(ReplyFor(PerMs(limit), tokens)) == Judge(limit, tokens)
  {
    RateFacts(limit);
    RateFacts(PerMs(limit));
    if tokens < 1.0 {
      var x, ms := (1.0 - tokens) / limit.Rate(), PerMs(limit).Rate();
      RatePerMs(limit);
      assert x * limit.Rate() == 1.0 - tokens;
      assert (1000.0 * x) * ms == 1.0 - tokens;
      assert ((1.0 - tokens) / ms) * ms == 1.0 - tokens;
      Cancel(1000.0 * x, (1.0 - tokens) / ms, ms);
      CeilTwice(x);
    }
  }

  // ---------------------------------------------------------------- whole runs

  /** One evaluation of the script, and the lapsed keys Redis dropped just before it. */
  datatype Eval = Eval(key: string, nowMs: int, dropped: set<string>)

  ghost predicate InOrder(evals: seq<Eval>) {
    forall i, j | 0 <= i < j < |evals| :: evals[i].nowMs <= evals[j].nowMs
  }

  ghost function StoreAfter(limits: string -> Limit, evals: seq<Eval>): Table
    requires LocalBuckets.AllValid(limits)
  {
    if evals == [] then map[]
    else
      var e := evals[|evals| - 1];
      Script(StoreAfter(limits, evals[..|evals| - 1]) - e.dropped, e.key, limits(e.key), e.nowMs).0
  }

  ghost function Answer(limits: string -> Limit, evals: seq<Eval>, e: Eval): Verdict
    requires LocalBuckets.AllValid(limits)
  {
    Read(Script(StoreAfter(limits, evals) - e.dropped, e.key, limits(e.key), e.nowMs).1)
  }

  /** Redis drops only keys whose deadline has passed; when it does so is up to Redis. */
  ghost predicate DropsLapsed(store: Table, e: Eval) {
    forall name | name in e.dropped && name in store :: store[name].expiresAt <= e.nowMs as real
  }

  ghost predicate Faithful(limits: string -> Limit, evals: seq<Eval>)
    requires LocalBuckets.AllValid(limits)
  {
    evals != [] ==>
      var before := evals[..|evals| - 1];
      Faithful(limits, before) && DropsLapsed(StoreAfter(limits, before), evals[|evals| - 1])
  }

  /** The millisecond times at which the script ran for `key`. */
  function TimesOf(evals: seq<Eval>, key: string): seq<real> {
    if evals == [] then []
    else
      var before, e := TimesOf(evals[..|evals| - 1], key), evals[|evals| - 1];
      if e.key == key then before + [e.nowMs as real] else before
  }

  function ClockOf(evals: seq<Eval>): real {
    if evals == [] then 0.0 else evals[|evals| - 1].nowMs as real
  }

  lemma DropKeepsTrack(store: Table, e: Eval, key: string, ms: Limit, times: seq<real>, clock: real)
    requires ms.Valid() && LocalBuckets.Tracks(store, key, ms, times, clock)
    requires clock <= e.nowMs as real && DropsLapsed(store, e)
    ensures LocalBuckets.Tracks(store - e.dropped, key, ms, times, e.nowMs as real)
  {
    hide Earned, Limit.Rate, WaitFor;
    if key in store {
      assert LevelAt(ms, times).value.updatedAt == times[|times| - 1];
    }
  }

  /** A key that is there is its bucket; a key that is gone has refilled. */
  lemma SeenIsTheIdealLevel(store: Table, key: string, ms: Limit, times: seq<real>, now: real)
    requires ms.Valid() && LocalBuckets.Tracks(store, key, ms, times, now)
    ensures Topped(ms, Seen(store, key), now) == Topped(ms, LevelAt(ms, times), now)
  {
    hide Earned, Limit.Rate, WaitFor;
    if times != [] && key !in store {
      LocalBuckets.IdleBucketIsFull(ms, times, now);
    }
  }

  lemma ScriptKeepsTrack(store: Table, key: string, limit: Limit, times: seq<real>, nowMs: int, now: real)
    requires limit.Valid() && LocalBuckets.Tracks(store, key, PerMs(limit), times, nowMs as real)
    requires now == nowMs as real / 1000.0
    ensures LocalBuckets.Tracks(Script(store, key, limit, nowMs).0, key, PerMs(limit), times + [nowMs as real],
                                nowMs as real)
    ensures Read(Script(store, key, limit, nowMs).1) == VerdictAt(limit, Seconds(times), now)
  {
    hide Earned, Limit.Rate, WaitFor;
    SeenIsTheIdealLevel(store, key, PerMs(limit), times, nowMs as real);
    LocalBuckets.LevelSnoc(PerMs(limit), times, nowMs as real);
    SameTokens(limit, times, nowMs as real);
    SameVerdict(limit, Topped(PerMs(limit), Seen(store, key), nowMs as real));
  }

  lemma {:induction false} RunKeepsTrack(limits: string -> Limit, evals: seq<Eval>, key: string)
    requires LocalBuckets.AllValid(limits) && InOrder(evals) && Faithful(limits, evals)
    ensures LocalBuckets.Tracks(StoreAfter(limits, evals), key, PerMs(limits(key)), TimesOf(evals, key), ClockOf(evals))
    ensures evals == [] ==> TimesOf(evals, key) == []
  {
    hide Earned, Limit.Rate, WaitFor;
    if evals != [] {
      var before, e := evals[..|evals| - 1], evals[|evals| - 1];
      RunKeepsTrack(limits, before, key);
      var clock := if before == [] then e.nowMs as real else ClockOf(before);
      var store, times := StoreAfter(limits, before), TimesOf(before, key);
      DropKeepsTrack(store, e, key, PerMs(limits(key)), times, clock);
      if e.key == key {
        ScriptKeepsTrack(store - e.dropped, key, limits(key), times, e.nowMs, e.nowMs as real / 1000.0);
      }
    }
  }

  lemma InOrderPrefix(evals: seq<Eval>, e: Eval)
    requires InOrder(evals + [e])
    ensures InOrder(evals) && (evals != [] ==> ClockOf(evals) <= e.nowMs as real)
  {
    assert forall i | 0 <= i < |evals| :: evals[i] == (evals + [e])[i];
    assert (evals + [e])[|evals|] == e;
  }

  lemma FaithfulSnoc(limits: string -> Limit, evals: seq<Eval>, e: Eval)
    requires LocalBuckets.AllValid(limits)
    ensures Faithful(limits, evals + [e]) <==> Faithful(limits, evals) && DropsLapsed(StoreAfter(limits, evals), e)
  {
    hide Earned, Limit.Rate, WaitFor;
    assert (evals + [e])[..|evals|] == evals;
  }

  /** In every run of the script, whenever Redis drops lapsed keys, the caller is told
      what the never-evicted bucket says, in whole seconds. */
  lemma ScriptIsTheBucket(limits: string -> Limit, evals: seq<Eval>, e: Eval, now: real)
    requires LocalBuckets.AllValid(limits) && InOrder(evals + [e]) && Faithful(limits, evals + [e])
    requires now == e.nowMs as real / 1000.0
    ensures Answer(limits, evals, e) == VerdictAt(limits(e.key), Seconds(TimesOf(evals, e.key)), now)
  {
    hide Earned, Limit.Rate, WaitFor;
    InOrderPrefix(evals, e);
    FaithfulSnoc(limits, evals, e);
    RunKeepsTrack(limits, evals, e.key);
    var store, times := StoreAfter(limits, evals), TimesOf(evals, e.key);
    var clock := if evals == [] then e.nowMs as real else ClockOf(evals);
    DropKeepsTrack(store, e, e.key, PerMs(limits(e.key)), times, clock);
    ScriptKeepsTrack(store - e.dropped, e.key, limits(e.key), times, e.nowMs, now);
  }

  /** Script and fallback refine one bucket: after calls for the key at the same
      millisecond-aligned times they decide alike and name the same Retry-After seconds. */
  lemma FallbackMatchesScript(limits: string -> Limit, cap: nat, calls: seq<LocalBuckets.Call>, call: LocalBuckets.Call,
                              evals: seq<Eval>, e: Eval, times: seq<real>)
    requires LocalBuckets.AllValid(limits)
    requires LocalBuckets.InOrder(calls + [call]) && !LocalBuckets.Capped(limits, cap, calls, call)
    requires InOrder(evals + [e]) && Faithful(limits, evals + [e])
    requires e.key == call.key && call.now == e.nowMs as real / 1000.0
    requires times == LocalBuckets.TimesOf(limits, cap, calls, call.key) == Seconds(TimesOf(evals, e.key))
    ensures LocalBuckets.Answer(limits, cap, calls, call) == Answer(limits, evals, e)
  {
    hide Earned, Limit.Rate, WaitFor;
    assert LocalBuckets.Answer(limits, cap, calls, call) == VerdictAt(limits(call.key), times, call.now) by {
      LocalBuckets.EvictionIsInvisible(limits, cap, calls, call);
    }
    assert Answer(limits, evals, e) == VerdictAt(limits(call.key), times, call.now) by {
      ScriptIsTheBucket(limits, evals, e, call.now);
    }
  }

  /** The millisecond times at which the script let calls for `key` through. */
  ghost function AllowedTimes(limits: string -> Limit, evals: seq<Eval>, key: string): seq<real>
    requires LocalBuckets.AllValid(limits)
  {
    if evals == [] then []
    else
      var before, e := evals[..|evals| - 1], evals[|evals| - 1];
      if e.key == key && Answer(limits, before, e).allowed
      then AllowedTimes(limits, before, key) + [e.nowMs as real]
      else AllowedTimes(limits, before, key)
  }

  lemma VerdictPerMs(limit: Limit, times: seq<real>, nowMs: real, now: real)
    requires limit.Valid() && now == nowMs / 1000.0
    ensures VerdictAt(PerMs(limit), times, nowMs).allowed <==> VerdictAt(limit, Seconds(times), now).allowed
  {
    hide Earned, Limit.Rate, WaitFor;
    SameTokens(limit, times, nowMs);
  }

  lemma {:induction false} AllowedArePassed(limits: string -> Limit, evals: seq<Eval>, key: string)
    requires LocalBuckets.AllValid(limits) && InOrder(evals) && Faithful(limits, evals)
    ensures AllowedTimes(limits, evals, key) == Passed(PerMs(limits(key)), TimesOf(evals, key))
  {
    hide Earned, Limit.Rate, WaitFor;
    if evals != [] {
      var before, e := evals[..|evals| - 1], evals[|evals| - 1];
      assert evals == before + [e];
      AllowedArePassed(limits, before, key);
      if e.key == key {
        var now := e.nowMs as real / 1000.0;
        ScriptIsTheBucket(limits, before, e, now);
        LocalBuckets.LevelSnoc(PerMs(limits(key)), TimesOf(before, key), e.nowMs as real);
        VerdictPerMs(limits(key), TimesOf(before, key), e.nowMs as real, now);
      }
    }
  }

  lemma LastRun(limits: string -> Limit, evals: seq<Eval>, e: Eval)
    requires LocalBuckets.AllValid(limits) && InOrder(evals + [e]) && Faithful(limits, evals)
    ensures Ordered(TimesOf(evals, e.key) + [e.nowMs as real])
  {
    hide Topped, LevelAt, Script, StoreAfter, TimesOf, Faithful;
    InOrderPrefix(evals, e);
    RunKeepsTrack(limits, evals, e.key);
  }

  /** In every run the script lets a call through exactly when the calls let through before it leave
      room for it in every interval of the millisecond clock. */
  lemma ScriptAdmitsExactly(limits: string -> Limit, evals: seq<Eval>, e: Eval)
    requires LocalBuckets.AllValid(limits) && InOrder(evals + [e]) && Faithful(limits, evals + [e])
    ensures Answer(limits, evals, e).allowed <==>
            FitsEveryWindow(PerMs(limits(e.key)), AllowedTimes(limits, evals, e.key), e.nowMs as real)
  {
    InOrderPrefix(evals, e);
    FaithfulSnoc(limits, evals, e);
    hide Topped, LevelAt, Judge, Script, StoreAfter, TimesOf, Answer, AllowedTimes, Passed, FitsEveryWindow, VerdictAt,
         Faithful, Seconds;
    LastRun(limits, evals, e);
    var times, now := TimesOf(evals, e.key), e.nowMs as real / 1000.0;
    ScriptIsTheBucket(limits, evals, e, now);
    VerdictPerMs(limits(e.key), times, e.nowMs as real, now);
    AllowedArePassed(limits, evals, e.key);
    AdmitsExactlyTheQuota(PerMs(limits(e.key)), times, e.nowMs as real);
  }

  lemma QuotaPerMs(limit: Limit, span: real)
    requires limit.Valid()
    ensures Quota(PerMs(limit), span) == Quota(limit, span / 1000.0)
  {
    SameTick(limit, span);
  }

  /** On the script's own clock, the calls let through in an interval number at most its quota. */
  lemma ScriptKeepsTheQuota(limits: string -> Limit, evals: seq<Eval>, key: string, from: real, to: real)
    requires LocalBuckets.AllValid(limits) && InOrder(evals) && Faithful(limits, evals) && from <= to
    ensures CountIn(AllowedTimes(limits, evals, key), from, to) as real <= Quota(limits(key), (to - from) / 1000.0)
  {
    hide Topped, LevelAt, Script, StoreAfter, TimesOf, AllowedTimes, Passed, CountIn, Quota;
    RunKeepsTrack(limits, evals, key);
    AllowedArePassed(limits, evals, key);
    PassedWithinQuota(PerMs(limits(key)), TimesOf(evals, key), from, to);
    QuotaPerMs(limits(key), to - from);
  }
}

/** enforce_rate_limit: the shared Redis bucket, and the process-local one whenever
    Redis gives no answer. */
module RateLimiter {
  import opened TickBucket
  import opened TokenBucket
  import Local = LocalBuckets
  import Redis = ScriptBuckets

  /** What becomes of the script call of one request. */
  datatype Route =
    | NoAnswer        // no client configured, or Redis failed before running the script
    | ReplyLost       // the script ran, its reply did not come back
    | Answered
    | OtherProcess    // another process spent from the shared bucket

  datatype Decision = Pass | BadLimit | TooMany(retryAfter: nat)

  function Decide(verdict: Verdict): Decision {
    if verdict.allowed then Pass else TooMany(Max(1, verdict.retryAfter))
  }

  /** Redis TIME in whole milliseconds. */
  function MsAt(now: real): int {
    (now * 1000.0).Floor
  }

  class Limiter {
    const local: Local.BucketTable
    const redis: Redis.RedisStore

    constructor (cap: nat)
      ensures fresh(local) && fresh(redis) && local.cap == cap && local.buckets == map[] && redis.hashes == map[]
    {
      local := new Local.BucketTable(cap);
      redis := new Redis.RedisStore();
    }

    method EnforceRateLimit(key: string, requests: int, windowSeconds: int, now: real,
                            route: Route) returns (decision: Decision)
      requires route != OtherProcess
      modifies local, redis
      ensures requests < 1 || windowSeconds < 1 ==>
                decision == BadLimit && local.buckets == old(local.buckets) && redis.hashes == old(redis.hashes)
      ensures requests >= 1 && windowSeconds >= 1 ==>
                var limit := Limit(requests, windowSeconds);
                && redis.hashes ==
                   (if route.NoAnswer? then old(redis.hashes)
                    else Redis.Script(old(redis.hashes), key, limit, MsAt(now)).0)
                && local.buckets ==
                   (if route.Answered? then old(local.buckets)
                    else Local.Step(old(local.buckets), local.cap, key, limit, now).0)
                && decision == Decide(
                   if route.Answered? then Redis.Read(Redis.Script(old(redis.hashes), key, limit, MsAt(now)).1)
                   else Local.Step(old(local.buckets), local.cap, key, limit, now).1)
    {
      if requests < 1 || windowSeconds < 1 {
        return BadLimit;
      }
      var limit := Limit(requests, windowSeconds);
      if !route.NoAnswer? {
        var reply := redis.Eval(key, limit, MsAt(now));
        if route.Answered? {
          if !reply.allowed {
            return TooMany(Max(1, Max(1, Ceil(reply.retryMs as real / 1000.0))));
          }
          return Pass;
        }
      }
      var verdict := local.Consume(key, limit, now);
      decision := if verdict.allowed then Pass else TooMany(Max(1, verdict.retryAfter));
    }
  }

  // ---------------------------------------------------------------- runs with failures

  /** A request at a true time, how its script call fared, and what Redis dropped before it. */
  datatype Request = Request(key: string, now: real, route: Route, dropped: set<string>)

  ghost predicate InOrder(run: seq<Request>) {
    forall i, j | 0 <= i < j < |run| :: run[i].now <= run[j].now
  }

  /** The calls the local dictionary sees. */
  function LocalCalls(run: seq<Request>): seq<Local.Call> {
    if run == [] then []
    else
      var before, r := LocalCalls(run[..|run| - 1]), run[|run| - 1];
      if r.route.NoAnswer? || r.route.ReplyLost? then before + [Local.Call(r.key, r.now)] else before
  }

  /** The script evaluations Redis performs. */
  function Evals(run: seq<Request>): seq<Redis.Eval> {
    if run == [] then []
    else
      var before, r := Evals(run[..|run| - 1]), run[|run| - 1];
      if r.route.NoAnswer? then before else before + [Redis.Eval(r.key, MsAt(r.now), r.dropped)]
  }

  /** What this process decides about `r` after `run`. */
  ghost function Outcome(limits: string -> Limit, cap: nat, run: seq<Request>, r: Request): Decision
    requires Local.AllValid(limits)
  {
    Decide(if r.route.Answered?
           then Redis.Answer(limits, Evals(run), Redis.Eval(r.key, MsAt(r.now), r.dropped))
           else Local.Answer(limits, cap, LocalCalls(run), Local.Call(r.key, r.now)))
  }

  /** The times at which this process let requests for `key` pass. */
  ghost function PassTimes(limits: string -> Limit, cap: nat, run: seq<Request>, key: string): seq<real>
    requires Local.AllValid(limits)
  {
    if run == [] then []
    else
      var before, r := run[..|run| - 1], run[|run| - 1];
      if r.key == key && !r.route.OtherProcess? && Outcome(limits, cap, before, r) == Pass
      then PassTimes(limits, cap, before, key) + [r.now]
      else PassTimes(limits, cap, before, key)
  }

  lemma MsIsMonotone(a: real, b: real)
    requires a <= b
    ensures MsAt(a) <= MsAt(b)
  {
  }

  lemma {:induction false} ProjectionsInOrder(run: seq<Request>)
    requires InOrder(run)
    ensures Local.InOrder(LocalCalls(run)) && Redis.InOrder(Evals(run))
    ensures forall i | 0 <= i < |LocalCalls(run)| :: run != [] && LocalCalls(run)[i].now <= run[|run| - 1].now
    ensures forall i | 0 <= i < |Evals(run)| :: run != [] && Evals(run)[i].nowMs <= MsAt(run[|run| - 1].now)
  {
    hide MsAt;
    if run != [] {
      var before := run[..|run| - 1];
      ProjectionsInOrder(before);
      if before != [] {
        MsIsMonotone(before[|before| - 1].now, run[|run| - 1].now);
      }
    }
  }

  /** In every run a request passes exactly when the bucket it meets has room for it in every interval and,
      for the local one, the dictionary has room for the identity. */
  lemma PassesExactly(limits: string -> Limit, cap: nat, run: seq<Request>, r: Request)
    requires Local.AllValid(limits) && InOrder(run + [r]) && Redis.Faithful(limits, Evals(run + [r])) &&
             !r.route.OtherProcess?
    ensures Outcome(limits, cap, run, r) == Pass <==>
            if r.route.Answered?
            then FitsEveryWindow(Redis.PerMs(limits(r.key)), Redis.AllowedTimes(limits, Evals(run), r.key),
                                 MsAt(r.now) as real)
            else
              && !Local.Capped(limits, cap, LocalCalls(run), Local.Call(r.key, r.now))
              && FitsEveryWindow(limits(r.key), Local.AllowedTimes(limits, cap, LocalCalls(run), r.key), r.now)
  {
    hide Local.Answer, Redis.Answer, Local.Capped, FitsEveryWindow, Local.AllowedTimes, Redis.AllowedTimes, MsAt, Evals,
         LocalCalls, InOrder, Local.InOrder, Redis.InOrder, Redis.Faithful;
    ProjectionsInOrder(run + [r]);
    ProjectionSnoc(run, r);
    if r.route.Answered? {
      Redis.ScriptAdmitsExactly(limits, Evals(run), Redis.Eval(r.key, MsAt(r.now), r.dropped));
    } else {
      Local.FallbackAdmitsExactly(limits, cap, LocalCalls(run), Local.Call(r.key, r.now));
    }
  }

  /** Every pass was granted by one of the two buckets. */
  lemma {:induction false} PassesAreGranted(limits: string -> Limit, cap: nat, run: seq<Request>, key: string,
                                            from: real, to: real)
    requires Local.AllValid(limits)
    ensures CountIn(PassTimes(limits, cap, run, key), from, to) <=
            CountIn(Local.AllowedTimes(limits, cap, LocalCalls(run), key), from, to) +
            CountIn(Redis.AllowedTimes(limits, Evals(run), key), MsAt(from) as real, MsAt(to) as real)
  {
    hide *;
    if run == [] {
      NothingPassesYet(limits, cap, key, from, to);
    } else {
      var before, r := run[..|run| - 1], run[|run| - 1];
      assert run == before + [r];
      PassesAreGranted(limits, cap, before, key, from, to);
      ProjectionSnoc(before, r);
      PassSnoc(limits, cap, before, r, key, from, to);
      GrantsGrow(limits, cap, LocalCalls(before), Evals(before), r, key, from, to);
    }
  }

  lemma NothingPassesYet(limits: string -> Limit, cap: nat, key: string, from: real, to: real)
    requires Local.AllValid(limits)
    ensures CountIn(PassTimes(limits, cap, [], key), from, to) == 0
  {
  }

  function CallOf(r: Request): seq<Local.Call> {
    if r.route.NoAnswer? || r.route.ReplyLost? then [Local.Call(r.key, r.now)] else []
  }

  function EvalOf(r: Request): seq<Redis.Eval> {
    if r.route.NoAnswer? then [] else [Redis.Eval(r.key, MsAt(r.now), r.dropped)]
  }

  lemma ProjectionSnoc(before: seq<Request>, r: Request)
    ensures LocalCalls(before + [r]) == LocalCalls(before) + CallOf(r)
    ensures Evals(before + [r]) == Evals(before) + EvalOf(r)
  {
    hide MsAt;
    assert (before + [r])[..|before|] == before;
  }

  /** Whether this process lets `r` pass within the interval. */
  ghost function PassesWithin(limits: string -> Limit, cap: nat, calls: seq<Local.Call>, evals: seq<Redis.Eval>,
                              r: Request, key: string, from: real, to: real): nat
    requires Local.AllValid(limits)
  {
    if && r.key == key && from <= r.now <= to && !r.route.OtherProcess?
       && (if r.route.Answered?
           then Redis.Answer(limits, evals, Redis.Eval(r.key, MsAt(r.now), r.dropped)).allowed
           else Local.Answer(limits, cap, calls, Local.Call(r.key, r.now)).allowed)
    then 1 else 0
  }

  lemma PassSnoc(limits: string -> Limit, cap: nat, before: seq<Request>, r: Request, key: string, from: real, to: real)
    requires Local.AllValid(limits)
    ensures CountIn(PassTimes(limits, cap, before + [r], key), from, to) ==
            CountIn(PassTimes(limits, cap, before, key), from, to) +
            PassesWithin(limits, cap, LocalCalls(before), Evals(before), r, key, from, to)
  {
    hide CountIn, Local.Answer, Redis.Answer, MsAt;
    assert (before + [r])[..|before|] == before;
    CountSnoc(PassTimes(limits, cap, before, key), r.now, from, to);
  }

  lemma GrantsGrow(limits: string -> Limit, cap: nat, calls: seq<Local.Call>, evals: seq<Redis.Eval>,
                   r: Request, key: string, from: real, to: real)
    requires Local.AllValid(limits)
    ensures CountIn(Local.AllowedTimes(limits, cap, calls + CallOf(r), key), from, to) +
            CountIn(Redis.AllowedTimes(limits, evals + EvalOf(r), key), MsAt(from) as real, MsAt(to) as real) >=
            CountIn(Local.AllowedTimes(limits, cap, calls, key), from, to) +
            CountIn(Redis.AllowedTimes(limits, evals, key), MsAt(from) as real, MsAt(to) as real) +
            PassesWithin(limits, cap, calls, evals, r, key, from, to)
  {
    hide CountIn, Local.Answer, Redis.Answer, Local.AllowedTimes, Redis.AllowedTimes;
    LocalSnoc(limits, cap, calls, Local.Call(r.key, r.now), key, from, to);
    RedisSnoc(limits, evals, Redis.Eval(r.key, MsAt(r.now), r.dropped), key, MsAt(from) as real, MsAt(to) as real);
    assert calls + [] == calls && evals + [] == evals;
    if from <= r.now <= to {
      MsIsMonotone(from, r.now);
      MsIsMonotone(r.now, to);
    }
  }

  lemma LocalSnoc(limits: string -> Limit, cap: nat, calls: seq<Local.Call>, call: Local.Call, key: string, from: real,
                  to: real)
    requires Local.AllValid(limits)
    ensures CountIn(Local.AllowedTimes(limits, cap, calls + [call], key), from, to) ==
            CountIn(Local.AllowedTimes(limits, cap, calls, key), from, to) +
            if call.key == key && Local.Answer(limits, cap, calls, call).allowed && from <= call.now <= to then 1 else 0
  {
    hide CountIn, Local.Answer;
    assert (calls + [call])[..|calls|] == calls;
    CountSnoc(Local.AllowedTimes(limits, cap, calls, key), call.now, from, to);
  }

  lemma RedisSnoc(limits: string -> Limit, evals: seq<Redis.Eval>, e: Redis.Eval, key: string, from: real, to: real)
    requires Local.AllValid(limits)
    ensures CountIn(Redis.AllowedTimes(limits, evals + [e], key), from, to) ==
            CountIn(Redis.AllowedTimes(limits, evals, key), from, to) +
            if e.key == key && Redis.Answer(limits, evals, e).allowed && from <= e.nowMs as real <= to then 1 else 0
  {
    hide CountIn, Redis.Answer;
    assert (evals + [e])[..|evals|] == evals;
    CountSnoc(Redis.AllowedTimes(limits, evals, key), e.nowMs as real, from, to);
  }

  /** The passes split into those of the local bucket, within the quota of [from, to], and those
      of the shared bucket, within the quota of the same interval on its own clock. */
  lemma BucketsKeepTheirQuotas(limits: string -> Limit, cap: nat, run: seq<Request>, key: string, from: real, to: real,
                               span: real)
    requires Local.AllValid(limits) && InOrder(run) && from <= to
    requires Redis.Faithful(limits, Evals(run)) && span == (MsAt(to) as real - MsAt(from) as real) / 1000.0
    ensures var own := CountIn(Local.AllowedTimes(limits, cap, LocalCalls(run), key), from, to);
            var shared := CountIn(Redis.AllowedTimes(limits, Evals(run), key), MsAt(from) as real, MsAt(to) as real);
            && CountIn(PassTimes(limits, cap, run, key), from, to) <= own + shared
            && own as real <= Quota(limits(key), to - from) && shared as real <= Quota(limits(key), span)
  {
    hide *;
    ProjectionsInOrder(run);
    MsIsMonotone(from, to);
    PassesAreGranted(limits, cap, run, key, from, to);
    Local.FallbackKeepsTheQuota(limits, cap, LocalCalls(run), key, from, to);
    Redis.ScriptKeepsTheQuota(limits, Evals(run), key, MsAt(from) as real, MsAt(to) as real);
  }

  /** Under every pattern of Redis failures, lost replies and other processes, one process
      lets through in [from, to] at most the quota of that span, counted once for the local
      bucket and once, on its millisecond clock, for the shared one. */
  lemma FailoverAtMostDoubles(limits: string -> Limit, cap: nat, run: seq<Request>, key: string, from: real, to: real,
                              span: real)
    requires Local.AllValid(limits) && InOrder(run) && from <= to
    requires Redis.Faithful(limits, Evals(run)) && span == (MsAt(to) as real - MsAt(from) as real) / 1000.0
    ensures CountIn(PassTimes(limits, cap, run, key), from, to) as real <=
            Quota(limits(key), to - from) + Quota(limits(key), span)
  {
    hide *;
    BucketsKeepTheirQuotas(limits, cap, run, key, from, to, span);
  }

  /** Between whole milliseconds that is twice the quota. */
  lemma FailoverAtMostDoublesTheQuota(limits: string -> Limit, cap: nat, run: seq<Request>, key: string, from: real,
                                      to: real)
    requires Local.AllValid(limits) && InOrder(run) && from <= to
    requires Redis.Faithful(limits, Evals(run))
    requires from * 1000.0 == MsAt(from) as real && to * 1000.0 == MsAt(to) as real
    ensures CountIn(PassTimes(limits, cap, run, key), from, to) as real <= 2.0 * Quota(limits(key), to - from)
  {
    hide *;
    FailoverAtMostDoubles(limits, cap, run, key, from, to, to - from);
  }
}
