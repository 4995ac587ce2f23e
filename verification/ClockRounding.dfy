/** Redis truncates its clock to milliseconds, so an interval of real time can look a millisecond
    longer to the shared bucket. Whether one process can thereby exceed twice the quota during
    an outage depends on the limit alone: it can exactly when the limit is faster than 500 per second. */
module ClockRounding {
  import opened TickBucket
  import opened TokenBucket
  import opened RateLimiter
  import Local = LocalBuckets
  import Redis = ScriptBuckets

  /** In every run and every interval, at most twice the quota. */
  ghost predicate AtMostDoubles(limits: string -> Limit, cap: nat, key: string)
    requires Local.AllValid(limits)
  {
    forall run: seq<Request>, from: real, to: real
      | RateLimiter.InOrder(run) && from <= to && Redis.Faithful(limits, Evals(run)) ::
      CountIn(PassTimes(limits, cap, run, key), from, to) as real <= 2.0 * Quota(limits(key), to - from)
  }

  // ---------------------------------------------------------------- slow limits

  lemma RateBound(limit: Limit)
    requires limit.Valid()
    ensures limit.capacity <= 500 * limit.window <==> limit.Rate() <= 500.0
  {
    RateFacts(limit);
    hide Limit.Rate;
    PerSecond(limit.Rate(), limit.window as real, limit.capacity as real);
    assert (500 * limit.window) as real == 500.0 * limit.window as real;
  }

  lemma PerSecond(rate: real, window: real, capacity: real)
    requires window > 0.0 && rate * window == capacity
    ensures capacity <= 500.0 * window <==> rate <= 500.0
  {
    var spare := 500.0 - rate;
    assert spare * window == 500.0 * window - capacity;
    assert spare >= 0.0 ==> spare * window >= 0.0;
    assert spare < 0.0 ==> spare * window < 0.0;
  }

  /** The shared clock sees less than half a token more than real time earns. */
  lemma RoundingEarnsLess(rate: real, from: real, to: real, span: real)
    requires 0.0 < rate <= 500.0 && span == (MsAt(to) as real - MsAt(from) as real) / 1000.0
    ensures Earned(rate, span) < Earned(rate, to - from) + 0.5
  {
    var extra := span - (to - from);
    assert extra < 0.001;
    assert rate * (0.001 - extra) > 0.0;
    assert Earned(rate, span) == Earned(rate, to - from) + rate * extra;
  }

  lemma WholeCounts(count: nat, a: nat, b: nat, q: real, p: real)
    requires count <= a + b && a as real <= q && b as real <= p && p < q + 0.5
    ensures count as real <= 2.0 * q
  {
    if a >= b {
      assert (a + b) as real <= 2.0 * a as real;
    } else {
      assert (a + b) as real <= 2.0 * b as real - 1.0;
    }
  }

  /** Limits of at most 500 per second: at most twice the quota in every interval of every run, because both buckets
      count whole calls. */
  lemma SlowLimitsDouble(limits: string -> Limit, cap: nat, run: seq<Request>, key: string, from: real, to: real)
    requires Local.AllValid(limits) && RateLimiter.InOrder(run) && from <= to
    requires Redis.Faithful(limits, Evals(run)) && limits(key).capacity <= 500 * limits(key).window
    ensures CountIn(PassTimes(limits, cap, run, key), from, to) as real <= 2.0 * Quota(limits(key), to - from)
  {
    var limit, span := limits(key), (MsAt(to) as real - MsAt(from) as real) / 1000.0;
    assert limit.Valid();
    RateBound(limit);
    RateFacts(limit);
    RoundingEarnsLess(limit.Rate(), from, to, span);
    assert Quota(limit, span) < Quota(limit, to - from) + 0.5;
    hide *;
    var own := CountIn(Local.AllowedTimes(limits, cap, LocalCalls(run), key), from, to);
    var shared := CountIn(Redis.AllowedTimes(limits, Evals(run), key), MsAt(from) as real, MsAt(to) as real);
    BucketsKeepTheirQuotas(limits, cap, run, key, from, to, span);
    WholeCounts(CountIn(PassTimes(limits, cap, run, key), from, to), own, shared, Quota(limit, to - from),
                Quota(limit, span));
  }

  // ---------------------------------------------------------------- fast limits

  /** After `run`, made since `since`, in which only `key` was used and `passes` requests passed, the shared
      bucket holds `shared` tokens at `now` and the local one `own`. */
  ghost predicate Stands(limits: string -> Limit, cap: nat, run: seq<Request>, key: string, since: real, now: real,
                         shared: real, own: real, passes: nat)
    requires Local.AllValid(limits)
  {
    && RateLimiter.InOrder(run) && (forall i | 0 <= i < |run| :: since <= run[i].now <= now)
    && Redis.Faithful(limits, Evals(run))
    && |PassTimes(limits, cap, run, key)| == passes
    && Local.TableAfter(limits, cap, LocalCalls(run)).Keys <= {key}
    && SharedTokens(limits, run, key, now) == shared
    && OwnTokens(limits, cap, run, key, now) == own
  }

  ghost function SharedTokens(limits: string -> Limit, run: seq<Request>, key: string, now: real): real
    requires Local.AllValid(limits)
  {
    var ms := Redis.PerMs(limits(key));
    Topped(ms, LevelAt(ms, Redis.TimesOf(Evals(run), key)), MsAt(now) as real)
  }

  ghost function OwnTokens(limits: string -> Limit, cap: nat, run: seq<Request>, key: string, now: real): real
    requires Local.AllValid(limits)
  {
    Topped(limits(key), LevelAt(limits(key), Local.TimesOf(limits, cap, LocalCalls(run), key)), now)
  }

  lemma RedisSpends(limits: string -> Limit, evals: seq<Redis.Eval>, e: Redis.Eval, tokens: real)
    requires Local.AllValid(limits) && Redis.InOrder(evals + [e]) && Redis.Faithful(limits, evals) && e.dropped == {}
    requires var ms := Redis.PerMs(limits(e.key));
             Topped(ms, LevelAt(ms, Redis.TimesOf(evals, e.key)), e.nowMs as real) == tokens >= 1.0
    ensures Redis.Faithful(limits, evals + [e]) && Redis.Answer(limits, evals, e).allowed
    ensures var ms := Redis.PerMs(limits(e.key));
            Topped(ms, LevelAt(ms, Redis.TimesOf(evals + [e], e.key)), e.nowMs as real) == tokens - 1.0
  {
    hide Earned, Limit.Rate, WaitFor;
    var limit, now, times := limits(e.key), e.nowMs as real / 1000.0, Redis.TimesOf(evals, e.key);
    Redis.FaithfulSnoc(limits, evals, e);
    Redis.ScriptIsTheBucket(limits, evals, e, now);
    Redis.VerdictPerMs(limit, times, e.nowMs as real, now);
    assert (evals + [e])[..|evals|] == evals;
    ToppedAtOnce(Redis.PerMs(limit), times, e.nowMs as real, tokens);
  }

  lemma ToppedAtOnce(limit: Limit, times: seq<real>, now: real, tokens: real)
    requires limit.Valid() && Topped(limit, LevelAt(limit, times), now) == tokens >= 1.0
    ensures Topped(limit, LevelAt(limit, times + [now]), now) == tokens - 1.0
    ensures VerdictAt(limit, times, now).allowed
  {
    Local.LevelSnoc(limit, times, now);
    assert Earned(limit.Rate(), 0.0) == 0.0;
  }

  lemma LocalSpends(limits: string -> Limit, cap: nat, calls: seq<Local.Call>, call: Local.Call, tokens: real)
    requires Local.AllValid(limits) && Local.InOrder(calls + [call]) && cap >= 1
    requires Local.TableAfter(limits, cap, calls).Keys <= {call.key}
    requires Topped(limits(call.key), LevelAt(limits(call.key), Local.TimesOf(limits, cap, calls, call.key)),
                    call.now) == tokens >= 1.0
    ensures Local.Answer(limits, cap, calls, call).allowed
    ensures Local.TableAfter(limits, cap, calls + [call]).Keys <= {call.key}
    ensures Topped(limits(call.key), LevelAt(limits(call.key), Local.TimesOf(limits, cap, calls + [call], call.key)),
                   call.now) == tokens - 1.0
  {
    hide Earned, Limit.Rate, WaitFor, Topped, LevelAt, VerdictAt, Local.TimesOf;
    var limit, table, times :=
      limits(call.key), Local.TableAfter(limits, cap, calls), Local.TimesOf(limits, cap, calls, call.key);
    assert (calls + [call])[..|calls|] == calls;
    Local.KeysOfStep(table, cap, call.key, limit, call.now);
    AloneIsNeverCapped(table, cap, call.key, call.now);
    Local.EvictionIsInvisible(limits, cap, calls, call);
    Local.TimesSnoc(limits, cap, calls, call, call.key);
    ToppedAtOnce(limit, times, call.now, tokens);
  }

  lemma AloneIsNeverCapped(table: Local.Table, cap: nat, key: string, now: real)
    requires table.Keys <= {key} && cap >= 1
    ensures !Local.CapRefuses(table, cap, key, now)
  {
    assert Local.Reclaimed(table, cap, now) - {key} == map[];
  }

  /** A request that finds a token in the shared bucket passes and leaves the local one alone. */
  lemma SpendShared(limits: string -> Limit, cap: nat, run: seq<Request>, r: Request, since: real, shared: real,
                    own: real, passes: nat)
    requires Local.AllValid(limits) && since <= r.now &&
             Stands(limits, cap, run, r.key, since, r.now, shared, own, passes) && shared >= 1.0
    requires r.route.Answered? && r.dropped == {}
    ensures Stands(limits, cap, run + [r], r.key, since, r.now, shared - 1.0, own, passes + 1)
  {
    hide Earned, Limit.Rate, WaitFor, Topped, LevelAt, Local.TableAfter, Local.TimesOf, Redis.TimesOf, Redis.Faithful,
         Evals, LocalCalls, MsAt, Redis.Answer, Local.Answer, PassTimes, RateLimiter.InOrder, Local.InOrder,
         Redis.InOrder;
    var e := Redis.Eval(r.key, MsAt(r.now), r.dropped);
    ProjectionSnoc(run, r);
    ExtendInOrder(run, r);
    RedisSpends(limits, Evals(run), e, shared);
    OneMorePass(limits, cap, run, r);
    assert LocalCalls(run) + [] == LocalCalls(run);
  }

  lemma OneMorePass(limits: string -> Limit, cap: nat, run: seq<Request>, r: Request)
    requires Local.AllValid(limits) && (r.route.Answered? || r.route.NoAnswer?)
    requires if r.route.Answered?
             then Redis.Answer(limits, Evals(run), Redis.Eval(r.key, MsAt(r.now), r.dropped)).allowed
             else Local.Answer(limits, cap, LocalCalls(run), Local.Call(r.key, r.now)).allowed
    ensures |PassTimes(limits, cap, run + [r], r.key)| == |PassTimes(limits, cap, run, r.key)| + 1
  {
    hide Redis.Answer, Local.Answer, Evals, LocalCalls, MsAt;
    assert (run + [r])[..|run|] == run;
  }

  lemma ExtendInOrder(run: seq<Request>, r: Request)
    requires RateLimiter.InOrder(run) && (forall i | 0 <= i < |run| :: run[i].now <= r.now)
    ensures RateLimiter.InOrder(run + [r]) && (forall i | 0 <= i < |run + [r]| :: (run + [r])[i].now <= r.now)
    ensures Redis.InOrder(Evals(run) + EvalOf(r)) && Local.InOrder(LocalCalls(run) + CallOf(r))
  {
    assert RateLimiter.InOrder(run + [r]);
    ProjectionsInOrder(run + [r]);
    ProjectionSnoc(run, r);
  }

  /** A request that Redis gives no answer spends from the local bucket alone. */
  lemma SpendOwn(limits: string -> Limit, cap: nat, run: seq<Request>, r: Request, since: real, shared: real, own: real,
                 passes: nat)
    requires Local.AllValid(limits) && since <= r.now && cap >= 1 &&
             Stands(limits, cap, run, r.key, since, r.now, shared, own, passes) && own >= 1.0
    requires r.route.NoAnswer?
    ensures Stands(limits, cap, run + [r], r.key, since, r.now, shared, own - 1.0, passes + 1)
  {
    hide Earned, Limit.Rate, WaitFor, Topped, LevelAt, Local.TableAfter, Local.TimesOf, Redis.TimesOf, Redis.Faithful,
         Evals, LocalCalls, MsAt, Redis.Answer, Local.Answer, PassTimes, RateLimiter.InOrder, Local.InOrder,
         Redis.InOrder;
    ProjectionSnoc(run, r);
    ExtendInOrder(run, r);
    LocalSpends(limits, cap, LocalCalls(run), Local.Call(r.key, r.now), own);
    OneMorePass(limits, cap, run, r);
    assert Evals(run) + [] == Evals(run);
  }

  /** `n` requests in a row, while the shared bucket has that many tokens. */
  lemma {:induction false} DrainShared(limits: string -> Limit, cap: nat, run: seq<Request>, key: string, since: real,
                                       now: real, shared: real, own: real, passes: nat, n: nat, left: real, total: nat)
    returns (after: seq<Request>)
    requires Local.AllValid(limits) && since <= now && Stands(limits, cap, run, key, since, now, shared, own, passes)
    requires left == shared - n as real >= 0.0 && total == passes + n
    ensures Stands(limits, cap, after, key, since, now, left, own, total)
    decreases n
  {
    hide *;
    after := run;
    if n > 0 {
      var r := Request(key, now, Answered, {});
      SpendShared(limits, cap, run, r, since, shared, own, passes);
      after := DrainShared(limits, cap, run + [r], key, since, now, shared - 1.0, own, passes + 1, n - 1, left, total);
    }
  }

  /** The same for the local bucket. */
  lemma {:induction false} DrainOwn(limits: string -> Limit, cap: nat, run: seq<Request>, key: string, since: real,
                                    now: real, shared: real, own: real, passes: nat, n: nat, left: real, total: nat)
    returns (after: seq<Request>)
    requires Local.AllValid(limits) && cap >= 1 && since <= now &&
             Stands(limits, cap, run, key, since, now, shared, own, passes)
    requires left == own - n as real >= 0.0 && total == passes + n
    ensures Stands(limits, cap, after, key, since, now, shared, left, total)
    decreases n
  {
    hide *;
    after := run;
    if n > 0 {
      var r := Request(key, now, NoAnswer, {});
      SpendOwn(limits, cap, run, r, since, shared, own, passes);
      after := DrainOwn(limits, cap, run + [r], key, since, now, shared, own - 1.0, passes + 1, n - 1, left, total);
    }
  }

  lemma BothStartFull(limits: string -> Limit, cap: nat, key: string, now: real, full: real)
    requires Local.AllValid(limits) && full == limits(key).capacity as real
    ensures Stands(limits, cap, [], key, now, now, full, full, 0)
  {
  }

  /** Two empty buckets refill by the time each of them sees pass. */
  lemma BothRefill(limits: string -> Limit, cap: nat, run: seq<Request>, key: string, from: real, to: real, passes: nat,
                   ms: real, shared: real, own: real)
    requires Local.AllValid(limits) && Stands(limits, cap, run, key, from, from, 0.0, 0.0, passes) && from <= to
    requires ms == MsAt(to) as real - MsAt(from) as real
    requires shared == MinReal(limits(key).capacity as real, Earned(Redis.PerMs(limits(key)).Rate(), ms))
    requires own == MinReal(limits(key).capacity as real, Earned(limits(key).Rate(), to - from))
    ensures Stands(limits, cap, run, key, from, to, shared, own, passes)
  {
    hide Earned, Limit.Rate, WaitFor, Local.TableAfter, Local.TimesOf, Redis.TimesOf, Redis.Faithful, Evals, LocalCalls,
         MsAt, LevelAt, PassTimes;
    var limit := limits(key);
    ProjectionsInOrder(run);
    MsIsMonotone(from, to);
    Redis.RunKeepsTrack(limits, Evals(run), key);
    Local.RunKeepsTrack(limits, cap, LocalCalls(run), key);
    if run != [] {
      MsIsMonotone(run[|run| - 1].now, from);
    }
    EmptyRefills(Redis.PerMs(limit), Redis.TimesOf(Evals(run), key), MsAt(from) as real, MsAt(to) as real, ms);
    EmptyRefills(limit, Local.TimesOf(limits, cap, LocalCalls(run), key), from, to, to - from);
  }

  lemma EmptyRefills(limit: Limit, times: seq<real>, from: real, to: real, span: real)
    requires limit.Valid() && from <= to && span == to - from && (times != [] ==> times[|times| - 1] <= from)
    requires Topped(limit, LevelAt(limit, times), from) == 0.0
    ensures Topped(limit, LevelAt(limit, times), to) == MinReal(limit.capacity as real, Earned(limit.Rate(), span))
  {
    hide Earned, Limit.Rate;
    assert times != [];
    WaitingAddsUp(limit, LevelAt(limit, times).value, from, to);
  }

  /** Two bursts, a window apart on Redis's clock but less in real time: the shared bucket
      serves both in full, and the local one the second only as far as it has earned it. */
  lemma TwoBursts(limits: string -> Limit, cap: nat, key: string, from: real, to: real, own: real, rest: real)
    returns (run: seq<Request>)
    requires Local.AllValid(limits) && cap >= 1 && 0.0 <= from < 0.001 && to == limits(key).window as real
    requires own == Earned(limits(key).Rate(), to - from) && 0.0 <= own <= limits(key).capacity as real
    requires rest == own - own.Floor as real
    ensures Stands(limits, cap, run, key, from, to, 0.0, rest, 3 * limits(key).capacity + own.Floor)
  {
    var c, full, ms := limits(key).capacity, limits(key).capacity as real, MsAt(to) as real - MsAt(from) as real;
    FullWindow(limits(key), from, to, ms);
    assert own == MinReal(full, Earned(limits(key).Rate(), to - from));
    hide *;
    BothStartFull(limits, cap, key, from, full);
    run := DrainShared(limits, cap, [], key, from, from, full, full, 0, c, 0.0, c);
    run := DrainOwn(limits, cap, run, key, from, from, 0.0, full, c, c, 0.0, 2 * c);
    BothRefill(limits, cap, run, key, from, to, 2 * c, ms, full, own);
    run := DrainShared(limits, cap, run, key, from, to, full, own, 2 * c, c, 0.0, 3 * c);
    run := DrainOwn(limits, cap, run, key, from, to, 0.0, own, 3 * c, own.Floor, rest, 3 * c + own.Floor);
  }

  lemma FullWindow(limit: Limit, from: real, to: real, ms: real)
    requires limit.Valid() && 0.0 <= from < 0.001 && to == limit.window as real
    requires ms == MsAt(to) as real - MsAt(from) as real
    ensures from <= to
    ensures MinReal(limit.capacity as real, Earned(Redis.PerMs(limit).Rate(), ms)) == limit.capacity as real
  {
    assert MsAt(from) == 0 && MsAt(to) == limit.window * 1000;
    RateFacts(Redis.PerMs(limit));
  }

  lemma {:induction false} AllPassesAreWithin(limits: string -> Limit, cap: nat, run: seq<Request>, key: string,
                                              from: real, to: real)
    requires Local.AllValid(limits) && forall i | 0 <= i < |run| :: from <= run[i].now <= to
    ensures CountIn(PassTimes(limits, cap, run, key), from, to) == |PassTimes(limits, cap, run, key)|
  {
    hide Outcome;
    if run != [] {
      var before, r := run[..|run| - 1], run[|run| - 1];
      AllPassesAreWithin(limits, cap, before, key, from, to);
      CountSnoc(PassTimes(limits, cap, before, key), r.now, from, to);
    }
  }

  /** A limit faster than 500 per second: just under a millisecond is worth more than half a token. */
  lemma HalfATokenShort(limit: Limit) returns (from: real, own: real)
    requires limit.Valid() && limit.capacity > 500 * limit.window
    ensures 0.0 <= from < 0.001 && own == Earned(limit.Rate(), limit.window as real - from)
    ensures 0.0 <= own < limit.capacity as real - 0.5
  {
    var r, w := limit.Rate(), limit.window as real;
    RateFacts(limit);
    RateBound(limit);
    hide Limit.Rate;
    var half := 0.25 / r;
    assert half * r == 0.25;
    from := half + 0.0005;
    assert half < 0.0005 by {
      assert (0.0005 - half) * r > 0.0;
    }
    own := Earned(r, w - from);
    assert Earned(r, w) == limit.capacity as real;
    assert own == limit.capacity as real - r * from;
    assert r * from == 0.25 + 0.0005 * r;
    EarnedIsMonotone(r, 0.0, w - from);
  }

  lemma FloorLosesLess(capacity: nat, own: real)
    requires own < capacity as real - 0.5
    ensures (3 * capacity + own.Floor) as real > 2.0 * (capacity as real + own)
  {
    var c, m := capacity as real, own.Floor as real;
    assert (3 * capacity + own.Floor) as real == 3.0 * c + m;
    if own.Floor >= capacity - 1 {
      assert m >= c - 1.0;
    } else {
      assert m + 1.0 <= c - 1.0;
    }
  }

  /** Every faster limit: a run, and an interval in which it lets through more than twice the quota. */
  lemma FastLimitsExceedTwice(limits: string -> Limit, cap: nat, key: string)
    returns (run: seq<Request>, from: real, to: real)
    requires Local.AllValid(limits) && cap >= 1 && limits(key).capacity > 500 * limits(key).window
    ensures RateLimiter.InOrder(run) && from <= to && Redis.Faithful(limits, Evals(run))
    ensures CountIn(PassTimes(limits, cap, run, key), from, to) as real > 2.0 * Quota(limits(key), to - from)
  {
    var limit, own := limits(key), 0.0;
    assert limit.Valid();
    from, own := HalfATokenShort(limit);
    to := limit.window as real;
    FloorLosesLess(limit.capacity, own);
    assert Quota(limit, to - from) == limit.capacity as real + own;
    hide Earned, Limit.Rate, Quota, CountIn, PassTimes, Evals, LocalCalls, Redis.Faithful, Local.TableAfter,
         SharedTokens, OwnTokens;
    run := TwoBursts(limits, cap, key, from, to, own, own - own.Floor as real);
    AllPassesAreWithin(limits, cap, run, key, from, to);
  }

  /** Under every pattern of failures at most twice the quota in every interval: this
      holds exactly of the limits that are no faster than 500 per second. */
  lemma DoublesExactly(limits: string -> Limit, cap: nat, key: string)
    requires Local.AllValid(limits) && cap >= 1
    ensures AtMostDoubles(limits, cap, key) <==> limits(key).capacity <= 500 * limits(key).window
  {
    hide Earned, Limit.Rate, Quota, CountIn, PassTimes, Evals, LocalCalls, Redis.Faithful, RateLimiter.InOrder;
    if limits(key).capacity <= 500 * limits(key).window {
      forall run: seq<Request>, from: real, to: real
        | RateLimiter.InOrder(run) && from <= to && Redis.Faithful(limits, Evals(run))
        ensures CountIn(PassTimes(limits, cap, run, key), from, to) as real <= 2.0 * Quota(limits(key), to - from)
      {
        SlowLimitsDouble(limits, cap, run, key, from, to);
      }
    } else {
      var run, from, to := FastLimitsExceedTwice(limits, cap, key);
    }
  }
}
