/** A client whose requests are at least W / C seconds apart is never refused by a bucket: neither by the local
    one nor, in spite of its truncated clock, by the shared one. */
module SpacedClients {
  import opened TokenBucket
  import opened RateLimiter
  import Local = LocalBuckets
  import Redis = ScriptBuckets

  /** The times of all requests for `key`, by any process and whatever became of them. */
  function RequestTimes(run: seq<Request>, key: string): seq<real> {
    if run == [] then []
    else
      var before, r := RequestTimes(run[..|run| - 1], key), run[|run| - 1];
      if r.key == key then before + [r.now] else before
  }

  ghost predicate Spaced(times: seq<real>, gap: real) {
    forall i | 0 < i < |times| :: times[i] - times[i - 1] >= gap
  }

  function Gap(limit: Limit): real
    requires limit.Valid()
  {
    limit.window as real / limit.capacity as real
  }

  /** `passed` are spaced, and the last of them is not later than the last of `times`. */
  ghost predicate SpacedUpTo(passed: seq<real>, gap: real, times: seq<real>) {
    && Spaced(passed, gap)
    && (passed != [] ==> times != [] && passed[|passed| - 1] <= times[|times| - 1])
  }

  lemma SpacedSnoc(passed: seq<real>, gap: real, times: seq<real>, now: real, more: seq<real>)
    requires SpacedUpTo(passed, gap, times) && Spaced(times + [now], gap) && gap >= 0.0
    requires more == passed || more == passed + [now]
    ensures Spaced(passed + [now], gap) && Spaced(times, gap) && SpacedUpTo(more, gap, times + [now])
  {
    var all := times + [now];
    assert forall i | 0 <= i < |times| :: all[i] == times[i];
    if times != [] {
      assert all[|times|] - all[|times| - 1] >= gap;
    }
  }

  lemma RequestTimesSnoc(run: seq<Request>, r: Request, key: string)
    ensures RequestTimes(run + [r], key) == if r.key == key then RequestTimes(run, key) + [r.now]
            else RequestTimes(run, key)
  {
    assert (run + [r])[..|run|] == run;
  }

  // ---------------------------------------------------------------- what each bucket let through

  /** What the local bucket let through is spaced as the requests are. */
  lemma {:induction false} OwnAreSpaced(limits: string -> Limit, cap: nat, run: seq<Request>, key: string, gap: real)
    requires Local.AllValid(limits) && Spaced(RequestTimes(run, key), gap) && gap >= 0.0
    ensures SpacedUpTo(Local.AllowedTimes(limits, cap, LocalCalls(run), key), gap, RequestTimes(run, key))
  {
    if run != [] {
      hide Local.Answer, MsAt, Spaced, SpacedUpTo;
      var before, r := run[..|run| - 1], run[|run| - 1];
      assert run == before + [r];
      RequestTimesSnoc(before, r, key);
      ProjectionSnoc(before, r);
      hide RequestTimes, LocalCalls;
      var calls, times := LocalCalls(before), RequestTimes(before, key);
      SpacedPrefix(times, gap, RequestTimes(run, key), r.now);
      OwnAreSpaced(limits, cap, before, key, gap);
      if CallOf(r) == [] {
        assert calls + [] == calls;
      } else {
        var call := Local.Call(r.key, r.now);
        assert (calls + [call])[..|calls|] == calls;
      }
      if r.key == key {
        SpacedSnoc(Local.AllowedTimes(limits, cap, calls, key), gap, times, r.now,
                   Local.AllowedTimes(limits, cap, LocalCalls(run), key));
      }
    }
  }

  lemma SpacedPrefix(times: seq<real>, gap: real, more: seq<real>, now: real)
    requires Spaced(more, gap) && (more == times || more == times + [now])
    ensures Spaced(times, gap)
  {
    assert forall i | 0 <= i < |times| :: more[i] == times[i];
  }

  /** `ms` are the times `reals` on Redis's clock. */
  ghost predicate OnTheClock(ms: seq<real>, reals: seq<real>) {
    |ms| == |reals| && forall i | 0 <= i < |ms| :: ms[i] == MsAt(reals[i]) as real
  }

  /** What the shared bucket let through was, before truncation, spaced as the requests are. */
  lemma {:induction false} SharedAreSpaced(limits: string -> Limit, run: seq<Request>, key: string, gap: real)
    returns (reals: seq<real>)
    requires Local.AllValid(limits) && Spaced(RequestTimes(run, key), gap) && gap >= 0.0
    ensures OnTheClock(Redis.AllowedTimes(limits, Evals(run), key), reals) &&
            SpacedUpTo(reals, gap, RequestTimes(run, key))
  {
    reals := [];
    if run != [] {
      hide Redis.Answer, MsAt, Spaced, SpacedUpTo;
      var before, r := run[..|run| - 1], run[|run| - 1];
      assert run == before + [r];
      RequestTimesSnoc(before, r, key);
      ProjectionSnoc(before, r);
      hide RequestTimes, Evals;
      var evals, times := Evals(before), RequestTimes(before, key);
      SpacedPrefix(times, gap, RequestTimes(run, key), r.now);
      reals := SharedAreSpaced(limits, before, key, gap);
      if EvalOf(r) == [] {
        assert evals + [] == evals;
      } else {
        var e := Redis.Eval(r.key, MsAt(r.now), r.dropped);
        assert (evals + [e])[..|evals|] == evals;
      }
      if r.key == key {
        var more := if Redis.AllowedTimes(limits, Evals(run), key) == Redis.AllowedTimes(limits, evals, key)
                    then reals else reals + [r.now];
        SpacedSnoc(reals, gap, times, r.now, more);
        reals := more;
      }
    }
  }

  // ---------------------------------------------------------------- spaced requests leave room

  lemma {:induction false} GapsAddUp(times: seq<real>, gap: real, i: nat, j: nat)
    requires i <= j < |times| && Spaced(times, gap)
    ensures times[j] - times[i] >= (j - i) as real * gap
    decreases j
  {
    if i < j {
      GapsAddUp(times, gap, i, j - 1);
      assert (j - i) as real * gap == (j - 1 - i) as real * gap + gap;
    }
  }

  /** `k` gaps earn `k` tokens. */
  lemma GapsEarn(limit: Limit, k: nat, span: real)
    requires limit.Valid() && span >= k as real * Gap(limit)
    ensures Earned(limit.Rate(), span) >= k as real
  {
    RateFacts(limit);
    var r, gap := limit.Rate(), Gap(limit);
    assert gap * r == 1.0;
    hide Limit.Rate, Gap;
    assert Earned(r, k as real * gap) == k as real * (gap * r);
    EarnedIsMonotone(r, k as real * gap, span);
  }

  lemma SpacedFit(limit: Limit, passed: seq<real>, now: real)
    requires limit.Valid() && Spaced(passed + [now], Gap(limit))
    ensures FitsEveryWindow(limit, passed, now)
  {
    hide Limit.Rate, Gap, Earned;
    forall i | 0 <= i < |passed|
      ensures (|passed| - i + 1) as real <= Quota(limit, now - passed[i])
    {
      GapsAddUp(passed + [now], Gap(limit), i, |passed|);
      GapsEarn(limit, |passed| - i, now - passed[i]);
    }
  }

  /** On the truncated clock, too, a full bucket has room for one more call after `k` gaps and `k` calls. */
  lemma TruncatedGapsEarn(limit: Limit, k: nat, from: real, to: real, ms: real)
    requires limit.Valid() && to - from >= k as real * Gap(limit) && ms == MsAt(to) as real - MsAt(from) as real
    ensures limit.capacity as real + Earned(limit.Rate(), ms / 1000.0) >= k as real + 1.0
  {
    RateFacts(limit);
    if limit.capacity == 1 {
      assert Gap(limit) == limit.window as real;
      WholeGap(limit.window, k, from, to);
      GapsEarn(limit, k, ms / 1000.0);
    } else {
      GapsEarn(limit, k, to - from);
      SlowerThanItsCapacity(limit);
      hide Limit.Rate, Gap;
      assert ms / 1000.0 >= (to - from) - 0.001;
      EarnedIsMonotone(limit.Rate(), (to - from) - 0.001, ms / 1000.0);
      EarnedIsMonotone(limit.Rate(), 0.001, to - from);
    }
  }

  /** A millisecond earns at most all but one of the capacity, if that is two or more. */
  lemma SlowerThanItsCapacity(limit: Limit)
    requires limit.Valid() && limit.capacity >= 2
    ensures Earned(limit.Rate(), 0.001) <= limit.capacity as real - 1.0
  {
    RateFacts(limit);
    var r, w := limit.Rate(), limit.window as real;
    hide Limit.Rate;
    EarnedIsMonotone(r, 1.0, w);
    assert Earned(r, 0.001) == 0.001 * r && r <= limit.capacity as real;
  }

  lemma WholeGap(window: nat, k: nat, from: real, to: real)
    requires to - from >= k as real * window as real
    ensures (MsAt(to) - MsAt(from)) as real / 1000.0 >= k as real * window as real
  {
    var n := k * window;
    assert n as real == k as real * window as real;
    assert (from + n as real) * 1000.0 == from * 1000.0 + (1000 * n) as real;
    assert MsAt(from + n as real) == MsAt(from) + 1000 * n;
    MsIsMonotone(from + n as real, to);
  }

  lemma SpacedFitOnTheClock(limit: Limit, ms: seq<real>, reals: seq<real>, now: real)
    requires limit.Valid() && Spaced(reals + [now], Gap(limit)) && OnTheClock(ms, reals)
    ensures FitsEveryWindow(Redis.PerMs(limit), ms, MsAt(now) as real)
  {
    hide Limit.Rate, Gap, Earned, MsAt;
    forall i | 0 <= i < |ms|
      ensures (|ms| - i + 1) as real <= Quota(Redis.PerMs(limit), MsAt(now) as real - ms[i])
    {
      var span := MsAt(now) as real - ms[i];
      GapsAddUp(reals + [now], Gap(limit), i, |ms|);
      TruncatedGapsEarn(limit, |ms| - i, reals[i], now, span);
      Redis.SameTick(limit, span);
    }
  }

  // ---------------------------------------------------------------- whole runs

  /** In every run in which the requests for an identity are at least W / C seconds apart, each of them passes,
      whichever bucket it meets, unless it is refused at the cap. */
  lemma SpacedRequestsPass(limits: string -> Limit, cap: nat, run: seq<Request>, r: Request)
    requires Local.AllValid(limits) && RateLimiter.InOrder(run + [r]) && Redis.Faithful(limits, Evals(run + [r]))
    requires !r.route.OtherProcess? && Spaced(RequestTimes(run + [r], r.key), Gap(limits(r.key)))
    ensures Outcome(limits, cap, run, r) == Pass <==>
            r.route.Answered? || !Local.Capped(limits, cap, LocalCalls(run), Local.Call(r.key, r.now))
  {
    var limit, times := limits(r.key), RequestTimes(run, r.key);
    var gap := Gap(limit);
    assert gap >= 0.0;
    hide Gap, Limit.Rate, Outcome, Spaced, SpacedUpTo, FitsEveryWindow, OnTheClock, RequestTimes, Local.AllowedTimes,
         Redis.AllowedTimes, LocalCalls, Evals, RateLimiter.InOrder, Redis.Faithful, Local.Capped, MsAt;
    RequestTimesSnoc(run, r, r.key);
    SpacedPrefix(times, gap, times + [r.now], r.now);
    PassesExactly(limits, cap, run, r);
    if r.route.Answered? {
      var reals := SharedAreSpaced(limits, run, r.key, gap);
      SpacedSnoc(reals, gap, times, r.now, reals);
      SpacedFitOnTheClock(limit, Redis.AllowedTimes(limits, Evals(run), r.key), reals, r.now);
    } else {
      var passed := Local.AllowedTimes(limits, cap, LocalCalls(run), r.key);
      OwnAreSpaced(limits, cap, run, r.key, gap);
      SpacedSnoc(passed, gap, times, r.now, passed);
      SpacedFit(limit, passed, r.now);
    }
  }
}
