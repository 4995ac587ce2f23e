/** A token bucket on a clock that ticks once per earned token. Measuring time in
    ticks keeps every fact here linear; TokenBucket below puts it back in seconds. */
module TickBucket {
  import opened Options

  datatype Level = Level(tokens: real, updatedAt: real)

  function MaxReal(a: real, b: real): real {
    if a < b then b else a
  }

  function MinReal(a: real, b: real): real {
    if a < b then a else b
  }

  /** The level just before a call at `now` is judged. */
  function Refilled(capacity: real, level: Option<Level>, now: real): real {
    match level
    case None => capacity
    case Some(Level(tokens, at)) => MinReal(capacity, tokens + MaxReal(0.0, now - at))
  }

  function Spend(tokens: real): real {
    if tokens >= 1.0 then tokens - 1.0 else tokens
  }

  /** The level after calls at the given ticks, oldest first. */
  function LevelAfter(capacity: real, ticks: seq<real>): Option<Level> {
    if ticks == [] then None
    else
      var now := ticks[|ticks| - 1];
      Some(Level(Spend(Refilled(capacity, LevelAfter(capacity, ticks[..|ticks| - 1]), now)), now))
  }

  /** The tokens a call at `now` finds after earlier calls. */
  function TokensAt(capacity: real, ticks: seq<real>, now: real): real {
    Refilled(capacity, LevelAfter(capacity, ticks), now)
  }

  /** The ticks of the calls that were let through. */
  function Admitted(capacity: real, ticks: seq<real>): seq<real> {
    if ticks == [] then []
    else
      var before, now := ticks[..|ticks| - 1], ticks[|ticks| - 1];
      if TokensAt(capacity, before, now) >= 1.0
      then Admitted(capacity, before) + [now]
      else Admitted(capacity, before)
  }

  ghost predicate Ordered(ticks: seq<real>) {
    forall i, j | 0 <= i < j < |ticks| :: ticks[i] <= ticks[j]
  }

  /** How many of `ticks` fall in the closed interval [from, to]. */
  function CountIn(ticks: seq<real>, from: real, to: real): nat {
    if ticks == [] then 0
    else
      var last := ticks[|ticks| - 1];
      CountIn(ticks[..|ticks| - 1], from, to) + if from <= last <= to then 1 else 0
  }

  /** Letting one more call through at `now` would keep every interval that ends at
      `now` within `capacity` calls plus one per tick. No level is mentioned: this is
      read off the admitted calls alone. */
  ghost predicate FitsEveryInterval(capacity: real, admitted: seq<real>, now: real) {
    forall i | 0 <= i < |admitted| :: (|admitted| - i + 1) as real <= capacity + now - admitted[i]
  }

  // ---------------------------------------------------------------- the level, in closed form

  /** What the interval from admitted call `i` to `now` leaves over. */
  function Slack(capacity: real, admitted: seq<real>, i: nat, now: real): real
    requires i < |admitted|
  {
    capacity + now - admitted[i] - (|admitted| - i) as real
  }

  /** The level is the smallest slack, capped by the capacity. */
  ghost predicate IsLeastSlack(capacity: real, admitted: seq<real>, tokens: real, now: real) {
    && tokens <= capacity
    && (forall i | 0 <= i < |admitted| :: tokens <= Slack(capacity, admitted, i, now))
    && (tokens == capacity || exists i :: 0 <= i < |admitted| && tokens == Slack(capacity, admitted, i, now))
  }

  lemma SpendKeepsLeastSlack(capacity: real, admitted: seq<real>, tokens: real, now: real)
    requires tokens >= 1.0
    requires IsLeastSlack(capacity, admitted, tokens, now)
    ensures IsLeastSlack(capacity, admitted + [now], tokens - 1.0, now)
  {
    var more := admitted + [now];
    assert forall i | 0 <= i < |admitted| :: Slack(capacity, more, i, now) == Slack(capacity, admitted, i, now) - 1.0;
    assert Slack(capacity, more, |admitted|, now) == capacity - 1.0;
  }

  lemma RefillKeepsLeastSlack(capacity: real, admitted: seq<real>, level: Level, now: real)
    requires level.updatedAt <= now
    requires IsLeastSlack(capacity, admitted, level.tokens, level.updatedAt)
    ensures IsLeastSlack(capacity, admitted, Refilled(capacity, Some(level), now), now)
  {
    assert forall i | 0 <= i < |admitted| ::
        Slack(capacity, admitted, i, now) == Slack(capacity, admitted, i, level.updatedAt) + (now - level.updatedAt);
  }

  /** The level a call finds is never negative and is exactly the least slack. */
  lemma {:induction false} TokensAreLeastSlack(capacity: real, ticks: seq<real>, now: real)
    requires capacity >= 1.0 && Ordered(ticks + [now])
    ensures TokensAt(capacity, ticks, now) >= 0.0
    ensures IsLeastSlack(capacity, Admitted(capacity, ticks), TokensAt(capacity, ticks, now), now)
    decreases |ticks|
  {
    if ticks != [] {
      var before, last := ticks[..|ticks| - 1], ticks[|ticks| - 1];
      assert before + [last] == ticks == (ticks + [now])[..|ticks|];
      assert (ticks + [now])[|ticks| - 1] == last && (ticks + [now])[|ticks|] == now;
      TokensAreLeastSlack(capacity, before, last);
      var tokens := TokensAt(capacity, before, last);
      if tokens >= 1.0 {
        SpendKeepsLeastSlack(capacity, Admitted(capacity, before), tokens, last);
      }
      RefillKeepsLeastSlack(capacity, Admitted(capacity, ticks), Level(Spend(tokens), last), now);
    }
  }

  // ---------------------------------------------------------------- what the bucket promises

  /** A call finds a token exactly when letting it through overfills no interval. */
  lemma AdmitsExactly(capacity: real, ticks: seq<real>, now: real)
    requires capacity >= 1.0 && Ordered(ticks + [now])
    ensures TokensAt(capacity, ticks, now) >= 1.0 <==> FitsEveryInterval(capacity, Admitted(capacity, ticks), now)
  {
    var admitted := Admitted(capacity, ticks);
    TokensAreLeastSlack(capacity, ticks, now);
    assert forall i | 0 <= i < |admitted| :: Slack(capacity, admitted, i, now) >= 1.0 <==>
        (|admitted| - i + 1) as real <= capacity + now - admitted[i];
  }

  /** Admitted calls are in order and none is later than the last call. */
  lemma {:induction false} AdmittedAreOrdered(capacity: real, ticks: seq<real>)
    requires Ordered(ticks)
    ensures Ordered(Admitted(capacity, ticks))
    ensures forall i | 0 <= i < |Admitted(capacity, ticks)| ::
              ticks != [] && Admitted(capacity, ticks)[i] <= ticks[|ticks| - 1]
  {
    if ticks != [] {
      AdmittedAreOrdered(capacity, ticks[..|ticks| - 1]);
    }
  }

  /** The calls in an interval that reaches past the last of them are a suffix. */
  lemma {:induction false} CountIsASuffix(ticks: seq<real>, from: real, to: real)
    requires Ordered(ticks)
    requires forall i | 0 <= i < |ticks| :: ticks[i] <= to
    ensures CountIn(ticks, from, to) <= |ticks|
    ensures CountIn(ticks, from, to) > 0 ==> ticks[|ticks| - CountIn(ticks, from, to)] >= from
  {
    if ticks != [] {
      CountIsASuffix(ticks[..|ticks| - 1], from, to);
    }
  }

  lemma CountSnoc(ticks: seq<real>, t: real, from: real, to: real)
    ensures CountIn(ticks + [t], from, to) == CountIn(ticks, from, to) + if from <= t <= to then 1 else 0
  {
    assert (ticks + [t])[..|ticks|] == ticks;
  }

  /** In every run the calls admitted in an interval number at most the capacity plus its length. */
  lemma {:induction false} QuotaHolds(capacity: real, ticks: seq<real>, from: real, to: real)
    requires capacity >= 1.0 && Ordered(ticks) && from <= to
    ensures CountIn(Admitted(capacity, ticks), from, to) as real <= capacity + to - from
  {
    if ticks != [] {
      var before, now := ticks[..|ticks| - 1], ticks[|ticks| - 1];
      assert before + [now] == ticks;
      var admitted := Admitted(capacity, before);
      QuotaHolds(capacity, before, from, to);
      CountSnoc(admitted, now, from, to);
      AdmittedAreOrdered(capacity, before);
      AdmitsExactly(capacity, before, now);
      if now <= to {
        CountIsASuffix(admitted, from, to);
      }
    }
  }

  /** Calls at least one tick apart all find a token. */
  lemma {:induction false} SpacedCallsPass(capacity: real, ticks: seq<real>)
    requires capacity >= 1.0
    requires forall i | 0 < i < |ticks| :: ticks[i] - ticks[i - 1] >= 1.0
    ensures Admitted(capacity, ticks) == ticks
    ensures ticks != [] ==> LevelAfter(capacity, ticks).value.tokens >= 0.0
  {
    if ticks != [] {
      SpacedCallsPass(capacity, ticks[..|ticks| - 1]);
    }
  }
}

/** The token bucket that both the Redis script and the process-local fallback are
    meant to be: one bucket per key, never evicted, refilled continuously. Time is
    in seconds and tokens are real numbers. */
module TokenBucket {
  import opened TickBucket
  import opened Options

  /** A rate limit as routes declare it: `capacity` requests per `window` seconds. */
  datatype Limit = Limit(capacity: nat, window: nat) {
    predicate Valid() {
      capacity >= 1 && window >= 1
    }

    /** Tokens earned per second. */
    function Rate(): real
      requires Valid()
    {
      capacity as real / window as real
    }
  }

  /** Tokens earned in `span` seconds. */
  function Earned(rate: real, span: real): real {
    span * rate
  }

  datatype Verdict = Verdict(allowed: bool, retryAfter: nat)

  function Max(a: int, b: int): int {
    if a < b then b else a
  }

  /** The least integer that is at least `x`. */
  function Ceil(x: real): (n: int)
    ensures x <= n as real < x + 1.0
  {
    -((-x).Floor)
  }

  /** The level just before a call at `now` is judged. */
  function Topped(limit: Limit, level: Option<Level>, now: real): real
    requires limit.Valid()
  {
    match level
    case None => limit.capacity as real
    case Some(Level(tokens, at)) =>
      MinReal(limit.capacity as real, tokens + Earned(limit.Rate(), MaxReal(0.0, now - at)))
  }

  /** Whole seconds a denied caller is told to wait when `tokens` are left. */
  function WaitFor(limit: Limit, tokens: real): nat
    requires limit.Valid()
  {
    Max(1, Ceil((1.0 - tokens) / limit.Rate()))
  }

  function Judge(limit: Limit, tokens: real): Verdict
    requires limit.Valid()
  {
    if tokens >= 1.0 then Verdict(true, 0) else Verdict(false, WaitFor(limit, tokens))
  }

  /** The level after calls at the given times, oldest first. */
  function LevelAt(limit: Limit, times: seq<real>): Option<Level>
    requires limit.Valid()
  {
    if times == [] then None
    else
      var now := times[|times| - 1];
      Some(Level(Spend(Topped(limit, LevelAt(limit, times[..|times| - 1]), now)), now))
  }

  /** What a call at `now` is told after earlier calls at `times`. */
  function VerdictAt(limit: Limit, times: seq<real>, now: real): Verdict
    requires limit.Valid()
  {
    Judge(limit, Topped(limit, LevelAt(limit, times), now))
  }

  /** The times of the calls that were let through. */
  function Passed(limit: Limit, times: seq<real>): seq<real>
    requires limit.Valid()
  {
    if times == [] then []
    else
      var before, now := times[..|times| - 1], times[|times| - 1];
      if VerdictAt(limit, before, now).allowed then Passed(limit, before) + [now] else Passed(limit, before)
  }

  /** The most calls a limit permits within a span of seconds: C + span * C / W. */
  function Quota(limit: Limit, span: real): real
    requires limit.Valid()
  {
    limit.capacity as real + Earned(limit.Rate(), span)
  }

  // ---------------------------------------------------------------- seconds and ticks

  /** Times counted in earned tokens instead of seconds. */
  function Ticks(rate: real, times: seq<real>): (ticks: seq<real>)
    ensures |ticks| == |times|
  {
    if times == [] then [] else Ticks(rate, times[..|times| - 1]) + [Earned(rate, times[|times| - 1])]
  }

  lemma RateFacts(limit: Limit)
    requires limit.Valid()
    ensures limit.Rate() > 0.0 && Earned(limit.Rate(), limit.window as real) == limit.capacity as real
  {
  }

  lemma EarnedIsMonotone(rate: real, a: real, b: real)
    requires rate > 0.0
    ensures a <= b <==> Earned(rate, a) <= Earned(rate, b)
    ensures Earned(rate, b - a) == Earned(rate, b) - Earned(rate, a)
  {
    if a <= b {
      assert (b - a) * rate >= 0.0;
    } else {
      assert (a - b) * rate > 0.0;
    }
  }

  lemma TicksSnoc(rate: real, times: seq<real>, t: real)
    ensures Ticks(rate, times + [t]) == Ticks(rate, times) + [Earned(rate, t)]
  {
    assert (times + [t])[..|times|] == times;
  }

  lemma {:induction false} TicksAt(rate: real, times: seq<real>, i: nat)
    requires i < |times|
    ensures Ticks(rate, times)[i] == Earned(rate, times[i])
  {
    if i < |times| - 1 {
      TicksAt(rate, times[..|times| - 1], i);
    }
  }

  lemma TicksOrdered(rate: real, times: seq<real>)
    requires rate > 0.0 && Ordered(times)
    ensures Ordered(Ticks(rate, times))
  {
    forall i, j | 0 <= i < j < |times|
      ensures Ticks(rate, times)[i] <= Ticks(rate, times)[j]
    {
      TicksAt(rate, times, i);
      TicksAt(rate, times, j);
      EarnedIsMonotone(rate, times[i], times[j]);
    }
  }

  lemma {:induction false} CountInTicks(rate: real, times: seq<real>, from: real, to: real)
    requires rate > 0.0
    ensures CountIn(Ticks(rate, times), Earned(rate, from), Earned(rate, to)) == CountIn(times, from, to)
  {
    if times != [] {
      CountInTicks(rate, times[..|times| - 1], from, to);
      EarnedIsMonotone(rate, from, times[|times| - 1]);
      EarnedIsMonotone(rate, times[|times| - 1], to);
    }
  }

  function LevelTicks(rate: real, level: Option<Level>): Option<Level> {
    if level.None? then None else Some(Level(level.value.tokens, Earned(rate, level.value.updatedAt)))
  }

  lemma ToppedInTicks(limit: Limit, level: Option<Level>, now: real)
    requires limit.Valid()
    ensures Topped(limit, level, now) ==
            Refilled(limit.capacity as real, LevelTicks(limit.Rate(), level), Earned(limit.Rate(), now))
  {
    RateFacts(limit);
    hide Limit.Rate;
    if level.Some? {
      EarnedIsMonotone(limit.Rate(), level.value.updatedAt, now);
      assert Earned(limit.Rate(), 0.0) == 0.0;
    }
  }

  /** On the tick clock the bucket is the unit-rate bucket. */
  lemma {:induction false} LevelInTicks(limit: Limit, times: seq<real>)
    requires limit.Valid()
    ensures LevelTicks(limit.Rate(), LevelAt(limit, times)) ==
            LevelAfter(limit.capacity as real, Ticks(limit.Rate(), times))
  {
    hide Earned, Limit.Rate, Topped, Refilled;
    if times != [] {
      var before, last := times[..|times| - 1], times[|times| - 1];
      LevelInTicks(limit, before);
      ToppedInTicks(limit, LevelAt(limit, before), last);
      assert Ticks(limit.Rate(), times)[..|times| - 1] == Ticks(limit.Rate(), before);
    }
  }

  /** A call finds the same tokens and is let through alike on either clock. */
  lemma {:induction false} InTicks(limit: Limit, times: seq<real>, now: real)
    requires limit.Valid()
    ensures var r := limit.Rate();
            && Topped(limit, LevelAt(limit, times), now) ==
               TokensAt(limit.capacity as real, Ticks(r, times), Earned(r, now))
            && Ticks(r, Passed(limit, times)) == Admitted(limit.capacity as real, Ticks(r, times))
    decreases |times|
  {
    hide Earned, Limit.Rate, Topped, Refilled, LevelAt, LevelAfter, LevelTicks;
    var r := limit.Rate();
    LevelInTicks(limit, times);
    ToppedInTicks(limit, LevelAt(limit, times), now);
    if times != [] {
      var before, last := times[..|times| - 1], times[|times| - 1];
      InTicks(limit, before, last);
      TicksSnoc(r, Passed(limit, before), last);
      assert Ticks(r, times)[..|times| - 1] == Ticks(r, before);
    }
  }

  // ---------------------------------------------------------------- what a limit promises

  /** Letting one more call through at `now` keeps every interval within its quota. */
  ghost predicate FitsEveryWindow(limit: Limit, passed: seq<real>, now: real)
    requires limit.Valid()
  {
    forall i | 0 <= i < |passed| :: (|passed| - i + 1) as real <= Quota(limit, now - passed[i])
  }

  lemma QuotaInTicks(limit: Limit, passed: seq<real>, i: nat, now: real)
    requires limit.Valid() && i < |passed|
    ensures Quota(limit, now - passed[i]) ==
            limit.capacity as real + Earned(limit.Rate(), now) - Ticks(limit.Rate(), passed)[i]
  {
    RateFacts(limit);
    EarnedIsMonotone(limit.Rate(), passed[i], now);
    TicksAt(limit.Rate(), passed, i);
  }

  lemma FitsInTicks(limit: Limit, passed: seq<real>, now: real)
    requires limit.Valid()
    ensures FitsEveryWindow(limit, passed, now) <==>
            FitsEveryInterval(limit.capacity as real, Ticks(limit.Rate(), passed), Earned(limit.Rate(), now))
  {
    hide Quota, Earned, Limit.Rate, Ticks;
    forall i | 0 <= i < |passed|
      ensures Quota(limit, now - passed[i]) ==
              limit.capacity as real + Earned(limit.Rate(), now) - Ticks(limit.Rate(), passed)[i]
    {
      QuotaInTicks(limit, passed, i, now);
    }
  }

  /** A call is let through exactly when that exceeds the quota of no interval:
      the bucket never admits too much and never refuses without need. */
  lemma AdmitsExactlyTheQuota(limit: Limit, times: seq<real>, now: real)
    requires limit.Valid() && Ordered(times + [now])
    ensures VerdictAt(limit, times, now).allowed <==> FitsEveryWindow(limit, Passed(limit, times), now)
  {
    RateFacts(limit);
    hide Earned, Limit.Rate, Ticks, FitsEveryWindow, FitsEveryInterval, Topped, LevelAt, Passed, Admitted;
    var r := limit.Rate();
    InTicks(limit, times, now);
    TicksSnoc(r, times, now);
    TicksOrdered(r, times + [now]);
    AdmitsExactly(limit.capacity as real, Ticks(r, times), Earned(r, now));
    FitsInTicks(limit, Passed(limit, times), now);
  }

  /** The calls let through in any interval number at most its quota. */
  lemma PassedWithinQuota(limit: Limit, times: seq<real>, from: real, to: real)
    requires limit.Valid() && Ordered(times) && from <= to
    ensures CountIn(Passed(limit, times), from, to) as real <= Quota(limit, to - from)
  {
    hide Limit.Rate;
    RateFacts(limit);
    var r := limit.Rate();
    InTicks(limit, times, from);
    TicksOrdered(r, times);
    CountInTicks(r, Passed(limit, times), from, to);
    EarnedIsMonotone(r, from, to);
    QuotaHolds(limit.capacity as real, Ticks(r, times), Earned(r, from), Earned(r, to));
  }

  // ---------------------------------------------------------------- Retry-After

  /** Every one of `polls`, made after the calls at `times`, is refused. */
  ghost predicate AllRefused(limit: Limit, times: seq<real>, polls: seq<real>)
    requires limit.Valid()
    decreases |polls|
  {
    polls != [] ==> !VerdictAt(limit, times, polls[0]).allowed && AllRefused(limit, times + [polls[0]], polls[1..])
  }

  /** Retry-After is the least positive number of whole seconds that earns the missing part of a token, and at most
      the window. */
  lemma WaitIsExact(limit: Limit, tokens: real)
    requires limit.Valid() && 0.0 <= tokens < 1.0
    ensures var n, r := WaitFor(limit, tokens), limit.Rate();
            && 1 <= n <= limit.window
            && tokens + Earned(r, n as real) >= 1.0
            && tokens + Earned(r, (n - 1) as real) < 1.0
  {
    RateFacts(limit);
    var r := limit.Rate();
    var x := (1.0 - tokens) / r;
    assert Earned(r, x) == 1.0 - tokens;
    var n := Ceil(x);
    assert Earned(r, 0.0) == 0.0;
    EarnedIsMonotone(r, x, 0.0);
    EarnedIsMonotone(r, x, n as real);
    EarnedIsMonotone(r, x, (n - 1) as real);
    EarnedIsMonotone(r, x, limit.window as real);
  }

  lemma WaitingAddsUp(limit: Limit, level: Level, poll: real, later: real)
    requires limit.Valid() && level.updatedAt <= poll <= later
    ensures Topped(limit, Some(Level(Topped(limit, Some(level), poll), poll)), later) ==
            Topped(limit, Some(level), later)
  {
    RateFacts(limit);
    hide Limit.Rate;
    var r := limit.Rate();
    assert Earned(r, later - level.updatedAt) == Earned(r, poll - level.updatedAt) + Earned(r, later - poll);
    assert Earned(r, 0.0) == 0.0;
    EarnedIsMonotone(r, 0.0, later - poll);
  }

  lemma OnePollIsFree(limit: Limit, times: seq<real>, poll: real, later: real)
    requires limit.Valid() && times != [] && times[|times| - 1] <= poll <= later
    requires !VerdictAt(limit, times, poll).allowed
    ensures Topped(limit, LevelAt(limit, times + [poll]), later) == Topped(limit, LevelAt(limit, times), later)
    ensures Passed(limit, times + [poll]) == Passed(limit, times)
  {
    hide Earned, Limit.Rate, Topped, WaitFor;
    assert (times + [poll])[..|times|] == times;
    WaitingAddsUp(limit, LevelAt(limit, times).value, poll, later);
  }

  /** Refused calls only let time pass: the level is what it would have been without them. */
  lemma {:induction false} PollingIsFree(limit: Limit, times: seq<real>, polls: seq<real>, later: real)
    requires limit.Valid() && times != [] && AllRefused(limit, times, polls)
    requires Ordered([times[|times| - 1]] + polls + [later])
    ensures Topped(limit, LevelAt(limit, times + polls), later) == Topped(limit, LevelAt(limit, times), later)
    ensures Passed(limit, times + polls) == Passed(limit, times)
    decreases |polls|
  {
    if polls == [] {
      assert times + polls == times;
    } else {
      var all := [times[|times| - 1]] + polls + [later];
      assert all[0] == times[|times| - 1] && all[1] == polls[0] && all[|polls| + 1] == later;
      OnePollIsFree(limit, times, polls[0], later);
      assert all[1..] == [polls[0]] + polls[1..] + [later];
      PollingIsFree(limit, times + [polls[0]], polls[1..], later);
      assert times + [polls[0]] + polls[1..] == times + polls;
    }
  }

  /** A caller denied at `t` and told `n`, who polls in vain any number of times, is let through at `t + n`. */
  lemma AdmittedWhenTold(limit: Limit, times: seq<real>, t: real, polls: seq<real>, n: nat, later: real)
    requires limit.Valid() && Ordered(times + [t]) && Ordered([t] + polls + [later])
    requires VerdictAt(limit, times, t) == Verdict(false, n) && later == t + n as real
    requires AllRefused(limit, times + [t], polls)
    ensures VerdictAt(limit, times + [t] + polls, later).allowed
  {
    TokensAreNonnegative(limit, times, t);
    WaitIsExact(limit, Topped(limit, LevelAt(limit, times), t));
    TokensAfterPolling(limit, times, t, polls, later);
  }

  /** One second earlier it would still have been refused. */
  lemma RefusedASecondEarlier(limit: Limit, times: seq<real>, t: real, polls: seq<real>, n: nat, later: real)
    requires limit.Valid() && Ordered(times + [t]) && Ordered([t] + polls + [later])
    requires VerdictAt(limit, times, t) == Verdict(false, n) && later == t + (n - 1) as real
    requires AllRefused(limit, times + [t], polls)
    ensures !VerdictAt(limit, times + [t] + polls, later).allowed
  {
    TokensAreNonnegative(limit, times, t);
    WaitIsExact(limit, Topped(limit, LevelAt(limit, times), t));
    TokensAfterPolling(limit, times, t, polls, later);
  }

  /** Nobody is told to wait for nothing, or longer than the window. */
  lemma WaitIsWithinTheWindow(limit: Limit, times: seq<real>, t: real)
    requires limit.Valid() && Ordered(times + [t]) && !VerdictAt(limit, times, t).allowed
    ensures 1 <= VerdictAt(limit, times, t).retryAfter <= limit.window
  {
    TokensAreNonnegative(limit, times, t);
    WaitIsExact(limit, Topped(limit, LevelAt(limit, times), t));
  }

  lemma TokensAfterPolling(limit: Limit, times: seq<real>, t: real, polls: seq<real>, later: real)
    requires limit.Valid() && t <= later && Ordered([t] + polls + [later])
    requires !VerdictAt(limit, times, t).allowed
    requires AllRefused(limit, times + [t], polls)
    ensures Topped(limit, LevelAt(limit, times + [t] + polls), later) ==
            MinReal(limit.capacity as real, Topped(limit, LevelAt(limit, times), t) + Earned(limit.Rate(), later - t))
  {
    PollingIsFree(limit, times + [t], polls, later);
    assert (times + [t])[..|times|] == times;
  }

  lemma TokensAreNonnegative(limit: Limit, times: seq<real>, now: real)
    requires limit.Valid() && Ordered(times + [now])
    ensures Topped(limit, LevelAt(limit, times), now) >= 0.0
  {
    RateFacts(limit);
    var r := limit.Rate();
    TicksOrdered(r, times + [now]);
    TicksSnoc(r, times, now);
    TokensAreLeastSlack(limit.capacity as real, Ticks(r, times), Earned(r, now));
    InTicks(limit, times, now);
  }

  /** A client whose calls are at least `window / capacity` seconds apart is never refused. */
  lemma SpacedClientsPass(limit: Limit, times: seq<real>)
    requires limit.Valid()
    requires forall i | 0 < i < |times| :: times[i] - times[i - 1] >= limit.window as real / limit.capacity as real
    ensures Passed(limit, times) == times
  {
    RateFacts(limit);
    var r, gap := limit.Rate(), limit.window as real / limit.capacity as real;
    assert Earned(r, gap) == 1.0;
    forall i | 0 < i < |times|
      ensures Ticks(r, times)[i] - Ticks(r, times)[i - 1] >= 1.0
    {
      TicksAt(r, times, i);
      TicksAt(r, times, i - 1);
      EarnedIsMonotone(r, times[i - 1], times[i]);
      EarnedIsMonotone(r, gap, times[i] - times[i - 1]);
    }
    SpacedCallsPass(limit.capacity as real, Ticks(r, times));
    InTicks(limit, times, 0.0);
    TicksCancel(r, Passed(limit, times), times);
  }

  lemma TicksCancel(rate: real, a: seq<real>, b: seq<real>)
    requires rate > 0.0 && Ticks(rate, a) == Ticks(rate, b)
    ensures a == b
  {
    assert |a| == |Ticks(rate, a)| == |b|;
    forall i | 0 <= i < |a|
      ensures a[i] == b[i]
    {
      TicksAt(rate, a, i);
      TicksAt(rate, b, i);
      EarnedIsMonotone(rate, a[i], b[i]);
      EarnedIsMonotone(rate, b[i], a[i]);
    }
  }
}
