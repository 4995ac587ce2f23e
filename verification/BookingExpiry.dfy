/** expire_booking_holds(): workers that select expired holds with FOR UPDATE SKIP LOCKED
    and mark them, each in a transaction of its own. */
module BookingExpiry {
  import opened Options

  datatype Status =
    | Draft | Requested | PendingReview | AddressValidated | CoverageConfirmed | AvailabilityFound
    | CapacityHeld | AwaitingAssignment | ProviderAssigned | PendingManualDispatch | TentativeHold
    | PendingPayment | PendingProviderConfirmation | Confirmed | EnRoute | InProgress | Completed
    | NoCoverage | NoCapacity | QuoteRequired | ProviderDeclined | ReassignmentRequired | Rescheduled
    | Cancelled | Expired

  const EXPIRING_BOOKING_STATUSES: set<Status> := {TentativeHold, PendingProviderConfirmation, PendingPayment}

  datatype Booking = Booking(status: Status, expiresAt: Option<real>)

  /** The WHERE clause; a missing expiry time is never at or before `now`. */
  predicate Expirable(b: Booking, now: real) {
    b.status in EXPIRING_BOOKING_STATUSES && b.expiresAt.Some? && b.expiresAt.value <= now
  }

  /** An open transaction: the time it was started with and the rows it selected and locked. */
  datatype Session = Session(now: real, rows: set<nat>)

  datatype Table = Table(bookings: map<nat, Booking>, locks: map<nat, nat>, sessions: map<nat, Session>)

  /** The rows a worker can get: expirable and not locked by another worker. */
  function Selected(t: Table, now: real): set<nat> {
    set id | id in t.bookings && Expirable(t.bookings[id], now) && id !in t.locks
  }

  /** The worker selects and locks these rows, except those that a transaction which is no worker holds. */
  function Begin(t: Table, worker: nat, now: real, held: set<nat>): Table {
    var rows := Selected(t, now) - held;
    Table(t.bookings, t.locks + (map id | id in rows :: worker), t.sessions[worker := Session(now, rows)])
  }

  function Marked(bookings: map<nat, Booking>, rows: set<nat>): map<nat, Booking> {
    map id | id in bookings :: if id in rows then bookings[id].(status := Expired) else bookings[id]
  }

  /** Ends the worker's transaction; only a commit keeps what it marked. */
  function End(t: Table, worker: nat, commit: bool): Table
    requires worker in t.sessions
  {
    var rows := t.sessions[worker].rows;
    Table(if commit then Marked(t.bookings, rows) else t.bookings, t.locks - rows, t.sessions - {worker})
  }

  // ---------------------------------------------------------------- the same, in place

  class BookingDatabase {
    var bookings: map<nat, Booking>
    var locks: map<nat, nat>
    var sessions: map<nat, Session>

    function State(): Table
      reads this
    {
      Table(bookings, locks, sessions)
    }

    constructor (bookings: map<nat, Booking>)
      ensures State() == Table(bookings, map[], map[])
    {
      this.bookings := bookings;
      locks, sessions := map[], map[];
    }

    method SelectForUpdateSkipLocked(worker: nat, now: real, held: set<nat>) returns (rows: set<nat>)
      modifies this`locks, this`sessions
      ensures rows == Selected(old(State()), now) - held && State() == Begin(old(State()), worker, now, held)
    {
      rows := set id | id in bookings && Expirable(bookings[id], now) && id !in locks && id !in held;
      assert rows == Selected(State(), now) - held;
      locks := locks + (map id | id in rows :: worker);
      sessions := sessions[worker := Session(now, rows)];
    }

    /** The loop over the rows, then the commit. */
    method MarkAndCommit(worker: nat) returns (count: nat)
      requires worker in sessions && sessions[worker].rows <= bookings.Keys
      modifies this
      ensures State() == End(old(State()), worker, true)
      ensures count == |old(sessions)[worker].rows|
    {
      var rows := sessions[worker].rows;
      var todo := rows;
      while todo != {}
        invariant todo <= rows <= bookings.Keys && bookings == Marked(old(bookings), rows - todo)
        invariant locks == old(locks) && sessions == old(sessions)
        decreases |todo|
      {
        var id :| id in todo;
        bookings := bookings[id := bookings[id].(status := Expired)];
        todo := todo - {id};
      }
      assert rows - {} == rows;
      locks := locks - rows;
      sessions := sessions - {worker};
      count := |rows|;
    }

    /** expire_booking_holds(), undisturbed from select to commit. */
    method ExpireBookingHolds(worker: nat, now: real, held: set<nat>) returns (count: nat)
      requires worker !in sessions
      modifies this
      ensures State() == End(Begin(old(State()), worker, now, held), worker, true)
      ensures count == |Selected(old(State()), now) - held|
      ensures forall id | id in old(bookings) ::
                && id in bookings
                && (id in Selected(old(State()), now) - held <==>
                      && old(bookings)[id].status in {TentativeHold, PendingProviderConfirmation, PendingPayment}
                      && old(bookings)[id].expiresAt.Some? && old(bookings)[id].expiresAt.value <= now
                      && id !in old(locks) && id !in held)
                && bookings[id] == if id in Selected(old(State()), now) - held
                   then old(bookings)[id].(status := Expired)
                                   else old(bookings)[id]
    {
      var rows := SelectForUpdateSkipLocked(worker, now, held);
      count := MarkAndCommit(worker);
    }

    /** The session is closed without a commit. */
    method Rollback(worker: nat)
      requires worker in sessions
      modifies this`locks, this`sessions
      ensures State() == End(old(State()), worker, false)
    {
      locks := locks - sessions[worker].rows;
      sessions := sessions - {worker};
    }
  }

  // ---------------------------------------------------------------- interleavings

  /** A step of some worker, or a change another transaction makes to a row it can lock. */
  datatype Action =
    | Select(worker: nat, now: real, held: set<nat>)
    | Commit(worker: nat)
    | Abort(worker: nat)
    | Touch(id: nat, booking: Booking)

  /** A step that is not possible leaves the table alone. */
  function Next(t: Table, a: Action): Table {
    match a
    case Select(worker, now, held) => if worker in t.sessions then t else Begin(t, worker, now, held)
    case Commit(worker) => if worker in t.sessions then End(t, worker, true) else t
    case Abort(worker) => if worker in t.sessions then End(t, worker, false) else t
    case Touch(id, booking) => if id in t.locks then t else t.(bookings := t.bookings[id := booking])
  }

  function After(bookings: map<nat, Booking>, run: seq<Action>): Table {
    if run == [] then Table(bookings, map[], map[])
    else Next(After(bookings, run[..|run| - 1]), run[|run| - 1])
  }

  /** The bookings a step moves to EXPIRED as a worker, which is what that worker returns the number of. */
  function ExpiredBy(t: Table, a: Action): set<nat> {
    if a.Commit? && a.worker in t.sessions then t.sessions[a.worker].rows else {}
  }

  /** The sum of all counts that workers returned. */
  function Returned(bookings: map<nat, Booking>, run: seq<Action>): nat {
    if run == [] then 0
    else
      var before := run[..|run| - 1];
      Returned(bookings, before) + |ExpiredBy(After(bookings, before), run[|run| - 1])|
  }

  /** Every locked row belongs to the one session that selected it, and still meets its WHERE clause. */
  ghost predicate Sound(t: Table) {
    && (forall w, id | w in t.sessions && id in t.sessions[w].rows ::
          && id in t.locks && t.locks[id] == w
          && id in t.bookings && Expirable(t.bookings[id], t.sessions[w].now))
    && (forall id | id in t.locks :: t.locks[id] in t.sessions && id in t.sessions[t.locks[id]].rows)
  }

  lemma {:induction false} EveryTableIsSound(bookings: map<nat, Booking>, run: seq<Action>)
    ensures Sound(After(bookings, run))
  {
    if run != [] {
      EveryTableIsSound(bookings, run[..|run| - 1]);
      StepKeepsSound(After(bookings, run[..|run| - 1]), run[|run| - 1]);
    }
  }

  lemma StepKeepsSound(t: Table, a: Action)
    requires Sound(t)
    ensures Sound(Next(t, a))
  {
    match a
    case Select(worker, now, held) =>
      if worker !in t.sessions {
        BeginKeepsSound(t, worker, now, held);
      }
    case Commit(worker) =>
      if worker in t.sessions {
        EndKeepsSound(t, worker, true);
      }
    case Abort(worker) =>
      if worker in t.sessions {
        EndKeepsSound(t, worker, false);
      }
    case Touch(id, booking) =>
  }

  lemma BeginKeepsSound(t: Table, worker: nat, now: real, held: set<nat>)
    requires Sound(t) && worker !in t.sessions
    ensures Sound(Begin(t, worker, now, held))
  {
    hide Expirable;
    var t' := Begin(t, worker, now, held);
    assert forall id | id in Selected(t, now) :: id !in t.locks && id in t.bookings && Expirable(t.bookings[id], now);
    assert forall id | id in t.locks :: t'.locks[id] == t.locks[id];
  }

  /** No two workers hold the same booking. */
  lemma SessionsAreDisjoint(t: Table, v: nat, w: nat)
    requires Sound(t) && v in t.sessions && w in t.sessions && v != w
    ensures t.sessions[v].rows !! t.sessions[w].rows
  {
    assert forall id | id in t.sessions[v].rows :: t.locks[id] == v;
    assert forall id | id in t.sessions[w].rows :: t.locks[id] == w;
  }

  lemma EndKeepsSound(t: Table, worker: nat, commit: bool)
    requires Sound(t) && worker in t.sessions
    ensures Sound(End(t, worker, commit))
  {
    hide Expirable;
    var t' := End(t, worker, commit);
    forall w, id | w in t'.sessions && id in t'.sessions[w].rows
      ensures id in t'.locks && t'.locks[id] == w && id in t'.bookings && t'.bookings[id] == t.bookings[id]
    {
      SessionsAreDisjoint(t, w, worker);
    }
  }

  /** A hold that awaits the customer, the provider or the payment, and whose time is up. */
  ghost predicate DueAt(b: Booking, now: real) {
    && (b.status == TentativeHold || b.status == PendingProviderConfirmation || b.status == PendingPayment)
    && exists expiry :: b.expiresAt == Some(expiry) && expiry <= now
  }

  /** What a step of a worker does to the bookings: a commit moves rows that were due when the worker started to
      EXPIRED and nothing else changes. */
  lemma OnlyExpirableBookingsExpire(t: Table, a: Action, id: nat)
    requires Sound(t) && id in t.bookings && !a.Touch?
    ensures id in Next(t, a).bookings
    ensures Next(t, a).bookings[id] == if id in ExpiredBy(t, a) then t.bookings[id].(status := Expired)
            else t.bookings[id]
    ensures id in ExpiredBy(t, a) ==> DueAt(t.bookings[id], t.sessions[a.worker].now)
  {
  }

  lemma AfterStep(bookings: map<nat, Booking>, run: seq<Action>, n: nat)
    requires n < |run|
    ensures After(bookings, run[..n + 1]) == Next(After(bookings, run[..n]), run[n])
  {
    assert run[..n + 1][..n] == run[..n];
  }

  lemma SelectOpens(t: Table, a: Action)
    requires a.Select? && a.worker !in t.sessions
    ensures Next(t, a).bookings == t.bookings
    ensures a.worker in Next(t, a).sessions && Next(t, a).sessions[a.worker].rows == Selected(t, a.now) - a.held
  {
  }

  /** Until the worker ends its session, it stands, and the rows it holds do not change. */
  lemma StepStands(t: Table, a: Action, worker: nat)
    requires Sound(t) && worker in t.sessions && a != Commit(worker) && a != Abort(worker)
    ensures worker in Next(t, a).sessions && Next(t, a).sessions[worker] == t.sessions[worker]
    ensures forall id | id in t.sessions[worker].rows ::
              id in t.bookings && id in Next(t, a).bookings && Next(t, a).bookings[id] == t.bookings[id]
  {
    hide Expirable;
    if (a.Commit? || a.Abort?) && a.worker in t.sessions {
      SessionsAreDisjoint(t, worker, a.worker);
    }
  }

  lemma {:induction false} SessionStands(bookings: map<nat, Booking>, run: seq<Action>, i: nat, n: nat)
    requires i < n <= |run| && run[i].Select? && run[i].worker !in After(bookings, run[..i]).sessions
    requires forall k | i < k < n :: run[k] != Commit(run[i].worker) && run[k] != Abort(run[i].worker)
    ensures var t, t', worker := After(bookings, run[..i]), After(bookings, run[..n]), run[i].worker;
            && worker in t'.sessions && t'.sessions[worker].rows == Selected(t, run[i].now) - run[i].held
            && forall id | id in t'.sessions[worker].rows ::
                 id in t.bookings && id in t'.bookings && t'.bookings[id] == t.bookings[id]
    decreases n
  {
    hide After, Next, Sound;
    AfterStep(bookings, run, n - 1);
    if n == i + 1 {
      SelectOpens(After(bookings, run[..i]), run[i]);
    } else {
      SessionStands(bookings, run, i, n - 1);
      EveryTableIsSound(bookings, run[..n - 1]);
      StepStands(After(bookings, run[..n - 1]), run[n - 1], run[i].worker);
    }
  }

  /** In every interleaving a worker that commits has expired exactly the holds that were due, and that nobody held,
      when it started; what becomes of them is a change of status only. */
  lemma CommitExpiresWhatWasDue(bookings: map<nat, Booking>, run: seq<Action>, i: nat, j: nat, id: nat)
    requires i < j < |run| && run[i].Select? && run[i].worker !in After(bookings, run[..i]).sessions
    requires forall k | i < k < j :: run[k] != Commit(run[i].worker) && run[k] != Abort(run[i].worker)
    requires run[j] == Commit(run[i].worker) && id in After(bookings, run[..i]).bookings
    ensures var t := After(bookings, run[..i]);
            DueAt(t.bookings[id], run[i].now) && id !in t.locks && id !in run[i].held ==>
              id in After(bookings, run[..j + 1]).bookings &&
              After(bookings, run[..j + 1]).bookings[id] == t.bookings[id].(status := Expired)
    ensures id in ExpiredBy(After(bookings, run[..j]), run[j]) <==>
            && DueAt(After(bookings, run[..i]).bookings[id], run[i].now)
            && id !in After(bookings, run[..i]).locks && id !in run[i].held
  {
    var t, t' := After(bookings, run[..i]), After(bookings, run[..j]);
    assert DueAt(t.bookings[id], run[i].now) && id !in t.locks <==> id in Selected(t, run[i].now);
    hide After, Next, Sound, DueAt, Selected;
    SessionStands(bookings, run, i, j);
    AfterStep(bookings, run, j);
    if id in Selected(t, run[i].now) - run[i].held {
      EveryTableIsSound(bookings, run[..j]);
      OnlyExpirableBookingsExpire(t', run[j], id);
    }
  }

  // ---------------------------------------------------------------- conservation

  ghost function ExpiredNow(t: Table): set<nat> {
    set id | id in t.bookings && t.bookings[id].status == Expired
  }

  /** The booking another transaction moves to EXPIRED. */
  function ExpiredByOther(t: Table, a: Action): set<nat> {
    if a.Touch? && a.id !in t.locks && a.booking.status == Expired &&
       !(a.id in t.bookings && t.bookings[a.id].status == Expired)
    then {a.id} else {}
  }

  /** Other transactions do not revive an expired booking. */
  ghost predicate NoRevival(t: Table, a: Action) {
    a.Touch? && a.id !in t.locks && a.id in ExpiredNow(t) ==> a.booking.status == Expired
  }

  ghost predicate NoRevivals(bookings: map<nat, Booking>, run: seq<Action>) {
    run != [] ==> NoRevivals(bookings, run[..|run| - 1]) && NoRevival(After(bookings, run[..|run| - 1]), run[|run| - 1])
  }

  /** Everything that other transactions moved to EXPIRED during the run. */
  function MovedByOthers(bookings: map<nat, Booking>, run: seq<Action>): set<nat> {
    if run == [] then {}
    else
      var before := run[..|run| - 1];
      MovedByOthers(bookings, before) + ExpiredByOther(After(bookings, before), run[|run| - 1])
  }

  /** A step adds to the expired bookings exactly those the worker counts or another transaction expires,
      none of which was expired before. */
  lemma StepExpires(t: Table, a: Action)
    requires Sound(t) && NoRevival(t, a)
    ensures ExpiredNow(Next(t, a)) == ExpiredNow(t) + ExpiredBy(t, a) + ExpiredByOther(t, a)
    ensures ExpiredNow(t) !! ExpiredBy(t, a) && ExpiredNow(t) !! ExpiredByOther(t, a)
    ensures ExpiredBy(t, a) !! ExpiredByOther(t, a)
  {
    forall id
      ensures id in ExpiredNow(Next(t, a)) <==>
              id in ExpiredNow(t) || id in ExpiredBy(t, a) || id in ExpiredByOther(t, a)
    {
      if id in t.bookings && !a.Touch? {
        OnlyExpirableBookingsExpire(t, a, id);
      }
    }
    forall id | id in ExpiredBy(t, a)
      ensures id !in ExpiredNow(t)
    {
      OnlyExpirableBookingsExpire(t, a, id);
    }
  }

  /** In every interleaving the counts that workers return add up to the number of bookings that moved to
      EXPIRED, less those that other transactions moved. */
  lemma {:induction false} CountsAddUp(bookings: map<nat, Booking>, run: seq<Action>)
    requires NoRevivals(bookings, run)
    ensures var start, now := ExpiredNow(After(bookings, [])), ExpiredNow(After(bookings, run));
            && start <= now && MovedByOthers(bookings, run) <= now - start
            && Returned(bookings, run) == |now - start - MovedByOthers(bookings, run)|
  {
    if run != [] {
      var before, a := run[..|run| - 1], run[|run| - 1];
      CountsAddUp(bookings, before);
      EveryTableIsSound(bookings, before);
      StepExpires(After(bookings, before), a);
      hide Next, ExpiredNow, ExpiredBy, ExpiredByOther, NoRevivals, NoRevival, Sound;
      var start, t := ExpiredNow(After(bookings, [])), After(bookings, before);
      AddedCount(start, ExpiredNow(t), ExpiredBy(t, a), MovedByOthers(bookings, before), ExpiredByOther(t, a));
    }
  }

  lemma AddedCount(start: set<nat>, now: set<nat>, more: set<nat>, others: set<nat>, other: set<nat>)
    requires start <= now && now !! more && now !! other && more !! other && others <= now - start
    ensures |now + more + other - start - (others + other)| == |now - start - others| + |more|
    ensures others + other <= now + more + other - start
  {
    assert now + more + other - start - (others + other) == (now - start - others) + more;
  }

  lemma {:induction false} NoRevivalsPrefix(bookings: map<nat, Booking>, run: seq<Action>, n: nat)
    requires NoRevivals(bookings, run) && n <= |run|
    ensures NoRevivals(bookings, run[..n])
    ensures n < |run| ==> NoRevival(After(bookings, run[..n]), run[n])
    decreases |run|
  {
    if n < |run| {
      NoRevivalsPrefix(bookings, run[..|run| - 1], n);
      assert run[..|run| - 1][..n] == run[..n];
    } else {
      assert run[..n] == run;
    }
  }

  lemma {:induction false} StaysExpired(bookings: map<nat, Booking>, run: seq<Action>, m: nat, n: nat)
    requires NoRevivals(bookings, run) && m <= n <= |run|
    ensures ExpiredNow(After(bookings, run[..m])) <= ExpiredNow(After(bookings, run[..n]))
    decreases n
  {
    if m < n {
      StaysExpired(bookings, run, m, n - 1);
      NoRevivalsPrefix(bookings, run, n - 1);
      EveryTableIsSound(bookings, run[..n - 1]);
      StepExpires(After(bookings, run[..n - 1]), run[n - 1]);
      assert run[..n][..n - 1] == run[..n - 1];
    }
  }

  /** In every interleaving a booking is expired by at most one worker, once. */
  lemma ExpiredAtMostOnce(bookings: map<nat, Booking>, run: seq<Action>, i: nat, j: nat)
    requires NoRevivals(bookings, run) && i < j < |run|
    ensures ExpiredBy(After(bookings, run[..i]), run[i]) !! ExpiredBy(After(bookings, run[..j]), run[j])
  {
    NoRevivalsPrefix(bookings, run, i);
    NoRevivalsPrefix(bookings, run, j);
    EveryTableIsSound(bookings, run[..i]);
    EveryTableIsSound(bookings, run[..j]);
    StepExpires(After(bookings, run[..i]), run[i]);
    StepExpires(After(bookings, run[..j]), run[j]);
    hide Next, ExpiredNow, ExpiredBy, ExpiredByOther, NoRevivals, NoRevival, Sound;
    StaysExpired(bookings, run, i + 1, j);
    assert run[..i + 1][..i] == run[..i];
  }

  /** Once a worker has committed, a second run at the same or an earlier time, whatever else other workers
      hold, finds only what the first had to skip. */
  lemma SecondRunFindsNothing(t: Table, worker: nat, now: real, held: set<nat>, again: real)
    requires Sound(t) && worker !in t.sessions && again <= now
    ensures Selected(Next(Next(t, Select(worker, now, held)), Commit(worker)), again) <= held
  {
    var t1 := Next(t, Select(worker, now, held));
    var t2 := Next(t1, Commit(worker));
    var rows := Selected(t, now) - held;
    forall id | id in t2.bookings && id !in held && id !in t2.locks
      ensures !Expirable(t2.bookings[id], again)
    {
      assert id !in t.locks;
      assert t2.bookings[id] == if id in rows then t.bookings[id].(status := Expired) else t.bookings[id];
    }
  }
}
