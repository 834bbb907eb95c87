/**
 * Runs of checks and records with calls in flight (src/lib/ai-quota.ts): the gate only reads and a call
 * is recorded later, so the monthly quota holds up to the number of admitted, not yet recorded calls.
 */
module QuotaRuns {
  import opened CircuitBreaker
  import opened Outcomes
  import opened QuotaGate
  import opened UsageLedger

  /** Months never go backwards. */
  ghost predicate Calendar(calendar: int -> int) { forall s, t :: s <= t ==> calendar(s) <= calendar(t) }

  /** One user's platform calls: the table, the clock, and the admitted calls not yet recorded. */
  datatype World = World(rows: seq<Row>, now: int, inFlight: nat)

  datatype Event =
    | Tick(ms: nat)
    | Ask(user: User, setting: Setting)
    | Settle(params: Params)
    | Abandon
    | Other(params: Params)
    | Fail(id: string)

  /**
   * What may happen next: an admitted call records itself or never reaches the provider; any other
   * record is another user's, on the user's own key, not billable, or a back-fill of a known request;
   * only a request recorded as billable is marked failed. Plan and risk tier stay as they are, the
   * rest of the user's row may change between checks.
   */
  predicate Enabled(w: World, e: Event, who: string, plan: Plan, tier: Tier) {
    match e
    case Tick(_) => true
    case Ask(u, _) => u.plan == plan && u.tier == tier
    case Settle(p) => w.inFlight > 0 && p.userId == who
    case Abandon => w.inFlight > 0
    case Other(p) => !Fresh(w.rows, p) || p.userId != who || p.usedByok || !Billable(p.status)
    case Fail(id) => forall i :: 0 <= i < |w.rows| && w.rows[i].requestId == Some(id) ==> Billable(w.rows[i].status)
  }

  function Next(w: World, e: Event, who: string, calendar: int -> int): World {
    match e
    case Tick(ms) => w.(now := w.now + ms)
    case Ask(u, setting) =>
      if Check(Some(u), setting, w.rows, who, false, w.now, calendar).Allowed? then w.(inFlight := w.inFlight + 1)
        else w
    case Settle(p) =>
      World(Recorded(w.rows, p, w.now, calendar), w.now, if w.inFlight > 0 then w.inFlight - 1 else 0)
    case Abandon => w.(inFlight := if w.inFlight > 0 then w.inFlight - 1 else 0)
    case Other(p) => w.(rows := Recorded(w.rows, p, w.now, calendar))
    case Fail(id) => w.(rows := MarkedFailed(w.rows, id))
  }

  function Run(w: World, es: seq<Event>, who: string, calendar: int -> int): World
    decreases |es|
  {
    if es == [] then w else Run(Next(w, es[0], who, calendar), es[1..], who, calendar)
  }

  /** Every step is enabled and no more than `k` admitted calls are ever unrecorded. */
  predicate Possible(w: World, es: seq<Event>, k: nat, who: string, plan: Plan, tier: Tier, calendar: int -> int)
    decreases |es|
  {
    es == [] ||
    (Enabled(w, es[0], who, plan, tier) && Next(w, es[0], who, calendar).inFlight <= k
     && Possible(Next(w, es[0], who, calendar), es[1..], k, who, plan, tier, calendar))
  }

  /** What a month already holds together with what may still land in it. */
  function Load(w: World, who: string, period: int, calendar: int -> int): nat {
    CountBillableCalls(w.rows, who, period) + if period == calendar(w.now) then w.inFlight else 0
  }

  ghost predicate Inv(w: World, k: nat, limit: nat, who: string, calendar: int -> int) {
    && w.inFlight <= k
    && (forall p :: Load(w, who, p, calendar) <= limit - 1 + k)
    && (forall p :: p > calendar(w.now) ==> CountBillableCalls(w.rows, who, p) == 0)
  }

  lemma TickKeeps(w: World, ms: nat, k: nat, limit: nat, who: string, calendar: int -> int)
    requires Calendar(calendar) && limit >= 1 && Inv(w, k, limit, who, calendar)
    ensures Inv(w.(now := w.now + ms), k, limit, who, calendar)
  {
    var w' := w.(now := w.now + ms);
    assert calendar(w.now) <= calendar(w'.now);
    forall p ensures Load(w', who, p, calendar) <= limit - 1 + k {
      assert Load(w, who, p, calendar) <= limit - 1 + k;
    }
  }

  lemma AskKeeps(w: World, u: User, setting: Setting, k: nat, limit: nat, who: string, calendar: int -> int)
    requires Inv(w, k, limit, who, calendar) && MonthlyLimit(u.plan, u.tier, false) == Some(limit)
    requires Next(w, Ask(u, setting), who, calendar).inFlight <= k
    ensures Inv(Next(w, Ask(u, setting), who, calendar), k, limit, who, calendar)
  {
    var w' := Next(w, Ask(u, setting), who, calendar);
    forall p ensures Load(w', who, p, calendar) <= limit - 1 + k {
      assert Load(w, who, p, calendar) <= limit - 1 + k;
    }
  }

  lemma AbandonKeeps(w: World, k: nat, limit: nat, who: string, calendar: int -> int)
    requires Inv(w, k, limit, who, calendar) && w.inFlight > 0
    ensures Inv(w.(inFlight := w.inFlight - 1), k, limit, who, calendar)
  {
    var w' := w.(inFlight := w.inFlight - 1);
    forall p ensures Load(w', who, p, calendar) <= limit - 1 + k {
      assert Load(w, who, p, calendar) <= limit - 1 + k;
    }
  }

  lemma RecordKeeps(w: World, p: Params, left: nat, k: nat, limit: nat, who: string, calendar: int -> int)
    requires Inv(w, k, limit, who, calendar) && left <= w.inFlight
    requires left < w.inFlight || !Fresh(w.rows, p) || p.userId != who || p.usedByok || !Billable(p.status)
    ensures Inv(World(Recorded(w.rows, p, w.now, calendar), w.now, left), k, limit, who, calendar)
  {
    var w' := World(Recorded(w.rows, p, w.now, calendar), w.now, left);
    forall m ensures Load(w', who, m, calendar) <= limit - 1 + k
      && (m > calendar(w.now) ==> CountBillableCalls(w'.rows, who, m) == 0)
    {
      assert Load(w, who, m, calendar) <= limit - 1 + k;
      RecordMovesCount(w.rows, p, w.now, calendar, who, m);
    }
  }

  lemma FailKeeps(w: World, id: string, k: nat, limit: nat, who: string, calendar: int -> int)
    requires Inv(w, k, limit, who, calendar)
    requires forall i :: 0 <= i < |w.rows| && w.rows[i].requestId == Some(id) ==> Billable(w.rows[i].status)
    ensures Inv(w.(rows := MarkedFailed(w.rows, id)), k, limit, who, calendar)
  {
    var w' := w.(rows := MarkedFailed(w.rows, id));
    forall m ensures Load(w', who, m, calendar) == Load(w, who, m, calendar)
      && CountBillableCalls(w'.rows, who, m) == CountBillableCalls(w.rows, who, m)
    {
      MarkMovesNothingExactly(w.rows, id, who, m, 0);
    }
  }

  lemma StepKeeps(w: World, e: Event, k: nat, limit: nat, who: string, plan: Plan, tier: Tier, calendar: int -> int)
    requires Calendar(calendar) && MonthlyLimit(plan, tier, false) == Some(limit)
    requires Inv(w, k, limit, who, calendar) && Enabled(w, e, who, plan, tier)
    requires Next(w, e, who, calendar).inFlight <= k
    ensures Inv(Next(w, e, who, calendar), k, limit, who, calendar)
  {
    match e
    case Tick(ms) => TickKeeps(w, ms, k, limit, who, calendar);
    case Ask(u, setting) => AskKeeps(w, u, setting, k, limit, who, calendar);
    case Settle(p) => RecordKeeps(w, p, w.inFlight - 1, k, limit, who, calendar);
    case Abandon => AbandonKeeps(w, k, limit, who, calendar);
    case Other(p) => RecordKeeps(w, p, w.inFlight, k, limit, who, calendar);
    case Fail(id) => FailKeeps(w, id, k, limit, who, calendar);
  }

  /**
   * In every interleaving of checks and records, month ends included, no month ever holds more than
   * limit - 1 + k billable platform calls of the user; with k = 1 the limit is never passed.
   */
  lemma {:induction false} QuotaUnderConcurrency(
      w: World, es: seq<Event>, k: nat, limit: nat, who: string, plan: Plan, tier: Tier, calendar: int -> int)
    requires Calendar(calendar) && MonthlyLimit(plan, tier, false) == Some(limit)
    requires Inv(w, k, limit, who, calendar) && Possible(w, es, k, who, plan, tier, calendar)
    ensures Inv(Run(w, es, who, calendar), k, limit, who, calendar)
    ensures forall p :: CountBillableCalls(Run(w, es, who, calendar).rows, who, p) <= limit - 1 + k
    decreases |es|
  {
    if es == [] {
      forall p ensures CountBillableCalls(w.rows, who, p) <= limit - 1 + k {
        assert Load(w, who, p, calendar) <= limit - 1 + k;
      }
    } else {
      StepKeeps(w, es[0], k, limit, who, plan, tier, calendar);
      QuotaUnderConcurrency(Next(w, es[0], who, calendar), es[1..], k, limit, who, plan, tier, calendar);
    }
  }

  /** From an empty table. */
  lemma QuotaFromStart(now: int, es: seq<Event>, k: nat, limit: nat, who: string, plan: Plan, tier: Tier,
                       calendar: int -> int, period: int)
    requires Calendar(calendar) && MonthlyLimit(plan, tier, false) == Some(limit)
    requires Possible(World([], now, 0), es, k, who, plan, tier, calendar)
    ensures CountBillableCalls(Run(World([], now, 0), es, who, calendar).rows, who, period) <= limit - 1 + k
  {
    QuotaUnderConcurrency(World([], now, 0), es, k, limit, who, plan, tier, calendar);
  }

  // ---------------------------------------------------------------- the bound is reached

  /** `n` checks in a row, none recorded: all are admitted if the first would be. */
  lemma {:induction false} AsksInARow(w: World, n: nat, k: nat, u: User, setting: Setting, who: string,
      calendar: int -> int)
    returns (es: seq<Event>)
    requires Check(Some(u), setting, w.rows, who, false, w.now, calendar).Allowed? && w.inFlight + n <= k
    ensures Possible(w, es, k, who, u.plan, u.tier, calendar)
    ensures Run(w, es, who, calendar) == w.(inFlight := w.inFlight + n)
    decreases n
  {
    if n == 0 {
      es := [];
    } else {
      var next := Next(w, Ask(u, setting), who, calendar);
      var after := AsksInARow(next, n - 1, k, u, setting, who, calendar);
      es := [Ask(u, setting)] + after;
      assert es[1..] == after;
    }
  }

  /** A billable platform call of the user without a request id. */
  predicate PlainCall(p: Params, who: string) {
    p.requestId == None && p.userId == who && !p.usedByok && Billable(p.status)
  }

  lemma SettleAddsOne(w: World, p: Params, who: string, calendar: int -> int)
    requires PlainCall(p, who) && w.inFlight > 0
    ensures var w' := Next(w, Settle(p), who, calendar);
            && w'.now == w.now && w'.inFlight == w.inFlight - 1
            && CountBillableCalls(w'.rows, who, calendar(w.now)) == CountBillableCalls(w.rows, who, calendar(w.now)) + 1
  {
    RecordMovesCount(w.rows, p, w.now, calendar, who, calendar(w.now));
  }

  lemma {:induction false} SettlesInARow(w: World, n: nat, k: nat, p: Params, who: string, plan: Plan, tier: Tier,
      calendar: int -> int)
    returns (es: seq<Event>)
    requires PlainCall(p, who) && n <= w.inFlight <= k
    ensures Possible(w, es, k, who, plan, tier, calendar)
    ensures CountBillableCalls(Run(w, es, who, calendar).rows, who, calendar(w.now))
            == CountBillableCalls(w.rows, who, calendar(w.now)) + n
    decreases n
  {
    if n == 0 {
      es := [];
    } else {
      SettleAddsOne(w, p, who, calendar);
      var next := Next(w, Settle(p), who, calendar);
      var after := SettlesInARow(next, n - 1, k, p, who, plan, tier, calendar);
      es := [Settle(p)] + after;
      assert es[1..] == after;
    }
  }

  lemma {:induction false} Concatenate(w: World, es: seq<Event>, fs: seq<Event>, k: nat, who: string, plan: Plan,
      tier: Tier, calendar: int -> int)
    requires Possible(w, es, k, who, plan, tier, calendar)
    requires Possible(Run(w, es, who, calendar), fs, k, who, plan, tier, calendar)
    ensures Possible(w, es + fs, k, who, plan, tier, calendar)
    ensures Run(w, es + fs, who, calendar) == Run(Run(w, es, who, calendar), fs, who, calendar)
    decreases |es|
  {
    if es == [] {
      assert [] + fs == fs;
    } else {
      assert (es + fs)[1..] == es[1..] + fs;
      Concatenate(Next(w, es[0], who, calendar), es[1..], fs, k, who, plan, tier, calendar);
    }
  }

  /** The bound is exact: one call short of the limit, k concurrent calls bring the month to limit - 1 + k. */
  lemma BoundIsReached(w: World, k: nat, limit: nat, u: User, setting: Setting, p: Params, who: string,
      calendar: int -> int)
    returns (es: seq<Event>)
    requires Check(Some(u), setting, w.rows, who, false, w.now, calendar).Allowed? && w.inFlight == 0
    requires MonthlyLimit(u.plan, u.tier, false) == Some(limit)
    requires CountBillableCalls(w.rows, who, calendar(w.now)) == limit - 1
    requires PlainCall(p, who)
    ensures Possible(w, es, k, who, u.plan, u.tier, calendar)
    ensures CountBillableCalls(Run(w, es, who, calendar).rows, who, calendar(w.now)) == limit - 1 + k
  {
    var asks := AsksInARow(w, k, k, u, setting, who, calendar);
    var settles := SettlesInARow(Run(w, asks, who, calendar), k, k, p, who, u.plan, u.tier, calendar);
    Concatenate(w, asks, settles, k, who, u.plan, u.tier, calendar);
    es := asks + settles;
  }

  // ---------------------------------------------------------------- from an empty table

  /** Longer than an hour: calls this far apart meet no rate limit. */
  const PACE := HOUR + 1

  /** Every row lies more than an hour back. */
  ghost predicate Rested(w: World) { forall i :: 0 <= i < |w.rows| ==> w.rows[i].createdAt < w.now - HOUR }

  lemma {:induction false} RestedCounts(rows: seq<Row>, who: string, since: int)
    requires forall i :: 0 <= i < |rows| ==> rows[i].createdAt < since
    ensures CountCallsSince(rows, who, since) == 0
  {
    if rows != [] { RestedCounts(rows[..|rows| - 1], who, since); }
  }

  lemma RestedUserIsAdmitted(w: World, u: User, limit: nat, who: string, calendar: int -> int)
    requires Rested(w) && Unhindered(u) && MonthlyLimit(u.plan, u.tier, false) == Some(limit)
    requires CountBillableCalls(w.rows, who, calendar(w.now)) < limit
    ensures Check(Some(u), NotText, w.rows, who, false, w.now, calendar).Allowed?
  {
    RestedCounts(w.rows, who, w.now - HOUR);
    RestedCounts(w.rows, who, w.now - MINUTE);
  }

  /** A checked and recorded call, then a rest of more than an hour. */
  function Round(u: User, p: Params): seq<Event> { [Ask(u, NotText), Settle(p), Tick(PACE)] }

  lemma RoundAddsOne(w: World, k: nat, u: User, limit: nat, p: Params, who: string, calendar: int -> int)
    requires Rested(w) && Unhindered(u) && MonthlyLimit(u.plan, u.tier, false) == Some(limit)
    requires w.inFlight == 0 && k >= 1 && PlainCall(p, who)
    requires CountBillableCalls(w.rows, who, calendar(w.now)) < limit
    ensures Possible(w, Round(u, p), k, who, u.plan, u.tier, calendar)
    ensures var end := Run(w, Round(u, p), who, calendar);
            && Rested(end) && end.inFlight == 0 && end.now == w.now + PACE
            && CountBillableCalls(end.rows, who, calendar(w.now))
                == CountBillableCalls(w.rows, who, calendar(w.now)) + 1
  {
    RestedUserIsAdmitted(w, u, limit, who, calendar);
    var asked := Next(w, Ask(u, NotText), who, calendar);
    SettleAddsOne(asked, p, who, calendar);
    var settled := Next(asked, Settle(p), who, calendar);
    var end := Next(settled, Tick(PACE), who, calendar);
    assert Possible(end, [], k, who, u.plan, u.tier, calendar) && Run(end, [], who, calendar) == end;
    assert [Tick(PACE)][1..] == [];
    assert Run(settled, [Tick(PACE)], who, calendar) == end;
    assert Possible(settled, [Tick(PACE)], k, who, u.plan, u.tier, calendar);
    assert [Settle(p), Tick(PACE)][1..] == [Tick(PACE)];
    assert Run(asked, [Settle(p), Tick(PACE)], who, calendar) == end;
    assert Possible(asked, [Settle(p), Tick(PACE)], k, who, u.plan, u.tier, calendar);
    assert Round(u, p)[1..] == [Settle(p), Tick(PACE)];
  }

  /** `n` rounds within one month record `n` calls, up to the limit. */
  lemma {:induction false} Climb(w: World, n: nat, k: nat, u: User, limit: nat, p: Params, who: string,
      calendar: int -> int)
    returns (es: seq<Event>)
    requires Rested(w) && Unhindered(u) && MonthlyLimit(u.plan, u.tier, false) == Some(limit)
    requires w.inFlight == 0 && k >= 1 && PlainCall(p, who) && Calendar(calendar)
    requires calendar(w.now + n * PACE) == calendar(w.now)
    requires CountBillableCalls(w.rows, who, calendar(w.now)) + n <= limit
    ensures Possible(w, es, k, who, u.plan, u.tier, calendar)
    ensures var end := Run(w, es, who, calendar);
            && Rested(end) && end.inFlight == 0 && end.now == w.now + n * PACE
            && CountBillableCalls(end.rows, who, calendar(w.now))
                == CountBillableCalls(w.rows, who, calendar(w.now)) + n
    decreases n
  {
    if n == 0 {
      es := [];
    } else {
      RoundAddsOne(w, k, u, limit, p, who, calendar);
      var next := Run(w, Round(u, p), who, calendar);
      assert calendar(w.now) <= calendar(next.now) <= calendar(next.now + (n - 1) * PACE);
      var after := Climb(next, n - 1, k, u, limit, p, who, calendar);
      Concatenate(w, Round(u, p), after, k, who, u.plan, u.tier, calendar);
      es := Round(u, p) + after;
    }
  }

  /** From an empty table, if the month lasts long enough: some possible run brings it to limit - 1 + k. */
  lemma BoundIsReachedFromStart(now: int, k: nat, limit: nat, who: string, plan: Plan, tier: Tier, calendar: int -> int)
    returns (es: seq<Event>)
    requires Calendar(calendar) && MonthlyLimit(plan, tier, false) == Some(limit) && Quarters(tier) > 0 && k >= 1
    requires calendar(now + (limit - 1) * PACE) == calendar(now)
    ensures Possible(World([], now, 0), es, k, who, plan, tier, calendar)
    ensures CountBillableCalls(Run(World([], now, 0), es, who, calendar).rows, who, calendar(now)) == limit - 1 + k
  {
    var u := User(who, plan, tier, true, None, None);
    var p := Params(None, who, "gpt-4o-mini", 0, 0, false, Success);
    var start := World([], now, 0);
    var climb := Climb(start, limit - 1, k, u, limit, p, who, calendar);
    var top := Run(start, climb, who, calendar);
    RestedUserIsAdmitted(top, u, limit, who, calendar);
    var burst := BoundIsReached(top, k, limit, u, NotText, p, who, calendar);
    Concatenate(start, climb, burst, k, who, plan, tier, calendar);
    es := climb + burst;
  }

  /** No possible run from an empty table ever passes the limit in any month. */
  ghost predicate LimitHolds(now: int, k: nat, limit: nat, who: string, plan: Plan, tier: Tier, calendar: int -> int) {
    forall es, period :: Possible(World([], now, 0), es, k, who, plan, tier, calendar) ==>
      CountBillableCalls(Run(World([], now, 0), es, who, calendar).rows, who, period) <= limit
  }

  /**
   * The monthly limit is kept by every run exactly when at most one call is unrecorded at a time. Some
   * month from now on must last limit - 1 hours from a moment `t` in it, at most 21 days.
   */
  lemma LimitHoldsExactly(now: int, t: int, k: nat, limit: nat, who: string, plan: Plan, tier: Tier,
      calendar: int -> int)
    requires Calendar(calendar) && MonthlyLimit(plan, tier, false) == Some(limit) && Quarters(tier) > 0
    requires now <= t && calendar(t + (limit - 1) * PACE) == calendar(t)
    ensures LimitHolds(now, k, limit, who, plan, tier, calendar) <==> k <= 1
  {
    if k <= 1 {
      forall es, period | Possible(World([], now, 0), es, k, who, plan, tier, calendar)
        ensures CountBillableCalls(Run(World([], now, 0), es, who, calendar).rows, who, period) <= limit
      {
        QuotaFromStart(now, es, k, limit, who, plan, tier, calendar, period);
      }
    } else {
      var later := BoundIsReachedFromStart(t, k, limit, who, plan, tier, calendar);
      var es := [Tick(t - now)] + later;
      assert es[1..] == later;
      assert Next(World([], now, 0), Tick(t - now), who, calendar) == World([], t, 0);
      assert Possible(World([], now, 0), es, k, who, plan, tier, calendar);
      assert Run(World([], now, 0), es, who, calendar) == Run(World([], t, 0), later, who, calendar);
      assert CountBillableCalls(Run(World([], now, 0), es, who, calendar).rows, who, calendar(t)) > limit;
    }
  }
}
