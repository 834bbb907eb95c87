/**
 * The sliding-window rates (src/lib/ai-quota.ts): each check counts the rows of the last minute and of
 * the last hour, and calls are recorded later, in any order. Every window of that length, wherever it
 * starts, holds at most limit - 1 + k calls, where k calls may be unrecorded at a time.
 */
module RateWindows {
  import opened CircuitBreaker
  import opened Outcomes
  import opened QuotaGate
  import opened TimeWindows
  import opened UsageLedger

  /**
   * The table, the clock, and the times at which the user's calls were admitted: those recorded since,
   * those not yet recorded, and those given up because they never reached the provider.
   */
  datatype World = World(rows: seq<Row>, now: int, settled: seq<int>, inFlight: seq<int>, abandoned: seq<int>)

  datatype Event =
    | Tick(ms: nat)
    | Ask(user: User, setting: Setting, usedByok: bool)
    | Settle(index: nat, params: Params)
    | Abandon(index: nat)
    | Other(params: Params)
    | Fail(id: string)

  /** Any unrecorded call may be recorded next, as a row of its own; the plan stays, the rest of the user may change. */
  predicate Enabled(w: World, e: Event, who: string, plan: Plan) {
    match e
    case Ask(u, _, _) => u.plan == plan
    case Settle(i, p) => i < |w.inFlight| && p.userId == who && Fresh(w.rows, p)
    case Abandon(i) => i < |w.inFlight|
    case _ => true
  }

  function Next(w: World, e: Event, who: string, calendar: int -> int): World {
    match e
    case Tick(ms) => w.(now := w.now + ms)
    case Ask(u, setting, byok) =>
      if Check(Some(u), setting, w.rows, who, byok, w.now, calendar).Allowed?
      then w.(inFlight := w.inFlight + [w.now]) else w
    case Settle(i, p) =>
      w.(rows := Recorded(w.rows, p, w.now, calendar),
         settled := w.settled + Only(w.inFlight, i), inFlight := Without(w.inFlight, i))
    case Abandon(i) => w.(abandoned := w.abandoned + Only(w.inFlight, i), inFlight := Without(w.inFlight, i))
    case Other(p) => w.(rows := Recorded(w.rows, p, w.now, calendar))
    case Fail(id) => w.(rows := MarkedFailed(w.rows, id))
  }

  function Run(w: World, es: seq<Event>, who: string, calendar: int -> int): World
    decreases |es|
  {
    if es == [] then w else Run(Next(w, es[0], who, calendar), es[1..], who, calendar)
  }

  /** Every step is enabled and no more than `k` calls are ever unrecorded. */
  predicate Possible(w: World, es: seq<Event>, k: nat, who: string, plan: Plan, calendar: int -> int)
    decreases |es|
  {
    es == [] ||
    (Enabled(w, es[0], who, plan) && |Next(w, es[0], who, calendar).inFlight| <= k
     && Possible(Next(w, es[0], who, calendar), es[1..], k, who, plan, calendar))
  }

  // ---------------------------------------------------------------- the invariant

  /** Every recorded call has a row at least as recent. */
  ghost predicate Inv(w: World, who: string) {
    && UpTo(w.settled, w.now) && UpTo(w.inFlight, w.now)
    && forall t :: InWindow(w.settled, t, w.now) <= CountCallsSince(w.rows, who, t)
  }

  /** The calls of a window that were recorded or still may be. */
  function Live(w: World, from: int, span: int): nat { InSpan(w.settled, from, span) + InSpan(w.inFlight, from, span) }

  /** All calls the gate let through in a window. */
  function Admitted(w: World, from: int, span: int): nat { Live(w, from, span) + InSpan(w.abandoned, from, span) }

  ghost predicate Within(w: World, span: int, bound: int) { forall t :: Live(w, t, span) <= bound }

  lemma TickKeeps(w: World, ms: nat, who: string)
    requires Inv(w, who)
    ensures Inv(w.(now := w.now + ms), who)
  {
    var now := w.now + ms;
    forall t ensures InWindow(w.settled, t, now) <= CountCallsSince(w.rows, who, t) {
      NoneLater(w.settled, w.now, t, now);
      assert InWindow(w.settled, t, w.now) <= CountCallsSince(w.rows, who, t);
    }
  }

  lemma RecordKeeps(w: World, p: Params, who: string, calendar: int -> int)
    requires Inv(w, who)
    ensures Inv(w.(rows := Recorded(w.rows, p, w.now, calendar)), who)
  {
    var rows := Recorded(w.rows, p, w.now, calendar);
    forall t ensures InWindow(w.settled, t, w.now) <= CountCallsSince(rows, who, t) {
      RecordMovesCalls(w.rows, p, w.now, calendar, who, t);
      assert InWindow(w.settled, t, w.now) <= CountCallsSince(w.rows, who, t);
    }
  }

  /** One more recorded time, one more row. */
  lemma SettleOne(w: World, time: int, p: Params, who: string, calendar: int -> int, t: int)
    requires InWindow(w.settled, t, w.now) <= CountCallsSince(w.rows, who, t)
    requires time <= w.now && p.userId == who && Fresh(w.rows, p)
    ensures InWindow(w.settled + [time], t, w.now) <= CountCallsSince(Recorded(w.rows, p, w.now, calendar), who, t)
  {
    RecordMovesCalls(w.rows, p, w.now, calendar, who, t);
    assert (w.settled + [time])[..|w.settled|] == w.settled;
  }

  lemma SettleKeeps(w: World, i: nat, p: Params, who: string, calendar: int -> int)
    requires Inv(w, who) && i < |w.inFlight| && p.userId == who && Fresh(w.rows, p)
    ensures Inv(Next(w, Settle(i, p), who, calendar), who)
  {
    var w' := Next(w, Settle(i, p), who, calendar);
    forall t ensures InWindow(w'.settled, t, w.now) <= CountCallsSince(w'.rows, who, t) {
      assert InWindow(w.settled, t, w.now) <= CountCallsSince(w.rows, who, t);
      SettleOne(w, w.inFlight[i], p, who, calendar, t);
    }
  }

  lemma FailKeeps(w: World, id: string, who: string)
    requires Inv(w, who)
    ensures Inv(w.(rows := MarkedFailed(w.rows, id)), who)
  {
    var rows := MarkedFailed(w.rows, id);
    forall t ensures InWindow(w.settled, t, w.now) <= CountCallsSince(rows, who, t) {
      MarkMovesNothingExactly(w.rows, id, who, 0, t);
      assert InWindow(w.settled, t, w.now) <= CountCallsSince(w.rows, who, t);
    }
  }

  lemma StepKeeps(w: World, e: Event, who: string, plan: Plan, calendar: int -> int)
    requires Inv(w, who) && Enabled(w, e, who, plan)
    ensures Inv(Next(w, e, who, calendar), who)
  {
    match e
    case Tick(ms) => TickKeeps(w, ms, who);
    case Ask(_, _, _) =>
    case Settle(i, p) => SettleKeeps(w, i, p, who, calendar);
    case Abandon(i) =>
    case Other(p) => RecordKeeps(w, p, who, calendar);
    case Fail(id) => FailKeeps(w, id, who);
  }

  // ---------------------------------------------------------------- every window is bounded

  /**
   * An admitted call keeps every window of `span` within limit - 1 + k, if the gate counted fewer than `limit`
   * in the last `span`.
   */
  lemma AdmitKeepsWindows(w: World, span: int, limit: nat, k: nat, who: string)
    requires Inv(w, who) && |w.inFlight| < k && Within(w, span, limit - 1 + k)
    requires CountCallsSince(w.rows, who, w.now - span) < limit
    ensures Within(w.(inFlight := w.inFlight + [w.now]), span, limit - 1 + k)
  {
    var w' := w.(inFlight := w.inFlight + [w.now]);
    forall t ensures Live(w', t, span) <= limit - 1 + k {
      WindowConcat(w.inFlight, [w.now], t, t + span);
      assert Live(w, t, span) <= limit - 1 + k;
      if t <= w.now <= t + span {
        WindowAtMost(w'.inFlight, t, t + span);
        NoneLater(w.settled, w.now, t, t + span);
        WindowWidens(w.settled, t, w.now, w.now - span, w.now);
        assert InWindow(w.settled, w.now - span, w.now) <= CountCallsSince(w.rows, who, w.now - span);
      } else {
        assert InWindow([w.now], t, t + span) == 0;
      }
    }
  }

  lemma StepKeepsWindows(w: World, e: Event, span: int, limit: nat, k: nat, who: string, plan: Plan,
      calendar: int -> int)
    requires Inv(w, who) && Enabled(w, e, who, plan) && Within(w, span, limit - 1 + k)
    requires |Next(w, e, who, calendar).inFlight| <= k
    requires (span, limit) == (MINUTE, PerMinute(plan)) || (span, limit) == (HOUR, PerHour(plan))
    ensures Within(Next(w, e, who, calendar), span, limit - 1 + k)
  {
    var w' := Next(w, e, who, calendar);
    if e.Ask? && w' != w {
      AdmitKeepsWindows(w, span, limit, k, who);
    } else {
      forall t ensures Live(w', t, span) <= Live(w, t, span) {
        if e.Settle? {
          MoveOne(w.settled, w.inFlight, e.index, t, t + span);
        } else if e.Abandon? {
          MoveOne([], w.inFlight, e.index, t, t + span);
        }
      }
      forall t ensures Live(w', t, span) <= limit - 1 + k {
        assert Live(w, t, span) <= limit - 1 + k;
      }
    }
  }

  /**
   * In every run with at most `k` calls unrecorded at a time, recorded in any order: every closed window of
   * 60 seconds holds at most the per-minute limit - 1 + k calls that were recorded or still may be, and
   * every closed window of 3600 seconds at most the per-hour limit - 1 + k, wherever it starts.
   */
  lemma {:induction false} RatesHoldInEveryWindow(w: World, es: seq<Event>, k: nat, who: string, plan: Plan,
      calendar: int -> int)
    requires Inv(w, who) && Possible(w, es, k, who, plan, calendar)
    requires Within(w, MINUTE, PerMinute(plan) - 1 + k) && Within(w, HOUR, PerHour(plan) - 1 + k)
    ensures Within(Run(w, es, who, calendar), MINUTE, PerMinute(plan) - 1 + k)
    ensures Within(Run(w, es, who, calendar), HOUR, PerHour(plan) - 1 + k)
    decreases |es|
  {
    if es != [] {
      StepKeeps(w, es[0], who, plan, calendar);
      StepKeepsWindows(w, es[0], MINUTE, PerMinute(plan), k, who, plan, calendar);
      StepKeepsWindows(w, es[0], HOUR, PerHour(plan), k, who, plan, calendar);
      RatesHoldInEveryWindow(Next(w, es[0], who, calendar), es[1..], k, who, plan, calendar);
    }
  }

  /** Any table, and no call of the user admitted yet. */
  function Start(rows: seq<Row>, now: int): World { World(rows, now, [], [], []) }

  lemma RatesFromStart(rows: seq<Row>, now: int, es: seq<Event>, k: nat, who: string, plan: Plan,
      calendar: int -> int, from: int)
    requires Possible(Start(rows, now), es, k, who, plan, calendar)
    ensures var end := Run(Start(rows, now), es, who, calendar);
            && Admitted(end, from, MINUTE) <= PerMinute(plan) - 1 + k + InSpan(end.abandoned, from, MINUTE)
            && Admitted(end, from, HOUR) <= PerHour(plan) - 1 + k + InSpan(end.abandoned, from, HOUR)
  {
    var end := Run(Start(rows, now), es, who, calendar);
    RatesHoldInEveryWindow(Start(rows, now), es, k, who, plan, calendar);
    assert Live(end, from, MINUTE) <= PerMinute(plan) - 1 + k;
    assert Live(end, from, HOUR) <= PerHour(plan) - 1 + k;
  }

  predicate NothingAbandoned(es: seq<Event>) { forall i :: 0 <= i < |es| ==> !es[i].Abandon? }

  lemma {:induction false} AbandonedGrowsByAbandon(w: World, es: seq<Event>, who: string, calendar: int -> int)
    requires NothingAbandoned(es)
    ensures Run(w, es, who, calendar).abandoned == w.abandoned
    decreases |es|
  {
    if es != [] {
      assert !es[0].Abandon?;
      AbandonedGrowsByAbandon(Next(w, es[0], who, calendar), es[1..], who, calendar);
    }
  }

  /**
   * One call at a time: if each admitted call is recorded before the next check, no closed window of either
   * length ever holds more admitted calls than its limit. With `k` at a time it is limit - 1 + k, a call
   * that is never recorded counting as unrecorded for good.
   */
  lemma AdmittedCallsInEveryWindow(rows: seq<Row>, now: int, es: seq<Event>, k: nat, who: string, plan: Plan,
                                   calendar: int -> int, from: int)
    requires Possible(Start(rows, now), es, k, who, plan, calendar) && NothingAbandoned(es)
    ensures var end := Run(Start(rows, now), es, who, calendar);
            && Admitted(end, from, MINUTE) <= PerMinute(plan) - 1 + k
            && Admitted(end, from, HOUR) <= PerHour(plan) - 1 + k
            && (k <= 1 ==> Admitted(end, from, MINUTE) <= PerMinute(plan) && Admitted(end, from, HOUR) <= PerHour(plan))
  {
    RatesFromStart(rows, now, es, k, who, plan, calendar, from);
    AbandonedGrowsByAbandon(Start(rows, now), es, who, calendar);
  }
}
