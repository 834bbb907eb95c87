/**
 * When the sliding-window rates keep their limits (src/lib/ai-quota.ts): from an empty table, exactly when
 * at most one call is unrecorded at a time. The runs that pass a limit make their calls at a steady pace.
 */
module RateLimits {
  import opened CircuitBreaker
  import opened Outcomes
  import opened QuotaGate
  import opened RateWindows
  import opened TimeWindows
  import UsageLedger

  /** `n` checks at one moment, none recorded in between: all are admitted if the first would be. */
  lemma {:induction false} AsksInARow(w: World, n: nat, k: nat, u: User, setting: Setting, byok: bool, who: string,
      calendar: int -> int)
    returns (es: seq<Event>)
    requires Check(Some(u), setting, w.rows, who, byok, w.now, calendar).Allowed? && |w.inFlight| + n <= k
    ensures Possible(w, es, k, who, u.plan, calendar) && NothingAbandoned(es)
    ensures var end := Run(w, es, who, calendar);
            && end.settled == w.settled && end.abandoned == w.abandoned
            && forall from, to :: from <= w.now <= to ==>
                InWindow(end.inFlight, from, to) == InWindow(w.inFlight, from, to) + n
    decreases n
  {
    if n == 0 {
      es := [];
    } else {
      var next := Next(w, Ask(u, setting, byok), who, calendar);
      var after := AsksInARow(next, n - 1, k, u, setting, byok, who, calendar);
      es := [Ask(u, setting, byok)] + after;
      assert es[1..] == after;
      forall from, to | from <= w.now <= to
        ensures InWindow(next.inFlight, from, to) == InWindow(w.inFlight, from, to) + 1
      {
        WindowConcat(w.inFlight, [w.now], from, to);
      }
    }
  }

  lemma {:induction false} Concatenate(w: World, es: seq<Event>, fs: seq<Event>, k: nat, who: string, plan: Plan,
                                       calendar: int -> int)
    requires Possible(w, es, k, who, plan, calendar)
    requires Possible(Run(w, es, who, calendar), fs, k, who, plan, calendar)
    ensures Possible(w, es + fs, k, who, plan, calendar)
    ensures Run(w, es + fs, who, calendar) == Run(Run(w, es, who, calendar), fs, who, calendar)
    decreases |es|
  {
    if es == [] {
      assert [] + fs == fs;
    } else {
      assert (es + fs)[1..] == es[1..] + fs;
      Concatenate(Next(w, es[0], who, calendar), es[1..], fs, k, who, plan, calendar);
    }
  }

  // Calls at a steady pace, each recorded at once.

  /** The time of the i-th call. */
  function Moment(start: int, pace: nat, i: nat): int {
    if i == 0 then start else Moment(start, pace, i - 1) + pace
  }

  lemma {:induction false} MomentsInOrder(start: int, pace: nat, i: nat, j: nat)
    requires i <= j
    ensures Moment(start, pace, i) <= Moment(start, pace, j)
    decreases j
  {
    if i < j { MomentsInOrder(start, pace, i, j - 1); }
  }

  lemma {:induction false} MomentAtOnce(start: int, i: nat)
    ensures Moment(start, 0, i) == start
  {
    if i > 0 { MomentAtOnce(start, i - 1); }
  }

  /** The pace at which an hour holds exactly the per-hour limit. */
  function Pace(plan: Plan): nat {
    match plan case Free => 180_000 case Trial => 45_000 case Pro => 18_000 case Team => 18_000 case Enterprise => 3_600
  }

  /** The time that `n` calls take at that pace. */
  function Elapsed(plan: Plan, n: nat): nat {
    match plan
    case Free => 180_000 * n
    case Trial => 45_000 * n
    case Pro => 18_000 * n
    case Team => 18_000 * n
    case Enterprise => 3_600 * n
  }

  lemma ElapsedSteps(plan: Plan, n: nat)
    ensures Elapsed(plan, n + 1) == Elapsed(plan, n) + Pace(plan) && (Elapsed(plan, n) == 0 <==> n == 0)
  {
  }

  lemma {:induction false} MomentAtPace(start: int, plan: Plan, i: nat)
    ensures Moment(start, Pace(plan), i) == start + Elapsed(plan, i)
  {
    if i > 0 { MomentAtPace(start, plan, i - 1); }
  }

  /** The per-hour limit fills an hour, and a minute stays far below the per-minute limit. */
  lemma PaceFits(plan: Plan, calls: nat)
    ensures Elapsed(plan, PerHour(plan)) == HOUR
    ensures Elapsed(plan, calls) <= MINUTE ==> calls < PerMinute(plan)
  {
  }

  /** `n` calls have been made and recorded, each at its moment, and nothing else. */
  ghost predicate Paced(w: World, start: int, pace: nat, n: nat) {
    && |w.rows| == |w.settled| == n && w.inFlight == [] && w.abandoned == []
    && w.now == Moment(start, pace, n)
    && (forall i :: 0 <= i < n ==> w.rows[i].createdAt == Moment(start, pace, i))
    && (forall i :: 0 <= i < n ==> w.settled[i] == Moment(start, pace, i))
  }

  lemma {:induction false} NoMoreThanRows(rows: seq<UsageLedger.Row>, who: string, since: int)
    ensures CountCallsSince(rows, who, since) <= |rows|
  {
    if rows != [] { NoMoreThanRows(rows[..|rows| - 1], who, since); }
  }

  /** A length of time, none if negative. */
  function Longer(ms: int): nat { if ms < 0 then 0 else ms }

  lemma OneMoreFits(plan: Plan, before: nat, ms: int, counted: bool)
    requires Elapsed(plan, before) <= Longer(ms) && (counted ==> ms >= 0)
    ensures Elapsed(plan, if counted then before + 1 else before) <= Longer(ms + Pace(plan))
  {
    ElapsedSteps(plan, before);
  }

  /** At that pace the calls since a moment fit into the time since then. */
  lemma {:induction false} PacedCount(rows: seq<UsageLedger.Row>, start: int, plan: Plan, who: string, since: int)
    requires forall i :: 0 <= i < |rows| ==> rows[i].createdAt == Moment(start, Pace(plan), i)
    ensures Elapsed(plan, CountCallsSince(rows, who, since)) <= Longer(Moment(start, Pace(plan), |rows|) - since)
  {
    if rows == [] {
      assert CountCallsSince(rows, who, since) == 0;
      ElapsedSteps(plan, 0);
    } else {
      var n := |rows| - 1;
      var last := Moment(start, Pace(plan), n);
      PacedCount(rows[..n], start, plan, who, since);
      OneMoreFits(plan, CountCallsSince(rows[..n], who, since), last - since, CalledSince(rows[n], who, since));
      assert Moment(start, Pace(plan), |rows|) == last + Pace(plan);
    }
  }

  /** Calls of one moment up to the per-minute limit, or calls spread evenly over an hour up to the per-hour limit. */
  predicate Bearable(plan: Plan, pace: nat, n: nat) {
    (pace == 0 && n < PerMinute(plan)) || (pace == Pace(plan) && n < PerHour(plan))
  }

  lemma FewRowsWithinRate(rows: seq<UsageLedger.Row>, who: string, since: int, limit: nat)
    requires |rows| < limit
    ensures CountCallsSince(rows, who, since) < limit
  {
    NoMoreThanRows(rows, who, since);
  }

  lemma PacedWithinMinute(rows: seq<UsageLedger.Row>, start: int, who: string, plan: Plan)
    requires forall i :: 0 <= i < |rows| ==> rows[i].createdAt == Moment(start, Pace(plan), i)
    ensures CountCallsSince(rows, who, Moment(start, Pace(plan), |rows|) - MINUTE) < PerMinute(plan)
  {
    var since := Moment(start, Pace(plan), |rows|) - MINUTE;
    PacedCount(rows, start, plan, who, since);
    PaceFits(plan, CountCallsSince(rows, who, since));
  }

  lemma MinuteBelowHour(plan: Plan)
    ensures PerMinute(plan) <= PerHour(plan)
  {
  }

  lemma PacedWithinRates(rows: seq<UsageLedger.Row>, start: int, pace: nat, who: string, plan: Plan)
    requires forall i :: 0 <= i < |rows| ==> rows[i].createdAt == Moment(start, pace, i)
    requires Bearable(plan, pace, |rows|)
    ensures WithinRates(rows, who, plan, Moment(start, pace, |rows|))
  {
    var now := Moment(start, pace, |rows|);
    MinuteBelowHour(plan);
    FewRowsWithinRate(rows, who, now - HOUR, PerHour(plan));
    if pace == Pace(plan) {
      PacedWithinMinute(rows, start, who, plan);
    } else {
      FewRowsWithinRate(rows, who, now - MINUTE, PerMinute(plan));
    }
  }

  lemma OwnKeyIsAdmitted(u: User, rows: seq<UsageLedger.Row>, who: string, now: int, calendar: int -> int)
    requires Unhindered(u) && WithinRates(rows, who, u.plan, now)
    ensures Check(Some(u), NotText, rows, who, true, now, calendar).Allowed?
  {
  }

  lemma PacedCallIsAdmitted(w: World, start: int, pace: nat, n: nat, u: User, who: string, calendar: int -> int)
    requires Paced(w, start, pace, n) && Bearable(u.plan, pace, n) && Unhindered(u)
    ensures Check(Some(u), NotText, w.rows, who, true, w.now, calendar).Allowed?
  {
    PacedWithinRates(w.rows, start, pace, who, u.plan);
    OwnKeyIsAdmitted(u, w.rows, who, w.now, calendar);
  }

  /** A call on the user's own key, without a request id. */
  predicate OwnKeyCall(p: UsageLedger.Params, who: string) { p.requestId == None && p.userId == who }

  function Round(u: User, p: UsageLedger.Params, pace: nat): seq<Event> {
    [Ask(u, NotText, true), Settle(0, p), Tick(pace)]
  }

  lemma RoundAddsOne(w: World, start: int, pace: nat, n: nat, k: nat, u: User, p: UsageLedger.Params, who: string,
      calendar: int -> int)
    requires Paced(w, start, pace, n) && Bearable(u.plan, pace, n) && Unhindered(u) && OwnKeyCall(p, who) && k >= 1
    ensures Possible(w, Round(u, p, pace), k, who, u.plan, calendar) && NothingAbandoned(Round(u, p, pace))
    ensures Paced(Run(w, Round(u, p, pace), who, calendar), start, pace, n + 1)
  {
    PacedCallIsAdmitted(w, start, pace, n, u, who, calendar);
    var asked := Next(w, Ask(u, NotText, true), who, calendar);
    var settled := Next(asked, Settle(0, p), who, calendar);
    var end := Next(settled, Tick(pace), who, calendar);
    assert asked.inFlight == [w.now] && settled.inFlight == [];
    assert Possible(end, [], k, who, u.plan, calendar) && Run(end, [], who, calendar) == end;
    assert [Tick(pace)][1..] == [];
    assert Possible(settled, [Tick(pace)], k, who, u.plan, calendar);
    assert Run(settled, [Tick(pace)], who, calendar) == end;
    assert [Settle(0, p), Tick(pace)][1..] == [Tick(pace)];
    assert Possible(asked, [Settle(0, p), Tick(pace)], k, who, u.plan, calendar);
    assert Run(asked, [Settle(0, p), Tick(pace)], who, calendar) == end;
    assert Round(u, p, pace)[1..] == [Settle(0, p), Tick(pace)];
  }

  lemma {:induction false} Climb(start: int, pace: nat, n: nat, k: nat, u: User, p: UsageLedger.Params, who: string,
      calendar: int -> int)
    returns (es: seq<Event>)
    requires n == 0 || Bearable(u.plan, pace, n - 1)
    requires Unhindered(u) && OwnKeyCall(p, who) && k >= 1
    ensures Possible(Start([], start), es, k, who, u.plan, calendar) && NothingAbandoned(es)
    ensures Paced(Run(Start([], start), es, who, calendar), start, pace, n)
    decreases n
  {
    if n == 0 {
      es := [];
    } else {
      var before := Climb(start, pace, n - 1, k, u, p, who, calendar);
      var w := Run(Start([], start), before, who, calendar);
      RoundAddsOne(w, start, pace, n - 1, k, u, p, who, calendar);
      Concatenate(Start([], start), before, Round(u, p, pace), k, who, u.plan, calendar);
      es := before + Round(u, p, pace);
    }
  }

  /** One of the two rates: its span, its limit, and a pace at which the limit is only just not met. */
  predicate IsRate(plan: Plan, span: int, limit: nat, pace: nat) {
    || (span == MINUTE && limit == PerMinute(plan) && pace == 0)
    || (span == HOUR && limit == PerHour(plan) && pace == Pace(plan))
  }

  lemma RatePace(start: int, plan: Plan, span: int, limit: nat, pace: nat)
    requires IsRate(plan, span, limit, pace)
    ensures limit >= 1 && Bearable(plan, pace, limit - 1) && (limit >= 2 ==> Bearable(plan, pace, limit - 2))
    ensures Moment(start, pace, limit - 1) <= start + span
  {
    MomentAtOnce(start, limit - 1);
    MomentAtPace(start, plan, limit - 1);
  }

  /** Paced calls that fit into the span fill one window. */
  lemma PacedFills(w: World, start: int, pace: nat, n: nat, span: int)
    requires Paced(w, start, pace, n) && w.now <= start + span
    ensures InSpan(w.settled, start, span) == n && start <= w.now <= start + span
  {
    MomentsInOrder(start, pace, 0, n);
    forall i | 0 <= i < n ensures start <= w.settled[i] <= start + span {
      MomentsInOrder(start, pace, 0, i);
      MomentsInOrder(start, pace, i, n);
    }
    AllInWindow(w.settled, start, start + span);
  }

  /** `n` paced calls, then k checks at once. */
  lemma ClimbThenAsk(start: int, pace: nat, n: nat, span: int, k: nat, u: User, p: UsageLedger.Params, who: string,
                     calendar: int -> int) returns (es: seq<Event>)
    requires (n > 0 ==> Bearable(u.plan, pace, n - 1)) && Bearable(u.plan, pace, n)
    requires Moment(start, pace, n) <= start + span
    requires Unhindered(u) && OwnKeyCall(p, who) && k >= 1
    ensures Possible(Start([], start), es, k, who, u.plan, calendar) && NothingAbandoned(es)
    ensures Admitted(Run(Start([], start), es, who, calendar), start, span) == n + k
  {
    var climb := Climb(start, pace, n, k, u, p, who, calendar);
    var top := Run(Start([], start), climb, who, calendar);
    PacedCallIsAdmitted(top, start, pace, n, u, who, calendar);
    PacedFills(top, start, pace, n, span);
    var asks := AsksInARow(top, k, k, u, NotText, true, who, calendar);
    Concatenate(Start([], start), climb, asks, k, who, u.plan, calendar);
    es := climb + asks;
  }

  /**
   * The bound is exact for both rates and every plan: from an empty table some run with at most k calls
   * unrecorded brings one window to limit - 1 + k admitted calls.
   */
  lemma RateBoundIsReached(now: int, span: int, limit: nat, pace: nat, k: nat, p: UsageLedger.Params, who: string,
      plan: Plan, calendar: int -> int)
    returns (es: seq<Event>)
    requires IsRate(plan, span, limit, pace) && OwnKeyCall(p, who) && k >= 1
    ensures Possible(Start([], now), es, k, who, plan, calendar) && NothingAbandoned(es)
    ensures Admitted(Run(Start([], now), es, who, calendar), now, span) == limit - 1 + k
  {
    var u := User(who, plan, 0, true, None, None);
    RatePace(now, plan, span, limit, pace);
    es := ClimbThenAsk(now, pace, limit - 1, span, k, u, p, who, calendar);
  }

  /** No possible run from an empty table in which no call is given up passes `limit` in any window of `span`. */
  ghost predicate RateHolds(now: int, span: int, limit: nat, k: nat, who: string, plan: Plan, calendar: int -> int) {
    forall es, from :: Possible(Start([], now), es, k, who, plan, calendar) && NothingAbandoned(es) ==>
      Admitted(Run(Start([], now), es, who, calendar), from, span) <= limit
  }

  lemma RateHoldsIff(now: int, span: int, limit: nat, pace: nat, k: nat, who: string, plan: Plan, calendar: int -> int)
    requires IsRate(plan, span, limit, pace)
    ensures RateHolds(now, span, limit, k, who, plan, calendar) <==> k <= 1
  {
    if k <= 1 {
      forall es, from | Possible(Start([], now), es, k, who, plan, calendar) && NothingAbandoned(es)
        ensures Admitted(Run(Start([], now), es, who, calendar), from, span) <= limit
      {
        AdmittedCallsInEveryWindow([], now, es, k, who, plan, calendar, from);
      }
    } else {
      var p := UsageLedger.Params(None, who, who, 0, 0, true, UsageLedger.Success);
      var es := RateBoundIsReached(now, span, limit, pace, k, p, who, plan, calendar);
    }
  }

  /** Both rates are kept by every run, on every plan, exactly when at most one call is unrecorded at a time. */
  lemma RatesHoldExactly(now: int, k: nat, who: string, plan: Plan, calendar: int -> int)
    ensures RateHolds(now, MINUTE, PerMinute(plan), k, who, plan, calendar) <==> k <= 1
    ensures RateHolds(now, HOUR, PerHour(plan), k, who, plan, calendar) <==> k <= 1
  {
    RateHoldsIff(now, MINUTE, PerMinute(plan), 0, k, who, plan, calendar);
    RateHoldsIff(now, HOUR, PerHour(plan), Pace(plan), k, who, plan, calendar);
  }
}
