/**
 * Runs of the circuit breaker together with the quota gate (src/lib/ai-circuit-breaker.ts,
 * src/lib/ai-quota.ts, src/app/api/cron/ai-circuit-check/route.ts): what a manual trip guarantees until
 * it is released or the UTC day ends.
 */
module CircuitRuns {
  import opened CircuitBreaker
  import opened Outcomes
  import opened QuotaGate
  import opened UsageLedger

  datatype World = World(users: seq<User>, setting: Setting, rows: seq<Row>, now: int)

  datatype Event =
    | Tick(ms: nat)
    | Register(user: User)
    | ChangePlan(index: nat, plan: Plan)
    | Amend(index: nat, tier: Tier, emailVerified: bool)
    | Rewrite(index: nat, user: User)
    | Usage(rows: seq<Row>)
    | Cron(thresholds: Thresholds)
    | Trip
    | Release

  /** The cron tops up a manual trip in force, and otherwise applies what today's cost calls for. */
  function CronState(w: World, t: Thresholds): State {
    if ActiveManualTripUntil(w.setting, w.now).Some? then FreeTrialStopped
    else EvaluateCircuit(TodayCents(w.rows, w.now), t)
  }

  function Next(w: World, e: Event): World {
    match e
    case Tick(ms) => w.(now := w.now + ms)
    case Register(u) => w.(users := w.users + [u])
    case ChangePlan(i, plan) => if i < |w.users| then w.(users := w.users[i := w.users[i].(plan := plan)]) else w
    case Amend(i, tier, verified) =>
      if i < |w.users| then w.(users := w.users[i := w.users[i].(tier := tier, emailVerified := verified)]) else w
    case Rewrite(i, u) => if i < |w.users| then w.(users := w.users[i := u]) else w
    case Usage(rows) => w.(rows := rows)
    case Cron(t) =>
      w.(users := Applied(w.users, CronState(w, t), ActiveManualTripUntil(w.setting, w.now).Some?, EndOfUtcDay(w.now)))
    case Trip =>
      w.(setting := Until(Some(EndOfUtcDay(w.now))),
         users := Applied(w.users, FreeTrialStopped, true, EndOfUtcDay(w.now)))
    case Release => w.(setting := NotText, users := AllReleased(w.users))
  }

  function Run(w: World, es: seq<Event>): World
    decreases |es|
  {
    if es == [] then w else Run(Next(w, es[0]), es[1..])
  }

  /** The breaker's own methods take these steps. */
  method Step(b: Breaker, ghost w: World, e: Event, now: int, rows: seq<Row>)
    requires b.users == w.users && b.setting == w.setting && now == w.now && rows == w.rows
    requires e.Cron? || e.Trip? || e.Release?
    modifies b
    ensures b.users == Next(w, e).users && b.setting == Next(w, e).setting
  {
    match e
    case Cron(t) =>
      var manual := ActiveManualTripUntil(b.setting, now).Some?;
      var state := if manual then FreeTrialStopped else EvaluateCircuit(TodayCents(rows, now), t);
      var affected := b.ApplyCircuit(state, manual, now);
    case Trip =>
      var affected := b.TripCircuitManually(now);
    case Release =>
      var released := b.ReleaseCircuit();
  }

  lemma {:induction false} TimeGoesOn(w: World, es: seq<Event>)
    ensures w.now <= Run(w, es).now
    decreases |es|
  {
    if es != [] { TimeGoesOn(Next(w, es[0]), es[1..]); }
  }

  /** Within the day of a trip only a release clears the stored value. */
  lemma {:induction false} TripStays(w: World, es: seq<Event>, end: int)
    requires w.setting == Until(Some(end)) && EndOfUtcDay(w.now) == end
    requires Release !in es && Run(w, es).now <= end
    ensures Run(w, es).setting == Until(Some(end))
    decreases |es|
  {
    if es != [] {
      var next := Next(w, es[0]);
      TimeGoesOn(next, es[1..]);
      SameDay(w.now, next.now);
      assert Release != es[0];
      TripStays(next, es[1..], end);
    }
  }

  /**
   * From a manual trip until its release or the last millisecond of that UTC day, whatever registers,
   * changes plan, is banned or unbanned, recorded or applied by the cron, the gate lets no free or trial
   * user through, on the platform's key or on their own; and the status reads stopped and manual.
   */
  lemma TripHolds(w: World, es: seq<Event>, u: User, rows: seq<Row>, usedByok: bool, calendar: int -> int,
                  st: CircuitStatus, t: Thresholds)
    requires Release !in es && Run(Next(w, Trip), es).now < EndOfUtcDay(w.now)
    ensures var end := Run(Next(w, Trip), es);
            && (u.plan == Free || u.plan == Trial ==>
                  Check(Some(u), end.setting, rows, u.id, usedByok, end.now, calendar).Denied?)
            && (IsStatus(st, end.users, end.setting, end.rows, end.now, t) ==>
                  st.state == FreeTrialStopped && st.banState == FreeTrialStopped && st.manual)
  {
    TripStays(Next(w, Trip), es, EndOfUtcDay(w.now));
  }

  lemma {:induction false} SettingStays(w: World, es: seq<Event>)
    requires Release !in es && Trip !in es
    ensures Run(w, es).setting == w.setting
    decreases |es|
  {
    if es != [] {
      assert es[0] != Release && es[0] != Trip;
      SettingStays(Next(w, es[0]), es[1..]);
    }
  }

  /**
   * The trip ends one millisecond before midnight and no sooner: a free or trial user who arrives later,
   * in good standing and below the limits, is let through exactly from 23:59:59.999 on.
   */
  lemma TripEndsExactly(w: World, es: seq<Event>, u: User, rows: seq<Row>, usedByok: bool, calendar: int -> int)
    requires Release !in es && Trip !in es
    requires (u.plan == Free || u.plan == Trial) && InGoodStanding(u) && u.bannedUntil == None
    requires var now := Run(Next(w, Trip), es).now;
             && WithinMonth(rows, u.id, MonthlyLimit(u.plan, u.tier, usedByok), calendar(now))
             && WithinRates(rows, u.id, u.plan, now)
    ensures var end := Run(Next(w, Trip), es);
            Check(Some(u), end.setting, rows, u.id, usedByok, end.now, calendar).Allowed?
            <==> end.now >= EndOfUtcDay(w.now)
  {
    SettingStays(Next(w, Trip), es);
  }

  // ---------------------------------------------------------------- users caught by the trip

  predicate HeldPast(u: User, end: int) { u.bannedUntil.Some? && u.bannedUntil.value >= end }

  /** The step is no release and does not write user `i`'s row from outside, as another ban or an unban does. */
  predicate KeepsBan(e: Event, i: nat) { !e.Release? && !(e.Rewrite? && e.index == i) }

  lemma {:induction false} HoldStays(w: World, es: seq<Event>, i: nat, end: int)
    requires forall e :: e in es ==> KeepsBan(e, i)
    requires i < |w.users| && HeldPast(w.users[i], end)
    ensures i < |Run(w, es).users| && HeldPast(Run(w, es).users[i], end)
    decreases |es|
  {
    if es != [] {
      assert KeepsBan(es[0], i);
      assert HeldPast(Next(w, es[0]).users[i], end);
      HoldStays(Next(w, es[0]), es[1..], i, end);
    }
  }

  /** The step is a trip or a cron run that stops the plan user `i` has at that moment. */
  predicate HitBy(w: World, e: Event, i: nat) {
    i < |w.users| &&
    match e
    case Trip => Stops(FreeTrialStopped, w.users[i].plan)
    case Cron(t) => Stops(CronState(w, t), w.users[i].plan)
    case _ => false
  }

  /** Some step of the run hits user `i`. */
  predicate Caught(w: World, es: seq<Event>, i: nat)
    decreases |es|
  {
    es != [] && (HitBy(w, es[0], i) || Caught(Next(w, es[0]), es[1..], i))
  }

  /** A ban held before, extended to the end of the day if the user is caught. */
  function BanAfter(before: Option<int>, caught: bool, end: int): Option<int> {
    if caught && (before.None? || before.value < end) then Some(end) else before
  }

  lemma HitSetsBan(w: World, e: Event, i: nat)
    requires KeepsBan(e, i) && i < |w.users|
    ensures i < |Next(w, e).users|
    ensures Next(w, e).users[i].bannedUntil == BanAfter(w.users[i].bannedUntil, HitBy(w, e, i), EndOfUtcDay(w.now))
  {
  }

  /** Within a day a user's ban is the one from before, extended exactly if some step of the run hits the user. */
  lemma {:induction false} BanExactly(w: World, es: seq<Event>, i: nat, end: int)
    requires (forall e :: e in es ==> KeepsBan(e, i)) && i < |w.users|
    requires EndOfUtcDay(w.now) == end && Run(w, es).now <= end
    ensures i < |Run(w, es).users|
    ensures Run(w, es).users[i].bannedUntil == BanAfter(w.users[i].bannedUntil, Caught(w, es, i), end)
    decreases |es|
  {
    if es != [] {
      var next := Next(w, es[0]);
      assert KeepsBan(es[0], i);
      HitSetsBan(w, es[0], i);
      TimeGoesOn(next, es[1..]);
      SameDay(w.now, next.now);
      BanExactly(next, es[1..], i, end);
    }
  }

  /** The account is in good standing and below every limit. */
  predicate Eligible(u: User, rows: seq<Row>, usedByok: bool, now: int, calendar: int -> int) {
    && InGoodStanding(u) && WithinRates(rows, u.id, u.plan, now)
    && WithinMonth(rows, u.id, MonthlyLimit(u.plan, u.tier, usedByok), calendar(now))
  }

  /** No ban from before still holds. */
  predicate Over(before: Option<int>, now: int) { before.None? || before.value <= now }

  /**
   * Who is let through on a day, from any state on: exactly the eligible users who are not on a plan that a
   * trip in force stops, were hit by no trip and no cron run since - whatever plan they had then - and are
   * not held by a ban from before. A paid plan alone is not enough.
   */
  lemma AllowedExactly(w: World, es: seq<Event>, i: nat, rows: seq<Row>, usedByok: bool, calendar: int -> int)
    requires i < |w.users| && forall e :: e in es ==> KeepsBan(e, i)
    requires Run(w, es).now < EndOfUtcDay(w.now)
    ensures var end := Run(w, es);
            i < |end.users| &&
            var u := end.users[i];
            (Check(Some(u), end.setting, rows, u.id, usedByok, end.now, calendar).Allowed?
             <==>
             && Eligible(u, rows, usedByok, end.now, calendar)
             && !(Stops(FreeTrialStopped, u.plan) && ActiveManualTripUntil(end.setting, end.now).Some?)
             && !Caught(w, es, i)
             && Over(w.users[i].bannedUntil, end.now))
  {
    BanExactly(w, es, i, EndOfUtcDay(w.now));
  }

  /** On the day of a trip: exactly the eligible users on a paid plan whom neither the trip nor a cron run ever hit. */
  lemma AllowedDuringTripExactly(w: World, es: seq<Event>, i: nat, rows: seq<Row>, usedByok: bool, calendar: int -> int)
    requires i < |w.users| && forall e :: e in es ==> KeepsBan(e, i)
    requires Run(Next(w, Trip), es).now < EndOfUtcDay(w.now)
    ensures var end := Run(Next(w, Trip), es);
            i < |end.users| &&
            var u := end.users[i];
            (Check(Some(u), end.setting, rows, u.id, usedByok, end.now, calendar).Allowed?
             <==>
             && Eligible(u, rows, usedByok, end.now, calendar)
             && !Stops(FreeTrialStopped, u.plan)
             && !Caught(w, [Trip] + es, i)
             && Over(w.users[i].bannedUntil, end.now))
  {
    assert ([Trip] + es)[1..] == es && KeepsBan(Trip, i);
    AllowedExactly(w, [Trip] + es, i, rows, usedByok, calendar);
    TripStays(Next(w, Trip), es, EndOfUtcDay(w.now));
  }

  lemma {:induction false} RunConcat(w: World, es: seq<Event>, fs: seq<Event>)
    ensures Run(w, es + fs) == Run(Run(w, es), fs)
    decreases |es|
  {
    if es == [] {
      assert [] + fs == fs;
    } else {
      assert (es + fs)[1..] == es[1..] + fs;
      RunConcat(Next(w, es[0]), es[1..], fs);
    }
  }

  /** Where the last release, or the last write to user `i`'s row from outside, stands in a run. */
  lemma {:induction false} LastWrite(es: seq<Event>, i: nat) returns (n: nat)
    ensures n <= |es| && (forall e :: e in es[n..] ==> KeepsBan(e, i)) && (n > 0 ==> !KeepsBan(es[n - 1], i))
    decreases |es|
  {
    if es == [] || !KeepsBan(es[|es| - 1], i) {
      n := |es|;
    } else {
      var m := |es| - 1;
      n := LastWrite(es[..m], i);
      assert es[n..] == es[..m][n..] + [es[m]];
    }
  }

  /**
   * Releases, other bans and unbans included: whoever is let through is decided by the ban left by the last
   * of them and by what hits the user after it.
   */
  lemma AllowedAfterLastWrite(w: World, es: seq<Event>, i: nat, rows: seq<Row>, usedByok: bool, calendar: int -> int)
    returns (n: nat)
    ensures n <= |es| && (forall e :: e in es[n..] ==> KeepsBan(e, i)) && (n > 0 ==> !KeepsBan(es[n - 1], i))
    ensures var mid, end := Run(w, es[..n]), Run(w, es);
            i < |mid.users| && end.now < EndOfUtcDay(mid.now) ==>
              i < |end.users| &&
              var u := end.users[i];
              (Check(Some(u), end.setting, rows, u.id, usedByok, end.now, calendar).Allowed?
               <==>
               && Eligible(u, rows, usedByok, end.now, calendar)
               && !(Stops(FreeTrialStopped, u.plan) && ActiveManualTripUntil(end.setting, end.now).Some?)
               && !Caught(mid, es[n..], i)
               && Over(mid.users[i].bannedUntil, end.now))
  {
    n := LastWrite(es, i);
    assert es == es[..n] + es[n..];
    RunConcat(w, es[..n], es[n..]);
    var mid := Run(w, es[..n]);
    if i < |mid.users| && Run(w, es).now < EndOfUtcDay(mid.now) {
      AllowedExactly(mid, es[n..], i, rows, usedByok, calendar);
    }
  }

  /**
   * An instance: of two users on the pro plan, the one who upgraded after the trip is refused, the other is
   * let through.
   */
  lemma UpgradedUserIsRefused(now: int, calendar: int -> int)
    requires now < EndOfUtcDay(now)
    ensures var upgraded, paid := User("a", Trial, 0, true, None, None), User("b", Pro, 0, true, None, None);
            var end := Run(World([upgraded, paid], NotText, [], now), [Trip, ChangePlan(0, Pro)]);
            && |end.users| == 2 && end.users[0].plan == end.users[1].plan == Pro
            && Check(Some(end.users[0]), end.setting, [], "a", false, now, calendar).Denied?
            && Check(Some(end.users[1]), end.setting, [], "b", false, now, calendar).Allowed?
  {
    var w := World([User("a", Trial, 0, true, None, None), User("b", Pro, 0, true, None, None)], NotText, [], now);
    var tripped := Next(w, Trip);
    var end := Next(tripped, ChangePlan(0, Pro));
    assert [Trip, ChangePlan(0, Pro)][1..] == [ChangePlan(0, Pro)] && [ChangePlan(0, Pro)][1..] == [];
    assert Run(tripped, [ChangePlan(0, Pro)]) == Run(end, []) == end;
    assert Run(w, [Trip, ChangePlan(0, Pro)]) == end;
  }

  /** In particular a user caught by the trip stays out for the rest of the day even after moving to a paid plan. */
  lemma CaughtUserStaysOutOnAnyPlan(w: World, es: seq<Event>, i: nat, rows: seq<Row>, usedByok: bool,
      calendar: int -> int)
    requires i < |w.users| && (w.users[i].plan == Free || w.users[i].plan == Trial)
    requires forall e :: e in es ==> KeepsBan(e, i)
    requires Run(Next(w, Trip), es).now < EndOfUtcDay(w.now)
    ensures var end := Run(Next(w, Trip), es);
            && i < |end.users|
            && Check(Some(end.users[i]), end.setting, rows, end.users[i].id, usedByok, end.now, calendar).Denied?
  {
    HoldStays(Next(w, Trip), es, i, EndOfUtcDay(w.now));
  }

  /** One cron run during a trip puts a ban to the end of the day on every free and trial user, latecomers included. */
  lemma CronCoversLatecomers(w: World, es: seq<Event>, t: Thresholds, i: nat)
    requires Release !in es && Run(Next(w, Trip), es).now < EndOfUtcDay(w.now)
    requires i < |Run(Next(w, Trip), es).users|
    requires Stops(FreeTrialStopped, Run(Next(w, Trip), es).users[i].plan)
    ensures HeldPast(Next(Run(Next(w, Trip), es), Cron(t)).users[i], EndOfUtcDay(w.now))
  {
    TripStays(Next(w, Trip), es, EndOfUtcDay(w.now));
    TimeGoesOn(Next(w, Trip), es);
    SameDay(w.now, Run(Next(w, Trip), es).now);
  }
}
