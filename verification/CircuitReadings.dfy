/**
 * What the circuit breaker writes and what its status says, column by column and by cost, thresholds and bans alone
 * (src/lib/ai-circuit-breaker.ts).
 */
module CircuitReadings {
  import opened CircuitBreaker
  import opened CircuitRuns
  import opened Counting
  import opened Outcomes
  import opened UsageLedger

  // ---------------------------------------------------------------- days and trips

  /** `end` is the last millisecond of the day `now` falls on. */
  predicate LastOfDay(end: int, now: int) {
    end % 86_400_000 == 86_399_999 && end / 86_400_000 == now / 86_400_000
  }

  lemma EndOfDayExactly(end: int, now: int)
    ensures EndOfUtcDay(now) == end <==> LastOfDay(end, now)
  {
    assert now == now / 86_400_000 * 86_400_000 + now % 86_400_000;
    assert end == end / 86_400_000 * 86_400_000 + end % 86_400_000;
    assert EndOfUtcDay(now) == now / 86_400_000 * 86_400_000 + 86_399_999;
  }

  /** A trip is stored that ends later than `now`. */
  predicate InTrip(setting: Setting, now: int) { setting.Until? && setting.at.Some? && setting.at.value > now }

  // ---------------------------------------------------------------- what is written

  predicate Affects(s: State, plan: Plan) {
    (s == FreeStopped && plan == Free) || (s == FreeTrialStopped && (plan == Free || plan == Trial))
  }

  /** A user on an affected plan whose ban, if any, ends before `end`. */
  predicate Bannable(u: User, s: State, end: int) {
    Affects(s, u.plan) && (u.bannedUntil == None || u.bannedUntil.value < end)
  }

  function BannableBy(s: State, end: int): User -> bool { (u: User) => Bannable(u, s, end) }

  /** The reason that is written. */
  function Text(s: State, manual: bool): string {
    "全局成本熔断（" + (if s == FreeTrialStopped then "free_trial_stopped" else "free_stopped")
    + (if manual then "，manual" else "") + "）"
  }

  lemma ReasonIsText(s: State, manual: bool)
    requires s != Closed
    ensures BanReason(s, manual) == Text(s, manual)
  {
    assert PREFIX + "（" == "全局成本熔断（";
    assert "，" + MANUAL == "，manual";
  }

  /** Applying bans exactly the users it affects to the end of the day, with the reason, and counts them. */
  lemma AppliedExactly(users: seq<User>, s: State, manual: bool, now: int, end: int, i: nat)
    requires LastOfDay(end, now) && i < |users|
    ensures var after := Applied(users, s, manual, EndOfUtcDay(now))[i];
            if Bannable(users[i], s, end)
            then after == users[i].(bannedUntil := Some(end), banReason := Some(Text(s, manual)))
            else after == users[i]
  {
    EndOfDayExactly(end, now);
    if s != Closed { ReasonIsText(s, manual); }
  }

  lemma {:induction false} TouchedAreCounted(users: seq<User>, s: State, end: int)
    ensures CountTouched(users, s, end) == HowMany(BannableBy(s, end), users)
  {
    if users == [] {
      HowManyEmpty(BannableBy(s, end));
    } else {
      TouchedAreCounted(users[..|users| - 1], s, end);
      HowManyLast(BannableBy(s, end), users);
    }
  }

  /** The reason was written by the breaker. */
  predicate Marked(reason: Option<string>) { reason.Some? && "全局成本熔断" <= reason.value }

  predicate Releasable(u: User) { Marked(u.banReason) }

  lemma MarkedIsOfBreaker(reason: Option<string>)
    ensures OfBreaker(reason) <==> Marked(reason)
  {
  }

  /** Releasing clears the ban and reason of exactly the users who carry a breaker's reason. */
  lemma ReleasedExactly(users: seq<User>, i: nat)
    requires i < |users|
    ensures AllReleased(users)[i]
         == if Releasable(users[i]) then users[i].(bannedUntil := None, banReason := None) else users[i]
  {
    MarkedIsOfBreaker(users[i].banReason);
  }

  lemma {:induction false} ReleasedAreCounted(users: seq<User>)
    ensures CountOfBreaker(users) == HowMany(Releasable, users)
  {
    if users == [] {
      HowManyEmpty(Releasable);
    } else {
      ReleasedAreCounted(users[..|users| - 1]);
      HowManyLast(Releasable, users);
      MarkedIsOfBreaker(users[|users| - 1].banReason);
    }
  }

  // ---------------------------------------------------------------- today's cost

  /** A billable call on the platform's key, today or later. */
  predicate CostsToday(r: Row, now: int) {
    r.createdAt / 86_400_000 >= now / 86_400_000 && !r.usedByok && (r.status == Success || r.status == ApiError)
  }

  lemma {:induction false} CostConcat(a: seq<Row>, b: seq<Row>, now: int)
    ensures TodayCents(a + b, now) == TodayCents(a, now) + TodayCents(b, now)
  {
    if a == [] {
      assert a + b == b;
    } else {
      assert (a + b)[1..] == a[1..] + b;
      CostConcat(a[1..], b, now);
    }
  }

  lemma CostOfRow(r: Row, now: int)
    ensures TodayCents([r], now) == if CostsToday(r, now) then r.costCents else 0
  {
    assert StartOfUtcDay(now) == now / 86_400_000 * 86_400_000;
    assert [r][1..] == [];
  }

  /** The rows that cost today, in their order. */
  function Costing(rows: seq<Row>, now: int): seq<Row> {
    if rows == [] then []
    else Costing(rows[..|rows| - 1], now) + if CostsToday(rows[|rows| - 1], now) then [rows[|rows| - 1]] else []
  }

  function SumOfCosts(rows: seq<Row>): nat {
    if rows == [] then 0 else SumOfCosts(rows[..|rows| - 1]) + rows[|rows| - 1].costCents
  }

  /** Today's cost is the sum over the rows that cost today. */
  lemma {:induction false} TodayIsSum(rows: seq<Row>, now: int)
    ensures TodayCents(rows, now) == SumOfCosts(Costing(rows, now))
  {
    if rows != [] {
      var init, last := rows[..|rows| - 1], rows[|rows| - 1];
      assert rows == init + [last];
      TodayIsSum(init, now);
      CostConcat(init, [last], now);
      CostOfRow(last, now);
      if CostsToday(last, now) {
        assert Costing(rows, now)[..|Costing(rows, now)| - 1] == Costing(init, now);
      } else {
        assert Costing(rows, now) == Costing(init, now);
      }
    }
  }

  // ---------------------------------------------------------------- the status

  /** The user is held now by a ban whose reason names a state at least as severe as `s`. */
  predicate HeldAs(u: User, now: int, s: State) {
    && Marked(u.banReason) && u.bannedUntil.Some? && u.bannedUntil.value > now
    && (s == FreeTrialStopped ==> Contains(u.banReason.value, "free_trial_stopped"))
    && (s == FreeStopped ==> Contains(u.banReason.value, "free_trial_stopped")
                             || Contains(u.banReason.value, "free_stopped"))
  }

  predicate HeldByHand(u: User, now: int) { HeldAs(u, now, Closed) && Contains(u.banReason.value, "manual") }

  function HeldAt(now: int): User -> bool { (u: User) => HeldAs(u, now, Closed) }

  lemma {:induction false} ReasonsOfHeld(users: seq<User>, now: int)
    ensures |ReasonsInForce(users, now)| == HowMany(HeldAt(now), users)
    ensures forall u :: u in users && HeldAs(u, now, Closed) ==> u.banReason in ReasonsInForce(users, now)
    ensures forall r :: r in ReasonsInForce(users, now) ==>
      exists u :: u in users && HeldAs(u, now, Closed) && u.banReason == r
  {
    if users == [] {
      HowManyEmpty(HeldAt(now));
    } else {
      ReasonsOfHeld(users[1..], now);
      HowManyFirst(HeldAt(now), users);
      MarkedIsOfBreaker(users[0].banReason);
      assert users == [users[0]] + users[1..];
    }
  }

  ghost predicate SomeHeld(users: seq<User>, now: int, s: State) { exists u :: u in users && HeldAs(u, now, s) }

  ghost predicate SomeHeldByHand(users: seq<User>, now: int) { exists u :: u in users && HeldByHand(u, now) }

  lemma LevelOfHeld(u: User, now: int)
    requires HeldAs(u, now, Closed)
    ensures OfBreaker(u.banReason)
    ensures Level(u.banReason.value) == FreeTrialStopped <==> HeldAs(u, now, FreeTrialStopped)
    ensures Level(u.banReason.value) != Closed <==> HeldAs(u, now, FreeStopped)
    ensures SaysManual(u.banReason) <==> HeldByHand(u, now)
  {
    MarkedIsOfBreaker(u.banReason);
  }

  /** What the bans in force say together. */
  lemma SummaryOfHeld(users: seq<User>, now: int, s: State, m: bool)
    requires Summarises(ReasonsInForce(users, now), s, m)
    ensures s == FreeTrialStopped <==> SomeHeld(users, now, FreeTrialStopped)
    ensures s != Closed <==> SomeHeld(users, now, FreeStopped)
    ensures m <==> SomeHeldByHand(users, now)
  {
    var reasons := ReasonsInForce(users, now);
    ReasonsOfHeld(users, now);
    forall u | u in users && HeldAs(u, now, Closed)
      ensures HeldAs(u, now, FreeTrialStopped) ==> s == FreeTrialStopped
      ensures HeldAs(u, now, FreeStopped) ==> s != Closed
      ensures HeldByHand(u, now) ==> m
    {
      LevelOfHeld(u, now);
      assert u.banReason in reasons;
    }
    if s != Closed {
      var r :| r in reasons && Says(r, s);
      var u :| u in users && HeldAs(u, now, Closed) && u.banReason == r;
      LevelOfHeld(u, now);
    }
    if m {
      var r :| r in reasons && SaysManual(r);
      var u :| u in users && HeldAs(u, now, Closed) && u.banReason == r;
      LevelOfHeld(u, now);
    }
  }

  /** The status by today's cost against the thresholds, the trip in force and the bans in force. */
  lemma StatusExactly(st: CircuitStatus, users: seq<User>, setting: Setting, rows: seq<Row>, now: int, t: Thresholds)
    requires IsStatus(st, users, setting, rows, now, t)
    ensures st.todayCents == SumOfCosts(Costing(rows, now))
    ensures st.costState == FreeTrialStopped <==> st.todayCents >= t.trialStop
    ensures st.costState == Closed <==> st.todayCents < t.trialStop && st.todayCents < t.freeStop
    ensures st.banState == FreeTrialStopped <==> InTrip(setting, now) || SomeHeld(users, now, FreeTrialStopped)
    ensures st.banState == Closed <==> !InTrip(setting, now) && !SomeHeld(users, now, FreeStopped)
    ensures st.state == FreeTrialStopped <==> st.costState == FreeTrialStopped || st.banState == FreeTrialStopped
    ensures st.state == Closed <==> st.costState == Closed && st.banState == Closed
    ensures st.manual <==> InTrip(setting, now) || SomeHeldByHand(users, now)
    ensures st.bannedUsers == HowMany(HeldAt(now), users)
  {
    TodayIsSum(rows, now);
    ReasonsOfHeld(users, now);
    var trip := ActiveManualTripUntil(setting, now);
    assert trip.Some? <==> InTrip(setting, now);
    var s, m :| Summarises(ReasonsInForce(users, now), s, m)
                && st.banState == (if trip.Some? then MoreSevere(s, FreeTrialStopped) else s)
                && st.manual == (m || trip.Some?);
    SummaryOfHeld(users, now, s, m);
  }

  /** What a cron run applies, by the trip in force and today's cost. */
  lemma CronExactly(w: World, t: Thresholds)
    ensures var cents := SumOfCosts(Costing(w.rows, w.now));
            && (CronState(w, t) == FreeTrialStopped <==> InTrip(w.setting, w.now) || cents >= t.trialStop)
            && (CronState(w, t) == Closed <==> !InTrip(w.setting, w.now) && cents < t.trialStop && cents < t.freeStop)
  {
    TodayIsSum(w.rows, w.now);
  }
}
