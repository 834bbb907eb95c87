/**
 * The rules of the quota gate in plain numbers: the limits of each plan and risk tier, what counts against them, and
 * which refusal an account gets (src/lib/ai-quota.ts, src/lib/risk-tier.ts).
 */
module QuotaRules {
  import opened CircuitBreaker
  import opened CircuitReadings
  import opened Counting
  import opened Outcomes
  import opened QuotaGate
  import opened UsageLedger

  // ---------------------------------------------------------------- the limits

  /** Calls per month on the risk tiers 0, 1 and 2; enterprise accounts have no such limit. */
  const FREE_MONTH: seq<nat> := [20, 10, 5]
  const TRIAL_MONTH: seq<nat> := [100, 50, 25]
  const PAID_MONTH: seq<nat> := [500, 250, 125]

  /** The month's limit of an account that may use the AI. */
  ghost predicate MonthLimitIs(p: Plan, t: Tier, usedByok: bool, limit: Option<nat>)
    requires t <= 2
  {
    && (usedByok || p == Enterprise ==> limit == None)
    && (!usedByok && p == Free ==> limit == Some(FREE_MONTH[t]))
    && (!usedByok && p == Trial ==> limit == Some(TRIAL_MONTH[t]))
    && (!usedByok && (p == Pro || p == Team) ==> limit == Some(PAID_MONTH[t]))
  }

  lemma MonthLimitExactly(p: Plan, t: Tier, usedByok: bool)
    requires t <= 2
    ensures MonthLimitIs(p, t, usedByok, MonthlyLimit(p, t, usedByok))
  {
  }

  /** Calls per minute and per hour. */
  predicate RatesAre(p: Plan, minute: nat, hour: nat) {
    || (p == Free && minute == 5 && hour == 20)
    || (p == Trial && minute == 15 && hour == 80)
    || ((p == Pro || p == Team) && minute == 30 && hour == 200)
    || (p == Enterprise && minute == 200 && hour == 1000)
  }

  lemma RatesExactly(p: Plan)
    ensures RatesAre(p, PerMinute(p), PerHour(p))
  {
  }

  // ---------------------------------------------------------------- what counts

  /** A platform call of the user in the month that reached the provider. */
  function MonthCall(userId: string, period: int): Row -> bool {
    (r: Row) => r.userId == userId && r.period == period && !r.usedByok && (r.status == Success || r.status == ApiError)
  }

  /** Any call of the user since the moment. */
  function CallSince(userId: string, since: int): Row -> bool {
    (r: Row) => r.userId == userId && r.createdAt >= since
  }

  lemma {:induction false} CountsExactly(rows: seq<Row>, userId: string, period: int, since: int)
    ensures CountBillableCalls(rows, userId, period) == HowMany(MonthCall(userId, period), rows)
    ensures CountCallsSince(rows, userId, since) == HowMany(CallSince(userId, since), rows)
  {
    if rows == [] {
      HowManyEmpty(MonthCall(userId, period));
      HowManyEmpty(CallSince(userId, since));
    } else {
      CountsExactly(rows[..|rows| - 1], userId, period, since);
      HowManyLast(MonthCall(userId, period), rows);
      HowManyLast(CallSince(userId, since), rows);
    }
  }

  // ---------------------------------------------------------------- the answer

  /** The risk tier switches the AI off. */
  predicate Disabled(u: User) { u.tier == 3 || u.tier == 4 }

  predicate EmailMissing(u: User) { !u.emailVerified && (u.tier >= 2 || u.plan == Free) }

  predicate BannedNow(u: User, now: int) { u.bannedUntil.Some? && u.bannedUntil.value > now }

  predicate TrippedNow(u: User, setting: Setting, now: int) {
    (u.plan == Free || u.plan == Trial) && InTrip(setting, now)
  }

  /** The least number of whole seconds until `until`. */
  predicate WaitsFor(seconds: Option<int>, now: int, until: int) {
    seconds.Some? && (seconds.value - 1) * 1000 < until - now <= seconds.value * 1000
  }

  /** Refusals that do not depend on how much was used. */
  lemma RefusedByStanding(u: User, setting: Setting, rows: seq<Row>, userId: string, usedByok: bool, now: int,
                          calendar: int -> int)
    ensures var a := Check(Some(u), setting, rows, userId, usedByok, now, calendar);
            && (Disabled(u) ==> a == Denied(AiBanned, None))
            && (!Disabled(u) && EmailMissing(u) ==> a == Denied(AiEmailUnverified, None))
            && (!Disabled(u) && !EmailMissing(u) && BannedNow(u, now) ==>
                a.Denied? && a.reason == AiBanned && WaitsFor(a.retryAfterSec, now, u.bannedUntil.value))
            && (!Disabled(u) && !EmailMissing(u) && !BannedNow(u, now) && TrippedNow(u, setting, now) ==>
                a.Denied? && a.reason == AiBanned && WaitsFor(a.retryAfterSec, now, setting.at.value))
            && Check(None, setting, rows, userId, usedByok, now, calendar) == Denied(AiQuotaExhausted, None)
  {
  }

  /** Nothing but the amount of use can refuse the user. */
  predicate OnlyUseCounts(u: User, setting: Setting, now: int) {
    !Disabled(u) && !EmailMissing(u) && !BannedNow(u, now) && !TrippedNow(u, setting, now)
  }

  /** Refusals by the amount of use, and what an admitted call reports. */
  lemma RefusedByUse(u: User, setting: Setting, rows: seq<Row>, userId: string, usedByok: bool, now: int,
                     calendar: int -> int, limit: Option<nat>, minute: nat, hour: nat)
    requires OnlyUseCounts(u, setting, now)
    requires MonthLimitIs(u.plan, u.tier, usedByok, limit) && RatesAre(u.plan, minute, hour)
    ensures var a := Check(Some(u), setting, rows, userId, usedByok, now, calendar);
            var used := HowMany(MonthCall(userId, calendar(now)), rows);
            var thisMinute := HowMany(CallSince(userId, now - 60_000), rows);
            var thisHour := HowMany(CallSince(userId, now - 3_600_000), rows);
            var exhausted := limit.Some? && used >= limit.value;
            && (exhausted ==> a == Denied(AiQuotaExhausted, None))
            && (!exhausted && thisMinute >= minute ==> a == Denied(AiRateLimited, Some(60)))
            && (!exhausted && thisMinute < minute && thisHour >= hour ==> a == Denied(AiRateLimited, Some(3600)))
            && (!exhausted && thisMinute < minute && thisHour < hour ==>
                a == Allowed(if limit.None? then None else Some(limit.value - used), limit, usedByok))
  {
    MonthLimitExactly(u.plan, u.tier, usedByok);
    RatesExactly(u.plan);
    CountsExactly(rows, userId, calendar(now), now - 60_000);
    CountsExactly(rows, userId, calendar(now), now - 3_600_000);
  }
}
