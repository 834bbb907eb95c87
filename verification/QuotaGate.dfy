/**
 * The quota gate (src/lib/ai-quota.ts, checkAiQuota): whether a user may call the AI now. It reads the
 * user's row, the stored manual trip and the usage table.
 */
module QuotaGate {
  import opened CircuitBreaker
  import opened Outcomes
  import opened UsageLedger

  // ---------------------------------------------------------------- limits

  /** Calls per month; none for enterprise. */
  function MonthlyQuota(p: Plan): Option<nat> {
    match p
    case Free => Some(20)
    case Trial => Some(100)
    case Pro => Some(500)
    case Team => Some(500)
    case Enterprise => None
  }

  function PerMinute(p: Plan): nat {
    match p case Free => 5 case Trial => 15 case Pro => 30 case Team => 30 case Enterprise => 200
  }

  function PerHour(p: Plan): nat {
    match p case Free => 20 case Trial => 80 case Pro => 200 case Team => 200 case Enterprise => 1000
  }

  /** The quota multiplier of a risk tier, in quarters: 1, 1/2, 1/4, 0, 0. */
  function Quarters(t: Tier): nat { match t case 0 => 4 case 1 => 2 case 2 => 1 case _ => 0 }

  predicate NeedsVerifiedEmail(t: Tier) { t >= 2 }

  /** The month's limit for platform calls, at least one; a call on the user's own key has none. */
  function MonthlyLimit(p: Plan, t: Tier, usedByok: bool): (r: Option<nat>)
    ensures r.Some? ==> 1 <= r.value <= 500
  {
    if usedByok || MonthlyQuota(p).None? then None
    else
      var scaled := MonthlyQuota(p).value * Quarters(t) / 4;
      Some(if scaled < 1 then 1 else scaled)
  }

  const MINUTE := 60_000
  const HOUR := 3_600_000

  // ---------------------------------------------------------------- counting rows

  predicate CountsAgainst(r: Row, userId: string, period: int) {
    r.userId == userId && r.period == period && !r.usedByok && Billable(r.status)
  }

  function CountBillableCalls(rows: seq<Row>, userId: string, period: int): nat {
    if rows == [] then 0
    else CountBillableCalls(rows[..|rows| - 1], userId, period)
         + if CountsAgainst(rows[|rows| - 1], userId, period) then 1 else 0
  }

  predicate CalledSince(r: Row, userId: string, since: int) { r.userId == userId && r.createdAt >= since }

  function CountCallsSince(rows: seq<Row>, userId: string, since: int): nat {
    if rows == [] then 0
    else CountCallsSince(rows[..|rows| - 1], userId, since)
         + if CalledSince(rows[|rows| - 1], userId, since) then 1 else 0
  }

  // ---------------------------------------------------------------- the gate

  datatype Refusal = AiQuotaExhausted | AiRateLimited | AiBanned | AiEmailUnverified

  datatype Answer =
    | Allowed(remaining: Option<nat>, limit: Option<nat>, usedByok: bool)
    | Denied(reason: Refusal, retryAfterSec: Option<int>)

  function CeilSeconds(ms: int): int { (ms + 999) / 1000 }

  method CheckAiQuota(user: Option<User>, setting: Setting, rows: seq<Row>, userId: string, usedByok: bool,
                      now: int, calendar: int -> int) returns (answer: Answer)
    ensures answer == Check(user, setting, rows, userId, usedByok, now, calendar)
  {
    if user.None? {
      return Denied(AiQuotaExhausted, None);
    }
    var u := user.value;
    if Quarters(u.tier) == 0 {
      return Denied(AiBanned, None);
    }
    if NeedsVerifiedEmail(u.tier) && !u.emailVerified {
      return Denied(AiEmailUnverified, None);
    }
    if u.plan == Free && !u.emailVerified {
      return Denied(AiEmailUnverified, None);
    }
    if u.bannedUntil.Some? && u.bannedUntil.value > now {
      return Denied(AiBanned, Some(CeilSeconds(u.bannedUntil.value - now)));
    }
    if u.plan == Free || u.plan == Trial {
      var until := ActiveManualTripUntil(setting, now);
      if until.Some? {
        return Denied(AiBanned, Some(CeilSeconds(until.value - now)));
      }
    }
    var limit := MonthlyLimit(u.plan, u.tier, usedByok);
    if limit.Some? {
      var used := CountBillableCalls(rows, userId, calendar(now));
      if used >= limit.value {
        return Denied(AiQuotaExhausted, None);
      }
    }
    var lastMinute := CountCallsSince(rows, userId, now - MINUTE);
    if lastMinute >= PerMinute(u.plan) {
      return Denied(AiRateLimited, Some(60));
    }
    var lastHour := CountCallsSince(rows, userId, now - HOUR);
    if lastHour >= PerHour(u.plan) {
      return Denied(AiRateLimited, Some(3600));
    }
    var monthlyCount := CountBillableCalls(rows, userId, calendar(now));
    var remaining: Option<nat> :=
      if limit.None? then None else Some(if limit.value > monthlyCount then limit.value - monthlyCount else 0);
    return Allowed(remaining, limit, usedByok);
  }

  /** The account may use the AI at all: not disabled by risk, and verified where that is demanded. */
  predicate InGoodStanding(u: User) {
    Quarters(u.tier) > 0 && (NeedsVerifiedEmail(u.tier) || u.plan == Free ==> u.emailVerified)
  }

  /** A user whom nothing but the limits holds back. */
  predicate Unhindered(u: User) { InGoodStanding(u) && u.bannedUntil == None }

  /** How long the user is held by a ban or by the manual trip, if now. */
  function HeldUntil(u: User, setting: Setting, now: int): Option<int> {
    if u.bannedUntil.Some? && u.bannedUntil.value > now then u.bannedUntil
    else if Stops(FreeTrialStopped, u.plan) then ActiveManualTripUntil(setting, now)
    else None
  }

  predicate WithinRates(rows: seq<Row>, userId: string, p: Plan, now: int) {
    && CountCallsSince(rows, userId, now - MINUTE) < PerMinute(p)
    && CountCallsSince(rows, userId, now - HOUR) < PerHour(p)
  }

  predicate WithinMonth(rows: seq<Row>, userId: string, limit: Option<nat>, period: int) {
    limit.Some? ==> CountBillableCalls(rows, userId, period) < limit.value
  }

  /**
   * The answer of the gate, by what holds of the account rather than by the order of the tests. A call
   * is allowed exactly when the account is in good standing, not held, and below every limit; at least
   * one call then remains, and a stated wait ends within the second in which the hold ends.
   */
  function Check(user: Option<User>, setting: Setting, rows: seq<Row>, userId: string, usedByok: bool,
                 now: int, calendar: int -> int): (a: Answer)
    ensures a.Allowed? <==>
            && user.Some? && InGoodStanding(user.value) && HeldUntil(user.value, setting, now).None?
            && WithinMonth(rows, userId, MonthlyLimit(user.value.plan, user.value.tier, usedByok), calendar(now))
            && WithinRates(rows, userId, user.value.plan, now)
    ensures a.Allowed? && a.remaining.Some? ==>
              && 1 <= a.remaining.value && a.limit.Some?
              && a.remaining.value + CountBillableCalls(rows, userId, calendar(now)) == a.limit.value
    ensures a.Denied? && a.reason == AiBanned && a.retryAfterSec.Some? ==>
              && user.Some? && HeldUntil(user.value, setting, now).Some? && 0 < a.retryAfterSec.value
              && now + 1000 * (a.retryAfterSec.value - 1) < HeldUntil(user.value, setting, now).value
              && HeldUntil(user.value, setting, now).value <= now + 1000 * a.retryAfterSec.value
  {
    if user.None? then Denied(AiQuotaExhausted, None)
    else
      var u := user.value;
      var limit := MonthlyLimit(u.plan, u.tier, usedByok);
      if !InGoodStanding(u) then Denied(if Quarters(u.tier) == 0 then AiBanned else AiEmailUnverified, None)
      else if HeldUntil(u, setting, now).Some? then
        Denied(AiBanned, Some(CeilSeconds(HeldUntil(u, setting, now).value - now)))
      else if !WithinMonth(rows, userId, limit, calendar(now)) then Denied(AiQuotaExhausted, None)
      else if !WithinRates(rows, userId, u.plan, now) then
        var byMinute := CountCallsSince(rows, userId, now - MINUTE) >= PerMinute(u.plan);
        Denied(AiRateLimited, Some(if byMinute then 60 else 3600))
      else
        Allowed(if limit.None? then None else Some(limit.value - CountBillableCalls(rows, userId, calendar(now))),
                limit, usedByok)
  }

  // ---------------------------------------------------------------- counts under table operations

  lemma CountSnoc(rows: seq<Row>, r: Row, userId: string, period: int, since: int)
    ensures CountBillableCalls(rows + [r], userId, period)
            == CountBillableCalls(rows, userId, period) + (if CountsAgainst(r, userId, period) then 1 else 0)
    ensures CountCallsSince(rows + [r], userId, since)
            == CountCallsSince(rows, userId, since) + (if CalledSince(r, userId, since) then 1 else 0)
  {
    assert (rows + [r])[..|rows|] == rows;
  }

  /** If every counted row stays counted, the count does not fall, and it stays the same only if no row joins. */
  lemma {:induction false} CountGrows(rows: seq<Row>, rows': seq<Row>, userId: string, period: int)
    requires |rows| == |rows'|
    requires forall i :: 0 <= i < |rows| && CountsAgainst(rows[i], userId, period) ==>
        CountsAgainst(rows'[i], userId, period)
    ensures CountBillableCalls(rows, userId, period) <= CountBillableCalls(rows', userId, period)
    ensures (forall i :: 0 <= i < |rows| ==>
        CountsAgainst(rows[i], userId, period) == CountsAgainst(rows'[i], userId, period))
        <==> CountBillableCalls(rows, userId, period) == CountBillableCalls(rows', userId, period)
  {
    if rows != [] {
      var n := |rows| - 1;
      CountGrows(rows[..n], rows'[..n], userId, period);
      assert forall i :: 0 <= i < n ==> rows[..n][i] == rows[i] && rows'[..n][i] == rows'[i];
    }
  }

  lemma {:induction false} SameCallsSince(rows: seq<Row>, rows': seq<Row>, userId: string, since: int)
    requires |rows| == |rows'|
    requires forall i :: 0 <= i < |rows| ==> CalledSince(rows[i], userId, since) == CalledSince(rows'[i], userId, since)
    ensures CountCallsSince(rows, userId, since) == CountCallsSince(rows', userId, since)
  {
    if rows != [] { SameCallsSince(rows[..|rows| - 1], rows'[..|rows| - 1], userId, since); }
  }

  /** Recording adds a row: the request id is new or missing. */
  predicate Fresh(rows: seq<Row>, p: Params) { p.requestId.None? || IndexOf(rows, p.requestId.value).None? }

  /** A record moves a month's count by the new row alone; a back-fill of a known request moves nothing. */
  lemma RecordMovesCount(rows: seq<Row>, p: Params, now: int, calendar: int -> int, userId: string, period: int)
    ensures CountBillableCalls(Recorded(rows, p, now, calendar), userId, period)
            == CountBillableCalls(rows, userId, period)
               + (if Fresh(rows, p) && CountsAgainst(NewRow(p, now, calendar), userId, period) then 1 else 0)
  {
    if Fresh(rows, p) {
      CountSnoc(rows, NewRow(p, now, calendar), userId, period, 0);
    } else {
      CountGrows(rows, Recorded(rows, p, now, calendar), userId, period);
    }
  }

  lemma RecordMovesCalls(rows: seq<Row>, p: Params, now: int, calendar: int -> int, userId: string, since: int)
    ensures CountCallsSince(Recorded(rows, p, now, calendar), userId, since)
            == CountCallsSince(rows, userId, since)
               + (if Fresh(rows, p) && p.userId == userId && now >= since then 1 else 0)
  {
    if Fresh(rows, p) {
      CountSnoc(rows, NewRow(p, now, calendar), userId, 0, since);
    } else {
      SameCallsSince(rows, Recorded(rows, p, now, calendar), userId, since);
    }
  }

  predicate PlatformRow(r: Row, id: string, userId: string, period: int) {
    r.requestId == Some(id) && r.userId == userId && r.period == period && !r.usedByok
  }

  /** The user's platform rows of request `id` in the period are all billable already. */
  predicate MarkIsCounted(rows: seq<Row>, id: string, userId: string, period: int) {
    forall i :: 0 <= i < |rows| && PlatformRow(rows[i], id, userId, period) ==> Billable(rows[i].status)
  }

  /**
   * Marking a request failed leaves the calls per window alone, and the month's count exactly when the
   * request's rows were billable already: marking a refused request would charge it.
   */
  lemma MarkMovesNothingExactly(rows: seq<Row>, id: string, userId: string, period: int, since: int)
    ensures CountCallsSince(MarkedFailed(rows, id), userId, since) == CountCallsSince(rows, userId, since)
    ensures CountBillableCalls(MarkedFailed(rows, id), userId, period) == CountBillableCalls(rows, userId, period)
        <==> MarkIsCounted(rows, id, userId, period)
  {
    SameCallsSince(rows, MarkedFailed(rows, id), userId, since);
    CountGrows(rows, MarkedFailed(rows, id), userId, period);
    if !MarkIsCounted(rows, id, userId, period) {
      var i :| 0 <= i < |rows| && PlatformRow(rows[i], id, userId, period) && !Billable(rows[i].status);
      assert CountsAgainst(rows[i], userId, period) != CountsAgainst(MarkedFailed(rows, id)[i], userId, period);
    }
  }
}
