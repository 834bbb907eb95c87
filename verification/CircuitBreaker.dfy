/**
 * The AI cost circuit breaker (src/lib/ai-circuit-breaker.ts): bans written into user rows, the stored
 * manual trip, and the status read back from both. Times are milliseconds since the epoch; the
 * thresholds and the answer of the GROUP BY query are parameters.
 */
module CircuitBreaker {
  import opened Grouping
  import opened Outcomes
  import opened UsageLedger

  datatype Plan = Free | Trial | Pro | Team | Enterprise

  type Tier = t: nat | t <= 4

  /** The columns of a user row that the breaker and the quota gate read. */
  datatype User = User(
    id: string, plan: Plan, tier: Tier, emailVerified: bool,
    bannedUntil: Option<int>, banReason: Option<string>)

  datatype State = Closed | FreeStopped | FreeTrialStopped

  function Severity(s: State): nat {
    match s case Closed => 0 case FreeStopped => 1 case FreeTrialStopped => 2
  }

  function MoreSevere(a: State, b: State): State { if Severity(a) >= Severity(b) then a else b }

  // ---------------------------------------------------------------- days

  const DAY := 86_400_000

  function StartOfUtcDay(now: int): int { now - now % DAY }

  /** 23:59:59.999 of the day. */
  function EndOfUtcDay(now: int): int { StartOfUtcDay(now) + DAY - 1 }

  lemma SameDay(now: int, later: int)
    requires now <= later <= EndOfUtcDay(now)
    ensures EndOfUtcDay(later) == EndOfUtcDay(now)
  {
    assert later / DAY == now / DAY;
  }

  // ---------------------------------------------------------------- reasons as text

  const PREFIX := "全局成本熔断"
  const MANUAL := "manual"

  function Name(s: State): string {
    match s case Closed => "closed" case FreeStopped => "free_stopped" case FreeTrialStopped => "free_trial_stopped"
  }

  function Mark(manual: bool): string { if manual then "，" + MANUAL else "" }

  function Reason(name: string, mark: string): string { PREFIX + "（" + name + mark + "）" }

  function BanReason(s: State, manual: bool): string { Reason(Name(s), Mark(manual)) }

  predicate StartsWith(s: string, t: string) { |t| <= |s| && s[..|t|] == t }

  predicate OccursAt(s: string, t: string, i: nat) { i + |t| <= |s| && s[i..i + |t|] == t }

  predicate Contains(s: string, t: string) { exists i :: 0 <= i <= |s| && OccursAt(s, t, i) }

  /** The state a breaker reason stands for, read by substring search. */
  function Level(reason: string): State {
    if Contains(reason, Name(FreeTrialStopped)) then FreeTrialStopped
    else if Contains(reason, Name(FreeStopped)) then FreeStopped
    else Closed
  }

  predicate OfBreaker(reason: Option<string>) { reason.Some? && StartsWith(reason.value, PREFIX) }

  lemma ReasonContains(name: string, mark: string)
    ensures StartsWith(Reason(name, mark), PREFIX)
    ensures Contains(Reason(name, mark), name)
    ensures |mark| > 0 ==> Contains(Reason(name, mark), mark[1..])
  {
    assert Reason(name, mark)[..|PREFIX|] == PREFIX;
    assert OccursAt(Reason(name, mark), name, |PREFIX| + 1);
    if |mark| > 0 {
      assert OccursAt(Reason(name, mark), mark[1..], |PREFIX| + 1 + |name| + 1);
    }
  }

  lemma LacksLetter(s: string, t: string, k: nat)
    requires k < |t| && t[k] !in s
    ensures !Contains(s, t)
  {
    forall i: nat | i <= |s| ensures !OccursAt(s, t, i) {
      if i + |t| <= |s| {
        assert s[i..i + |t|][k] == s[i + k];
        assert s[i + k] in s;
      }
    }
  }

  /** A letter of `t` that neither part has keeps `t` out of the reason. */
  lemma ReasonLacks(name: string, mark: string, t: string, k: nat)
    requires k < |t| && t[k] !in name && t[k] !in mark && t[k] !in PREFIX && t[k] != '（' && t[k] != '）'
    ensures !Contains(Reason(name, mark), t)
  {
    LacksLetter(Reason(name, mark), t, k);
  }

  lemma MarkDecodes(s: State, manual: bool)
    ensures Contains(BanReason(s, manual), MANUAL) <==> manual
  {
    if manual {
      ReasonContains(Name(s), Mark(true));
      assert Mark(true)[1..] == MANUAL;
    } else {
      ReasonLacks(Name(s), Mark(false), MANUAL, 0);
    }
  }

  lemma LongerNameAbsent(s: State, manual: bool)
    requires s != FreeTrialStopped
    ensures !Contains(BanReason(s, manual), Name(FreeTrialStopped))
  {
    var t := Name(FreeTrialStopped);
    assert t[7] == 'i';
    ReasonLacks(Name(s), Mark(manual), t, 7);
  }

  lemma ClosedNamesNone(manual: bool)
    ensures !Contains(BanReason(Closed, manual), Name(FreeStopped))
  {
    ReasonLacks(Name(Closed), Mark(manual), Name(FreeStopped), 0);
  }

  lemma NameDecodes(s: State, manual: bool)
    ensures Level(BanReason(s, manual)) == s
  {
    ReasonContains(Name(s), Mark(manual));
    if s != FreeTrialStopped { LongerNameAbsent(s, manual); }
    ClosedNamesNone(manual);
  }

  /** Reading a reason recovers the state and the manual mark it was written with. */
  lemma ReasonDecodes(s: State, manual: bool)
    ensures OfBreaker(Some(BanReason(s, manual)))
    ensures Level(BanReason(s, manual)) == s
    ensures Contains(BanReason(s, manual), MANUAL) <==> manual
  {
    ReasonContains(Name(s), Mark(manual));
    NameDecodes(s, manual);
    MarkDecodes(s, manual);
  }

  // ---------------------------------------------------------------- state from reasons

  predicate Says(reason: Option<string>, s: State) { OfBreaker(reason) && Level(reason.value) == s }

  predicate SaysManual(reason: Option<string>) { OfBreaker(reason) && Contains(reason.value, MANUAL) }

  /** `(state, manual)` is what the reasons say together: the worst state among them, and any manual mark. */
  ghost predicate Summarises(reasons: seq<Option<string>>, state: State, manual: bool) {
    && (forall r :: r in reasons && OfBreaker(r) ==> Severity(Level(r.value)) <= Severity(state))
    && (state != Closed ==> exists r :: r in reasons && Says(r, state))
    && (manual <==> exists r :: r in reasons && SaysManual(r))
  }

  method StateFromBanReasons(reasons: seq<Option<string>>) returns (state: State, manual: bool)
    ensures Summarises(reasons, state, manual)
  {
    state, manual := Closed, false;
    for i := 0 to |reasons|
      invariant Summarises(reasons[..i], state, manual)
    {
      var reason := reasons[i];
      assert reasons[..i + 1] == reasons[..i] + [reason];
      if !OfBreaker(reason) {
        continue;
      }
      var level := Level(reason.value);
      if Severity(level) > Severity(state) {
        state := level;
        assert Says(reason, state);
      }
      if Contains(reason.value, MANUAL) {
        manual := true;
        assert SaysManual(reason);
      }
    }
    assert reasons[..|reasons|] == reasons;
  }

  /** The summary depends only on which reasons occur: order and repetition are irrelevant. */
  lemma SummaryUnique(a: seq<Option<string>>, b: seq<Option<string>>, s: State, m: bool, s': State, m': bool)
    requires forall r :: r in a <==> r in b
    requires Summarises(a, s, m) && Summarises(b, s', m')
    ensures s == s' && m == m'
  {
    if s != Closed {
      var r :| r in a && Says(r, s);
      assert r in b;
    }
    if s' != Closed {
      var r :| r in b && Says(r, s');
      assert r in a;
    }
  }

  /** The reasons written for a list of bans. */
  function ReasonsOf(bans: seq<(State, bool)>): (rs: seq<Option<string>>)
    ensures |rs| == |bans| && forall i :: 0 <= i < |bans| ==> rs[i] == Some(BanReason(bans[i].0, bans[i].1))
  {
    seq(|bans|, i requires 0 <= i < |bans| => Some(BanReason(bans[i].0, bans[i].1)))
  }

  /** Reading back the reasons of any bans gives their worst state and whether any was manual. */
  lemma BansReadBack(bans: seq<(State, bool)>, state: State, manual: bool)
    requires Summarises(ReasonsOf(bans), state, manual)
    ensures forall i :: 0 <= i < |bans| ==> Severity(bans[i].0) <= Severity(state)
    ensures state == Closed || exists i :: 0 <= i < |bans| && bans[i].0 == state
    ensures manual <==> exists i :: 0 <= i < |bans| && bans[i].1
  {
    forall i | 0 <= i < |bans|
      ensures Severity(bans[i].0) <= Severity(state) && (bans[i].1 ==> manual)
    {
      BanIsSummarised(bans, state, manual, i);
    }
    if state != Closed { var i := WorstBan(bans, state, manual); }
    if manual { var i := ManualBan(bans, state, manual); }
  }

  lemma BanIsSummarised(bans: seq<(State, bool)>, state: State, manual: bool, i: nat)
    requires Summarises(ReasonsOf(bans), state, manual) && i < |bans|
    ensures Severity(bans[i].0) <= Severity(state) && (bans[i].1 ==> manual)
  {
    var reason := ReasonsOf(bans)[i];
    ReasonDecodes(bans[i].0, bans[i].1);
    assert reason in ReasonsOf(bans);
    if bans[i].1 { assert SaysManual(reason); }
  }

  lemma WorstBan(bans: seq<(State, bool)>, state: State, manual: bool) returns (i: nat)
    requires Summarises(ReasonsOf(bans), state, manual) && state != Closed
    ensures i < |bans| && bans[i].0 == state
  {
    var r :| r in ReasonsOf(bans) && Says(r, state);
    i :| 0 <= i < |bans| && ReasonsOf(bans)[i] == r;
    ReasonDecodes(bans[i].0, bans[i].1);
  }

  lemma ManualBan(bans: seq<(State, bool)>, state: State, manual: bool) returns (i: nat)
    requires Summarises(ReasonsOf(bans), state, manual) && manual
    ensures i < |bans| && bans[i].1
  {
    var r :| r in ReasonsOf(bans) && SaysManual(r);
    i :| 0 <= i < |bans| && ReasonsOf(bans)[i] == r;
    ReasonDecodes(bans[i].0, bans[i].1);
  }

  // ---------------------------------------------------------------- effects on a user row

  predicate Stops(s: State, plan: Plan) {
    match s
    case Closed => false
    case FreeStopped => plan == Free
    case FreeTrialStopped => plan == Free || plan == Trial
  }

  predicate Touches(u: User, s: State, end: int) {
    Stops(s, u.plan) && (u.bannedUntil.None? || u.bannedUntil.value < end)
  }

  function Stopped(u: User, s: State, manual: bool, end: int): User {
    if Touches(u, s, end)
    then u.(bannedUntil := Some(end), banReason := Some(BanReason(s, manual)))
    else u
  }

  function Released(u: User): User {
    if OfBreaker(u.banReason) then u.(bannedUntil := None, banReason := None) else u
  }

  function Applied(users: seq<User>, s: State, manual: bool, end: int): (r: seq<User>)
    ensures |r| == |users| && forall i :: 0 <= i < |users| ==> r[i] == Stopped(users[i], s, manual, end)
  {
    seq(|users|, i requires 0 <= i < |users| => Stopped(users[i], s, manual, end))
  }

  function AllReleased(users: seq<User>): (r: seq<User>)
    ensures |r| == |users| && forall i :: 0 <= i < |users| ==> r[i] == Released(users[i])
  {
    seq(|users|, i requires 0 <= i < |users| => Released(users[i]))
  }

  function CountTouched(users: seq<User>, s: State, end: int): nat {
    if users == [] then 0
    else CountTouched(users[..|users| - 1], s, end) + if Touches(users[|users| - 1], s, end) then 1 else 0
  }

  function CountOfBreaker(users: seq<User>): nat {
    if users == [] then 0
    else CountOfBreaker(users[..|users| - 1]) + if OfBreaker(users[|users| - 1].banReason) then 1 else 0
  }

  lemma {:induction false} NothingTouched(users: seq<User>, s: State, end: int)
    requires forall u :: u in users ==> !Touches(u, s, end)
    ensures CountTouched(users, s, end) == 0
  {
    if users != [] { NothingTouched(users[..|users| - 1], s, end); }
  }

  // ---------------------------------------------------------------- the stored manual trip

  /** The stored value: `until` missing or not a string, or a string that names a time or none. */
  datatype Setting = NotText | Until(at: Option<int>)

  function ActiveManualTripUntil(v: Setting, now: int): Option<int> {
    if v.Until? && v.at.Some? && v.at.value > now then v.at else None
  }

  datatype Thresholds = Thresholds(freeStop: int, trialStop: int)

  function EvaluateCircuit(cents: int, t: Thresholds): State {
    if cents >= t.trialStop then FreeTrialStopped else if cents >= t.freeStop then FreeStopped else Closed
  }

  /** Today's platform cost in cents. */
  function TodayCents(rows: seq<Row>, now: int): nat {
    if rows == [] then 0
    else
      (if rows[0].createdAt >= StartOfUtcDay(now) && !rows[0].usedByok && Billable(rows[0].status)
       then rows[0].costCents else 0) + TodayCents(rows[1..], now)
  }

  predicate HeldNow(u: User, now: int) {
    OfBreaker(u.banReason) && u.bannedUntil.Some? && u.bannedUntil.value > now
  }

  /** The reasons of the breaker bans in force, one per banned user. */
  function ReasonsInForce(users: seq<User>, now: int): seq<Option<string>> {
    if users == [] then []
    else (if HeldNow(users[0], now) then [users[0].banReason] else []) + ReasonsInForce(users[1..], now)
  }

  datatype CircuitStatus = CircuitStatus(todayCents: nat, state: State, costState: State, banState: State,
      manual: bool, bannedUsers: nat)

  /** The status, stated from the bans themselves rather than from grouped rows. */
  ghost predicate IsStatus(st: CircuitStatus, users: seq<User>, setting: Setting, rows: seq<Row>, now: int,
      t: Thresholds)
  {
    var trip := ActiveManualTripUntil(setting, now);
    && st.todayCents == TodayCents(rows, now)
    && st.costState == EvaluateCircuit(st.todayCents, t)
    && st.state == MoreSevere(st.costState, st.banState)
    && st.bannedUsers == |ReasonsInForce(users, now)|
    && (exists s, m :: Summarises(ReasonsInForce(users, now), s, m)
                       && st.banState == (if trip.Some? then MoreSevere(s, FreeTrialStopped) else s)
                       && st.manual == (m || trip.Some?))
  }

  class Breaker {
    var users: seq<User>
    var setting: Setting

    constructor (users: seq<User>, setting: Setting)
      ensures this.users == users && this.setting == setting
    {
      this.users, this.setting := users, setting;
    }

    method ApplyCircuit(state: State, manual: bool, now: int) returns (affected: nat)
      modifies this`users
      ensures users == Applied(old(users), state, manual, EndOfUtcDay(now))
      ensures affected == CountTouched(old(users), state, EndOfUtcDay(now))
    {
      if state == Closed {
        NothingTouched(users, state, EndOfUtcDay(now));
        return 0;
      }
      var end := EndOfUtcDay(now);
      affected := 0;
      for i := 0 to |users|
        invariant |users| == |old(users)|
        invariant forall k :: 0 <= k < |users| ==>
                    users[k] == if k < i then Stopped(old(users)[k], state, manual, end) else old(users)[k]
        invariant affected == CountTouched(old(users)[..i], state, end)
      {
        assert old(users)[..i + 1][..i] == old(users)[..i];
        if Touches(users[i], state, end) {
          users := users[i := users[i].(bannedUntil := Some(end), banReason := Some(BanReason(state, manual)))];
          affected := affected + 1;
        }
      }
      assert old(users)[..|users|] == old(users);
    }

    method ReleaseCircuit() returns (released: nat)
      modifies this
      ensures setting == NotText
      ensures users == AllReleased(old(users))
      ensures released == CountOfBreaker(old(users))
    {
      setting := NotText;
      released := 0;
      for i := 0 to |users|
        invariant setting == NotText
        invariant |users| == |old(users)|
        invariant forall k :: 0 <= k < |users| ==>
                    users[k] == if k < i then Released(old(users)[k]) else old(users)[k]
        invariant released == CountOfBreaker(old(users)[..i])
      {
        assert old(users)[..i + 1][..i] == old(users)[..i];
        if OfBreaker(users[i].banReason) {
          users := users[i := users[i].(bannedUntil := None, banReason := None)];
          released := released + 1;
        }
      }
      assert old(users)[..|users|] == old(users);
    }

    method TripCircuitManually(now: int) returns (affected: nat)
      modifies this
      ensures setting == Until(Some(EndOfUtcDay(now)))
      ensures users == Applied(old(users), FreeTrialStopped, true, EndOfUtcDay(now))
      ensures affected == CountTouched(old(users), FreeTrialStopped, EndOfUtcDay(now))
    {
      setting := Until(Some(EndOfUtcDay(now)));
      affected := ApplyCircuit(FreeTrialStopped, true, now);
    }

    /** `groups` is the database's answer, one row per reason in force. */
    method GetCircuitStatus(now: int, rows: seq<Row>, t: Thresholds, groups: seq<(Option<string>, nat)>)
      returns (status: CircuitStatus)
      requires IsGrouping(groups, multiset(ReasonsInForce(users, now)))
      ensures IsStatus(status, users, setting, rows, now, t)
    {
      var manualUntil := ActiveManualTripUntil(setting, now);
      var costState := EvaluateCircuit(TodayCents(rows, now), t);
      var reasons := seq(|groups|, i requires 0 <= i < |groups| => groups[i].0);
      var fromState, fromManual := StateFromBanReasons(reasons);
      var banState := if manualUntil.Some? then MoreSevere(fromState, FreeTrialStopped) else fromState;
      var sum := 0;
      for i := 0 to |groups|
        invariant sum == Total(groups[..i])
      {
        assert groups[..i + 1][..i] == groups[..i];
        sum := sum + groups[i].1;
      }
      assert groups[..|groups|] == groups;
      TotalIsCount(groups, multiset(ReasonsInForce(users, now)));
      GroupedReasons(groups, reasons, ReasonsInForce(users, now));
      SummaryTransfers(reasons, ReasonsInForce(users, now), fromState, fromManual);
      status := CircuitStatus(TodayCents(rows, now), MoreSevere(costState, banState), costState, banState,
                       fromManual || manualUntil.Some?, sum);
    }
  }

  lemma GroupedReasons(groups: seq<(Option<string>, nat)>, reasons: seq<Option<string>>, all: seq<Option<string>>)
    requires IsGrouping(groups, multiset(all))
    requires |reasons| == |groups| && forall i :: 0 <= i < |groups| ==> reasons[i] == groups[i].0
    ensures forall r :: r in reasons <==> r in all
  {
    forall r | r in all ensures r in reasons {
      assert r in multiset(all);
      assert Listed(groups, r);
      var i :| 0 <= i < |groups| && groups[i].0 == r;
      assert reasons[i] == r;
    }
    forall r | r in reasons ensures r in all {
      var i :| 0 <= i < |reasons| && reasons[i] == r;
      assert multiset(all)[groups[i].0] > 0;
    }
  }

  lemma SummaryTransfers(a: seq<Option<string>>, b: seq<Option<string>>, s: State, m: bool)
    requires forall r :: r in a <==> r in b
    requires Summarises(a, s, m)
    ensures Summarises(b, s, m)
  {
  }

  // ---------------------------------------------------------------- what one call does and undoes

  /** A ban is never shortened, and users outside the stopped plans or already held past the day keep their row. */
  lemma ApplyOnlyExtends(u: User, s: State, manual: bool, now: int)
    ensures var after := Stopped(u, s, manual, EndOfUtcDay(now));
            && (u.bannedUntil.Some? ==> after.bannedUntil.Some? && after.bannedUntil.value >= u.bannedUntil.value)
            && (!Stops(s, u.plan) ==> after == u)
            && (Stops(s, u.plan) ==> after.bannedUntil.Some? && after.bannedUntil.value >= EndOfUtcDay(now))
            && after.(bannedUntil := u.bannedUntil, banReason := u.banReason) == u
  {
  }

  /** Applying the same or a milder state again on the same day changes nothing and reports nobody. */
  lemma ApplyIdempotent(users: seq<User>, s: State, manual: bool, now: int, s': State, manual': bool, later: int)
    requires now <= later <= EndOfUtcDay(now) && Severity(s') <= Severity(s)
    ensures var once := Applied(users, s, manual, EndOfUtcDay(now));
            && Applied(once, s', manual', EndOfUtcDay(later)) == once
            && CountTouched(once, s', EndOfUtcDay(later)) == 0
  {
    SameDay(now, later);
    var end := EndOfUtcDay(now);
    var once := Applied(users, s, manual, end);
    forall i | 0 <= i < |once| ensures !Touches(once[i], s', end) {
      assert Stops(s', users[i].plan) ==> Stops(s, users[i].plan);
    }
    NothingTouched(once, s', end);
    assert Applied(once, s', manual', end) == once;
  }

  /** The users whose row a release puts back exactly as it was before the breaker acted. */
  predicate Undoable(u: User, s: State, end: int) {
    if Touches(u, s, end) then u.bannedUntil.None? && u.banReason.None? else !OfBreaker(u.banReason)
  }

  /**
   * Releasing undoes applying exactly when every touched user had no ban and no reason before, and no
   * other user still carried a breaker reason. A shorter ban given for another cause is lost.
   */
  lemma ReleaseUndoesApplyExactly(users: seq<User>, s: State, manual: bool, now: int)
    requires s != Closed
    ensures AllReleased(Applied(users, s, manual, EndOfUtcDay(now))) == users
        <==> forall i :: 0 <= i < |users| ==> Undoable(users[i], s, EndOfUtcDay(now))
  {
    var end := EndOfUtcDay(now);
    ReasonDecodes(s, manual);
    var back := AllReleased(Applied(users, s, manual, end));
    forall i | 0 <= i < |users| ensures back[i] == users[i] <==> Undoable(users[i], s, end) {
    }
    if forall i :: 0 <= i < |users| ==> Undoable(users[i], s, end) {
      assert back == users;
    }
  }

  /** A concrete loss: an hour's ban for abuse, overwritten by the trip and then lifted with it. */
  lemma ReleaseLiftsAnotherBan(u: User, now: int)
    requires u.plan == Free && u.bannedUntil == Some(now + 3_600_000) && u.banReason == Some("abuse")
    requires now + 3_600_000 < EndOfUtcDay(now)
    ensures AllReleased(Applied([u], FreeTrialStopped, true, EndOfUtcDay(now)))
        == [u.(bannedUntil := None, banReason := None)]
  {
    ReasonDecodes(FreeTrialStopped, true);
  }
}
