/** Account lockout with escalating lock lengths (src/lib/account-lockout.ts). Times are milliseconds. */
module Lockout {
  import opened Outcomes

  const MINUTE := 60 * 1000
  const MAX_FAILED_ATTEMPTS := 5
  const FAILED_ATTEMPT_WINDOW := 30 * MINUTE
  const BASE_LOCKOUT := 15 * MINUTE
  const MAX_LOCKOUT := 24 * 60 * MINUTE

  /** The lockout columns of a user row. */
  datatype Row = Row(failedLoginAttempts: nat, lastFailedLoginAt: Option<int>, lockedUntil: Option<int>,
      lockoutCount: nat)

  datatype Status = Status(locked: bool, remainingAttempts: nat, lockedUntil: Option<int>,
      secondsRemaining: Option<int>)

  datatype FailedAttempt = FailedAttempt(nowLocked: bool, remainingAttempts: nat, lockedUntil: Option<int>,
      durationSeconds: Option<int>)

  // ---------------------------------------------------------------- one row

  function CeilSeconds(ms: nat): nat { (ms + 999) / 1000 }

  predicate IsLocked(row: Row, now: int) { row.lockedUntil.Some? && row.lockedUntil.value > now }

  function StatusOf(row: Row, now: int): Status {
    if IsLocked(row, now) then Status(true, 0, row.lockedUntil, Some(CeilSeconds(row.lockedUntil.value - now)))
    else
      var windowStart := now - FAILED_ATTEMPT_WINDOW;
      var failed := if row.lastFailedLoginAt.Some? && row.lastFailedLoginAt.value > windowStart
        then row.failedLoginAttempts else 0;
      Status(false, if failed >= MAX_FAILED_ATTEMPTS then 0 else MAX_FAILED_ATTEMPTS - failed, None, None)
  }

  function Pow2(n: nat): nat { if n == 0 then 1 else 2 * Pow2(n - 1) }

  /** How long a lock lasts when `count` locks came before it. */
  function LockLength(count: nat): nat {
    var d := BASE_LOCKOUT * Pow2(count);
    if d <= MAX_LOCKOUT then d else MAX_LOCKOUT
  }

  function AttemptsAfter(row: Row, now: int): nat {
    if row.lastFailedLoginAt.None? || row.lastFailedLoginAt.value < now - FAILED_ATTEMPT_WINDOW
    then 1
    else row.failedLoginAttempts + 1
  }

  /** The row after a recorded failure. */
  function Failed(row: Row, now: int): Row {
    var n := AttemptsAfter(row, now);
    if n >= MAX_FAILED_ATTEMPTS
    then Row(n, Some(now), Some(now + LockLength(row.lockoutCount)), row.lockoutCount + 1)
    else row.(failedLoginAttempts := n, lastFailedLoginAt := Some(now))
  }

  function FailureReport(row: Row, now: int): FailedAttempt {
    var n := AttemptsAfter(row, now);
    if n >= MAX_FAILED_ATTEMPTS
    then FailedAttempt(true, 0, Some(now + LockLength(row.lockoutCount)),
        Some(CeilSeconds(LockLength(row.lockoutCount))))
    else FailedAttempt(false, MAX_FAILED_ATTEMPTS - n, None, None)
  }

  function Reset(row: Row): Row { Row(0, None, None, row.lockoutCount) }

  function Unlocked(row: Row): Row { Row(0, None, None, 0) }

  // ---------------------------------------------------------------- the users table

  class LockoutTable {
    const normalize: string -> string
    var users: map<string, Row>

    constructor (normalize: string -> string, users: map<string, Row>)
      ensures this.normalize == normalize && this.users == users
    {
      this.normalize := normalize;
      this.users := users;
    }

    /** An unknown address looks like an account without failures. */
    method CheckAccountLockout(email: string, now: int) returns (s: Status)
      ensures s == if normalize(email) in users then StatusOf(users[normalize(email)], now)
                   else Status(false, MAX_FAILED_ATTEMPTS, None, None)
    {
      var key := normalize(email);
      if key !in users {
        return Status(false, MAX_FAILED_ATTEMPTS, None, None);
      }
      var user := users[key];
      if user.lockedUntil.Some? && user.lockedUntil.value > now {
        return Status(true, 0, user.lockedUntil, Some(CeilSeconds(user.lockedUntil.value - now)));
      }
      var windowStart := now - FAILED_ATTEMPT_WINDOW;
      var failedAttempts := if user.lastFailedLoginAt.Some? && user.lastFailedLoginAt.value > windowStart
        then user.failedLoginAttempts else 0;
      var remaining := if failedAttempts >= MAX_FAILED_ATTEMPTS then 0 else MAX_FAILED_ATTEMPTS - failedAttempts;
      return Status(false, remaining, None, None);
    }

    method RecordFailedAttempt(email: string, now: int) returns (r: FailedAttempt)
      modifies this
      ensures normalize(email) in old(users) ==>
                users == old(users)[normalize(email) := Failed(old(users)[normalize(email)], now)] &&
                r == FailureReport(old(users)[normalize(email)], now)
      ensures normalize(email) !in old(users) ==>
                users == old(users) && r == FailedAttempt(false, MAX_FAILED_ATTEMPTS - 1, None, None)
    {
      var key := normalize(email);
      if key !in users {
        return FailedAttempt(false, MAX_FAILED_ATTEMPTS - 1, None, None);
      }
      var user := users[key];
      var windowStart := now - FAILED_ATTEMPT_WINDOW;
      var shouldResetCount := user.lastFailedLoginAt.None? || user.lastFailedLoginAt.value < windowStart;
      var newFailedAttempts := if shouldResetCount then 1 else user.failedLoginAttempts + 1;
      if newFailedAttempts >= MAX_FAILED_ATTEMPTS {
        var lockoutDuration := LockLength(user.lockoutCount);
        var lockedUntil := Some(now + lockoutDuration);
        users := users[key := user.(failedLoginAttempts := newFailedAttempts, lastFailedLoginAt := Some(now),
                                    lockedUntil := lockedUntil, lockoutCount := user.lockoutCount + 1)];
        return FailedAttempt(true, 0, lockedUntil, Some(CeilSeconds(lockoutDuration)));
      }
      users := users[key := user.(failedLoginAttempts := newFailedAttempts, lastFailedLoginAt := Some(now))];
      return FailedAttempt(false, MAX_FAILED_ATTEMPTS - newFailedAttempts, None, None);
    }

    method ResetFailedAttempts(email: string)
      modifies this
      ensures users == if normalize(email) in old(users)
                       then old(users)[normalize(email) := Reset(old(users)[normalize(email)])] else old(users)
    {
      var key := normalize(email);
      if key in users {
        users := users[key := users[key].(failedLoginAttempts := 0, lastFailedLoginAt := None, lockedUntil := None)];
      }
    }

    /** Reports success even for an unknown address. */
    method UnlockAccount(email: string) returns (done: bool)
      modifies this
      ensures done
      ensures users == if normalize(email) in old(users)
                       then old(users)[normalize(email) := Unlocked(old(users)[normalize(email)])] else old(users)
    {
      var key := normalize(email);
      if key in users {
        users := users[key := users[key].(failedLoginAttempts := 0, lastFailedLoginAt := None, lockedUntil := None,
            lockoutCount := 0)];
      }
      return true;
    }
  }

  // ---------------------------------------------------------------- check against record

  /** What a failure reports is what a check at the same moment shows. */
  lemma CheckAfterRecord(row: Row, now: int)
    ensures var r, s := FailureReport(row, now), StatusOf(Failed(row, now), now);
            (!IsLocked(row, now) ==> s.locked == r.nowLocked) && (r.nowLocked ==> s.locked)
            && (!s.locked ==> s.remainingAttempts == r.remainingAttempts)
            && (r.nowLocked ==> s.lockedUntil == r.lockedUntil && s.secondsRemaining == r.durationSeconds)
  {
    LockLengthPositive(row.lockoutCount);
  }

  /** A failure uses up one of the attempts a check has promised, and locks with the last. */
  predicate Predicts(s: Status, r: FailedAttempt) {
    (r.nowLocked <==> s.remainingAttempts <= 1) && (!r.nowLocked ==> r.remainingAttempts == s.remainingAttempts - 1)
  }

  /**
   * The attempts that a check promises are those that recording grants, except exactly 30 minutes after
   * the last failure: there the check has already forgotten the failures and the record has not.
   */
  lemma CheckPredictsRecordExactly(row: Row, now: int)
    requires !IsLocked(row, now)
    ensures Predicts(StatusOf(row, now), FailureReport(row, now))
        <==> !(row.lastFailedLoginAt == Some(now - FAILED_ATTEMPT_WINDOW) && row.failedLoginAttempts > 0)
  {
  }

  // ---------------------------------------------------------------- rate of failures

  /** The row after failures at the given times. */
  function RowAfter(row: Row, times: seq<int>): Row
    decreases |times|
  {
    if times == [] then row else RowAfter(Failed(row, times[0]), times[1..])
  }

  predicate InOrder(times: seq<int>) { forall i, j :: 0 <= i <= j < |times| ==> times[i] <= times[j] }

  /** Every failure is recorded at a moment when the account is not locked. */
  ghost predicate Guarded(row: Row, times: seq<int>) {
    forall i :: 0 <= i < |times| ==> !IsLocked(RowAfter(row, times[..i]), times[i])
  }

  lemma GuardedTail(row: Row, times: seq<int>)
    requires times != [] && Guarded(row, times)
    ensures !IsLocked(row, times[0]) && Guarded(Failed(row, times[0]), times[1..])
  {
    assert times[..0] == [] && !IsLocked(RowAfter(row, times[..0]), times[0]);
    forall i | 0 <= i < |times[1..]|
      ensures !IsLocked(RowAfter(Failed(row, times[0]), times[1..][..i]), times[1..][i])
    {
      assert times[..i + 1][0] == times[0] && times[..i + 1][1..] == times[1..][..i];
      assert !IsLocked(RowAfter(row, times[..i + 1]), times[i + 1]);
    }
  }

  lemma {:induction false} Pow2Positive(n: nat)
    ensures Pow2(n) >= 1
  {
    if n > 0 {
      Pow2Positive(n - 1);
    }
  }

  lemma LockLengthPositive(count: nat)
    ensures BASE_LOCKOUT <= LockLength(count) <= MAX_LOCKOUT
  {
    Pow2Positive(count);
  }

  /**
   * `count` failures are on the books since `last`, the latest one; after five of them the account is
   * locked. The failures that complete six take fifteen minutes, whether the window slides or not.
   */
  lemma {:induction false} SixFailuresTakeTime(row: Row, last: int, count: nat, times: seq<int>)
    requires 1 <= count <= 5 && |times| == 6 - count
    requires row.lastFailedLoginAt == Some(last) && row.failedLoginAttempts >= count
    requires count == 5 ==> row.lockedUntil.Some? && row.lockedUntil.value >= last + BASE_LOCKOUT
    requires Guarded(row, times) && InOrder([last] + times)
    ensures times[|times| - 1] - last >= BASE_LOCKOUT
    decreases |times|
  {
    var next := times[0];
    GuardedTail(row, times);
    InOrderTail(last, times);
    if count < 5 && next - last <= FAILED_ATTEMPT_WINDOW {
      OneMoreFailure(row, last, count, next);
      SixFailuresTakeTime(Failed(row, next), next, count + 1, times[1..]);
    }
  }

  lemma InOrderTail(last: int, times: seq<int>)
    requires times != [] && InOrder([last] + times)
    ensures last <= times[0] <= times[|times| - 1] && InOrder([times[0]] + times[1..])
  {
    var all := [last] + times;
    assert all[0] == last && all[1] == times[0] && all[|times|] == times[|times| - 1];
    assert [times[0]] + times[1..] == all[1..];
  }

  lemma OneMoreFailure(row: Row, last: int, count: nat, next: int)
    requires 1 <= count <= 4 && row.lastFailedLoginAt == Some(last) && row.failedLoginAttempts >= count
    requires next - last <= FAILED_ATTEMPT_WINDOW
    ensures var r := Failed(row, next);
            && r.lastFailedLoginAt == Some(next) && r.failedLoginAttempts >= count + 1
            && (count == 4 ==> r.lockedUntil.Some? && r.lockedUntil.value >= next + BASE_LOCKOUT)
  {
    LockLengthPositive(row.lockoutCount);
  }

  lemma {:induction false} GuardedFrom(row: Row, times: seq<int>, i: nat)
    requires i <= |times| && Guarded(row, times)
    ensures Guarded(RowAfter(row, times[..i]), times[i..])
    decreases i
  {
    if i == 0 {
      assert times[..0] == [] && times[0..] == times;
    } else {
      GuardedTail(row, times);
      GuardedFrom(Failed(row, times[0]), times[1..], i - 1);
      assert times[..i][0] == times[0] && times[..i][1..] == times[1..][..i - 1];
      assert times[1..][i - 1..] == times[i..];
    }
  }

  /** With nothing in between, any six consecutive recorded failures span at least fifteen minutes. */
  lemma LockoutRateBound(row: Row, times: seq<int>, i: nat)
    requires Guarded(row, times) && InOrder(times) && i + 5 < |times|
    ensures times[i + 5] - times[i] >= BASE_LOCKOUT
  {
    var r, six := RowAfter(row, times[..i]), times[i..i + 6];
    GuardedFrom(row, times, i);
    GuardedPrefix(r, times[i..], 6);
    assert times[i..][..6] == six;
    GuardedTail(r, six);
    LockLengthPositive(r.lockoutCount);
    assert [six[0]] + six[1..] == six;
    if AttemptsAfter(r, six[0]) >= MAX_FAILED_ATTEMPTS {
      // locked at once: already the second failure comes fifteen minutes later
      GuardedTail(Failed(r, six[0]), six[1..]);
    } else {
      SixFailuresTakeTime(Failed(r, six[0]), six[0], 1, six[1..]);
    }
  }

  lemma GuardedPrefix(row: Row, times: seq<int>, n: nat)
    requires n <= |times| && Guarded(row, times)
    ensures Guarded(row, times[..n])
  {
    assert forall i :: 0 <= i < n ==> times[..n][..i] == times[..i];
  }

  /** The fifteen minutes are exact: five failures at once, and the sixth when the lock has just ended. */
  lemma RateBoundIsReached(t: int)
    ensures var times := [t, t, t, t, t, t + BASE_LOCKOUT];
            && InOrder(times) && times[5] - times[0] == BASE_LOCKOUT
            && Guarded(Row(0, None, None, 0), times)
  {
    var r0 := Row(0, None, None, 0);
    var r1, r2 := Row(1, Some(t), None, 0), Row(2, Some(t), None, 0);
    var r3, r4 := Row(3, Some(t), None, 0), Row(4, Some(t), None, 0);
    assert Pow2(0) == 1;
    var r5 := Row(5, Some(t), Some(t + BASE_LOCKOUT), 1);
    assert Failed(r0, t) == r1 && Failed(r1, t) == r2 && Failed(r2, t) == r3;
    assert Failed(r3, t) == r4 && Failed(r4, t) == r5;
    var s5 := [t + BASE_LOCKOUT] + [];
    var s4 := [t] + s5;
    var s3 := [t] + s4;
    var s2 := [t] + s3;
    var s1 := [t] + s2;
    GuardedCons(r5, t + BASE_LOCKOUT, []);
    GuardedCons(r4, t, s5);
    GuardedCons(r3, t, s4);
    GuardedCons(r2, t, s3);
    GuardedCons(r1, t, s2);
    GuardedCons(r0, t, s1);
    assert [t] + s1 == [t, t, t, t, t, t + BASE_LOCKOUT];
  }

  lemma GuardedCons(row: Row, t: int, times: seq<int>)
    requires !IsLocked(row, t) && Guarded(Failed(row, t), times)
    ensures Guarded(row, [t] + times)
  {
    var all := [t] + times;
    forall i | 0 <= i < |all| ensures !IsLocked(RowAfter(row, all[..i]), all[i]) {
      if i > 0 {
        assert all[..i][0] == t && all[..i][1..] == times[..i - 1];
        assert !IsLocked(RowAfter(Failed(row, t), times[..i - 1]), times[i - 1]);
      }
    }
  }

  // ---------------------------------------------------------------- escalation

  datatype Event = Failure(at: int) | Success(at: int)

  datatype Lock = Lock(at: int, until: int)

  /** A row, the locks set since the last administrative unlock, and the time of the last event. */
  datatype History = History(row: Row, locks: seq<Lock>, time: int)

  /** An event happens at an unlocked moment: a failure is recorded, a success resets the row. */
  predicate Legal(h: History, e: Event) { h.time <= e.at && !IsLocked(h.row, e.at) }

  function After(h: History, e: Event): History {
    match e
    case Success(at) => History(Reset(h.row), h.locks, at)
    case Failure(at) =>
      var row := Failed(h.row, at);
      var locked := FailureReport(h.row, at).nowLocked;
      History(row, if locked then h.locks + [Lock(at, row.lockedUntil.value)] else h.locks, at)
  }

  ghost predicate LegalRun(h: History, es: seq<Event>)
    decreases |es|
  {
    es == [] || (Legal(h, es[0]) && LegalRun(After(h, es[0]), es[1..]))
  }

  function RunOf(h: History, es: seq<Event>): History
    decreases |es|
  {
    if es == [] then h else RunOf(After(h, es[0]), es[1..])
  }

  /** The k-th lock has the k-th length, and each starts after the one before has ended. */
  ghost predicate Escalates(h: History) {
    && |h.locks| == h.row.lockoutCount
    && (forall k :: 0 <= k < |h.locks| ==> h.locks[k].until == h.locks[k].at + LockLength(k))
    && (forall k :: 0 < k < |h.locks| ==> h.locks[k].at >= h.locks[k - 1].until)
    && (h.locks != [] ==>
          var last := h.locks[|h.locks| - 1];
          last.at <= h.time && (h.row.lockedUntil == Some(last.until) || h.time >= last.until))
  }

  lemma {:induction false} RunEscalates(h: History, es: seq<Event>)
    requires Escalates(h) && LegalRun(h, es)
    ensures Escalates(RunOf(h, es))
    decreases |es|
  {
    if es != [] {
      RunEscalates(After(h, es[0]), es[1..]);
    }
  }

  /** The lengths of the first `n` locks together. */
  function TotalLength(n: nat): nat { if n == 0 then 0 else TotalLength(n - 1) + LockLength(n - 1) }

  lemma {:induction false} LocksSpread(h: History, n: nat)
    requires Escalates(h) && n < |h.locks|
    ensures h.locks[n].at - h.locks[0].at >= TotalLength(n)
  {
    if n > 0 {
      LocksSpread(h, n - 1);
    }
  }

  lemma {:induction false} Pow2AtLeast(n: nat)
    requires n >= 7
    ensures Pow2(n) >= 128
  {
    if n > 7 {
      Pow2AtLeast(n - 1);
    } else {
      assert Pow2(7) == 128;
    }
  }

  /** From the eighth lock on every lock lasts a day: the lengths sum to a closed form. */
  lemma {:induction false} TotalLengthClosed(n: nat)
    requires n >= 7
    ensures TotalLength(n) == (1905 + 1440 * (n - 7)) * MINUTE
  {
    if n == 7 {
      assert Pow2(0) == 1 && Pow2(1) == 2 && Pow2(2) == 4 && Pow2(3) == 8;
      assert Pow2(4) == 16 && Pow2(5) == 32 && Pow2(6) == 64;
      assert TotalLength(3) == (15 + 30 + 60) * MINUTE;
      assert TotalLength(5) == TotalLength(3) + (120 + 240) * MINUTE;
      assert TotalLength(7) == TotalLength(5) + (480 + 960) * MINUTE;
    } else {
      TotalLengthClosed(n - 1);
      Pow2AtLeast(n - 1);
    }
  }

  /**
   * After an unlock, whatever failures and successes follow at unlocked moments: the k-th lock lasts
   * min(15 * 2^k, 1440) minutes counting from zero, and the (n+1)-th lock comes no sooner after the
   * first than the first n lengths together - 1905 + 1440 * (n - 7) minutes from n = 7 on.
   */
  lemma EscalationBound(row: Row, now: int, es: seq<Event>, n: nat)
    requires LegalRun(History(Unlocked(row), [], now), es)
    ensures var h := RunOf(History(Unlocked(row), [], now), es);
            && (forall k :: 0 <= k < |h.locks| ==> h.locks[k].until - h.locks[k].at == LockLength(k))
            && (n < |h.locks| ==> h.locks[n].at - h.locks[0].at >= TotalLength(n))
            && (7 <= n < |h.locks| ==> h.locks[n].at - h.locks[0].at >= (1905 + 1440 * (n - 7)) * MINUTE)
  {
    var h := RunOf(History(Unlocked(row), [], now), es);
    RunEscalates(History(Unlocked(row), [], now), es);
    if n < |h.locks| {
      LocksSpread(h, n);
    }
    if n >= 7 {
      TotalLengthClosed(n);
    }
  }

  // ---------------------------------------------------------------- the escalation bound is reached

  /** Failures at one moment, until they lock. */
  lemma {:induction false} FailUntilLocked(h: History, at: int) returns (es: seq<Event>)
    requires h.time <= at && !IsLocked(h.row, at)
    ensures LegalRun(h, es)
    ensures var end := RunOf(h, es);
            && end.time == at && end.row.lockoutCount == h.row.lockoutCount + 1
            && end.locks == h.locks + [Lock(at, at + LockLength(h.row.lockoutCount))]
            && end.row.lockedUntil == Some(at + LockLength(h.row.lockoutCount))
    decreases 5 - AttemptsAfter(h.row, at)
  {
    var next := After(h, Failure(at));
    assert [Failure(at)][1..] == [];
    if AttemptsAfter(h.row, at) >= MAX_FAILED_ATTEMPTS {
      es := [Failure(at)];
      assert RunOf(next, []) == next;
    } else {
      var rest := FailUntilLocked(next, at);
      es := [Failure(at)] + rest;
      assert es[1..] == rest;
    }
  }

  lemma {:induction false} RunOfConcat(h: History, es: seq<Event>, fs: seq<Event>)
    requires LegalRun(h, es) && LegalRun(RunOf(h, es), fs)
    ensures LegalRun(h, es + fs) && RunOf(h, es + fs) == RunOf(RunOf(h, es), fs)
    decreases |es|
  {
    if es == [] {
      assert [] + fs == fs;
    } else {
      assert (es + fs)[1..] == es[1..] + fs;
      RunOfConcat(After(h, es[0]), es[1..], fs);
    }
  }

  /**
   * The escalation bound is exact: whoever fails again at the very end of each lock gets lock n exactly
   * when the first n lengths have passed since the first lock, for every n.
   */
  lemma {:induction false} EscalationBoundIsReached(row: Row, now: int, n: nat) returns (es: seq<Event>)
    ensures LegalRun(History(Unlocked(row), [], now), es)
    ensures var h := RunOf(History(Unlocked(row), [], now), es);
            && |h.locks| == h.row.lockoutCount == n + 1
            && h.locks[0].at == now && h.locks[n].at == h.time == now + TotalLength(n)
            && h.row.lockedUntil == Some(now + TotalLength(n) + LockLength(n))
    decreases n
  {
    var start := History(Unlocked(row), [], now);
    if n == 0 {
      es := FailUntilLocked(start, now);
    } else {
      var before := EscalationBoundIsReached(row, now, n - 1);
      var h := RunOf(start, before);
      LockLengthPositive(n - 1);
      var more := FailUntilLocked(h, now + TotalLength(n));
      RunOfConcat(start, before, more);
      es := before + more;
    }
  }
}
