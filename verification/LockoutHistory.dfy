/**
 * When accounts are locked and for how long, told by the moments of the failures alone
 * (src/lib/account-lockout.ts).
 */
module LockoutHistory {
  import opened Outcomes
  import opened Lockout

  // ---------------------------------------------------------------- which failure locks

  /** Thirty minutes. */
  const WINDOW := 1_800_000

  /** A row without failures on the books. */
  predicate Clean(row: Row) { row.failedLoginAttempts == 0 && row.lastFailedLoginAt.None? && row.lockedUntil.None? }

  /** Failure `k` is the last of five that follow each other within the window. */
  ghost predicate FifthInARow(times: seq<int>, k: nat)
    requires k < |times|
  {
    k >= 4 && forall j :: k - 4 < j <= k ==> Follows(times, j)
  }

  predicate Follows(times: seq<int>, j: int)
    requires 0 < j < |times|
  {
    times[j] - times[j - 1] <= WINDOW
  }

  /** How many failures up to `k` follow each other within the window. */
  function Streak(times: seq<int>, k: nat): nat
    requires k < |times|
  {
    if k > 0 && Follows(times, k) then Streak(times, k - 1) + 1 else 1
  }

  lemma StreakOfFive(times: seq<int>, k: nat)
    requires k < |times|
    ensures Streak(times, k) >= 5 <==> FifthInARow(times, k)
  {
    StreakReaches(times, k, 4);
  }

  lemma {:induction false} StreakReaches(times: seq<int>, k: nat, n: nat)
    requires k < |times|
    ensures Streak(times, k) > n <==> n <= k && forall j :: k - n < j <= k ==> Follows(times, j)
    decreases n
  {
    if n > 0 && k > 0 {
      StreakReaches(times, k - 1, n - 1);
    }
  }

  lemma {:induction false} RowAfterSnoc(row: Row, times: seq<int>, at: int)
    ensures RowAfter(row, times + [at]) == Failed(RowAfter(row, times), at)
    decreases |times|
  {
    if times == [] {
      assert (times + [at])[1..] == [];
    } else {
      assert (times + [at])[1..] == times[1..] + [at];
      RowAfterSnoc(Failed(row, times[0]), times[1..], at);
    }
  }

  /** The counter of the row is the streak. */
  lemma {:induction false} CountsStreak(row: Row, times: seq<int>, k: nat)
    requires Clean(row) && k < |times|
    ensures AttemptsAfter(RowAfter(row, times[..k]), times[k]) == Streak(times, k)
    decreases k
  {
    if k > 0 {
      assert times[..k] == times[..k - 1] + [times[k - 1]];
      RowAfterSnoc(row, times[..k - 1], times[k - 1]);
      CountsStreak(row, times, k - 1);
    }
  }

  /** On a clean row a failure locks exactly when it is the fifth in a row, no two more than thirty minutes apart. */
  lemma LocksExactly(row: Row, times: seq<int>, k: nat)
    requires Clean(row) && k < |times|
    ensures FailureReport(RowAfter(row, times[..k]), times[k]).nowLocked <==> FifthInARow(times, k)
    ensures FifthInARow(times, k) ==>
      RowAfter(row, times[..k + 1]).lockoutCount == RowAfter(row, times[..k]).lockoutCount + 1
    ensures !FifthInARow(times, k) ==>
      var before, after := RowAfter(row, times[..k]), RowAfter(row, times[..k + 1]);
      after.lockoutCount == before.lockoutCount && after.lockedUntil == before.lockedUntil
  {
    CountsStreak(row, times, k);
    StreakOfFive(times, k);
    assert times[..k + 1] == times[..k] + [times[k]];
    RowAfterSnoc(row, times[..k], times[k]);
  }

  lemma {:induction false} NoLockYet(row: Row, times: seq<int>, n: nat)
    requires Clean(row) && n <= |times| && forall k :: 0 <= k < n ==> !FifthInARow(times, k)
    ensures RowAfter(row, times[..n]).lockedUntil.None? && RowAfter(row, times[..n]).lockoutCount == row.lockoutCount
  {
    if n > 0 {
      NoLockYet(row, times, n - 1);
      LocksExactly(row, times, n - 1);
    } else {
      assert times[..0] == [];
    }
  }

  /**
   * After a success, or an unlock, it takes five further failures to lock: fewer never do, and five do exactly
   * when they follow each other within the window.
   */
  lemma FiveFurtherFailures(row: Row, clean: Row, times: seq<int>)
    requires clean == Reset(row) || clean == Unlocked(row)
    ensures |times| < 5 ==> RowAfter(clean, times).lockedUntil.None?
    ensures |times| == 5 ==> (RowAfter(clean, times).lockedUntil.Some? <==> FifthInARow(times, 4))
    ensures |times| == 5 && FifthInARow(times, 4) ==>
      RowAfter(clean, times).lockedUntil == Some(times[4] + LockLength(clean.lockoutCount))
  {
    var n := if |times| < 5 then |times| else 4;
    NoLockYet(clean, times, n);
    if |times| < 5 {
      assert times[..n] == times;
    } else if |times| == 5 {
      LocksExactly(clean, times, 4);
      assert times == times[..4] + [times[4]];
      RowAfterSnoc(clean, times[..4], times[4]);
    }
  }

  /** A success keeps the number of locks that the next length depends on; an unlock starts from the first. */
  lemma WhatIsForgotten(row: Row)
    ensures Clean(Reset(row)) && Reset(row).lockoutCount == row.lockoutCount
    ensures Clean(Unlocked(row)) && Unlocked(row).lockoutCount == 0
  {
  }

  // ---------------------------------------------------------------- how long a lock lasts

  /** The first eight lengths in minutes. */
  const MINUTES: seq<nat> := [15, 30, 60, 120, 240, 480, 960, 1440]

  lemma LockLengths(count: nat)
    ensures LockLength(count) == (if count < 8 then MINUTES[count] else 1440) * 60_000
  {
    if count < 8 {
      assert Pow2(0) == 1 && Pow2(1) == 2 && Pow2(2) == 4 && Pow2(3) == 8;
      assert Pow2(4) == 16 && Pow2(5) == 32 && Pow2(6) == 64 && Pow2(7) == 128;
    } else {
      Pow2AtLeast(count);
    }
  }

  // ---------------------------------------------------------------- attempts that are left

  function Copies(at: int, n: nat): (times: seq<int>)
    ensures |times| == n && forall i :: 0 <= i < n ==> times[i] == at
  {
    seq(n, _ => at)
  }

  /** Of the attempts a failure reports as left, all but the last pass and the last one locks. */
  lemma {:induction false} RemainingAttemptsExactly(row: Row, now: int, n: nat)
    requires !FailureReport(row, now).nowLocked && 1 <= n <= FailureReport(row, now).remainingAttempts
    ensures FailureReport(RowAfter(Failed(row, now), Copies(now, n - 1)), now).nowLocked
       <==> n == FailureReport(row, now).remainingAttempts
    decreases n
  {
    var next := Failed(row, now);
    if n > 1 {
      RemainingAttemptsExactly(next, now, n - 1);
      assert Copies(now, n - 1)[1..] == Copies(now, n - 2);
    }
  }

  // ---------------------------------------------------------------- who is locked out

  /** The lock column is that of the latest lock, or cleared. */
  ghost predicate Tracks(h: History) {
    && Escalates(h)
    && (h.row.lockedUntil.Some? ==> h.locks != [] && h.row.lockedUntil.value == h.locks[|h.locks| - 1].until)
  }

  lemma StepTracks(h: History, e: Event)
    requires Tracks(h) && Legal(h, e)
    ensures Tracks(After(h, e))
  {
  }

  lemma {:induction false} RunTracks(h: History, es: seq<Event>)
    requires Tracks(h) && LegalRun(h, es)
    ensures Tracks(RunOf(h, es))
    decreases |es|
  {
    if es != [] {
      StepTracks(h, es[0]);
      RunTracks(After(h, es[0]), es[1..]);
    }
  }

  ghost predicate During(l: Lock, now: int) { l.at <= now < l.until }

  /** `s` is the least number of whole seconds in which `ms` milliseconds pass. */
  predicate SecondsFor(s: int, ms: int) { (s - 1) * 1000 < ms <= s * 1000 }

  /** After any legal run from an unlock, a check finds the account locked exactly during one of the locks. */
  lemma LockedExactly(row: Row, start: int, es: seq<Event>, now: int)
    requires LegalRun(History(Unlocked(row), [], start), es)
    requires RunOf(History(Unlocked(row), [], start), es).time <= now
    ensures var h := RunOf(History(Unlocked(row), [], start), es);
            var s := StatusOf(h.row, now);
            && (s.locked <==> exists k :: 0 <= k < |h.locks| && During(h.locks[k], now))
            && (s.locked ==> s.remainingAttempts == 0 && h.locks != [] && s.secondsRemaining.Some?
                             && s.lockedUntil == Some(h.locks[|h.locks| - 1].until)
                             && SecondsFor(s.secondsRemaining.value, h.locks[|h.locks| - 1].until - now))
  {
    var h := RunOf(History(Unlocked(row), [], start), es);
    RunTracks(History(Unlocked(row), [], start), es);
    var n := |h.locks|;
    if StatusOf(h.row, now).locked {
      assert During(h.locks[n - 1], now);
    }
    if k :| 0 <= k < n && During(h.locks[k], now) {
      EarlierLocksAreOver(h, k);
    }
  }

  /** All locks but the last were over when the last began. */
  lemma {:induction false} EarlierLocksAreOver(h: History, k: nat)
    requires Escalates(h) && k < |h.locks|
    ensures k < |h.locks| - 1 ==> h.locks[k].until <= h.locks[|h.locks| - 1].at
    decreases |h.locks| - k
  {
    if k + 1 < |h.locks| - 1 {
      EarlierLocksAreOver(h, k + 1);
      LockLengthPositive(k + 1);
    }
  }
}
