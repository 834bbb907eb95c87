/** Lists of times, and how many of them fall into a closed window. */
module TimeWindows {
  import opened Counting

  function Without(times: seq<int>, i: nat): seq<int> {
    if i < |times| then times[..i] + times[i + 1..] else times
  }

  /** The time at position `i`, as a list. */
  function Only(times: seq<int>, i: nat): seq<int> { if i < |times| then [times[i]] else [] }

  predicate UpTo(times: seq<int>, now: int) { forall i :: 0 <= i < |times| ==> times[i] <= now }

  /** The number of times in the closed window from `from` to `to`. */
  function InWindow(times: seq<int>, from: int, to: int): nat {
    if times == [] then 0
    else InWindow(times[..|times| - 1], from, to) + if from <= times[|times| - 1] <= to then 1 else 0
  }

  function InClosed(from: int, to: int): int -> bool { (t: int) => from <= t <= to }

  lemma {:induction false} WindowExactly(times: seq<int>, from: int, to: int)
    ensures InWindow(times, from, to) == HowMany(InClosed(from, to), times)
  {
    if times == [] {
      HowManyEmpty(InClosed(from, to));
    } else {
      WindowExactly(times[..|times| - 1], from, to);
      HowManyLast(InClosed(from, to), times);
    }
  }

  /** The number of times in the closed window of length `span` that starts at `from`. */
  function InSpan(times: seq<int>, from: int, span: int): nat { InWindow(times, from, from + span) }

  lemma {:induction false} WindowConcat(a: seq<int>, b: seq<int>, from: int, to: int)
    ensures InWindow(a + b, from, to) == InWindow(a, from, to) + InWindow(b, from, to)
    decreases |b|
  {
    if b == [] {
      assert a + b == a;
    } else {
      var n := |b| - 1;
      assert (a + b)[..|a + b| - 1] == a + b[..n];
      WindowConcat(a, b[..n], from, to);
    }
  }

  lemma {:induction false} WindowAtMost(times: seq<int>, from: int, to: int)
    ensures InWindow(times, from, to) <= |times|
  {
    if times != [] { WindowAtMost(times[..|times| - 1], from, to); }
  }

  lemma {:induction false} WindowWidens(times: seq<int>, from: int, to: int, from': int, to': int)
    requires from' <= from && to <= to'
    ensures InWindow(times, from, to) <= InWindow(times, from', to')
  {
    if times != [] { WindowWidens(times[..|times| - 1], from, to, from', to'); }
  }

  lemma {:induction false} NoneLater(times: seq<int>, now: int, from: int, to: int)
    requires UpTo(times, now) && now <= to
    ensures InWindow(times, from, to) == InWindow(times, from, now)
  {
    if times != [] { NoneLater(times[..|times| - 1], now, from, to); }
  }

  /** Moving one time from one list to another changes no sum of windows. */
  lemma MoveOne(a: seq<int>, b: seq<int>, i: nat, from: int, to: int)
    requires i < |b|
    ensures InWindow(a + Only(b, i), from, to) + InWindow(Without(b, i), from, to)
        == InWindow(a, from, to) + InWindow(b, from, to)
  {
    assert b == (b[..i] + [b[i]]) + b[i + 1..];
    WindowConcat(a, [b[i]], from, to);
    WindowConcat(b[..i] + [b[i]], b[i + 1..], from, to);
    WindowConcat(b[..i], [b[i]], from, to);
    WindowConcat(b[..i], b[i + 1..], from, to);
  }

  lemma {:induction false} AllInWindow(times: seq<int>, from: int, to: int)
    requires forall i :: 0 <= i < |times| ==> from <= times[i] <= to
    ensures InWindow(times, from, to) == |times|
  {
    if times != [] { AllInWindow(times[..|times| - 1], from, to); }
  }
}
