/**
 * Incremental framing: a buffer, chunks appended to it, and a step that cuts one message off its
 * front. Shared by the LSP decoder of server.ts and the SSE reader of src/hooks/useSSEStream.ts.
 */
module Framing {
  import opened Outcomes
  import opened JsText

  /** One turn of the cutting loop: wait for more text, or drop a prefix and perhaps emit a message. */
  datatype Cut = Wait | Cut(out: Option<Text>, rest: Text)

  ghost predicate Shrinks(step: Text -> Cut) {
    forall b :: step(b).Cut? ==> |step(b).rest| < |b|
  }

  /** A cut that is possible stays the same when more text arrives. */
  ghost predicate Stable(step: Text -> Cut) {
    forall b, y :: step(b).Cut? ==> step(b + y) == Cut(step(b).out, step(b).rest + y)
  }

  function Emitted(c: Cut): seq<Text>
    requires c.Cut?
  {
    if c.out.Some? then [c.out.value] else []
  }

  /** What the loop emits from buffer `b`, and what it leaves there. */
  ghost function Drain(step: Text -> Cut, b: Text): (seq<Text>, Text)
    requires Shrinks(step)
    decreases |b|
  {
    if step(b).Wait? then ([], b)
    else
      var (ms, r) := Drain(step, step(b).rest);
      (Emitted(step(b)) + ms, r)
  }

  /** The loop started with buffer `all`, has emitted `emitted` and still holds `b`. */
  ghost predicate Draining(step: Text -> Cut, all: Text, emitted: seq<Text>, b: Text)
    requires Shrinks(step)
  {
    Drain(step, all) == (emitted + Drain(step, b).0, Drain(step, b).1)
  }

  lemma DrainStart(step: Text -> Cut, all: Text)
    requires Shrinks(step)
    ensures Draining(step, all, [], all)
  {
    assert [] + Drain(step, all).0 == Drain(step, all).0;
  }

  lemma DrainTurn(step: Text -> Cut, all: Text, emitted: seq<Text>, b: Text, out: Option<Text>, rest: Text)
    requires Shrinks(step) && Draining(step, all, emitted, b) && step(b) == Cut(out, rest)
    ensures out.None? ==> Draining(step, all, emitted, rest)
    ensures out.Some? ==> Draining(step, all, emitted + [out.value], rest)
  {
    var (ms, r) := Drain(step, rest);
    if out.None? {
      assert [] + ms == ms;
    } else {
      assert emitted + ([out.value] + ms) == (emitted + [out.value]) + ms;
    }
  }

  lemma DrainEnd(step: Text -> Cut, all: Text, emitted: seq<Text>, b: Text)
    requires Shrinks(step) && Draining(step, all, emitted, b) && step(b).Wait?
    ensures Drain(step, all) == (emitted, b)
  {
    assert emitted + [] == emitted;
  }

  /** Handing over the chunks one after the other, the loop running after each. */
  ghost function Feed(step: Text -> Cut, b: Text, chunks: seq<Text>): (seq<Text>, Text)
    requires Shrinks(step)
    decreases |chunks|
  {
    if chunks == [] then ([], b)
    else
      var (ms, r) := Drain(step, b + chunks[0]);
      var (ns, r') := Feed(step, r, chunks[1..]);
      (ms + ns, r')
  }

  lemma {:induction false} FeedSnoc(step: Text -> Cut, b: Text, chunks: seq<Text>, last: Text)
    requires Shrinks(step)
    ensures var (ms, r) := Feed(step, b, chunks);
            var (ns, r') := Drain(step, r + last);
            Feed(step, b, chunks + [last]) == (ms + ns, r')
    decreases |chunks|
  {
    if chunks == [] {
      assert ([last])[1..] == [] && [] + [last] == [last];
      var (ns, r') := Drain(step, b + last);
      assert ns + [] == ns == [] + ns;
    } else {
      var (ms, r) := Drain(step, b + chunks[0]);
      FeedSnoc(step, r, chunks[1..], last);
      assert (chunks + [last])[1..] == chunks[1..] + [last];
      var (ns, r') := Feed(step, r, chunks[1..]);
      var (os, r'') := Drain(step, r' + last);
      assert (ms + ns) + os == ms + (ns + os);
    }
  }

  function Flat(chunks: seq<Text>): Text {
    if chunks == [] then [] else chunks[0] + Flat(chunks[1..])
  }

  /** Draining `b`, then what is left followed by `y`. */
  ghost function DrainTwice(step: Text -> Cut, b: Text, y: Text): (seq<Text>, Text)
    requires Shrinks(step)
  {
    var (ms, r) := Drain(step, b);
    var (ns, r') := Drain(step, r + y);
    (ms + ns, r')
  }

  lemma DrainCut(step: Text -> Cut, b: Text, c: Cut)
    requires Shrinks(step) && c.Cut? && step(b) == c
    ensures Drain(step, b) == (Emitted(c) + Drain(step, c.rest).0, Drain(step, c.rest).1)
  {
  }

  lemma Reassociate<T>(a: seq<T>, b: seq<T>, c: seq<T>)
    ensures a + (b + c) == (a + b) + c
  {
  }

  /** A first cut that both buffers share. */
  lemma DrainAfterCut(step: Text -> Cut, b: Text, y: Text, c: Cut)
    requires Shrinks(step) && c.Cut? && step(b) == c && step(b + y) == Cut(c.out, c.rest + y)
    requires Drain(step, c.rest + y) == DrainTwice(step, c.rest, y)
    ensures Drain(step, b + y) == DrainTwice(step, b, y)
  {
    DrainCut(step, b, c);
    DrainCut(step, b + y, Cut(c.out, c.rest + y));
    var r := Drain(step, c.rest).1;
    Reassociate(Emitted(c), Drain(step, c.rest).0, Drain(step, r + y).0);
  }

  /** Draining before the rest of the text arrives changes nothing. */
  lemma {:induction false} DrainAppend(step: Text -> Cut, b: Text, y: Text)
    requires Shrinks(step) && Stable(step)
    ensures Drain(step, b + y) == DrainTwice(step, b, y)
    decreases |b|
  {
    var c := step(b);
    if c.Cut? {
      DrainAppend(step, c.rest, y);
      assert step(b + y) == Cut(c.out, c.rest + y);
      DrainAfterCut(step, b, y, c);
    } else {
      assert [] + Drain(step, b + y).0 == Drain(step, b + y).0;
    }
  }

  /** Chunking never matters: only the concatenated text does. */
  lemma {:induction false} ChunkingIrrelevant(step: Text -> Cut, b: Text, chunks: seq<Text>)
    requires Shrinks(step) && Stable(step) && chunks != []
    ensures Feed(step, b, chunks) == Drain(step, b + Flat(chunks))
    decreases |chunks|
  {
    var (ms, r) := Drain(step, b + chunks[0]);
    ConcatAssoc(b, chunks[0], Flat(chunks[1..]));
    if |chunks| == 1 {
      assert ms + [] == ms;
      assert b + Flat(chunks) == b + chunks[0];
    } else {
      ChunkingIrrelevant(step, r, chunks[1..]);
      DrainAppend(step, b + chunks[0], Flat(chunks[1..]));
    }
  }

  // ---------------------------------------------------------------- searching

  predicate OccursAt(t: Text, pat: Text, i: nat) { i + |pat| <= |t| && t[i..i + |pat|] == pat }

  /** `t.indexOf(pat, i)`. */
  function IndexFrom(t: Text, pat: Text, i: nat): (r: Option<nat>)
    ensures r.Some? ==>
        i <= r.value && OccursAt(t, pat, r.value) && forall k :: i <= k < r.value ==> !OccursAt(t, pat, k)
    ensures r.None? ==> forall k :: i <= k ==> !OccursAt(t, pat, k)
    decreases |t| - i
  {
    if i + |pat| > |t| then None
    else if OccursAt(t, pat, i) then Some(i)
    else IndexFrom(t, pat, i + 1)
  }

  lemma OccursAtPrefix(t: Text, y: Text, pat: Text, i: nat)
    requires i + |pat| <= |t|
    ensures OccursAt(t + y, pat, i) == OccursAt(t, pat, i)
  {
    assert (t + y)[i..i + |pat|] == t[i..i + |pat|];
  }

  /** The first occurrence stays the first when text is appended. */
  lemma IndexStable(t: Text, y: Text, pat: Text)
    requires IndexFrom(t, pat, 0).Some?
    ensures IndexFrom(t + y, pat, 0) == IndexFrom(t, pat, 0)
  {
    var k := IndexFrom(t, pat, 0).value;
    forall i | 0 <= i <= k ensures OccursAt(t + y, pat, i) == OccursAt(t, pat, i) {
      OccursAtPrefix(t, y, pat, i);
    }
  }
}
