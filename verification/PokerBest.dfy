/** The best five of a list of cards and the showdown (src/config/poker.ts). */
module PokerBest {
  import opened Outcomes
  import opened PokerHand
  import opened PokerOrder

  // ---------------------------------------------------------------- specification

  /** `h` is a hand of five cards taken from `cards`, in any order. */
  ghost predicate FiveOf(h: seq<Card>, cards: seq<Card>) {
    |h| == 5 && multiset(h) <= multiset(cards)
  }

  /** `v` values a hand of `cards`, and no other hand of `cards` scores more. */
  ghost predicate IsBestHand(v: HandValue, cards: seq<Card>) {
    && (exists h :: FiveOf(h, cards) && v == Value(h))
    && (forall h :: FiveOf(h, cards) ==> Score(h) <= v.score)
  }

  // ---------------------------------------------------------------- hands and index tuples

  predicate Increasing(ps: seq<nat>, n: nat) {
    && (forall i :: 0 <= i < |ps| ==> ps[i] < n)
    && (forall i, j :: 0 <= i < j < |ps| ==> ps[i] < ps[j])
  }

  function Pick(cards: seq<Card>, ps: seq<nat>): (h: seq<Card>)
    requires Increasing(ps, |cards|)
    ensures |h| == |ps|
  {
    seq(|ps|, i requires 0 <= i < |ps| => cards[ps[i]])
  }

  function Shift(ps: seq<nat>): (qs: seq<nat>)
    ensures |qs| == |ps| && forall i :: 0 <= i < |ps| ==> qs[i] == ps[i] + 1
  {
    seq(|ps|, i requires 0 <= i < |ps| => ps[i] + 1)
  }

  lemma PickShift(cards: seq<Card>, ps: seq<nat>)
    requires cards != [] && Increasing(ps, |cards| - 1)
    ensures Increasing(Shift(ps), |cards|) && Pick(cards, Shift(ps)) == Pick(cards[1..], ps)
    ensures Increasing([0] + Shift(ps), |cards|) && Pick(cards, [0] + Shift(ps)) == [cards[0]] + Pick(cards[1..], ps)
  {
  }

  /** Every sub-multiset is picked by an increasing tuple of positions. */
  lemma {:induction false} Positions(m: multiset<Card>, cards: seq<Card>) returns (ps: seq<nat>)
    requires m <= multiset(cards)
    ensures Increasing(ps, |cards|) && multiset(Pick(cards, ps)) == m
  {
    if cards == [] {
      ps := [];
    } else {
      var c, rest := cards[0], cards[1..];
      assert cards == [c] + rest;
      if c in m {
        var qs := Positions(m - multiset{c}, rest);
        PickShift(cards, qs);
        ps := [0] + Shift(qs);
      } else {
        assert forall x :: m[x] <= multiset(rest)[x];
        var qs := Positions(m, rest);
        PickShift(cards, qs);
        ps := Shift(qs);
      }
    }
  }

  lemma {:induction false} PicksAreSubMultisets(cards: seq<Card>, ps: seq<nat>)
    requires Increasing(ps, |cards|)
    ensures multiset(Pick(cards, ps)) <= multiset(cards)
    decreases |ps|
  {
    if ps != [] {
      var k := |ps| - 1;
      var p := ps[k];
      assert Increasing(ps[..k], p);
      PicksAreSubMultisets(cards[..p], ps[..k]);
      assert Pick(cards, ps) == Pick(cards[..p], ps[..k]) + [cards[p]];
      assert cards == cards[..p] + [cards[p]] + cards[p + 1..];
    }
  }

  lemma ScoreOfMultiset(a: seq<Card>, b: seq<Card>)
    requires multiset(a) == multiset(b) && |a| == |b| == 5
    ensures Score(a) == Score(b)
  {
    RanksOfMultiset(a, b);
    if IsFlush(a) { FlushOfMultiset(a, b); }
    if IsFlush(b) { FlushOfMultiset(b, a); }
    ScoreForgetsOrder(a, b);
  }

  function RemoveAt(s: seq<Card>, i: nat): seq<Card>
    requires i < |s|
  {
    s[..i] + s[i + 1..]
  }

  lemma RemoveAtFacts(s: seq<Card>, i: nat)
    requires i < |s|
    ensures multiset(RemoveAt(s, i)) == multiset(s) - multiset{s[i]}
    ensures multiset(Ranks(s)) == multiset(Ranks(RemoveAt(s, i))) + multiset{s[i].rank}
  {
    assert s == s[..i] + [s[i]] + s[i + 1..];
    assert Ranks(s) == Ranks(s[..i]) + [s[i].rank] + Ranks(s[i + 1..]);
    assert Ranks(RemoveAt(s, i)) == Ranks(s[..i]) + Ranks(s[i + 1..]);
  }

  lemma {:induction false} RanksOfMultiset(a: seq<Card>, b: seq<Card>)
    requires multiset(a) == multiset(b)
    ensures multiset(Ranks(a)) == multiset(Ranks(b))
    decreases |a|
  {
    assert |a| == |multiset(a)| == |multiset(b)| == |b|;
    if a != [] {
      assert a[0] in multiset(b);
      var i :| 0 <= i < |b| && b[i] == a[0];
      RemoveAtFacts(a, 0);
      RemoveAtFacts(b, i);
      RanksOfMultiset(RemoveAt(a, 0), RemoveAt(b, i));
    }
  }

  lemma FlushOfMultiset(a: seq<Card>, b: seq<Card>)
    requires multiset(a) == multiset(b) && IsFlush(a) && a != []
    ensures IsFlush(b)
  {
    forall i | 0 <= i < |b| ensures b[i].suit == a[0].suit {
      assert b[i] in multiset(a);
    }
  }

  // ---------------------------------------------------------------- the five nested loops

  /** Five positions in a list of `n` cards, in the order the loops try them. */
  predicate Quintuple(ps: seq<nat>, n: nat) {
    |ps| == 5 && ps[0] < ps[1] < ps[2] < ps[3] < ps[4] < n
  }

  function Hand(cards: seq<Card>, ps: seq<nat>): seq<Card>
    requires Quintuple(ps, |cards|)
  {
    [cards[ps[0]], cards[ps[1]], cards[ps[2]], cards[ps[3]], cards[ps[4]]]
  }

  /** The loops reach `ps` before they stand at (a, b, c, d, e). */
  predicate Before(ps: seq<nat>, a: int, b: int, c: int, d: int, e: int)
    requires |ps| == 5
  {
    || ps[0] < a
    || (ps[0] == a && (ps[1] < b
    || (ps[1] == b && (ps[2] < c
    || (ps[2] == c && (ps[3] < d
    || (ps[3] == d && ps[4] < e)))))))
  }

  /** `best` is the maximum over the tuples before (a, b, c, d, e), or null while there are none. */
  ghost predicate BestSoFar(cards: seq<Card>, best: Option<HandValue>, a: int, b: int, c: int, d: int, e: int) {
    && (forall ps :: Quintuple(ps, |cards|) && Before(ps, a, b, c, d, e) ==> Covers(cards, best, ps))
    && (best.Some? ==> exists ps :: Quintuple(ps, |cards|) && best.value == Value(Hand(cards, ps)))
  }

  ghost predicate Covers(cards: seq<Card>, best: Option<HandValue>, ps: seq<nat>)
    requires Quintuple(ps, |cards|)
  {
    best.Some? && Score(Hand(cards, ps)) <= best.value.score
  }

  /** Moving to a later place is free when no tuple lies in between. */
  lemma Skip(cards: seq<Card>, best: Option<HandValue>,
             a: int, b: int, c: int, d: int, e: int, a': int, b': int, c': int, d': int, e': int)
    requires BestSoFar(cards, best, a, b, c, d, e)
    requires forall ps :: Quintuple(ps, |cards|) && Before(ps, a', b', c', d', e') ==> Before(ps, a, b, c, d, e)
    ensures BestSoFar(cards, best, a', b', c', d', e')
  {
  }

  method EvaluateBest5(cards: seq<Card>) returns (best: Option<HandValue>)
    ensures best.Some? <==> |cards| >= 5
    ensures best.Some? ==> IsBestHand(best.value, cards)
  {
    best := None;
    var n := |cards|;
    var a := 0;
    while a < n - 4
      invariant 0 <= a
      invariant BestSoFar(cards, best, a, 0, 0, 0, 0)
    {
      var b := a + 1;
      Skip(cards, best, a, 0, 0, 0, 0, a, b, 0, 0, 0);
      while b < n - 3
        invariant a < b
        invariant BestSoFar(cards, best, a, b, 0, 0, 0)
      {
        var c := b + 1;
        Skip(cards, best, a, b, 0, 0, 0, a, b, c, 0, 0);
        while c < n - 2
          invariant b < c
          invariant BestSoFar(cards, best, a, b, c, 0, 0)
        {
          var d := c + 1;
          Skip(cards, best, a, b, c, 0, 0, a, b, c, d, 0);
          while d < n - 1
            invariant c < d
            invariant BestSoFar(cards, best, a, b, c, d, 0)
          {
            var e := d + 1;
            Skip(cards, best, a, b, c, d, 0, a, b, c, d, e);
            while e < n
              invariant d < e
              invariant BestSoFar(cards, best, a, b, c, d, e)
            {
              best := Better(cards, best, a, b, c, d, e);
              e := e + 1;
            }
            Skip(cards, best, a, b, c, d, e, a, b, c, d + 1, 0);
            d := d + 1;
          }
          Skip(cards, best, a, b, c, d, 0, a, b, c + 1, 0, 0);
          c := c + 1;
        }
        Skip(cards, best, a, b, c, 0, 0, a, b + 1, 0, 0, 0);
        b := b + 1;
      }
      Skip(cards, best, a, b, 0, 0, 0, a + 1, 0, 0, 0, 0);
      a := a + 1;
    }
    AllTuplesSeen(cards, best, a);
  }

  /** The innermost body: value one hand and keep the better. */
  method Better(cards: seq<Card>, best: Option<HandValue>, a: nat, b: nat, c: nat, d: nat, e: nat)
    returns (r: Option<HandValue>)
    requires a < b < c < d < e < |cards|
    requires BestSoFar(cards, best, a, b, c, d, e)
    ensures BestSoFar(cards, r, a, b, c, d, e + 1)
  {
    ghost var here := [a, b, c, d, e];
    var v := Rank5([cards[a], cards[b], cards[c], cards[d], cards[e]]);
    assert v == Value(Hand(cards, here));
    if best.None? || v.score > best.value.score {
      r := Some(v);
    } else {
      r := best;
    }
    Extend(cards, best, v, r, here);
  }

  lemma Extend(cards: seq<Card>, best: Option<HandValue>, v: HandValue, r: Option<HandValue>, here: seq<nat>)
    requires Quintuple(here, |cards|)
    requires BestSoFar(cards, best, here[0], here[1], here[2], here[3], here[4])
    requires v == Value(Hand(cards, here))
    requires r == if best.None? || v.score > best.value.score then Some(v) else best
    ensures BestSoFar(cards, r, here[0], here[1], here[2], here[3], here[4] + 1)
  {
    ExtendCovers(cards, best, v.score, r, here);
  }

  lemma ExtendCovers(cards: seq<Card>, best: Option<HandValue>, score: nat, r: Option<HandValue>, here: seq<nat>)
    requires Quintuple(here, |cards|)
    requires BestSoFar(cards, best, here[0], here[1], here[2], here[3], here[4])
    requires score == Score(Hand(cards, here))
    requires r.Some? && r.value.score >= score && (best.Some? ==> r.value.score >= best.value.score)
    ensures forall ps :: Quintuple(ps, |cards|) && Before(ps, here[0], here[1], here[2], here[3], here[4] + 1) ==>
        Covers(cards, r, ps)
  {
    forall ps | Quintuple(ps, |cards|) && Before(ps, here[0], here[1], here[2], here[3], here[4] + 1)
      ensures Covers(cards, r, ps)
    {
      if Before(ps, here[0], here[1], here[2], here[3], here[4]) {
        assert Covers(cards, best, ps);
      } else {
        assert ps == here;
      }
    }
  }

  /** Hands in any order are covered by the tuples. */
  lemma QuintuplesSuffice(cards: seq<Card>, h: seq<Card>) returns (ps: seq<nat>)
    requires FiveOf(h, cards)
    ensures Quintuple(ps, |cards|) && Score(Hand(cards, ps)) == Score(h)
  {
    ps := Positions(multiset(h), cards);
    assert |ps| == |multiset(Pick(cards, ps))| == |multiset(h)| == 5;
    assert Pick(cards, ps) == Hand(cards, ps);
    ScoreOfMultiset(h, Pick(cards, ps));
  }

  lemma QuintupleIsHand(cards: seq<Card>, ps: seq<nat>)
    requires Quintuple(ps, |cards|)
    ensures FiveOf(Hand(cards, ps), cards)
  {
    assert Pick(cards, ps) == Hand(cards, ps);
    PicksAreSubMultisets(cards, ps);
  }

  lemma AllTuplesSeen(cards: seq<Card>, best: Option<HandValue>, a: int)
    requires a >= |cards| - 4 && BestSoFar(cards, best, a, 0, 0, 0, 0)
    ensures best.Some? <==> |cards| >= 5
    ensures best.Some? ==> IsBestHand(best.value, cards)
  {
    if |cards| >= 5 {
      assert Quintuple([0, 1, 2, 3, 4], |cards|) && Before([0, 1, 2, 3, 4], a, 0, 0, 0, 0);
    }
    if best.Some? {
      forall h | FiveOf(h, cards) ensures Score(h) <= best.value.score {
        var ps := QuintuplesSuffice(cards, h);
        assert Covers(cards, best, ps);
      }
      var ps :| Quintuple(ps, |cards|) && best.value == Value(Hand(cards, ps));
      QuintupleIsHand(cards, ps);
    }
  }

  /** Adding cards, in any place and order, never lowers the best score; rearranging them keeps it. */
  lemma BestIsMonotone(v: HandValue, cards: seq<Card>, w: HandValue, more: seq<Card>)
    requires IsBestHand(v, cards) && IsBestHand(w, more)
    requires multiset(cards) <= multiset(more)
    ensures v.score <= w.score
    ensures multiset(cards) == multiset(more) ==> v.score == w.score
  {
    var h :| FiveOf(h, cards) && v == Value(h);
    assert FiveOf(h, more);
    var k :| FiveOf(k, more) && w == Value(k);
  }

  // ---------------------------------------------------------------- the showdown

  datatype Board = Board(player1: seq<Card>, player2: seq<Card>, community: seq<Card>)

  datatype Winner = Player1 | Player2 | Tie

  datatype Outcome = Outcome(board: Board, p1: HandValue, p2: HandValue, winner: Winner)

  /** Two hole cards each and five in the middle. */
  predicate Complete(b: Board) { |b.player1| == |b.player2| == 2 && |b.community| == 5 }

  ghost predicate IsOutcome(o: Outcome, b: Board) {
    && o.board == b
    && IsBestHand(o.p1, b.player1 + b.community)
    && IsBestHand(o.p2, b.player2 + b.community)
    && (o.winner == Player1 <==> o.p1.score > o.p2.score)
    && (o.winner == Player2 <==> o.p2.score > o.p1.score)
  }

  method EvaluateBoard(board: Board) returns (o: Outcome)
    requires Complete(board)
    ensures IsOutcome(o, board)
  {
    var p1 := EvaluateBest5(board.player1 + board.community);
    var p2 := EvaluateBest5(board.player2 + board.community);
    var winner := if p1.value.score > p2.value.score then Player1
                  else if p2.value.score > p1.value.score then Player2
                  else Tie;
    o := Outcome(board, p1.value, p2.value, winner);
  }

  function Opponent(w: Winner): Winner {
    match w
    case Player1 => Player2
    case Player2 => Player1
    case Tie => Tie
  }

  /**
   * The players' seats and the order of the cards do not matter: swapping the players swaps the winner and
   * keeps ties.
   */
  lemma SwappedPlayersSwapWinner(o: Outcome, b: Board, o': Outcome, b': Board)
    requires IsOutcome(o, b) && IsOutcome(o', b')
    requires multiset(b'.player1) == multiset(b.player2) && multiset(b'.player2) == multiset(b.player1)
    requires multiset(b'.community) == multiset(b.community)
    ensures o'.winner == Opponent(o.winner)
  {
    BestIsMonotone(o.p1, b.player1 + b.community, o'.p2, b'.player2 + b'.community);
    BestIsMonotone(o.p2, b.player2 + b.community, o'.p1, b'.player1 + b'.community);
  }
}
