/** Dealing nine cards by an in-place Fisher-Yates shuffle (src/config/poker.ts). */
module PokerDeal {
  import opened Sorting
  import opened PokerHand
  import opened PokerBest

  const SUITS: seq<Suit> := [Spades, Hearts, Diamonds, Clubs]

  /** The 52 cards in the order they are pushed. */
  function FullDeck(): (d: seq<Card>)
    ensures |d| == 52
  {
    seq(52, i requires 0 <= i < 52 => Card(2 + i / 4, SUITS[i % 4]))
  }

  /** Rank after rank from the two to the ace, each in the order spades, hearts, diamonds, clubs. */
  lemma DeckInOrder(r: Rank)
    ensures FullDeck()[4 * (r - 2)..4 * (r - 1)]
         == [Card(r, Spades), Card(r, Hearts), Card(r, Diamonds), Card(r, Clubs)]
  {
    var at: nat := 4 * (r - 2);
    assert FullDeck()[at] == Card(r, Spades);
    assert FullDeck()[at + 1] == Card(r, Hearts);
    assert FullDeck()[at + 2] == Card(r, Diamonds);
    assert FullDeck()[at + 3] == Card(r, Clubs);
  }

  lemma FullDeckIsDistinct()
    ensures Distinct(FullDeck())
  {
    forall i, j | 0 <= i < j < 52 ensures FullDeck()[i] != FullDeck()[j] {
      if i / 4 == j / 4 {
        assert i % 4 != j % 4;
      }
    }
  }

  // ---------------------------------------------------------------- the shuffle on values

  function Swap<T>(s: seq<T>, i: nat, j: nat): (r: seq<T>)
    requires i < |s| && j < |s|
    ensures |r| == |s|
  {
    s[i := s[j]][j := s[i]]
  }

  /** Draws for the positions |js|, |js| - 1, ..., 1: each at most its position. */
  predicate Draws(js: seq<nat>) { forall k :: 0 <= k < |js| ==> js[k] <= |js| - k }

  function Shuffle<T>(d: seq<T>, js: seq<nat>): (r: seq<T>)
    requires |js| < |d| && Draws(js)
    ensures |r| == |d|
    decreases |js|
  {
    if js == [] then d else Shuffle(Swap(d, |js|, js[0]), js[1..])
  }

  lemma SwapPermutes<T>(s: seq<T>, i: nat, j: nat)
    requires i < |s| && j < |s|
    ensures multiset(Swap(s, i, j)) == multiset(s)
  {
  }

  lemma SwapDistinct<T>(s: seq<T>, i: nat, j: nat)
    requires i < |s| && j < |s| && Distinct(s)
    ensures Distinct(Swap(s, i, j))
  {
  }

  /** The shuffle rearranges the deck and leaves alone what lies above its first position. */
  lemma {:induction false} ShufflePermutes<T>(d: seq<T>, js: seq<nat>)
    requires |js| < |d| && Draws(js)
    ensures multiset(Shuffle(d, js)) == multiset(d)
    ensures Distinct(d) ==> Distinct(Shuffle(d, js))
    ensures forall k :: |js| < k < |d| ==> Shuffle(d, js)[k] == d[k]
    decreases |js|
  {
    if js != [] {
      SwapPermutes(d, |js|, js[0]);
      if Distinct(d) { SwapDistinct(d, |js|, js[0]); }
      ShufflePermutes(Swap(d, |js|, js[0]), js[1..]);
    }
  }

  /** The first draw settles the last place, by exchanging the two cards. */
  lemma FirstDraw<T>(d: seq<T>, js: seq<nat>) returns (e: seq<T>)
    requires 0 < |js| < |d| && Draws(js)
    ensures |e| == |d| && e[|js|] == d[js[0]] && e[js[0]] == d[|js|]
    ensures forall k :: 0 <= k < |d| && k != |js| && k != js[0] ==> e[k] == d[k]
    ensures Shuffle(d, js) == Shuffle(e, js[1..]) && Shuffle(d, js)[|js|] == d[js[0]]
  {
    e := Swap(d, |js|, js[0]);
    ShufflePermutes(e, js[1..]);
  }

  /** Different draws give different orders of a deck without duplicates. */
  lemma {:induction false} ShuffleInjective<T>(d: seq<T>, js: seq<nat>, ks: seq<nat>)
    requires |js| == |ks| < |d| && Draws(js) && Draws(ks) && Distinct(d)
    requires Shuffle(d, js) == Shuffle(d, ks)
    ensures js == ks
    decreases |js|
  {
    if js != [] {
      var i := |js|;
      ShufflePermutes(Swap(d, i, js[0]), js[1..]);
      ShufflePermutes(Swap(d, i, ks[0]), ks[1..]);
      assert d[js[0]] == Shuffle(d, js)[i] == Shuffle(d, ks)[i] == d[ks[0]];
      SwapDistinct(d, i, js[0]);
      ShuffleInjective(Swap(d, i, js[0]), js[1..], ks[1..]);
      assert js == [js[0]] + js[1..] && ks == [ks[0]] + ks[1..];
    }
  }

  /** Moving the wanted card to position `i` leaves the same cards below it on both sides. */
  lemma PlaceOne<T>(d: seq<T>, t: seq<T>, i: nat, j: nat)
    requires i < |d| && i < |t| && j <= i && d[j] == t[i]
    requires multiset(d[..i + 1]) == multiset(t[..i + 1])
    ensures multiset(Swap(d, i, j)[..i]) == multiset(t[..i])
  {
    var p := d[..i + 1];
    SwapPermutes(p, i, j);
    assert Swap(d, i, j)[..i] + [t[i]] == Swap(p, i, j);
    assert t[..i] + [t[i]] == t[..i + 1];
    assert multiset(Swap(d, i, j)[..i]) + multiset{t[i]} == multiset(p);
    assert multiset(t[..i]) + multiset{t[i]} == multiset(p);
    assert multiset(t[..i]) == multiset(p) - multiset{t[i]} == multiset(Swap(d, i, j)[..i]);
  }

  lemma FindCard<T>(d: seq<T>, t: seq<T>, i: nat) returns (j: nat)
    requires i < |d| && i < |t| && multiset(d[..i + 1]) == multiset(t[..i + 1])
    ensures j <= i && d[j] == t[i]
  {
    assert t[i] == t[..i + 1][i];
    assert t[i] in multiset(d[..i + 1]);
    j :| 0 <= j < i + 1 && d[..i + 1][j] == t[i];
  }

  /** Every rearrangement below position `i` is reached by some draws. */
  lemma {:induction false} ShuffleReaches<T>(d: seq<T>, t: seq<T>, i: nat) returns (js: seq<nat>)
    requires i < |d| == |t| && multiset(d[..i + 1]) == multiset(t[..i + 1])
    requires forall k :: i < k < |d| ==> d[k] == t[k]
    ensures |js| == i && Draws(js) && Shuffle(d, js) == t
    decreases i
  {
    var j := FindCard(d, t, i);
    if i == 0 {
      js := [];
      assert d == t;
    } else {
      PlaceOne(d, t, i, j);
      var rest := ShuffleReaches(Swap(d, i, j), t, i - 1);
      js := [j] + rest;
      assert js[1..] == rest;
    }
  }

  /**
   * Fisher-Yates is fair: each of the orders of the 52 cards comes from exactly one sequence of draws.
   */
  lemma EachOrderFromOneDraw(t: seq<Card>) returns (js: seq<nat>)
    requires multiset(t) == multiset(FullDeck())
    ensures |js| == 51 && Draws(js) && Shuffle(FullDeck(), js) == t
    ensures forall ks: seq<nat> :: |ks| == 51 && Draws(ks) && Shuffle(FullDeck(), ks) == t ==> ks == js
  {
    var d := FullDeck();
    assert |t| == |multiset(t)| == |multiset(d)| == 52;
    assert d[..52] == d && t[..52] == t;
    js := ShuffleReaches(d, t, 51);
    FullDeckIsDistinct();
    forall ks: seq<nat> | |ks| == 51 && Draws(ks) && Shuffle(d, ks) == t ensures ks == js {
      ShuffleInjective(d, ks, js);
    }
  }

  // ---------------------------------------------------------------- dealing

  /** `Math.floor(x * (i + 1))`. */
  function DrawAt(x: real, i: nat): int { (x * (i + 1) as real).Floor }

  lemma DrawInRange(x: real, i: nat)
    requires 0.0 <= x < 1.0
    ensures 0 <= DrawAt(x, i) <= i
  {
    var n := (i + 1) as real;
    assert 0.0 <= x * n < n;
  }

  /** The draws a stream of random numbers makes for positions `n`, `n` - 1, ..., 1. */
  function DrawsOf(rng: nat -> real, used: nat, n: nat): (js: seq<nat>)
    requires forall k :: 0.0 <= rng(k) < 1.0
    ensures |js| == n && Draws(js)
    decreases n
  {
    if n == 0 then []
    else
      DrawInRange(rng(used), n);
      [DrawAt(rng(used), n)] + DrawsOf(rng, used + 1, n - 1)
  }

  /** `x` lies in the `j`-th of `n` equal parts of the unit interval. */
  predicate InPart(x: real, j: nat, n: nat)
    requires n > 0
  {
    j as real / n as real <= x < (j + 1) as real / n as real
  }

  lemma DivisionBound(x: real, y: real, n: real)
    requires n > 0.0
    ensures y / n <= x <==> y <= x * n
  {
    var q := y / n;
    assert q * n == y;
    if q <= x {
      assert (x - q) * n >= 0.0;
    } else {
      assert (q - x) * n > 0.0;
    }
  }

  lemma DrawIsPart(x: real, i: nat, j: nat)
    ensures DrawAt(x, i) == j <==> InPart(x, j, i + 1)
  {
    var n := (i + 1) as real;
    DivisionBound(x, j as real, n);
    DivisionBound(x, (j + 1) as real, n);
  }

  /** From the `used`-th on, each number lies in the part its draw names, of as many parts as places are open. */
  ghost predicate InBox(rng: nat -> real, used: nat, js: seq<nat>) {
    forall k :: 0 <= k < |js| ==> InPart(rng(used + k), js[k], |js| - k + 1)
  }

  lemma BoxStep(rng: nat -> real, used: nat, js: seq<nat>)
    requires js != []
    ensures InBox(rng, used, js) <==> InPart(rng(used), js[0], |js| + 1) && InBox(rng, used + 1, js[1..])
  {
    var rest := js[1..];
    if InBox(rng, used, js) {
      assert InPart(rng(used + 0), js[0], |js| - 0 + 1);
      forall k | 0 <= k < |rest| ensures InPart(rng(used + 1 + k), rest[k], |rest| - k + 1) {
        assert InPart(rng(used + (k + 1)), js[k + 1], |js| - (k + 1) + 1);
      }
    }
    if InPart(rng(used), js[0], |js| + 1) && InBox(rng, used + 1, rest) {
      forall k | 0 <= k < |js| ensures InPart(rng(used + k), js[k], |js| - k + 1) {
        assert k > 0 ==> InPart(rng(used + 1 + (k - 1)), rest[k - 1], |rest| - (k - 1) + 1);
      }
    }
  }

  /** The draws made are `js` exactly when the numbers lie in their box. */
  lemma {:induction false} DrawsExactly(rng: nat -> real, used: nat, js: seq<nat>)
    requires forall k :: 0.0 <= rng(k) < 1.0
    ensures DrawsOf(rng, used, |js|) == js <==> InBox(rng, used, js)
    decreases |js|
  {
    if js != [] {
      var made := DrawsOf(rng, used, |js|);
      DrawInRange(rng(used), |js|);
      DrawIsPart(rng(used), |js|, js[0]);
      DrawsExactly(rng, used + 1, js[1..]);
      BoxStep(rng, used, js);
      assert made[1..] == DrawsOf(rng, used + 1, |js[1..]|);
      assert made == [made[0]] + made[1..] && js == [js[0]] + js[1..];
    }
  }

  /**
   * Each order of the deck has its own box of random numbers: the k-th lies in one of 52 - k equal parts of the
   * unit interval. All boxes are of one size, so even random numbers make all orders equally likely.
   */
  lemma OrderIsBox(t: seq<Card>) returns (js: seq<nat>)
    requires multiset(t) == multiset(FullDeck())
    ensures |js| == 51 && Draws(js)
    ensures forall rng: nat -> real | (forall k :: 0.0 <= rng(k) < 1.0) ::
        Shuffle(FullDeck(), DrawsOf(rng, 0, 51)) == t <==> InBox(rng, 0, js)
  {
    js := EachOrderFromOneDraw(t);
    forall rng: nat -> real | forall k :: 0.0 <= rng(k) < 1.0
      ensures Shuffle(FullDeck(), DrawsOf(rng, 0, 51)) == t <==> InBox(rng, 0, js)
    {
      DrawsExactly(rng, 0, js);
    }
  }

  function BoardOf(deck: seq<Card>): Board
    requires |deck| >= 9
  {
    Board(deck[0..2], deck[2..4], deck[4..9])
  }

  method NewDeck() returns (deck: array<Card>)
    ensures fresh(deck) && deck[..] == FullDeck()
  {
    deck := new Card[52](_ => Card(2, Spades));
    for r := 2 to 15
      invariant forall k :: 0 <= k < (r - 2) * 4 ==> deck[k] == FullDeck()[k]
    {
      for s := 0 to 4
        invariant forall k :: 0 <= k < (r - 2) * 4 + s ==> deck[k] == FullDeck()[k]
      {
        deck[(r - 2) * 4 + s] := Card(r, SUITS[s]);
      }
    }
  }

  /** The shuffle in place; `rng(k)` is the k-th number of the stream. */
  method ShuffleInPlace(deck: array<Card>, rng: nat -> real)
    requires deck.Length > 0 && forall k :: 0.0 <= rng(k) < 1.0
    modifies deck
    ensures deck[..] == Shuffle(old(deck[..]), DrawsOf(rng, 0, deck.Length - 1))
  {
    var i := deck.Length - 1;
    var used := 0;
    while i > 0
      invariant 0 <= i < deck.Length
      invariant Shuffle(deck[..], DrawsOf(rng, used, i)) == Shuffle(old(deck[..]), DrawsOf(rng, 0, deck.Length - 1))
    {
      DrawInRange(rng(used), i);
      var j := DrawAt(rng(used), i);
      ghost var before := deck[..];
      deck[i], deck[j] := deck[j], deck[i];
      assert deck[..] == Swap(before, i, j);
      assert DrawsOf(rng, used, i)[1..] == DrawsOf(rng, used + 1, i - 1);
      used := used + 1;
      i := i - 1;
    }
  }

  /** The first player gets the two cards on top, the second the next two; five more lie open. */
  lemma BoardPlaces(deck: seq<Card>)
    requires |deck| >= 9
    ensures BoardOf(deck).player1 == [deck[0], deck[1]] && BoardOf(deck).player2 == [deck[2], deck[3]]
    ensures BoardOf(deck).community == [deck[4], deck[5], deck[6], deck[7], deck[8]]
  {
  }

  lemma BoardOfDistinctDeck(deck: seq<Card>)
    requires |deck| >= 9 && Distinct(deck)
    ensures var b := BoardOf(deck);
            && Distinct(b.player1 + b.player2 + b.community)
            && Distinct(b.player1 + b.community)
            && Distinct(b.player2 + b.community)
  {
    var b := BoardOf(deck);
    assert b.player1 + b.player2 + b.community == deck[..9];
    assert b.player1 + b.community == [deck[0], deck[1]] + deck[4..9];
    assert b.player2 + b.community == [deck[2], deck[3]] + deck[4..9];
  }

  /** Nine different cards, for every stream of random numbers. */
  method DealRandomBoard(rng: nat -> real) returns (board: Board)
    requires forall k :: 0.0 <= rng(k) < 1.0
    ensures board == BoardOf(Shuffle(FullDeck(), DrawsOf(rng, 0, 51)))
    ensures Complete(board) && Distinct(board.player1 + board.player2 + board.community)
    ensures Distinct(board.player1 + board.community) && Distinct(board.player2 + board.community)
  {
    var deck := NewDeck();
    ShuffleInPlace(deck, rng);
    FullDeckIsDistinct();
    ShufflePermutes(FullDeck(), DrawsOf(rng, 0, 51));
    BoardOfDistinctDeck(deck[..]);
    board := BoardOf(deck[..]);
  }
}
