/**
 * Which of two hands is the stronger one, by the rules of the game: the order of the nine categories, within a
 * category the highest straight, or the rank held most often that only one hand has (src/config/poker.ts).
 */
module PokerRanking {
  import opened Sorting
  import opened PokerHand
  import opened PokerOrder
  import opened PokerBest

  // ---------------------------------------------------------------- the rules

  /** The categories from the weakest to the strongest. */
  const STRENGTH: seq<Category> :=
    [High, Pair, TwoPair, Trips, Straight, Flush, FullHouse, Quads, StraightFlush]

  ghost predicate WeakerCategory(c: Category, d: Category) {
    exists i, j :: 0 <= i < j < 9 && STRENGTH[i] == c && STRENGTH[j] == d
  }

  ghost predicate AllOf(cards: seq<Card>, s: Suit) { forall c :: c in cards ==> c.suit == s }

  ghost predicate OneSuit(cards: seq<Card>) { exists s :: AllOf(cards, s) }

  ghost predicate Holds(m: multiset<Rank>, r: Rank, n: nat) { m[r] == n }

  /** `b` holds rank `r` exactly `n` times and `a` does not, and they agree on everything that counts more. */
  ghost predicate Decides(n: nat, r: Rank, a: multiset<Rank>, b: multiset<Rank>) {
    && n > 0 && Holds(b, r, n) && !Holds(a, r, n)
    && (forall n': nat, r': Rank | n' > n || (n' == n && r' > r) :: Holds(a, r', n') <==> Holds(b, r', n'))
  }

  ghost predicate LowerRanks(a: multiset<Rank>, b: multiset<Rank>) { exists n, r :: Decides(n, r, a, b) }

  ghost predicate LowerRun(a: multiset<Rank>, b: multiset<Rank>) {
    exists h, k :: RunUpTo(a, h) && RunUpTo(b, k) && h < k
  }

  // ---------------------------------------------------------------- ranks and suits of a hand

  lemma FlushIsOneSuit(cards: seq<Card>)
    ensures IsFlush(cards) <==> OneSuit(cards)
  {
    if IsFlush(cards) {
      var s := if cards == [] then Spades else cards[0].suit;
      assert AllOf(cards, s);
    }
  }

  lemma OneMore(first: Card, rest: seq<Card>, r: Rank)
    requires first !in rest
    ensures |set c | c in [first] + rest && c.rank == r|
         == |set c | c in rest && c.rank == r| + if first.rank == r then 1 else 0
  {
    var others := set c | c in rest && c.rank == r;
    assert (set c | c in [first] + rest && c.rank == r) == if first.rank == r then {first} + others else others;
  }

  /** The multiset of ranks counts the cards of each rank. */
  lemma {:induction false} RanksCount(cards: seq<Card>, r: Rank)
    requires Distinct(cards)
    ensures multiset(Ranks(cards))[r] == |set c | c in cards && c.rank == r|
  {
    if cards == [] {
      assert (set c | c in cards && c.rank == r) == {};
    } else {
      var first, rest := cards[0], cards[1..];
      assert cards == [first] + rest;
      assert Ranks(cards) == [first.rank] + Ranks(rest);
      RanksCount(rest, r);
      OneMore(first, rest, r);
    }
  }

  // ---------------------------------------------------------------- groups in order

  /** The first group counts for more than every other rank of the tally. */
  lemma HeadIsFirst(g: seq<Group>, m: multiset<Rank>, r: Rank)
    requires Tallies(g, m) && Sorted(GroupLeq, g) && m[r] > 0
    ensures g != [] && g[0].count > 0 && m[g[0].rank] == g[0].count
    ensures m[r] < g[0].count || (m[r] == g[0].count && r <= g[0].rank)
  {
    TallyFacts(g, m);
    var i :| 0 <= i < |g| && g[i] == Group(r, m[r]);
    assert i > 0 ==> GroupLeq(g[0], g[i]);
  }

  lemma HeadHolds(g: seq<Group>, m: multiset<Rank>)
    requires Tallies(g, m) && g != []
    ensures g[0].count > 0 && m[g[0].rank] == g[0].count
  {
    TallyFacts(g, m);
  }

  lemma HigherHeadWins(ga: seq<Group>, ma: multiset<Rank>, gb: seq<Group>, mb: multiset<Rank>)
    requires Tallies(ga, ma) && Sorted(GroupLeq, ga) && ga != []
    requires Tallies(gb, mb) && Sorted(GroupLeq, gb) && gb != []
    requires ga[0].count == gb[0].count && ga[0].rank < gb[0].rank
    ensures LowerRanks(ma, mb) && !LowerRanks(mb, ma)
  {
    var n, r := gb[0].count, gb[0].rank;
    HeadHolds(ga, ma);
    HeadHolds(gb, mb);
    forall n': nat, r': Rank | n' > n || (n' == n && r' > r) ensures !Holds(ma, r', n') && !Holds(mb, r', n') {
      if Holds(ma, r', n') { HeadIsFirst(ga, ma, r'); }
      if Holds(mb, r', n') { HeadIsFirst(gb, mb, r'); }
    }
    assert !Holds(ma, r, n) by {
      if Holds(ma, r, n) { HeadIsFirst(ga, ma, r); }
    }
    assert Decides(n, r, ma, mb);
    forall n', r' ensures !Decides(n', r', mb, ma) {
      if Decides(n', r', mb, ma) {
        HeadIsFirst(ga, ma, r');
      }
    }
  }

  lemma WithoutEqual(a: multiset<Rank>, b: multiset<Rank>, x: Rank)
    requires a[x] == b[x]
    ensures LowerRanks(a, b) <==> LowerRanks(a[x := 0], b[x := 0])
  {
    var a', b' := a[x := 0], b[x := 0];
    forall n, r ensures Decides(n, r, a, b) <==> Decides(n, r, a', b') {
      assert forall n': nat, r': Rank | n' > 0 && r' != x ::
          (Holds(a, r', n') <==> Holds(a', r', n')) && (Holds(b, r', n') <==> Holds(b', r', n'));
      assert forall n': nat | n' > 0 :: !Holds(a', x, n') && !Holds(b', x, n');
      assert forall n': nat :: Holds(a, x, n') <==> Holds(b, x, n');
    }
  }

  lemma TailTallies(g: seq<Group>, m: multiset<Rank>)
    requires Tallies(g, m) && g != []
    ensures Tallies(g[1..], m[g[0].rank := 0])
  {
    TallyFacts(g, m);
    assert g == [g[0]] + g[1..];
    forall h: Group
      ensures multiset(g[1..])[h] == if h.count > 0 && m[g[0].rank := 0][h.rank] == h.count then 1 else 0
    {
      assert multiset(g)[h] == multiset{g[0]}[h] + multiset(g[1..])[h];
    }
  }

  lemma {:induction false} LexCommonPrefix(p: seq<nat>, x: seq<nat>, y: seq<nat>)
    requires |x| == |y|
    ensures LexLess(p + x, p + y) <==> LexLess(x, y)
  {
    if p == [] {
      assert p + x == x && p + y == y;
    } else {
      LexCommonPrefix(p[1..], x, y);
      assert (p + x)[1..] == p[1..] + x && (p + y)[1..] == p[1..] + y;
    }
  }

  /** Lists that start with `n` copies of `x` and of `y` compare by these, and for equal ones by what follows. */
  lemma LexHeads(x: Rank, y: Rank, n: nat, s: seq<nat>, t: seq<nat>)
    requires n > 0 && |s| == |t|
    ensures |Repeat(x, n) + s| == |Repeat(y, n) + t|
    ensures x != y ==> (LexLess(Repeat(x, n) + s, Repeat(y, n) + t) <==> x < y)
    ensures x == y ==> (LexLess(Repeat(x, n) + s, Repeat(y, n) + t) <==> LexLess(s, t))
  {
    RepeatMultiset(x, n);
    RepeatMultiset(y, n);
    LexCommonPrefix(Repeat(x, n), s, t);
  }

  lemma FlattenLengths(ga: seq<Group>, gb: seq<Group>)
    requires Pattern(ga) == Pattern(gb)
    ensures |Flatten(ga)| == |Flatten(gb)|
    ensures Pattern(Behind(ga)) == Pattern(Behind(gb)) && |Flatten(Behind(ga))| == |Flatten(Behind(gb))|
  {
    assert Pattern(Behind(ga)) == if ga == [] then [] else Pattern(ga)[1..];
    assert Pattern(Behind(gb)) == if gb == [] then [] else Pattern(gb)[1..];
    FlattenLength(ga);
    FlattenLength(gb);
    FlattenLength(Behind(ga));
    FlattenLength(Behind(gb));
  }

  function Behind<T>(s: seq<T>): seq<T> { if s == [] then [] else s[1..] }

  /** Written out in order, two tallies of one pattern compare like the ranks they hold. */
  lemma {:induction false} GroupsCompare(ga: seq<Group>, ma: multiset<Rank>, gb: seq<Group>, mb: multiset<Rank>)
    requires Tallies(ga, ma) && Sorted(GroupLeq, ga)
    requires Tallies(gb, mb) && Sorted(GroupLeq, gb)
    requires Pattern(ga) == Pattern(gb)
    ensures |Flatten(ga)| == |Flatten(gb)|
    ensures LexLess(Flatten(ga), Flatten(gb)) <==> LowerRanks(ma, mb)
  {
    FlattenLengths(ga, gb);
    if ga == [] {
      forall n, r ensures !Decides(n, r, ma, mb) {
        if mb[r] > 0 { HeadIsFirst(gb, mb, r); }
      }
    } else {
      var n, x, y := ga[0].count, ga[0].rank, gb[0].rank;
      assert n == Pattern(ga)[0] == Pattern(gb)[0] == gb[0].count;
      HeadHolds(ga, ma);
      HeadHolds(gb, mb);
      LexHeads(x, y, n, Flatten(ga[1..]), Flatten(gb[1..]));
      if x < y {
        HigherHeadWins(ga, ma, gb, mb);
      } else if x > y {
        HigherHeadWins(gb, mb, ga, ma);
      } else {
        TailTallies(ga, ma);
        TailTallies(gb, mb);
        GroupsCompare(ga[1..], ma[x := 0], gb[1..], mb[x := 0]);
        WithoutEqual(ma, mb, x);
      }
    }
  }

  // ---------------------------------------------------------------- hands of one category

  function ShapeOf(c: Category): seq<nat> {
    match c
    case Quads => [4, 1]
    case FullHouse => [3, 2]
    case Trips => [3, 1, 1]
    case TwoPair => [2, 2, 1]
    case Pair => [2, 1, 1, 1]
    case _ => [1, 1, 1, 1, 1]
  }

  lemma ShapeOfMultiset(g: seq<Group>, m: multiset<Rank>, flush: bool, c: Category)
    requires Tallies(g, m) && Partition5(Pattern(g)) && IsCategory(c, m, flush)
    requires Consecutive(m) || flush ==> NoPair(m)
    ensures Pattern(g) == ShapeOf(c)
  {
    FourShape(g, m);
    ThreeTwoShape(g, m);
    ThreeShape(g, m);
    TwoPairsShape(g, m);
    OnePairShape(g, m);
    NoPairShape(g, m);
  }

  lemma PatternOfHand(cards: seq<Card>)
    requires |cards| == 5 && Distinct(cards)
    ensures Pattern(Grouped(SortDesc(Ranks(cards)))) == ShapeOf(CategoryOf(cards))
  {
    var ranks, m := SortDesc(Ranks(cards)), multiset(Ranks(cards));
    SortDescSorts(Ranks(cards));
    GroupedTallies(ranks);
    PatternIsPartition(ranks);
    CategoryExact(cards);
    assert Consecutive(m) || IsFlush(cards) ==> NoPair(m) by {
      if Consecutive(m) {
        var h :| RunUpTo(m, h);
        RunHasNoPair(m, h);
      } else if IsFlush(cards) {
        FlushHasNoPair(cards);
      }
    }
    ShapeOfMultiset(Grouped(ranks), m, IsFlush(cards), CategoryOf(cards));
  }

  lemma KeysOfGroups(cards: seq<Card>)
    requires |cards| == 5 && !Consecutive(multiset(Ranks(cards)))
    ensures KeyDigits(cards) == Flatten(Grouped(SortDesc(Ranks(cards))))
  {
    var ranks := SortDesc(Ranks(cards));
    SortDescSorts(Ranks(cards));
    StraightExact(ranks);
    GroupedRanks(ranks);
    var t: seq<nat> := Flatten(Grouped(ranks));
    assert Digits(t) == t;
  }

  lemma RanksDecide(a: seq<Card>, b: seq<Card>)
    requires |a| == |b| == 5 && Distinct(a) && Distinct(b) && CategoryOf(a) == CategoryOf(b)
    requires !Consecutive(multiset(Ranks(a))) && !Consecutive(multiset(Ranks(b)))
    ensures LexLess(KeyDigits(a), KeyDigits(b)) <==> LowerRanks(multiset(Ranks(a)), multiset(Ranks(b)))
  {
    var ra, rb := SortDesc(Ranks(a)), SortDesc(Ranks(b));
    KeysOfGroups(a);
    KeysOfGroups(b);
    PatternOfHand(a);
    PatternOfHand(b);
    SortDescSorts(Ranks(a));
    SortDescSorts(Ranks(b));
    GroupedTallies(ra);
    GroupedTallies(rb);
    GroupsCompare(Grouped(ra), multiset(Ranks(a)), Grouped(rb), multiset(Ranks(b)));
  }

  lemma DigitsOfOne(h: nat)
    ensures Digits([h]) == [h, 0, 0, 0, 0]
  {
  }

  lemma KeysOfRun(cards: seq<Card>, h: int)
    requires |cards| == 5 && RunUpTo(multiset(Ranks(cards)), h)
    ensures KeyDigits(cards) == [h, 0, 0, 0, 0]
  {
    var ranks := SortDesc(Ranks(cards));
    SortDescSorts(Ranks(cards));
    RunIsStraight(ranks, h);
    assert Tiebreak(ranks) == [h];
    DigitsOfOne(h);
  }

  lemma RunDecides(a: seq<Card>, b: seq<Card>)
    requires |a| == |b| == 5
    requires Consecutive(multiset(Ranks(a))) && Consecutive(multiset(Ranks(b)))
    ensures LexLess(KeyDigits(a), KeyDigits(b)) <==> LowerRun(multiset(Ranks(a)), multiset(Ranks(b)))
  {
    var ma, mb := multiset(Ranks(a)), multiset(Ranks(b));
    var h :| RunUpTo(ma, h);
    var k :| RunUpTo(mb, k);
    forall x | RunUpTo(ma, x) ensures KeyDigits(a) == [x, 0, 0, 0, 0] { KeysOfRun(a, x); }
    forall x | RunUpTo(mb, x) ensures KeyDigits(b) == [x, 0, 0, 0, 0] { KeysOfRun(b, x); }
    OneDigit(KeyDigits(a), KeyDigits(b));
    if LowerRun(ma, mb) {
      var x, y :| RunUpTo(ma, x) && RunUpTo(mb, y) && x < y;
      assert KeyDigits(a)[0] == x && KeyDigits(b)[0] == y;
    } else {
      assert KeyDigits(a)[0] == h && KeyDigits(b)[0] == k;
    }
  }

  lemma OneDigit(x: seq<nat>, y: seq<nat>)
    requires |x| == |y| == 5 && x[1..] == y[1..]
    ensures LexLess(x, y) <==> x[0] < y[0]
  {
    LexTotal(x[1..], y[1..]);
  }

  // ---------------------------------------------------------------- the score follows the rules

  lemma IndexIsStrength(c: Category, d: Category)
    ensures CategoryIndex(c) < CategoryIndex(d) <==> WeakerCategory(c, d)
  {
    assert STRENGTH[CategoryIndex(c)] == c && STRENGTH[CategoryIndex(d)] == d;
  }

  /** `a`, a hand of category `c`, loses to `b`, a hand of category `d`. */
  ghost predicate Loses(a: multiset<Rank>, c: Category, b: multiset<Rank>, d: Category) {
    || WeakerCategory(c, d)
    || (c == d && if c in {Straight, StraightFlush} then LowerRun(a, b) else LowerRanks(a, b))
  }

  /** A hand scores less than another exactly when it loses to it by the rules. */
  lemma ScoreFollowsRules(a: seq<Card>, c: Category, b: seq<Card>, d: Category)
    requires |a| == |b| == 5 && Distinct(a) && Distinct(b)
    requires IsCategory(c, multiset(Ranks(a)), OneSuit(a)) && IsCategory(d, multiset(Ranks(b)), OneSuit(b))
    ensures Score(a) < Score(b) <==> Loses(multiset(Ranks(a)), c, multiset(Ranks(b)), d)
  {
    FlushIsOneSuit(a);
    FlushIsOneSuit(b);
    CategoryExact(a);
    CategoryExact(b);
    ScoreOrder(a, b);
    IndexIsStrength(c, d);
    if c == d {
      CategoryTellsFlushAndRun(a);
      CategoryTellsFlushAndRun(b);
      if c in {Straight, StraightFlush} {
        RunDecides(a, b);
      } else {
        RanksDecide(a, b);
      }
    }
  }

  // ---------------------------------------------------------------- the showdown follows the rules

  /** Hand `h` is stronger than hand `g`. */
  ghost predicate Beats(h: seq<Card>, g: seq<Card>) {
    exists c, d :: IsCategory(c, multiset(Ranks(g)), OneSuit(g)) && IsCategory(d, multiset(Ranks(h)), OneSuit(h))
                && Loses(multiset(Ranks(g)), c, multiset(Ranks(h)), d)
  }

  lemma BeatsIsScore(h: seq<Card>, g: seq<Card>)
    requires |h| == |g| == 5 && Distinct(h) && Distinct(g)
    ensures Beats(h, g) <==> Score(g) < Score(h)
  {
    FlushIsOneSuit(g);
    FlushIsOneSuit(h);
    CategoryExact(g);
    CategoryExact(h);
    ScoreFollowsRules(g, CategoryOf(g), h, CategoryOf(h));
  }

  lemma HandOfDistinct(h: seq<Card>, cards: seq<Card>)
    requires Distinct(cards) && FiveOf(h, cards)
    ensures Distinct(h)
  {
    forall i, j | 0 <= i < j < |h| ensures h[i] != h[j] {
      OccursTwice(h, i, j);
      OccursOnce(cards, h[i]);
    }
  }

  /** Some hand of `mine` beats every hand of `yours`. */
  ghost predicate Wins(mine: seq<Card>, yours: seq<Card>) {
    exists h :: FiveOf(h, mine) && forall g :: FiveOf(g, yours) ==> Beats(h, g)
  }

  lemma BestScoresDecide(v: HandValue, mine: seq<Card>, w: HandValue, yours: seq<Card>)
    requires Distinct(mine) && Distinct(yours) && IsBestHand(v, mine) && IsBestHand(w, yours)
    ensures v.score > w.score <==> Wins(mine, yours)
  {
    forall h, g | FiveOf(h, mine) && FiveOf(g, yours) ensures Beats(h, g) <==> Score(g) < Score(h) {
      HandOfDistinct(h, mine);
      HandOfDistinct(g, yours);
      BeatsIsScore(h, g);
    }
    var best :| FiveOf(best, mine) && v == Value(best);
    var theirs :| FiveOf(theirs, yours) && w == Value(theirs);
  }

  /** With different cards on the table, the winner is the player who has a hand that beats all of the other's. */
  lemma WinnerExactly(o: Outcome, b: Board)
    requires IsOutcome(o, b) && Distinct(b.player1 + b.community) && Distinct(b.player2 + b.community)
    ensures o.winner == Player1 <==> Wins(b.player1 + b.community, b.player2 + b.community)
    ensures o.winner == Player2 <==> Wins(b.player2 + b.community, b.player1 + b.community)
  {
    BestScoresDecide(o.p1, b.player1 + b.community, o.p2, b.player2 + b.community);
    BestScoresDecide(o.p2, b.player2 + b.community, o.p1, b.player1 + b.community);
  }

  // ---------------------------------------------------------------- the cards shown

  function OfRank(r: Rank): Card -> bool { (c: Card) => c.rank == r }

  /** The cards of a value are those of the hand, the higher ranks first and equal ranks in their order. */
  lemma ShownCards(cards: seq<Card>)
    ensures multiset(Value(cards).cards) == multiset(cards)
    ensures var shown := Value(cards).cards; forall i, j :: 0 <= i < j < |shown| ==> shown[i].rank >= shown[j].rank
    ensures forall r: Rank :: Filter(OfRank(r), Value(cards).cards) == Filter(OfRank(r), cards)
  {
    SortSorts(RankGeq, cards);
    var shown := Value(cards).cards;
    forall i, j | 0 <= i < j < |shown| ensures shown[i].rank >= shown[j].rank {
      assert RankGeq(shown[i], shown[j]);
    }
    forall r: Rank ensures Filter(OfRank(r), shown) == Filter(OfRank(r), cards) {
      SortIsStable(RankGeq, OfRank(r), cards);
    }
  }
}
