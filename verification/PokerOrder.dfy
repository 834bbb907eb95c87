/**
 * What the five-card score means: the categories by an independent definition, the order it encodes,
 * and which hands it identifies (src/config/poker.ts).
 */
module PokerOrder {
  import opened Sorting
  import opened PokerHand

  // ---------------------------------------------------------------- categories, independently

  // Shapes of the multiset of ranks.

  ghost predicate FourOfAKind(m: multiset<Rank>) { exists r :: m[r] == 4 }

  ghost predicate ThreeAndTwo(m: multiset<Rank>) { exists r, s :: m[r] == 3 && m[s] == 2 }

  ghost predicate ThreeAlone(m: multiset<Rank>) { exists r :: m[r] == 3 && forall s :: s != r ==> m[s] <= 1 }

  ghost predicate TwoPairs(m: multiset<Rank>) { exists r, s :: r != s && m[r] == 2 && m[s] == 2 }

  ghost predicate OnePair(m: multiset<Rank>) { exists r :: m[r] == 2 && forall s :: s != r ==> m[s] <= 1 }

  ghost predicate NoPair(m: multiset<Rank>) { forall r :: m[r] <= 1 }

  /** The five consecutive ranks up to `h`; up to 5 it is the wheel, with the ace as one. */
  function Run(h: int): seq<Rank>
    requires 5 <= h <= 14
  {
    if h == 5 then [14, 5, 4, 3, 2] else [h, h - 1, h - 2, h - 3, h - 4]
  }

  ghost predicate RunUpTo(m: multiset<Rank>, h: int) { 5 <= h <= 14 && m == multiset(Run(h)) }

  ghost predicate Consecutive(m: multiset<Rank>) { exists h :: RunUpTo(m, h) }

  /** The category of a hand by its ranks and whether it is of one suit. */
  ghost predicate IsCategory(c: Category, m: multiset<Rank>, flush: bool) {
    match c
    case StraightFlush => flush && Consecutive(m)
    case Quads => FourOfAKind(m)
    case FullHouse => ThreeAndTwo(m)
    case Flush => flush && !Consecutive(m)
    case Straight => Consecutive(m) && !flush
    case Trips => ThreeAlone(m)
    case TwoPair => TwoPairs(m)
    case Pair => OnePair(m)
    case High => NoPair(m) && !Consecutive(m) && !flush
  }

  // ---------------------------------------------------------------- orders

  lemma OrdersAreTotal()
    ensures TotalOrder(Geq) && TotalOrder(GroupLeq)
  {
  }

  lemma SortDescSorts(rs: seq<Rank>)
    ensures Sorted(Geq, SortDesc(rs)) && multiset(SortDesc(rs)) == multiset(rs) && |SortDesc(rs)| == |rs|
  {
    OrdersAreTotal();
    SortSorts(Geq, rs);
  }

  // ---------------------------------------------------------------- the count map

  /** `groups` holds each rank of `m` once, with its count. */
  ghost predicate Tallies(groups: seq<Group>, m: multiset<Rank>) {
    forall g :: multiset(groups)[g] == if g.count > 0 && m[g.rank] == g.count then 1 else 0
  }

  /** How bumping `r` from count `c` changes the number of entries equal to `g`. */
  function Change(g: Group, r: Rank, c: nat): int {
    (if g == Group(r, c + 1) then 1 else 0) - (if c > 0 && g == Group(r, c) then 1 else 0)
  }

  lemma {:induction false} BumpEffect(groups: seq<Group>, r: Rank) returns (c: nat)
    requires forall g :: g in groups ==> g.count > 0
    ensures if c == 0 then forall g :: g in groups ==> g.rank != r else Group(r, c) in groups
    ensures forall g :: multiset(Bump(groups, r))[g] == multiset(groups)[g] + Change(g, r, c)
  {
    if groups == [] {
      c := 0;
    } else {
      var head, rest := groups[0], groups[1..];
      assert groups == [head] + rest;
      if head.rank == r {
        c := head.count;
      } else {
        c := BumpEffect(rest, r);
      }
    }
  }

  lemma BumpTallies(groups: seq<Group>, m: multiset<Rank>, r: Rank)
    requires Tallies(groups, m)
    ensures Tallies(Bump(groups, r), m + multiset{r})
  {
    TallyFacts(groups, m);
    var c := BumpEffect(groups, r);
    assert c == m[r];
    var m' := m + multiset{r};
    forall g: Group ensures multiset(Bump(groups, r))[g] == if g.count > 0 && m'[g.rank] == g.count then 1 else 0 {
      assert m'[g.rank] == if g.rank == r then c + 1 else m[g.rank];
    }
  }

  lemma {:induction false} CountsTally(ranks: seq<Rank>)
    ensures Tallies(Counts(ranks), multiset(ranks))
  {
    if ranks != [] {
      var init, r := ranks[..|ranks| - 1], ranks[|ranks| - 1];
      assert ranks == init + [r];
      CountsTally(init);
      BumpTallies(Counts(init), multiset(init), r);
    }
  }

  lemma GroupedTallies(ranks: seq<Rank>)
    ensures Tallies(Grouped(ranks), multiset(ranks)) && Sorted(GroupLeq, Grouped(ranks))
  {
    CountsTally(ranks);
    OrdersAreTotal();
    SortSorts(GroupLeq, Counts(ranks));
  }

  lemma OccursTwice<T>(s: seq<T>, i: nat, j: nat)
    requires i < j < |s|
    ensures s[i] == s[j] ==> multiset(s)[s[i]] >= 2
  {
    assert s == s[..j] + s[j..] && s[i] in s[..j] && s[j] in s[j..];
  }

  /** The tally read entry by entry. */
  lemma TallyFacts(groups: seq<Group>, m: multiset<Rank>)
    requires Tallies(groups, m)
    ensures forall i :: 0 <= i < |groups| ==> groups[i].count > 0 && m[groups[i].rank] == groups[i].count
    ensures forall i, j :: 0 <= i < j < |groups| ==> groups[i].rank != groups[j].rank
    ensures forall r :: m[r] > 0 ==> exists i :: 0 <= i < |groups| && groups[i] == Group(r, m[r])
  {
    forall i | 0 <= i < |groups| ensures groups[i].count > 0 && m[groups[i].rank] == groups[i].count {
      assert multiset(groups)[groups[i]] > 0;
    }
    forall i, j | 0 <= i < j < |groups| ensures groups[i].rank != groups[j].rank {
      OccursTwice(groups, i, j);
    }
    forall r | m[r] > 0 ensures exists i :: 0 <= i < |groups| && groups[i] == Group(r, m[r]) {
      assert multiset(groups)[Group(r, m[r])] == 1;
      assert Group(r, m[r]) in groups;
    }
  }

  lemma {:induction false} RepeatMultiset(r: Rank, n: nat)
    ensures multiset(Repeat(r, n)) == multiset{}[r := n] && |Repeat(r, n)| == n
  {
    if n > 0 {
      RepeatMultiset(r, n - 1);
    }
  }

  /** Writing the groups out gives the ranks back. */
  lemma {:induction false} FlattenTally(groups: seq<Group>, m: multiset<Rank>)
    requires Tallies(groups, m)
    ensures multiset(Flatten(groups)) == m
  {
    TallyFacts(groups, m);
    if groups == [] {
      assert forall r :: m[r] == 0;
    } else {
      var g, rest := groups[0], groups[1..];
      var m' := m[g.rank := 0];
      assert groups == [g] + rest;
      forall h: Group ensures multiset(rest)[h] == if h.count > 0 && m'[h.rank] == h.count then 1 else 0 {
        assert multiset(groups)[h] == multiset{g}[h] + multiset(rest)[h];
      }
      FlattenTally(rest, m');
      RepeatMultiset(g.rank, g.count);
      assert m == multiset{}[g.rank := g.count] + m';
    }
  }

  function Sum(p: seq<nat>): nat { if p == [] then 0 else p[0] + Sum(p[1..]) }

  lemma {:induction false} FlattenLength(groups: seq<Group>)
    ensures |Flatten(groups)| == Sum(Pattern(groups))
  {
    if groups != [] {
      RepeatMultiset(groups[0].rank, groups[0].count);
      FlattenLength(groups[1..]);
      assert Pattern(groups)[1..] == Pattern(groups[1..]);
    }
  }

  // ---------------------------------------------------------------- patterns of five

  /** Positive numbers in descending order that sum to five. */
  predicate Partition5(p: seq<nat>) {
    || p == [5] || p == [4, 1] || p == [3, 2] || p == [3, 1, 1]
    || p == [2, 2, 1] || p == [2, 1, 1, 1] || p == [1, 1, 1, 1, 1]
  }

  lemma {:induction false} SumAtLeast(p: seq<nat>)
    requires forall i :: 0 <= i < |p| ==> p[i] >= 1
    ensures Sum(p) >= |p|
  {
    if p != [] {
      SumAtLeast(p[1..]);
    }
  }

  function At(p: seq<nat>, i: nat): nat { if i < |p| then p[i] else 0 }

  function Rest(p: seq<nat>): seq<nat> { if p == [] then [] else p[1..] }

  lemma SumHead(p: seq<nat>)
    ensures Sum(p) == At(p, 0) + Sum(Rest(p))
    ensures forall i: nat :: At(Rest(p), i) == At(p, i + 1)
  {
  }

  lemma SumOfFive(p: seq<nat>)
    requires |p| <= 5
    ensures Sum(p) == At(p, 0) + At(p, 1) + At(p, 2) + At(p, 3) + At(p, 4)
  {
    var p1 := Rest(p);
    var p2 := Rest(p1);
    var p3 := Rest(p2);
    var p4 := Rest(p3);
    SumHead(p);
    SumHead(p1);
    SumHead(p2);
    SumHead(p3);
    SumHead(p4);
    assert |Rest(p4)| == 0;
  }

  /** A short list of numbers that sum to five, by its padded entries alone. */
  lemma PartitionByEntries(p: seq<nat>)
    requires 1 <= |p| <= 5
    requires At(p, 0) >= At(p, 1) >= At(p, 2) >= At(p, 3) >= At(p, 4)
    requires At(p, |p| - 1) >= 1
    requires At(p, 0) + At(p, 1) + At(p, 2) + At(p, 3) + At(p, 4) == 5
    ensures Partition5(p)
  {
    if |p| == 1 {
      assert p == [5];
    } else if |p| == 2 {
      assert p == [4, 1] || p == [3, 2];
    } else if |p| == 3 {
      assert p == [3, 1, 1] || p == [2, 2, 1];
    } else if |p| == 4 {
      assert p == [2, 1, 1, 1];
    } else {
      assert p == [1, 1, 1, 1, 1];
    }
  }

  lemma PartitionsOfFive(p: seq<nat>)
    requires forall i :: 0 <= i < |p| ==> p[i] >= 1
    requires forall i, j :: 0 <= i < j < |p| ==> p[i] >= p[j]
    requires Sum(p) == 5
    ensures Partition5(p)
  {
    SumAtLeast(p);
    SumOfFive(p);
    PartitionByEntries(p);
  }

  lemma PatternIsPartition(ranks: seq<Rank>)
    requires |ranks| == 5
    ensures Partition5(Pattern(Grouped(ranks)))
  {
    var g, m := Grouped(ranks), multiset(ranks);
    GroupedTallies(ranks);
    TallyFacts(g, m);
    FlattenTally(g, m);
    FlattenLength(g);
    assert |multiset(Flatten(g))| == |Flatten(g)|;
    assert |multiset(ranks)| == |ranks|;
    PartitionsOfFive(Pattern(g));
  }

  /** Each count of the tally is one of the pattern's numbers, met by its own rank. */
  lemma PatternCounts(g: seq<Group>, m: multiset<Rank>)
    requires Tallies(g, m)
    ensures forall i :: 0 <= i < |g| ==> m[g[i].rank] == Pattern(g)[i]
    ensures forall i, j :: 0 <= i < j < |g| ==> g[i].rank != g[j].rank
    ensures forall r: Rank :: m[r] > 0 ==> exists i :: 0 <= i < |g| && g[i].rank == r && m[r] == Pattern(g)[i]
  {
    TallyFacts(g, m);
  }

  lemma FourShape(g: seq<Group>, m: multiset<Rank>)
    requires Tallies(g, m) && Partition5(Pattern(g))
    ensures FourOfAKind(m) <==> Pattern(g) == [4, 1]
  {
    PatternCounts(g, m);
    if Pattern(g) == [4, 1] {
      assert m[g[0].rank] == 4;
    }
  }

  lemma ThreeTwoShape(g: seq<Group>, m: multiset<Rank>)
    requires Tallies(g, m) && Partition5(Pattern(g))
    ensures ThreeAndTwo(m) <==> Pattern(g) == [3, 2]
  {
    PatternCounts(g, m);
    if Pattern(g) == [3, 2] {
      assert m[g[0].rank] == 3 && m[g[1].rank] == 2;
    }
  }

  lemma ThreeShape(g: seq<Group>, m: multiset<Rank>)
    requires Tallies(g, m) && Partition5(Pattern(g))
    ensures ThreeAlone(m) <==> Pattern(g) == [3, 1, 1]
  {
    PatternCounts(g, m);
    if Pattern(g) == [3, 1, 1] {
      assert m[g[0].rank] == 3;
    } else if Pattern(g) == [3, 2] {
      assert m[g[1].rank] == 2;
    }
  }

  lemma TwoPairsShape(g: seq<Group>, m: multiset<Rank>)
    requires Tallies(g, m) && Partition5(Pattern(g))
    ensures TwoPairs(m) <==> Pattern(g) == [2, 2, 1]
  {
    PatternCounts(g, m);
    if Pattern(g) == [2, 2, 1] {
      assert m[g[0].rank] == 2 && m[g[1].rank] == 2;
    }
  }

  lemma OnePairShape(g: seq<Group>, m: multiset<Rank>)
    requires Tallies(g, m) && Partition5(Pattern(g))
    ensures OnePair(m) <==> Pattern(g) == [2, 1, 1, 1]
  {
    PatternCounts(g, m);
    if Pattern(g) == [2, 1, 1, 1] {
      assert m[g[0].rank] == 2;
    } else if Pattern(g) == [3, 2] {
      assert m[g[0].rank] == 3;
    } else if Pattern(g) == [2, 2, 1] {
      assert m[g[0].rank] == 2 && m[g[1].rank] == 2;
    }
  }

  lemma NoPairShape(g: seq<Group>, m: multiset<Rank>)
    requires Tallies(g, m) && Partition5(Pattern(g))
    ensures NoPair(m) <==> Pattern(g) == [1, 1, 1, 1, 1]
  {
    PatternCounts(g, m);
    assert m[g[0].rank] == Pattern(g)[0];
  }

  // ---------------------------------------------------------------- straights

  lemma {:induction false} WithoutFacts(rs: seq<Rank>, r: Rank)
    ensures r !in rs ==> Without(rs, r) == rs
    ensures r in rs ==> |Without(rs, r)| < |rs|
  {
    if rs != [] {
      WithoutFacts(rs[1..], r);
      assert rs == [rs[0]] + rs[1..];
    }
  }

  /** Removing duplicates keeps the length exactly when there are none. */
  lemma {:induction false} DedupFacts(rs: seq<Rank>)
    ensures Distinct(rs) ==> Dedup(rs) == rs
    ensures |Dedup(rs)| == |rs| ==> Distinct(rs)
    decreases |rs|
  {
    if rs != [] {
      WithoutFacts(rs[1..], rs[0]);
      DedupFacts(Without(rs[1..], rs[0]));
      assert rs == [rs[0]] + rs[1..];
    }
  }

  lemma SortedIsSortDesc(rs: seq<Rank>)
    requires Sorted(Geq, rs)
    ensures SortDesc(rs) == rs
  {
    OrdersAreTotal();
    SortDescSorts(rs);
    SortedUnique(Geq, SortDesc(rs), rs);
  }

  lemma RunFacts(h: int)
    requires 5 <= h <= 14
    ensures Sorted(Geq, Run(h)) && Distinct(Run(h))
  {
  }

  /** On ranks in descending order, only the first, second and last matter. */
  lemma StraightHighOfSorted(ranks: seq<Rank>)
    requires |ranks| == 5 && Sorted(Geq, ranks)
    ensures StraightHigh(ranks) == if !Distinct(ranks) then 0
                                   else if ranks[0] as int - ranks[4] as int == 4 then ranks[0]
                                   else if ranks[0] == 14 && ranks[1] == 5 && ranks[4] == 2 then 5
                                   else 0
  {
    DedupFacts(ranks);
    SortDescSorts(Dedup(ranks));
    SortedIsSortDesc(ranks);
  }

  lemma StraightIsRun(ranks: seq<Rank>)
    requires |ranks| == 5 && Sorted(Geq, ranks) && StraightHigh(ranks) != 0
    ensures 5 <= StraightHigh(ranks) <= 14 && ranks == Run(StraightHigh(ranks))
  {
    StraightHighOfSorted(ranks);
    forall i | 0 <= i < 4 ensures ranks[i] as int > ranks[i + 1] as int {
      assert Geq(ranks[i], ranks[i + 1]) && ranks[i] != ranks[i + 1];
    }
    var a: int, b: int, c: int, d: int, e: int := ranks[0], ranks[1], ranks[2], ranks[3], ranks[4];
    assert a > b > c > d > e;
    assert ranks == [a, b, c, d, e];
  }

  lemma RunIsStraight(ranks: seq<Rank>, h: int)
    requires |ranks| == 5 && Sorted(Geq, ranks) && RunUpTo(multiset(ranks), h)
    ensures StraightHigh(ranks) == h
  {
    RunFacts(h);
    OrdersAreTotal();
    SortedUnique(Geq, ranks, Run(h));
    StraightHighOfSorted(Run(h));
  }

  lemma StraightExact(ranks: seq<Rank>)
    requires |ranks| == 5 && Sorted(Geq, ranks)
    ensures StraightHigh(ranks) != 0 <==> Consecutive(multiset(ranks))
    ensures StraightHigh(ranks) != 0 ==> RunUpTo(multiset(ranks), StraightHigh(ranks))
  {
    if StraightHigh(ranks) != 0 {
      StraightIsRun(ranks);
      assert RunUpTo(multiset(ranks), StraightHigh(ranks));
    } else if Consecutive(multiset(ranks)) {
      var h :| RunUpTo(multiset(ranks), h);
      RunIsStraight(ranks, h);
    }
  }

  // ---------------------------------------------------------------- categories are right

  /** In one suit no rank occurs twice. */
  lemma FlushHasNoPair(cards: seq<Card>)
    requires Distinct(cards) && IsFlush(cards)
    ensures NoPair(multiset(Ranks(cards)))
  {
    var rs := Ranks(cards);
    forall i, j | 0 <= i < j < |rs| ensures rs[i] != rs[j] {
      assert cards[i] != cards[j];
    }
    forall r: Rank ensures multiset(rs)[r] <= 1 {
      OccursOnce(rs, r);
    }
  }

  /** Four suits do not allow five cards of one rank. */
  lemma NoFiveOfAKind(cards: seq<Card>, r: Rank)
    requires |cards| == 5 && Distinct(cards)
    ensures multiset(Ranks(cards))[r] != 5
  {
    var rs := Ranks(cards);
    AllTheSame(rs, r);
    if forall i :: 0 <= i < |rs| ==> rs[i] == r {
      forall i, j | 0 <= i < j < 5 ensures cards[i].suit != cards[j].suit {
        assert cards[i] != cards[j] && rs[i] == rs[j];
      }
      var a, b, c, d, e := cards[0].suit, cards[1].suit, cards[2].suit, cards[3].suit, cards[4].suit;
      assert a != b && a != c && a != d && b != c && b != d && c != d;
      assert e != a && e != b && e != c && e != d;
    }
  }

  lemma {:induction false} AllTheSame(rs: seq<Rank>, r: Rank)
    ensures multiset(rs)[r] <= |rs|
    ensures multiset(rs)[r] == |rs| ==> forall i :: 0 <= i < |rs| ==> rs[i] == r
  {
    if rs != [] {
      AllTheSame(rs[1..], r);
      assert rs == [rs[0]] + rs[1..];
    }
  }

  lemma RunHasNoPair(m: multiset<Rank>, h: int)
    requires RunUpTo(m, h)
    ensures NoPair(m)
  {
    RunFacts(h);
    forall r: Rank ensures m[r] <= 1 {
      OccursOnce(Run(h), r);
    }
  }

  lemma ClassifyExact(m: multiset<Rank>, flush: bool, straightHigh: nat, p: seq<nat>)
    requires Partition5(p) && p != [5]
    requires FourOfAKind(m) <==> p == [4, 1]
    requires ThreeAndTwo(m) <==> p == [3, 2]
    requires ThreeAlone(m) <==> p == [3, 1, 1]
    requires TwoPairs(m) <==> p == [2, 2, 1]
    requires OnePair(m) <==> p == [2, 1, 1, 1]
    requires NoPair(m) <==> p == [1, 1, 1, 1, 1]
    requires Consecutive(m) <==> straightHigh != 0
    requires Consecutive(m) || flush ==> NoPair(m)
    ensures forall c :: IsCategory(c, m, flush) <==> c == Classify(straightHigh, flush, p)
  {
  }

  /** The one category `rank5` gives a hand of five different cards is the one it has by definition. */
  lemma CategoryExact(cards: seq<Card>)
    requires |cards| == 5 && Distinct(cards)
    ensures forall c :: IsCategory(c, multiset(Ranks(cards)), IsFlush(cards)) <==> c == CategoryOf(cards)
  {
    var ranks := SortDesc(Ranks(cards));
    var m: multiset<Rank> := multiset(Ranks(cards));
    var g := Grouped(ranks);
    SortDescSorts(Ranks(cards));
    GroupedTallies(ranks);
    PatternIsPartition(ranks);
    assert Pattern(g) != [5] by {
      if Pattern(g) == [5] {
        PatternCounts(g, m);
        NoFiveOfAKind(cards, g[0].rank);
      }
    }
    assert (Consecutive(m) <==> StraightHigh(ranks) != 0) && (Consecutive(m) || IsFlush(cards) ==> NoPair(m)) by {
      StraightExact(ranks);
      if Consecutive(m) {
        RunHasNoPair(m, StraightHigh(ranks));
      } else if IsFlush(cards) {
        FlushHasNoPair(cards);
      }
    }
    FourShape(g, m);
    ThreeTwoShape(g, m);
    ThreeShape(g, m);
    TwoPairsShape(g, m);
    OnePairShape(g, m);
    NoPairShape(g, m);
    ClassifyExact(m, IsFlush(cards), StraightHigh(ranks), Pattern(g));
  }

  // ---------------------------------------------------------------- the score is lexicographic

  predicate LexLess(a: seq<nat>, b: seq<nat>)
    requires |a| == |b|
  {
    a != [] && (a[0] < b[0] || (a[0] == b[0] && LexLess(a[1..], b[1..])))
  }

  lemma {:induction false} LexTotal(a: seq<nat>, b: seq<nat>)
    requires |a| == |b|
    ensures a == b || LexLess(a, b) || LexLess(b, a)
    ensures a == b ==> !LexLess(a, b)
  {
    if a != [] {
      LexTotal(a[1..], b[1..]);
      assert a == [a[0]] + a[1..] && b == [b[0]] + b[1..];
    }
  }

  predicate Nibbles(ds: seq<nat>) { forall i :: 0 <= i < |ds| ==> ds[i] < 16 }

  /** Base-16 values of nibbles compare like the digit strings. */
  lemma {:induction false} HornerOrders(x: nat, ds: seq<nat>, y: nat, es: seq<nat>)
    requires |ds| == |es| && Nibbles(ds) && Nibbles(es)
    ensures Horner(x, ds) < Horner(y, es) <==> x < y || (x == y && LexLess(ds, es))
    decreases |ds|
  {
    if ds != [] {
      HornerOrders(x * 16 + ds[0], ds[1..], y * 16 + es[0], es[1..]);
    }
  }

  lemma CategoryIndexInjective(c: Category, d: Category)
    ensures CategoryIndex(c) == CategoryIndex(d) <==> c == d
  {
  }

  lemma KeyDigitsAreNibbles(cards: seq<Card>)
    ensures Nibbles(KeyDigits(cards))
  {
  }

  /** A hand scores lower exactly when category and key cards are lexicographically lower. */
  lemma ScoreOrder(a: seq<Card>, b: seq<Card>)
    ensures Score(a) < Score(b) <==>
              || CategoryIndex(CategoryOf(a)) < CategoryIndex(CategoryOf(b))
              || (CategoryOf(a) == CategoryOf(b) && LexLess(KeyDigits(a), KeyDigits(b)))
  {
    KeyDigitsAreNibbles(a);
    KeyDigitsAreNibbles(b);
    CategoryIndexInjective(CategoryOf(a), CategoryOf(b));
    HornerOrders(CategoryIndex(CategoryOf(a)), KeyDigits(a), CategoryIndex(CategoryOf(b)), KeyDigits(b));
  }

  lemma ScoreInjective(a: seq<Card>, b: seq<Card>)
    requires Score(a) == Score(b)
    ensures CategoryOf(a) == CategoryOf(b) && KeyDigits(a) == KeyDigits(b)
  {
    ScoreOrder(a, b);
    ScoreOrder(b, a);
    LexTotal(KeyDigits(a), KeyDigits(b));
  }

  // ---------------------------------------------------------------- which hands tie

  /** The score depends on the ranks and on being a flush, not on the order of the cards. */
  lemma ScoreForgetsOrder(a: seq<Card>, b: seq<Card>)
    requires multiset(Ranks(a)) == multiset(Ranks(b)) && IsFlush(a) == IsFlush(b)
    ensures CategoryOf(a) == CategoryOf(b) && Score(a) == Score(b)
  {
    OrdersAreTotal();
    SortForgetsOrder(Geq, Ranks(a), Ranks(b));
  }

  lemma DigitsOfFive(t: seq<nat>, u: seq<nat>)
    requires |t| == |u| == 5 && Digits(t) == Digits(u)
    ensures t == u
  {
    assert t == Digits(t) && u == Digits(u);
  }

  /** The key digits give back the ranks. */
  lemma KeysDetermineRanks(ra: seq<Rank>, rb: seq<Rank>)
    requires |ra| == |rb| == 5 && Sorted(Geq, ra) && Sorted(Geq, rb)
    requires Digits(Tiebreak(ra)) == Digits(Tiebreak(rb))
    requires StraightHigh(ra) != 0 <==> StraightHigh(rb) != 0
    ensures multiset(ra) == multiset(rb)
  {
    if StraightHigh(ra) != 0 {
      StraightIsRun(ra);
      StraightIsRun(rb);
      assert Digits(Tiebreak(ra))[0] == StraightHigh(ra) && Digits(Tiebreak(rb))[0] == StraightHigh(rb);
    } else {
      GroupedRanks(ra);
      GroupedRanks(rb);
      DigitsOfFive(Flatten(Grouped(ra)), Flatten(Grouped(rb)));
    }
  }

  lemma GroupedRanks(ranks: seq<Rank>)
    ensures multiset(Flatten(Grouped(ranks))) == multiset(ranks) && |Flatten(Grouped(ranks))| == |ranks|
  {
    GroupedTallies(ranks);
    FlattenTally(Grouped(ranks), multiset(ranks));
    assert |multiset(Flatten(Grouped(ranks)))| == |multiset(ranks)|;
  }

  /** Two hands of different cards tie exactly when they have the same ranks and agree on being a flush. */
  lemma TieExactly(a: seq<Card>, b: seq<Card>)
    requires |a| == |b| == 5 && Distinct(a) && Distinct(b)
    ensures Score(a) == Score(b) <==> multiset(Ranks(a)) == multiset(Ranks(b)) && IsFlush(a) == IsFlush(b)
  {
    if multiset(Ranks(a)) == multiset(Ranks(b)) && IsFlush(a) == IsFlush(b) {
      ScoreForgetsOrder(a, b);
    }
    if Score(a) == Score(b) {
      ScoreInjective(a, b);
      CategoryTellsFlushAndRun(a);
      CategoryTellsFlushAndRun(b);
      SortDescSorts(Ranks(a));
      SortDescSorts(Ranks(b));
      StraightExact(SortDesc(Ranks(a)));
      StraightExact(SortDesc(Ranks(b)));
      KeysDetermineRanks(SortDesc(Ranks(a)), SortDesc(Ranks(b)));
    }
  }

  lemma CategoryTellsFlushAndRun(cards: seq<Card>)
    requires |cards| == 5 && Distinct(cards)
    ensures IsFlush(cards) <==> CategoryOf(cards) in {Flush, StraightFlush}
    ensures Consecutive(multiset(Ranks(cards))) <==> CategoryOf(cards) in {Straight, StraightFlush}
  {
    var m := multiset(Ranks(cards));
    CategoryExact(cards);
    assert IsCategory(CategoryOf(cards), m, IsFlush(cards));
    if IsFlush(cards) {
      assert IsCategory(if Consecutive(m) then StraightFlush else Flush, m, true);
    } else if Consecutive(m) {
      assert IsCategory(Straight, m, false);
    }
  }
}
