/** The five-card evaluator of src/config/poker.ts: categories, tie-breaks and the base-16 score. */
module PokerHand {
  import opened Sorting

  datatype Suit = Spades | Hearts | Diamonds | Clubs
  type Rank = r: int | 2 <= r <= 14 witness 2
  datatype Card = Card(rank: Rank, suit: Suit)

  datatype Category = High | Pair | TwoPair | Trips | Straight | Flush | FullHouse | Quads | StraightFlush

  function CategoryIndex(c: Category): nat {
    match c
    case High => 0
    case Pair => 1
    case TwoPair => 2
    case Trips => 3
    case Straight => 4
    case Flush => 5
    case FullHouse => 6
    case Quads => 7
    case StraightFlush => 8
  }

  datatype HandValue = HandValue(category: Category, score: nat, cards: seq<Card>)

  // ---------------------------------------------------------------- the functions rank5 is made of

  function Ranks(cards: seq<Card>): (rs: seq<Rank>)
    ensures |rs| == |cards|
  {
    seq(|cards|, i requires 0 <= i < |cards| => cards[i].rank)
  }

  predicate Geq(a: Rank, b: Rank) { a >= b }

  function SortDesc(rs: seq<Rank>): seq<Rank> { Sort(Geq, rs) }

  predicate IsFlush(cards: seq<Card>) {
    forall i :: 0 <= i < |cards| ==> cards[i].suit == cards[0].suit
  }

  function Without(rs: seq<Rank>, r: Rank): (s: seq<Rank>)
    ensures |s| <= |rs|
  {
    if rs == [] then []
    else if rs[0] == r then Without(rs[1..], r)
    else [rs[0]] + Without(rs[1..], r)
  }

  /** `[...new Set(rs)]`: first occurrences in order. */
  function Dedup(rs: seq<Rank>): (s: seq<Rank>)
    ensures |s| <= |rs|
    decreases |rs|
  {
    if rs == [] then [] else [rs[0]] + Dedup(Without(rs[1..], rs[0]))
  }

  /** The high card of a straight, 5 for the wheel, 0 without a straight. */
  function StraightHigh(ranks: seq<Rank>): nat {
    var uniq := SortDesc(Dedup(ranks));
    if |uniq| != 5 then 0
    else if uniq[0] as int - uniq[4] as int == 4 then uniq[0]
    else if uniq[0] == 14 && uniq[1] == 5 && uniq[4] == 2 then 5
    else 0
  }

  /** An entry of the count map. */
  datatype Group = Group(rank: Rank, count: nat)

  /** `counts.set(r, (counts.get(r) ?? 0) + 1)` on a map that remembers insertion order. */
  function Bump(groups: seq<Group>, r: Rank): seq<Group> {
    if groups == [] then [Group(r, 1)]
    else if groups[0].rank == r then [Group(r, groups[0].count + 1)] + groups[1..]
    else [groups[0]] + Bump(groups[1..], r)
  }

  function Counts(ranks: seq<Rank>): seq<Group> {
    if ranks == [] then [] else Bump(Counts(ranks[..|ranks| - 1]), ranks[|ranks| - 1])
  }

  predicate GroupLeq(a: Group, b: Group) {
    a.count > b.count || (a.count == b.count && a.rank >= b.rank)
  }

  function Grouped(ranks: seq<Rank>): seq<Group> { Sort(GroupLeq, Counts(ranks)) }

  /** The counts in group order; the source writes them as one digit each. */
  function Pattern(groups: seq<Group>): (p: seq<nat>)
    ensures |p| == |groups| && forall i :: 0 <= i < |p| ==> p[i] == groups[i].count
  {
    seq(|groups|, i requires 0 <= i < |groups| => groups[i].count)
  }

  function Repeat(r: Rank, n: nat): seq<Rank> { if n == 0 then [] else [r] + Repeat(r, n - 1) }

  function Flatten(groups: seq<Group>): seq<Rank> {
    if groups == [] then [] else Repeat(groups[0].rank, groups[0].count) + Flatten(groups[1..])
  }

  predicate StartsWith(p: seq<nat>, d: nat) { p != [] && p[0] == d }

  function Classify(straightHigh: nat, isFlush: bool, pattern: seq<nat>): Category {
    if straightHigh != 0 && isFlush then StraightFlush
    else if StartsWith(pattern, 4) then Quads
    else if pattern == [3, 2] then FullHouse
    else if isFlush then Flush
    else if straightHigh != 0 then Straight
    else if StartsWith(pattern, 3) then Trips
    else if pattern == [2, 2, 1] then TwoPair
    else if StartsWith(pattern, 2) then Pair
    else High
  }

  function Tiebreak(ranks: seq<Rank>): seq<nat> {
    if StraightHigh(ranks) != 0 then [StraightHigh(ranks)] else Flatten(Grouped(ranks))
  }

  /** The five digits behind the category, missing ones read as 0. */
  function Digits(t: seq<nat>): (ds: seq<nat>)
    ensures |ds| == 5
  {
    seq(5, i requires 0 <= i < 5 => if i < |t| then t[i] else 0)
  }

  /** Base-16 positional value of `ds` behind the leading digit `acc`. */
  function Horner(acc: nat, ds: seq<nat>): nat
    decreases |ds|
  {
    if ds == [] then acc else Horner(acc * 16 + ds[0], ds[1..])
  }

  function CategoryOf(cards: seq<Card>): Category {
    var ranks := SortDesc(Ranks(cards));
    Classify(StraightHigh(ranks), IsFlush(cards), Pattern(Grouped(ranks)))
  }

  function KeyDigits(cards: seq<Card>): seq<nat> { Digits(Tiebreak(SortDesc(Ranks(cards)))) }

  function Score(cards: seq<Card>): nat { Horner(CategoryIndex(CategoryOf(cards)), KeyDigits(cards)) }

  predicate RankGeq(a: Card, b: Card) { a.rank >= b.rank }

  function Value(cards: seq<Card>): HandValue {
    HandValue(CategoryOf(cards), Score(cards), Sort(RankGeq, cards))
  }

  lemma {:induction false} HornerSnoc(acc: nat, ds: seq<nat>, d: nat)
    ensures Horner(acc, ds + [d]) == Horner(acc, ds) * 16 + d
    decreases |ds|
  {
    if ds == [] {
      assert (ds + [d])[1..] == [];
    } else {
      HornerSnoc(acc * 16 + ds[0], ds[1..], d);
      assert (ds + [d])[1..] == ds[1..] + [d];
    }
  }

  method Rank5(cards: seq<Card>) returns (v: HandValue)
    requires |cards| == 5
    ensures v == Value(cards)
  {
    var ranks := SortDesc(Ranks(cards));
    var isFlush := IsFlush(cards);

    var uniq := SortDesc(Dedup(ranks));
    var straightHigh: nat := 0;
    if |uniq| == 5 {
      if uniq[0] as int - uniq[4] as int == 4 {
        straightHigh := uniq[0];
      } else if uniq[0] == 14 && uniq[1] == 5 && uniq[4] == 2 {
        straightHigh := 5;
      }
    }

    var counts: seq<Group> := [];
    for i := 0 to |ranks|
      invariant counts == Counts(ranks[..i])
    {
      assert ranks[..i + 1][..i] == ranks[..i];
      counts := Bump(counts, ranks[i]);
    }
    assert ranks[..|ranks|] == ranks;
    var grouped := Sort(GroupLeq, counts);
    var category := Classify(straightHigh, isFlush, Pattern(grouped));

    var tiebreak: seq<nat> := if straightHigh != 0 then [straightHigh] else Flatten(grouped);
    ghost var digits := Digits(tiebreak);
    var score := CategoryIndex(category);
    for i := 0 to 5
      invariant score == Horner(CategoryIndex(category), digits[..i])
    {
      HornerSnoc(CategoryIndex(category), digits[..i], digits[i]);
      assert digits[..i] + [digits[i]] == digits[..i + 1];
      score := score * 16 + if i < |tiebreak| then tiebreak[i] else 0;
    }
    assert digits[..5] == digits;
    v := HandValue(category, score, Sort(RankGeq, cards));
  }
}
