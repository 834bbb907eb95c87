/** How many entries of a list have a property. */
module Counting {
  ghost function HowMany<T>(p: T -> bool, s: seq<T>): nat { |set i | 0 <= i < |s| && p(s[i])| }

  lemma HowManyEmpty<T>(p: T -> bool)
    ensures HowMany(p, []) == 0
  {
    var none: seq<T> := [];
    assert (set i | 0 <= i < |none| && p(none[i])) == {};
  }

  lemma HowManySnoc<T>(p: T -> bool, s: seq<T>, x: T)
    ensures HowMany(p, s + [x]) == HowMany(p, s) + if p(x) then 1 else 0
  {
    var before := set i | 0 <= i < |s| && p(s[i]);
    var t := s + [x];
    assert (set i | 0 <= i < |t| && p(t[i])) == before + if p(x) then {|s|} else {};
  }

  /** All but the last entry, then the last. */
  lemma HowManyLast<T>(p: T -> bool, s: seq<T>)
    requires s != []
    ensures HowMany(p, s) == HowMany(p, s[..|s| - 1]) + if p(s[|s| - 1]) then 1 else 0
  {
    assert s == s[..|s| - 1] + [s[|s| - 1]];
    HowManySnoc(p, s[..|s| - 1], s[|s| - 1]);
  }

  lemma {:induction false} HowManyConcat<T>(p: T -> bool, s: seq<T>, t: seq<T>)
    ensures HowMany(p, s + t) == HowMany(p, s) + HowMany(p, t)
    decreases |t|
  {
    if t == [] {
      HowManyEmpty(p);
      assert s + t == s;
    } else {
      var n := |t| - 1;
      HowManyConcat(p, s, t[..n]);
      HowManyLast(p, t);
      HowManyLast(p, s + t);
      assert (s + t)[..|s + t| - 1] == s + t[..n];
    }
  }

  /** The first entry, then the others. */
  lemma HowManyFirst<T>(p: T -> bool, s: seq<T>)
    requires s != []
    ensures HowMany(p, s) == HowMany(p, s[1..]) + if p(s[0]) then 1 else 0
  {
    assert s == [s[0]] + s[1..];
    HowManyConcat(p, [s[0]], s[1..]);
    HowManyEmpty(p);
    HowManySnoc(p, [], s[0]);
    assert [] + [s[0]] == [s[0]];
  }
}
