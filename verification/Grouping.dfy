/** What `GROUP BY key` with `count(*)` answers: every key once, with the number of its rows, in any order. */
module Grouping {
  ghost predicate IsGrouping<K(!new)>(groups: seq<(K, nat)>, keys: multiset<K>) {
    && (forall i :: 0 <= i < |groups| ==> 0 < groups[i].1 == keys[groups[i].0])
    && (forall i, j :: 0 <= i < j < |groups| ==> groups[i].0 != groups[j].0)
    && (forall k :: k in keys ==> Listed(groups, k))
  }

  predicate Listed<K(==)>(groups: seq<(K, nat)>, k: K) { exists i :: 0 <= i < |groups| && groups[i].0 == k }

  lemma ListedSnoc<K>(groups: seq<(K, nat)>, g: (K, nat), k: K)
    ensures Listed(groups + [g], k) <==> Listed(groups, k) || k == g.0
  {
    if Listed(groups, k) {
      var i :| 0 <= i < |groups| && groups[i].0 == k;
      assert (groups + [g])[i].0 == k;
    } else if k == g.0 {
      assert (groups + [g])[|groups|].0 == k;
    }
  }

  function Total<K>(groups: seq<(K, nat)>): nat {
    if groups == [] then 0 else Total(groups[..|groups| - 1]) + groups[|groups| - 1].1
  }

  lemma DropGroup<K(!new)>(groups: seq<(K, nat)>, keys: multiset<K>)
    requires IsGrouping(groups, keys) && groups != []
    ensures IsGrouping(groups[..|groups| - 1], keys[groups[|groups| - 1].0 := 0])
  {
    var n := |groups| - 1;
    var less := keys[groups[n].0 := 0];
    forall k | k in less ensures Listed(groups[..n], k) {
      assert k in keys && k != groups[n].0;
      assert Listed(groups, k);
      var i :| 0 <= i < |groups| && groups[i].0 == k;
      assert groups[..n][i].0 == k;
    }
  }

  /** The group counts add up to the number of rows. */
  lemma {:induction false} TotalIsCount<K(!new)>(groups: seq<(K, nat)>, keys: multiset<K>)
    requires IsGrouping(groups, keys)
    ensures Total(groups) == |keys|
    decreases |groups|
  {
    if groups == [] {
      assert forall k :: k in keys ==> Listed(groups, k);
      assert keys == multiset{};
    } else {
      DropGroup(groups, keys);
      TotalIsCount(groups[..|groups| - 1], keys[groups[|groups| - 1].0 := 0]);
    }
  }

  /** Every finite collection of keys has such an answer. */
  lemma {:induction false} GroupingExists<K(!new)>(keys: multiset<K>) returns (groups: seq<(K, nat)>)
    ensures IsGrouping(groups, keys)
    decreases |keys|
  {
    if |keys| == 0 {
      groups := [];
    } else {
      var k :| k in keys;
      var less := keys[k := 0];
      var rest := GroupingExists(less);
      groups := rest + [(k, keys[k])];
      forall x | x in keys ensures Listed(groups, x) {
        if x == k {
          assert groups[|rest|].0 == k;
        } else {
          assert x in less;
          assert Listed(rest, x);
          var i :| 0 <= i < |rest| && rest[i].0 == x;
          assert groups[i].0 == x;
        }
      }
      forall i | 0 <= i < |groups| ensures 0 < groups[i].1 == keys[groups[i].0] {
        if i < |rest| { assert groups[i] == rest[i]; }
      }
    }
  }
}
