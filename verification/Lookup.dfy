/** Keyed rows, a query that keeps some of them, and the map built from its answer. */
module Lookup {
  import opened Outcomes

  /** The first row with the key. */
  function Find<K(==), V>(rows: seq<(K, V)>, k: K): Option<V> {
    if rows == [] then None else if rows[0].0 == k then Some(rows[0].1) else Find(rows[1..], k)
  }

  function Where<K, V>(rows: seq<(K, V)>, p: K -> bool): seq<(K, V)> {
    if rows == [] then []
    else if p(rows[0].0) then [rows[0]] + Where(rows[1..], p)
    else Where(rows[1..], p)
  }

  predicate UniqueKeys<K(==), V>(rows: seq<(K, V)>) {
    forall i, j :: 0 <= i < j < |rows| ==> rows[i].0 != rows[j].0
  }

  /** What a map answers for a key. */
  function At<K(==), V>(m: map<K, V>, k: K): Option<V> { if k in m then Some(m[k]) else None }

  lemma {:induction false} FindWhere<K, V>(rows: seq<(K, V)>, p: K -> bool, k: K)
    ensures Find(Where(rows, p), k) == if p(k) then Find(rows, k) else None
  {
    if rows != [] { FindWhere(rows[1..], p, k); }
  }

  lemma {:induction false} FindIn<K, V>(rows: seq<(K, V)>, k: K)
    ensures Find(rows, k).Some? ==> (k, Find(rows, k).value) in rows
    ensures Find(rows, k).None? ==> forall i :: 0 <= i < |rows| ==> rows[i].0 != k
  {
    if rows != [] {
      FindIn(rows[1..], k);
      assert rows == [rows[0]] + rows[1..];
    }
  }

  lemma {:induction false} WhereMembers<K, V>(rows: seq<(K, V)>, p: K -> bool)
    ensures forall i :: 0 <= i < |Where(rows, p)| ==> Where(rows, p)[i] in rows && p(Where(rows, p)[i].0)
  {
    if rows != [] {
      WhereMembers(rows[1..], p);
      assert rows == [rows[0]] + rows[1..];
    }
  }

  lemma {:induction false} WhereUnique<K, V>(rows: seq<(K, V)>, p: K -> bool)
    requires UniqueKeys(rows)
    ensures UniqueKeys(Where(rows, p))
  {
    if rows != [] {
      var rest := rows[1..];
      WhereUnique(rest, p);
      WhereMembers(rest, p);
      forall i | 0 <= i < |Where(rest, p)| ensures Where(rest, p)[i].0 != rows[0].0 {
        var j :| 0 <= j < |rest| && rest[j] == Where(rest, p)[i];
        assert rest[j] == rows[j + 1];
      }
    }
  }

  lemma {:induction false} FindUnique<K, V>(rows: seq<(K, V)>, i: nat)
    requires UniqueKeys(rows) && i < |rows|
    ensures Find(rows, rows[i].0) == Some(rows[i].1)
  {
    if i > 0 {
      FindUnique(rows[1..], i - 1);
      assert rows[0].0 != rows[i].0;
    }
  }

  /** `new Map(rows)`: with unique keys it answers like the rows. */
  method Index<K, V>(rows: seq<(K, V)>) returns (m: map<K, V>)
    requires UniqueKeys(rows)
    ensures forall k :: At(m, k) == Find(rows, k)
  {
    m := map[];
    for i := 0 to |rows|
      invariant m.Keys == set j | 0 <= j < i :: rows[j].0
      invariant forall j :: 0 <= j < i ==> m[rows[j].0] == rows[j].1
    {
      m := m[rows[i].0 := rows[i].1];
    }
    forall k ensures At(m, k) == Find(rows, k) {
      FindIn(rows, k);
      if k in m {
        var j :| 0 <= j < |rows| && rows[j].0 == k;
        FindUnique(rows, j);
      }
    }
  }
}
