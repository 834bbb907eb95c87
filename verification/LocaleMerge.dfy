/**
 * Layered messages and their linter: `deepMergeMessages` (src/i18n/request.ts) against `diff`
 * (scripts/check-locales.ts), two separate recursions over the same trees.
 */
module LocaleMerge {
  import opened Outcomes
  import opened JsText
  import opened Sorting

  type Key = Text

  /** A value in a message tree; arrays, numbers and booleans are `Other`. */
  datatype Val = Null | Leaf(text: Text) | Other(id: int) | Tree(fields: map<Key, Val>)

  function Field(v: Val, k: Key): Option<Val>
    requires v.Tree?
  {
    if k in v.fields then Some(v.fields[k]) else None
  }

  // ---------------------------------------------------------------- merging, key by key

  /** What stands at `k` after merging: absent, kept from the base, or taken from the override. */
  function MergedAt(b: Val, o: Val, k: Key): Option<Val>
    requires b.Tree? && o.Tree?
    decreases o, 0
  {
    if k !in o.fields then Field(b, k)
    else
      var ov, bv := o.fields[k], Field(b, k);
      if ov.Tree? && bv.Some? && bv.value.Tree? then Some(Merge(bv.value, ov))
      else if ov.Leaf? then (if IsBlank(ov.text) then bv else Some(ov))
      else if ov.Null? then bv
      else Some(ov)
  }

  function Merge(b: Val, o: Val): (r: Val)
    requires b.Tree? && o.Tree?
    ensures r.Tree?
    decreases o, 1
  {
    Tree(map k | k in b.fields.Keys + o.fields.Keys && MergedAt(b, o, k).Some? :: MergedAt(b, o, k).value)
  }

  lemma MergeField(b: Val, o: Val, k: Key)
    requires b.Tree? && o.Tree?
    ensures Field(Merge(b, o), k) == MergedAt(b, o, k)
  {
  }

  lemma SameFields(v: Val, w: Val)
    requires v.Tree? && w.Tree? && forall k :: Field(v, k) == Field(w, k)
    ensures v == w
  {
    forall k ensures k in v.fields <==> k in w.fields {
      assert Field(v, k) == Field(w, k);
    }
    forall k | k in v.fields ensures v.fields[k] == w.fields[k] {
      assert Field(v, k) == Field(w, k);
    }
  }

  /** The loop of `deepMergeMessages`: a copy of the base, overwritten key by key in any order. */
  method DeepMergeMessages(b: Val, o: Val) returns (result: Val)
    requires b.Tree? && o.Tree?
    ensures result == Merge(b, o)
    decreases o
  {
    result := b;
    var todo := o.fields.Keys;
    while todo != {}
      invariant todo <= o.fields.Keys && result.Tree?
      invariant forall k :: Field(result, k) == if k in o.fields && k !in todo then MergedAt(b, o, k) else Field(b, k)
      decreases todo
    {
      var key :| key in todo;
      var ov := o.fields[key];
      var bv := Field(result, key);
      if ov.Tree? && bv.Some? && bv.value.Tree? {
        var merged := DeepMergeMessages(bv.value, ov);
        result := Tree(result.fields[key := merged]);
      } else if ov.Leaf? {
        if !IsBlank(ov.text) {
          result := Tree(result.fields[key := ov]);
        }
      } else if !ov.Null? {
        result := Tree(result.fields[key := ov]);
      }
      todo := todo - {key};
    }
    forall k ensures Field(result, k) == Field(Merge(b, o), k) {
      MergeField(b, o, k);
    }
    SameFields(result, Merge(b, o));
  }

  // ---------------------------------------------------------------- the linter

  datatype Kind = Missing | Empty | Mismatch | Extra

  predicate IsError(k: Kind) { k == Mismatch || k == Extra }

  /** Where the linter complains, and why; warnings are the other kinds. */
  datatype Finding = Finding(kind: Kind, path: seq<Key>)

  /** What is wrong at the relative path `p`, if anything. */
  function FindingAt(b: Val, t: Val, p: seq<Key>): Option<Kind>
    requires b.Tree? && t.Tree? && p != []
    decreases |p|
  {
    var k := p[0];
    if k !in b.fields then (if k in t.fields && |p| == 1 then Some(Extra) else None)
    else if k !in t.fields then (if |p| == 1 then Some(Missing) else None)
    else
      var bv, tv := b.fields[k], t.fields[k];
      if bv.Tree? && tv.Tree? then (if |p| == 1 then None else FindingAt(bv, tv, p[1..]))
      else if |p| > 1 then None
      else if bv.Tree? != tv.Tree? then Some(Mismatch)
      else if tv.Leaf? && IsBlank(tv.text) then Some(Empty)
      else None
  }

  /** `f` is the report, under `prefix`, of what is wrong between `b` and `t`. */
  ghost predicate Reported(b: Val, t: Val, prefix: seq<Key>, f: Finding)
    requires b.Tree? && t.Tree?
  {
    prefix < f.path && FindingAt(b, t, f.path[|prefix|..]) == Some(f.kind)
  }

  /** The same, restricted to the keys in `ks`. */
  ghost predicate ReportedIn(b: Val, t: Val, prefix: seq<Key>, ks: set<Key>, f: Finding)
    requires b.Tree? && t.Tree?
  {
    Reported(b, t, prefix, f) && f.path[|prefix|] in ks
  }

  /** The array that all recursive calls push into. */
  class Findings {
    var items: seq<Finding>

    constructor ()
      ensures items == []
    {
      items := [];
    }

    method Push(f: Finding)
      modifies this
      ensures items == old(items) + [f]
    {
      items := items + [f];
    }
  }

  lemma DistinctConcat(a: seq<Finding>, b: seq<Finding>)
    requires Distinct(a) && Distinct(b) && forall f :: f in a ==> f !in b
    ensures Distinct(a + b)
  {
    forall i, j | 0 <= i < j < |a + b| ensures (a + b)[i] != (a + b)[j] {
      if i < |a| <= j {
        assert a[i] in a && b[j - |a|] in b;
      }
    }
  }

  /** Reports of one key: the complaint about the key itself, or those inside it. */
  lemma ReportedUnder(b: Val, t: Val, prefix: seq<Key>, k: Key, f: Finding)
    requires b.Tree? && t.Tree?
    ensures ReportedIn(b, t, prefix, {k}, f) <==>
              || (f.path == prefix + [k] && FindingAt(b, t, [k]) == Some(f.kind))
              || (k in b.fields && k in t.fields && b.fields[k].Tree? && t.fields[k].Tree?
                  && Reported(b.fields[k], t.fields[k], prefix + [k], f))
  {
    assert f.path == prefix + [k] ==> prefix < f.path && f.path[|prefix|] == k;
    assert prefix + [k] < f.path ==> prefix < f.path && f.path[|prefix|] == k by {
      assert prefix + [k] < f.path ==> f.path[|prefix|] == (prefix + [k])[|prefix|];
    }
    if prefix < f.path && f.path[|prefix|] == k {
      var p := f.path[|prefix|..];
      assert p[0] == k;
      if |p| == 1 {
        assert p == [k] && f.path == prefix + [k];
      } else {
        assert p[1..] == f.path[|prefix + [k]|..];
        assert prefix + [k] < f.path;
      }
    }
  }

  /** Compare one key of the backbone and push what is wrong there. */
  method DiffKey(b: Val, t: Val, prefix: seq<Key>, key: Key, findings: Findings)
    requires b.Tree? && t.Tree? && key in b.fields
    modifies findings
    ensures old(findings.items) <= findings.items
    ensures forall f :: f in findings.items[|old(findings.items)|..] <==> ReportedIn(b, t, prefix, {key}, f)
    ensures Distinct(findings.items[|old(findings.items)|..])
    decreases b, 0
  {
    ghost var before := findings.items;
    forall f ensures ReportedIn(b, t, prefix, {key}, f) <==>
              || (f.path == prefix + [key] && FindingAt(b, t, [key]) == Some(f.kind))
              || (key in t.fields && b.fields[key].Tree? && t.fields[key].Tree?
                  && Reported(b.fields[key], t.fields[key], prefix + [key], f))
    {
      ReportedUnder(b, t, prefix, key, f);
    }
    var path := prefix + [key];
    var bv := b.fields[key];
    if key !in t.fields {
      findings.Push(Finding(Missing, path));
    } else {
      var tv := t.fields[key];
      if bv.Tree? != tv.Tree? {
        findings.Push(Finding(Mismatch, path));
      } else if bv.Tree? && tv.Tree? {
        Diff(bv, tv, path, findings);
      } else if tv.Leaf? && IsBlank(tv.text) {
        findings.Push(Finding(Empty, path));
      }
    }
  }

  /** The loop over the backbone's keys, in any order. */
  method DiffBackbone(b: Val, t: Val, prefix: seq<Key>, findings: Findings)
    requires b.Tree? && t.Tree?
    modifies findings
    ensures old(findings.items) <= findings.items
    ensures forall f :: f in findings.items[|old(findings.items)|..] <==> ReportedIn(b, t, prefix, b.fields.Keys, f)
    ensures Distinct(findings.items[|old(findings.items)|..])
    decreases b, 1
  {
    var todo := b.fields.Keys;
    while todo != {}
      invariant todo <= b.fields.Keys
      invariant old(findings.items) <= findings.items
      invariant forall f :: f in findings.items[|old(findings.items)|..] <==>
          ReportedIn(b, t, prefix, b.fields.Keys - todo, f)
      invariant Distinct(findings.items[|old(findings.items)|..])
      decreases todo
    {
      var key :| key in todo;
      ghost var before := findings.items;
      DiffKey(b, t, prefix, key, findings);
      assert findings.items[|old(findings.items)|..] == before[|old(findings.items)|..] + findings.items[|before|..];
      DistinctConcat(before[|old(findings.items)|..], findings.items[|before|..]);
      todo := todo - {key};
    }
  }

  lemma ExtraReport(b: Val, t: Val, prefix: seq<Key>, key: Key, f: Finding)
    requires b.Tree? && t.Tree? && key in t.fields && key !in b.fields
    ensures ReportedIn(b, t, prefix, {key}, f) <==> f == Finding(Extra, prefix + [key])
  {
    ReportedUnder(b, t, prefix, key, f);
  }

  /** The loop over the target's keys, in any order. */
  method DiffExtras(b: Val, t: Val, prefix: seq<Key>, findings: Findings)
    requires b.Tree? && t.Tree?
    modifies findings
    ensures old(findings.items) <= findings.items
    ensures forall f :: f in findings.items[|old(findings.items)|..] <==>
        ReportedIn(b, t, prefix, t.fields.Keys - b.fields.Keys, f)
    ensures Distinct(findings.items[|old(findings.items)|..])
  {
    var todo := t.fields.Keys;
    while todo != {}
      invariant todo <= t.fields.Keys
      invariant old(findings.items) <= findings.items
      invariant forall f :: f in findings.items[|old(findings.items)|..] <==>
                              ReportedIn(b, t, prefix, t.fields.Keys - b.fields.Keys - todo, f)
      invariant Distinct(findings.items[|old(findings.items)|..])
      decreases todo
    {
      var key :| key in todo;
      if key !in b.fields {
        forall f ensures ReportedIn(b, t, prefix, {key}, f) <==> f == Finding(Extra, prefix + [key]) {
          ExtraReport(b, t, prefix, key, f);
        }
        ghost var before := findings.items;
        findings.Push(Finding(Extra, prefix + [key]));
        assert findings.items[|old(findings.items)|..]
            == before[|old(findings.items)|..] + [Finding(Extra, prefix + [key])];
        DistinctConcat(before[|old(findings.items)|..], [Finding(Extra, prefix + [key])]);
        assert forall f :: f in findings.items[|old(findings.items)|..] <==>
                             f in before[|old(findings.items)|..] || f == Finding(Extra, prefix + [key]);
      }
      ghost var extras := t.fields.Keys - b.fields.Keys;
      assert extras - (todo - {key}) == if key in b.fields then extras - todo else extras - todo + {key};
      todo := todo - {key};
    }
  }

  lemma ReportsSplit(b: Val, t: Val, prefix: seq<Key>, f: Finding)
    requires b.Tree? && t.Tree?
    ensures Reported(b, t, prefix, f) <==>
              ReportedIn(b, t, prefix, b.fields.Keys, f) || ReportedIn(b, t, prefix, t.fields.Keys - b.fields.Keys, f)
  {
    if prefix < f.path {
      assert f.path[|prefix|..][0] == f.path[|prefix|];
    }
  }

  /** The findings pushed are exactly the complaints, each at its own path and each once. */
  method Diff(b: Val, t: Val, prefix: seq<Key>, findings: Findings)
    requires b.Tree? && t.Tree?
    modifies findings
    ensures old(findings.items) <= findings.items
    ensures forall f :: f in findings.items[|old(findings.items)|..] <==> Reported(b, t, prefix, f)
    ensures Distinct(findings.items[|old(findings.items)|..])
    decreases b, 2
  {
    DiffBackbone(b, t, prefix, findings);
    ghost var before := findings.items;
    DiffExtras(b, t, prefix, findings);
    assert findings.items[|old(findings.items)|..] == before[|old(findings.items)|..] + findings.items[|before|..];
    DistinctConcat(before[|old(findings.items)|..], findings.items[|before|..]);
    forall f ensures f in findings.items[|old(findings.items)|..] <==> Reported(b, t, prefix, f) {
      ReportsSplit(b, t, prefix, f);
    }
  }
}
