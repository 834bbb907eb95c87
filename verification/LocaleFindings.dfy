/**
 * What the linter complains about and what a request shows, by the values that stand at a path
 * (src/i18n/request.ts, scripts/check-locales.ts).
 */
module LocaleFindings {
  import opened Outcomes
  import opened JsText
  import opened LocaleLayers
  import opened LocaleMerge

  // ---------------------------------------------------------------- complaints

  /** The value at the path is a tree. */
  predicate TreeAt(v: Val, p: seq<Key>) { At(v, p).Some? && At(v, p).value.Tree? }

  predicate BlankAt(v: Val, p: seq<Key>) { At(v, p).Some? && At(v, p).value.Leaf? && IsBlank(At(v, p).value.text) }

  /** What is wrong at `p`, given that both sides have a tree right above it. */
  ghost predicate Complains(b: Val, t: Val, p: seq<Key>, kind: Kind) {
    match kind
    case Extra => At(b, p).None? && At(t, p).Some?
    case Missing => At(b, p).Some? && At(t, p).None?
    case Mismatch => At(b, p).Some? && At(t, p).Some? && TreeAt(b, p) != TreeAt(t, p)
    case Empty => At(b, p).Some? && !TreeAt(b, p) && BlankAt(t, p)
  }

  /** The linter complains at a path exactly when both sides have trees above it and what stands there differs so. */
  lemma {:induction false} FindingExactly(b: Val, t: Val, p: seq<Key>, kind: Kind)
    requires b.Tree? && t.Tree? && p != []
    ensures FindingAt(b, t, p) == Some(kind)
       <==> TreeAt(b, p[..|p| - 1]) && TreeAt(t, p[..|p| - 1]) && Complains(b, t, p, kind)
    decreases |p|
  {
    var k := p[0];
    if |p| == 1 {
      assert p == [k] && p[..|p| - 1] == [];
      OneStep(b, k);
      OneStep(t, k);
    } else {
      assert p[..|p| - 1][1..] == p[1..][..|p[1..]| - 1] && p[..|p| - 1][0] == k;
      if k in b.fields && k in t.fields && b.fields[k].Tree? && t.fields[k].Tree? {
        FindingExactly(b.fields[k], t.fields[k], p[1..], kind);
      } else {
        NothingBelow(b, t, p);
      }
    }
  }

  /** Below a key that is not a tree on both sides the two sides have no trees in common. */
  lemma NothingBelow(b: Val, t: Val, p: seq<Key>)
    requires b.Tree? && t.Tree? && |p| > 1
    requires !(p[0] in b.fields && p[0] in t.fields && b.fields[p[0]].Tree? && t.fields[p[0]].Tree?)
    ensures !(TreeAt(b, p[..|p| - 1]) && TreeAt(t, p[..|p| - 1])) && FindingAt(b, t, p).None?
  {
    var q := p[..|p| - 1];
    assert q[0] == p[0];
    if |q| == 1 {
      assert q == [p[0]];
      OneStep(b, p[0]);
      OneStep(t, p[0]);
    } else {
      if TreeAt(b, q) { TreeAbove(b, q); }
      if TreeAt(t, q) { TreeAbove(t, q); }
    }
  }

  lemma TreeAbove(v: Val, q: seq<Key>)
    requires |q| > 1 && At(v, q).Some?
    ensures v.Tree? && q[0] in v.fields && v.fields[q[0]].Tree?
  {
    assert v.Tree? && q[0] in v.fields;
    assert At(v, q) == At(v.fields[q[0]], q[1..]);
  }

  /** Extra keys and trees that meet something else are errors, the rest are warnings. */
  lemma ErrorsExactly(kind: Kind)
    ensures IsError(kind) <==> kind == Extra || kind == Mismatch
  {
  }

  // ---------------------------------------------------------------- merging

  /** An override without anything to show: none at all, null, or a blank string. */
  predicate Silent(o: Option<Val>) { o.None? || o.value.Null? || (o.value.Leaf? && IsBlank(o.value.text)) }

  /** Key by key: a silent override leaves the base, trees are merged, anything else replaces the base. */
  lemma MergeByKey(b: Val, o: Val, k: Key)
    requires b.Tree? && o.Tree?
    ensures var m := Merge(b, o);
            && (Silent(At(o, [k])) ==> At(m, [k]) == At(b, [k]))
            && (TreeAt(o, [k]) && TreeAt(b, [k]) ==>
                At(m, [k]) == Some(Merge(At(b, [k]).value, At(o, [k]).value)))
            && (!Silent(At(o, [k])) && !(TreeAt(o, [k]) && TreeAt(b, [k])) ==> At(m, [k]) == At(o, [k]))
  {
    MergeField(b, o, k);
    OneStep(b, k);
    OneStep(o, k);
    OneStep(Merge(b, o), k);
  }

  lemma OneStep(v: Val, k: Key)
    requires v.Tree?
    ensures At(v, [k]) == Field(v, k)
  {
    assert [k][1..] == [];
  }

  // ---------------------------------------------------------------- what a request shows

  function Else(a: Option<Text>, b: Option<Text>): Option<Text> { if a.Some? then a else b }

  /**
   * For another language than the default one the text comes from the local supplement of that language, else from
   * the default language's supplement, else from the language's messages, else from the fallback.
   */
  lemma RequestShows(fallback: Val, locale: Val, supplement: Val, localSupplement: Val, p: seq<Key>)
    requires fallback.Tree? && locale.Tree? && supplement.Tree? && localSupplement.Tree?
    requires OneShape([fallback, locale, supplement, localSupplement])
    ensures Shown(Layered(fallback, Overlays(false, locale, supplement, localSupplement)), p)
         == Else(Shown(localSupplement, p), Else(Shown(supplement, p), Else(Shown(locale, p), Shown(fallback, p))))
  {
    var overlays := Overlays(false, locale, supplement, localSupplement);
    assert [fallback] + overlays == [fallback, locale, supplement, localSupplement];
    LastLayerWins(fallback, overlays, p);
    LastOfFour(fallback, locale, supplement, localSupplement, p);
  }

  /** For the default language it comes from its supplement, else from its messages. */
  lemma DefaultShows(fallback: Val, locale: Val, supplement: Val, localSupplement: Val, p: seq<Key>)
    requires fallback.Tree? && supplement.Tree? && OneShape([fallback, supplement])
    ensures Shown(Layered(fallback, Overlays(true, locale, supplement, localSupplement)), p)
         == Else(Shown(supplement, p), Shown(fallback, p))
  {
    assert [fallback] + [supplement] == [fallback, supplement];
    LastLayerWins(fallback, [supplement], p);
    LastOfOne(supplement, p);
    assert [fallback, supplement][1..] == [supplement];
  }

  lemma LastOfOne(v: Val, p: seq<Key>)
    ensures LastShown([v], p) == Shown(v, p)
  {
    assert [v][1..] == [];
  }

  lemma LastOfFour(a: Val, b: Val, c: Val, d: Val, p: seq<Key>)
    ensures LastShown([a, b, c, d], p) == Else(Shown(d, p), Else(Shown(c, p), Else(Shown(b, p), Shown(a, p))))
  {
    assert [a, b, c, d][1..] == [b, c, d] && [b, c, d][1..] == [c, d] && [c, d][1..] == [d];
    LastOfOne(d, p);
    assert LastShown([c, d], p) == Else(Shown(d, p), Shown(c, p));
    assert LastShown([b, c, d], p) == Else(LastShown([c, d], p), Shown(b, p));
  }
}
