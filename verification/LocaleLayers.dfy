/**
 * What a clean lint run says about the merged messages, and what layering shows at each leaf
 * (src/i18n/request.ts, scripts/check-locales.ts).
 */
module LocaleLayers {
  import opened Outcomes
  import opened JsText
  import opened LocaleMerge

  // ---------------------------------------------------------------- trees and paths

  /** The value at a path, if the path exists. */
  function At(v: Val, p: seq<Key>): Option<Val>
    decreases |p|
  {
    if p == [] then Some(v)
    else if v.Tree? && p[0] in v.fields then At(v.fields[p[0]], p[1..])
    else None
  }

  /** A tree whose leaves are all strings. */
  predicate StringTree(v: Val) {
    v.Leaf? || (v.Tree? && forall k :: k in v.fields ==> StringTree(v.fields[k]))
  }

  /** Shared paths are trees on both sides or leaves on both sides. */
  predicate SameShape(a: Val, b: Val) {
    a.Tree? == b.Tree? &&
    (a.Tree? ==> forall k :: k in a.fields && k in b.fields ==> SameShape(a.fields[k], b.fields[k]))
  }

  // ---------------------------------------------------------------- the linter predicts the merge

  ghost predicate NoErrors(b: Val, t: Val)
    requires b.Tree? && t.Tree?
  {
    forall p :: p != [] && FindingAt(b, t, p).Some? ==> !IsError(FindingAt(b, t, p).value)
  }

  /** A warning stands at `p` or at an ancestor of `p`. */
  ghost predicate WarnedOn(b: Val, t: Val, p: seq<Key>)
    requires b.Tree? && t.Tree?
  {
    exists n :: 1 <= n <= |p| && FindingAt(b, t, p[..n]).Some? && !IsError(FindingAt(b, t, p[..n]).value)
  }

  lemma NoErrorsInside(b: Val, t: Val, k: Key)
    requires b.Tree? && t.Tree? && k in b.fields && k in t.fields && b.fields[k].Tree? && t.fields[k].Tree?
    requires NoErrors(b, t)
    ensures NoErrors(b.fields[k], t.fields[k])
  {
    forall p: seq<Key> | p != [] && FindingAt(b.fields[k], t.fields[k], p).Some?
      ensures !IsError(FindingAt(b.fields[k], t.fields[k], p).value)
    {
      assert ([k] + p)[1..] == p;
      assert FindingAt(b, t, [k] + p) == FindingAt(b.fields[k], t.fields[k], p);
    }
  }

  /** Without errors the target has no key of its own, and trees meet trees. */
  lemma NoErrorsHere(b: Val, t: Val, k: Key)
    requires b.Tree? && t.Tree? && NoErrors(b, t) && k in t.fields
    ensures k in b.fields && b.fields[k].Tree? == t.fields[k].Tree?
  {
    assert [k][0] == k;
    assert FindingAt(b, t, [k]).Some? ==> !IsError(FindingAt(b, t, [k]).value);
  }

  lemma WarnedInside(b: Val, t: Val, p: seq<Key>)
    requires b.Tree? && t.Tree? && p != []
    requires p[0] in b.fields && p[0] in t.fields && b.fields[p[0]].Tree? && t.fields[p[0]].Tree?
    ensures WarnedOn(b, t, p) <==> WarnedOn(b.fields[p[0]], t.fields[p[0]], p[1..])
  {
    var bv, tv := b.fields[p[0]], t.fields[p[0]];
    forall n | 2 <= n <= |p| ensures FindingAt(b, t, p[..n]) == FindingAt(bv, tv, p[1..][..n - 1]) {
      assert p[..n][1..] == p[1..][..n - 1];
    }
    if WarnedOn(b, t, p) {
      var n :| 1 <= n <= |p| && FindingAt(b, t, p[..n]).Some? && !IsError(FindingAt(b, t, p[..n]).value);
      assert n != 1;
      assert FindingAt(bv, tv, p[1..][..n - 1]).Some?;
    }
    if WarnedOn(bv, tv, p[1..]) {
      var n :| 1 <= n <= |p[1..]| && FindingAt(bv, tv, p[1..][..n]).Some?
        && !IsError(FindingAt(bv, tv, p[1..][..n]).value);
      assert FindingAt(b, t, p[..n + 1]).Some?;
    }
  }

  /** At a key that is not a tree on both sides, only the key itself can carry a warning. */
  lemma WarnedHere(b: Val, t: Val, p: seq<Key>)
    requires b.Tree? && t.Tree? && p != []
    requires !(p[0] in b.fields && p[0] in t.fields && b.fields[p[0]].Tree? && t.fields[p[0]].Tree?)
    ensures WarnedOn(b, t, p) <==> FindingAt(b, t, [p[0]]).Some? && !IsError(FindingAt(b, t, [p[0]]).value)
  {
    assert p[..1] == [p[0]];
    forall n | 2 <= n <= |p| ensures FindingAt(b, t, p[..n]).None? {
      assert p[..n][0] == p[0];
    }
  }

  /**
   * If the linter reports no error, the merged tree has exactly the backbone's paths, and each leaf comes
   * from the target exactly when no warning stands at its path or above; with a warning it is the
   * backbone's, and the target has nothing to show there.
   */
  lemma {:induction false} LinterPredictsMerge(b: Val, t: Val, p: seq<Key>)
    requires b.Tree? && t.Tree? && StringTree(b) && StringTree(t) && NoErrors(b, t)
    ensures At(Merge(b, t), p).Some? <==> At(b, p).Some?
    ensures At(b, p).Some? ==> At(Merge(b, t), p).value.Leaf? == At(b, p).value.Leaf?
    ensures At(b, p).Some? && At(b, p).value.Leaf? ==>
              At(Merge(b, t), p) == if WarnedOn(b, t, p) then At(b, p) else At(t, p)
    ensures At(b, p).Some? && At(b, p).value.Leaf? ==>
              (!WarnedOn(b, t, p) <==> At(t, p).Some? && At(t, p).value.Leaf? && !IsBlank(At(t, p).value.text))
    decreases |p|
  {
    if p != [] {
      var k := p[0];
      MergeField(b, t, k);
      if k in t.fields {
        NoErrorsHere(b, t, k);
      }
      if k in b.fields && k in t.fields && b.fields[k].Tree? && t.fields[k].Tree? {
        NoErrorsInside(b, t, k);
        LinterPredictsMerge(b.fields[k], t.fields[k], p[1..]);
        WarnedInside(b, t, p);
      } else {
        WarnedHere(b, t, p);
      }
    }
  }

  // ---------------------------------------------------------------- idempotence

  lemma {:induction false} MergeSelf(v: Val)
    requires v.Tree?
    ensures Merge(v, v) == v
    decreases v
  {
    forall k ensures Field(Merge(v, v), k) == Field(v, k) {
      MergeField(v, v, k);
      if k in v.fields && v.fields[k].Tree? {
        MergeSelf(v.fields[k]);
      }
    }
    SameFields(Merge(v, v), v);
  }

  /** Merging the same override again changes nothing, for all values. */
  lemma {:induction false} MergeIdempotent(b: Val, o: Val)
    requires b.Tree? && o.Tree?
    ensures Merge(Merge(b, o), o) == Merge(b, o)
    decreases o
  {
    var m := Merge(b, o);
    forall k ensures Field(Merge(m, o), k) == Field(m, k) {
      MergeField(b, o, k);
      MergeField(m, o, k);
      if k in o.fields && o.fields[k].Tree? {
        if k in b.fields && b.fields[k].Tree? {
          MergeIdempotent(b.fields[k], o.fields[k]);
        } else {
          MergeSelf(o.fields[k]);
        }
      }
    }
    SameFields(Merge(m, o), m);
  }

  // ---------------------------------------------------------------- associativity

  /** A value that replaces a tree it is merged over: a string that is not blank, an array, a number or a boolean. */
  predicate Replaces(v: Val) { v.Other? || (v.Leaf? && !IsBlank(v.text)) }

  /**
   * Nothing of `a` survives under `c`: every key of `a` is overridden by `c`, down to the leaves, and `c`
   * leaves none blank.
   */
  predicate Buries(c: Val, a: Val)
    requires a.Tree? && c.Tree?
    decreases c, 1
  {
    forall k :: k in a.fields.Keys + c.fields.Keys ==> BuriesAt(c, a, k)
  }

  predicate BuriesAt(c: Val, a: Val, k: Key)
    requires a.Tree? && c.Tree?
    decreases c, 0
  {
    if k !in c.fields then k !in a.fields
    else if c.fields[k].Tree? then k in a.fields && a.fields[k].Tree? ==> Buries(c.fields[k], a.fields[k])
    else Replaces(c.fields[k]) || Field(a, k) == Some(c.fields[k])
  }

  /** An override is the result of a merge exactly when it buries the base. */
  lemma {:induction false} MergeIsOverrideExactly(a: Val, c: Val)
    requires a.Tree? && c.Tree?
    ensures Merge(a, c) == c <==> Buries(c, a)
    decreases c
  {
    forall k ensures Field(Merge(a, c), k) == Field(c, k) <==> BuriesAt(c, a, k) {
      MergeField(a, c, k);
      if k in c.fields && c.fields[k].Tree? && k in a.fields && a.fields[k].Tree? {
        MergeIsOverrideExactly(a.fields[k], c.fields[k]);
      }
    }
    if Buries(c, a) {
      forall k ensures Field(Merge(a, c), k) == Field(c, k) {
        assert k !in a.fields.Keys + c.fields.Keys ==> BuriesAt(c, a, k);
      }
      SameFields(Merge(a, c), c);
    }
  }

  /**
   * Where the middle layer stands between two trees: a tree must group with them, a value that replaces
   * trees must come too late for anything to survive anyway.
   */
  predicate Groups(a: Val, b: Val, c: Val)
    requires a.Tree? && b.Tree? && c.Tree?
    decreases c, 1
  {
    forall k :: k in c.fields ==> GroupsHere(a, b, c, k)
  }

  predicate GroupsHere(a: Val, b: Val, c: Val, k: Key)
    requires a.Tree? && b.Tree? && c.Tree?
    decreases c, 0
  {
    k in c.fields && k in a.fields && k in b.fields && c.fields[k].Tree? && a.fields[k].Tree? ==>
      && (b.fields[k].Tree? ==> Groups(a.fields[k], b.fields[k], c.fields[k]))
      && (Replaces(b.fields[k]) ==> Buries(c.fields[k], a.fields[k]))
  }

  /** What the two groupings give at one key. */
  lemma GroupsAt(a: Val, b: Val, c: Val, k: Key)
    requires a.Tree? && b.Tree? && c.Tree?
    ensures var l, r := Field(Merge(Merge(a, b), c), k), Field(Merge(a, Merge(b, c)), k);
            if k in c.fields && k in a.fields && k in b.fields && c.fields[k].Tree? && a.fields[k].Tree? then
              (b.fields[k].Tree? ==>
                 l == Some(Merge(Merge(a.fields[k], b.fields[k]), c.fields[k])) &&
                 r == Some(Merge(a.fields[k], Merge(b.fields[k], c.fields[k]))))
              && (Replaces(b.fields[k]) ==> l == Some(c.fields[k]) && r == Some(Merge(a.fields[k], c.fields[k])))
              && (!b.fields[k].Tree? && !Replaces(b.fields[k]) ==> l == r)
            else l == r
  {
    MergeField(a, b, k);
    MergeField(b, c, k);
    MergeField(Merge(a, b), c, k);
    MergeField(a, Merge(b, c), k);
  }

  /**
   * Three layers may be grouped either way exactly when the middle one nowhere replaces, between two trees,
   * something that would otherwise show through. All values are included.
   */
  lemma {:induction false} MergeAssociativeExactly(a: Val, b: Val, c: Val)
    requires a.Tree? && b.Tree? && c.Tree?
    ensures Merge(Merge(a, b), c) == Merge(a, Merge(b, c)) <==> Groups(a, b, c)
    decreases c
  {
    var l, r := Merge(Merge(a, b), c), Merge(a, Merge(b, c));
    forall k ensures Field(l, k) == Field(r, k) <==> GroupsHere(a, b, c, k) {
      GroupsAt(a, b, c, k);
      if k in c.fields && k in a.fields && k in b.fields && c.fields[k].Tree? && a.fields[k].Tree? {
        if b.fields[k].Tree? {
          MergeAssociativeExactly(a.fields[k], b.fields[k], c.fields[k]);
        }
        MergeIsOverrideExactly(a.fields[k], c.fields[k]);
      }
    }
    if Groups(a, b, c) {
      forall k ensures Field(l, k) == Field(r, k) {
        assert k !in c.fields ==> GroupsHere(a, b, c, k);
      }
      SameFields(l, r);
    }
  }

  lemma {:induction false} OneShapeGroups(a: Val, b: Val, c: Val)
    requires a.Tree? && b.Tree? && c.Tree? && SameShape(a, b) && SameShape(b, c)
    ensures Groups(a, b, c)
    decreases c
  {
    forall k | k in c.fields && k in a.fields && k in b.fields && c.fields[k].Tree? && a.fields[k].Tree?
      ensures b.fields[k].Tree? && Groups(a.fields[k], b.fields[k], c.fields[k])
    {
      assert SameShape(a.fields[k], b.fields[k]) && SameShape(b.fields[k], c.fields[k]);
      OneShapeGroups(a.fields[k], b.fields[k], c.fields[k]);
    }
  }

  /** In particular layers that agree on which paths are trees may be merged in any grouping. */
  lemma MergeAssociative(a: Val, b: Val, c: Val)
    requires a.Tree? && b.Tree? && c.Tree? && SameShape(a, b) && SameShape(b, c)
    ensures Merge(Merge(a, b), c) == Merge(a, Merge(b, c))
  {
    OneShapeGroups(a, b, c);
    MergeAssociativeExactly(a, b, c);
  }

  /** A witness: a string over a tree, then a tree over both, gives different results in the two groupings. */
  lemma GroupingMattersAcrossShapes()
    ensures var k, t := [0x6B], Leaf([0x78]);
            var a := Tree(map[k := Tree(map[[0x61] := t])]);
            var b := Tree(map[k := t]);
            var c := Tree(map[k := Tree(map[[0x63] := t])]);
            Merge(Merge(a, b), c) != Merge(a, Merge(b, c))
  {
    var k, t := [0x6B], Leaf([0x78]);
    var ka, kc := [0x61], [0x63];
    var a, b, c := Tree(map[k := Tree(map[ka := t])]), Tree(map[k := t]), Tree(map[k := Tree(map[kc := t])]);
    assert !IsBlank(t.text) by { assert t.text[0] == 0x78; }
    assert ka in a.fields[k].fields && ka !in c.fields[k].fields by { assert ka[0] != kc[0]; }
    assert !BuriesAt(c.fields[k], a.fields[k], ka);
    assert !Buries(c.fields[k], a.fields[k]);
    assert !GroupsHere(a, b, c, k);
    MergeAssociativeExactly(a, b, c);
  }

  // ---------------------------------------------------------------- layers

  /** The text a path shows: a string that is not blank. */
  function Shown(v: Val, p: seq<Key>): Option<Text> {
    var w := At(v, p);
    if w.Some? && w.value.Leaf? && !IsBlank(w.value.text) then Some(w.value.text) else None
  }

  lemma ShownBelow(v: Val, p: seq<Key>)
    requires v.Tree? && p != []
    ensures Shown(v, p) == if Field(v, p[0]).Some? then Shown(Field(v, p[0]).value, p[1..]) else None
  {
  }

  lemma ShownOfLeaf(v: Val, p: seq<Key>)
    requires v.Leaf?
    ensures Shown(v, p) == if p == [] && !IsBlank(v.text) then Some(v.text) else None
  {
  }

  /** Merging two layers of one shape shows the override's text where it has one, else the base's. */
  lemma {:induction false} ShownMerge(a: Val, b: Val, p: seq<Key>)
    requires a.Tree? && b.Tree? && StringTree(a) && StringTree(b) && SameShape(a, b)
    ensures Shown(Merge(a, b), p) == if Shown(b, p).Some? then Shown(b, p) else Shown(a, p)
    decreases |p|
  {
    if p != [] {
      var k := p[0];
      MergeField(a, b, k);
      ShownBelow(a, p);
      ShownBelow(b, p);
      ShownBelow(Merge(a, b), p);
      if k in b.fields && b.fields[k].Leaf? {
        ShownOfLeaf(b.fields[k], p[1..]);
        if k in a.fields {
          ShownOfLeaf(a.fields[k], p[1..]);
        }
      } else if k in a.fields && k in b.fields {
        ShownMerge(a.fields[k], b.fields[k], p[1..]);
      }
    }
  }

  lemma {:induction false} MergeKeepsShape(a: Val, b: Val, c: Val)
    requires a.Tree? && b.Tree? && c.Tree? && StringTree(a) && StringTree(b)
    requires SameShape(a, b) && SameShape(a, c) && SameShape(b, c)
    ensures StringTree(Merge(a, b)) && SameShape(Merge(a, b), c)
    decreases b
  {
    var m := Merge(a, b);
    forall k | k in m.fields
      ensures StringTree(m.fields[k]) && (k in c.fields ==> SameShape(m.fields[k], c.fields[k]))
    {
      MergeField(a, b, k);
      if k in a.fields && k in b.fields && a.fields[k].Tree? {
        if k in c.fields {
          MergeKeepsShape(a.fields[k], b.fields[k], c.fields[k]);
        } else {
          MergeStringTrees(a.fields[k], b.fields[k]);
        }
      }
    }
  }

  lemma {:induction false} MergeStringTrees(a: Val, b: Val)
    requires a.Tree? && b.Tree? && StringTree(a) && StringTree(b)
    ensures StringTree(Merge(a, b))
    decreases b
  {
    var m := Merge(a, b);
    forall k | k in m.fields ensures StringTree(m.fields[k]) {
      MergeField(a, b, k);
      if k in a.fields && k in b.fields && a.fields[k].Tree? && b.fields[k].Tree? {
        MergeStringTrees(a.fields[k], b.fields[k]);
      }
    }
  }

  ghost predicate OneShape(layers: seq<Val>) {
    && (forall i :: 0 <= i < |layers| ==> layers[i].Tree? && StringTree(layers[i]))
    && (forall i, j :: 0 <= i < j < |layers| ==> SameShape(layers[i], layers[j]))
  }

  /** Each layer in turn merged over the messages so far. */
  function Layered(messages: Val, layers: seq<Val>): (r: Val)
    requires messages.Tree? && forall i :: 0 <= i < |layers| ==> layers[i].Tree?
    ensures r.Tree?
    decreases |layers|
  {
    if layers == [] then messages else Layered(Merge(messages, layers[0]), layers[1..])
  }

  /** The text of the last layer that shows one at `p`. */
  function LastShown(layers: seq<Val>, p: seq<Key>): Option<Text>
    decreases |layers|
  {
    if layers == [] then None
    else
      var later := LastShown(layers[1..], p);
      if later.Some? then later else Shown(layers[0], p)
  }

  /** `m` may be put below or above any of the layers. */
  ghost predicate Fits(m: Val, layers: seq<Val>) {
    m.Tree? && StringTree(m) && forall i :: 0 <= i < |layers| ==> SameShape(m, layers[i])
  }

  lemma OneShapeCons(m: Val, layers: seq<Val>)
    ensures OneShape([m] + layers) <==> Fits(m, layers) && OneShape(layers)
  {
    var all := [m] + layers;
    assert all[0] == m && forall i :: 0 <= i < |layers| ==> all[i + 1] == layers[i];
    if Fits(m, layers) && OneShape(layers) {
      forall i | 0 <= i < |all| ensures all[i].Tree? && StringTree(all[i]) {
        assert i > 0 ==> all[i] == layers[i - 1];
      }
      forall i, j | 0 <= i < j < |all| ensures SameShape(all[i], all[j]) {
        assert all[j] == layers[j - 1] && (i > 0 ==> all[i] == layers[i - 1]);
      }
    }
  }

  lemma MergeStaysInShape(m: Val, layers: seq<Val>)
    requires layers != [] && m.Tree? && layers[0].Tree? && OneShape([m] + layers)
    ensures OneShape([Merge(m, layers[0])] + layers[1..])
  {
    var first, rest := layers[0], layers[1..];
    assert layers == [first] + rest;
    OneShapeCons(m, layers);
    OneShapeCons(first, rest);
    MergeStringTrees(m, first);
    forall j | 0 <= j < |rest| ensures SameShape(Merge(m, first), rest[j]) {
      assert rest[j] == layers[j + 1];
      MergeKeepsShape(m, first, rest[j]);
    }
    OneShapeCons(Merge(m, first), rest);
  }

  /** At every path the layered messages show the last layer's text that is not blank. */
  lemma {:induction false} LastLayerWins(m: Val, layers: seq<Val>, p: seq<Key>)
    requires OneShape([m] + layers) && m.Tree? && forall i :: 0 <= i < |layers| ==> layers[i].Tree?
    ensures Shown(Layered(m, layers), p) == LastShown([m] + layers, p)
    decreases |layers|
  {
    assert ([m] + layers)[1..] == layers;
    if layers != [] {
      var next := Merge(m, layers[0]);
      MergeStaysInShape(m, layers);
      LastLayerWins(next, layers[1..], p);
      assert ([next] + layers[1..])[1..] == layers[1..];
      assert ([m] + layers)[0] == m && ([m] + layers)[1] == layers[0];
      ShownMerge(m, layers[0], p);
    }
  }

  /** What a request lays over the default language's messages, from the bottom. */
  function Overlays(isDefault: bool, locale: Val, supplement: Val, localSupplement: Val): seq<Val> {
    if isDefault then [supplement] else [locale, supplement, localSupplement]
  }

  /**
   * The request configuration, layer by layer. `supplement` is the default language's local supplement;
   * for the default language itself `locale` and `localSupplement` are not used.
   */
  method RequestMessages(isDefault: bool, fallback: Val, locale: Val, supplement: Val, localSupplement: Val)
      returns (messages: Val)
    requires fallback.Tree? && locale.Tree? && supplement.Tree? && localSupplement.Tree?
    ensures messages == Layered(fallback, Overlays(isDefault, locale, supplement, localSupplement))
  {
    ghost var overlays := Overlays(isDefault, locale, supplement, localSupplement);
    if isDefault {
      messages := fallback;
    } else {
      messages := DeepMergeMessages(fallback, locale);
      assert Layered(fallback, overlays) == Layered(messages, overlays[1..]);
    }
    if !isDefault {
      ghost var before := messages;
      messages := DeepMergeMessages(messages, supplement);
      assert overlays[1..] == [supplement, localSupplement] && overlays[1..][1..] == [localSupplement];
      assert Layered(before, overlays[1..]) == Layered(messages, [localSupplement]);
    }
    ghost var last := if isDefault then supplement else localSupplement;
    assert [last][1..] == [] && Layered(messages, [last]) == Merge(messages, last);
    messages := DeepMergeMessages(messages, if isDefault then supplement else localSupplement);
  }
}
