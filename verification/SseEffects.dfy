/**
 * What a stream of events shows in the end, told by the events that matter for each field, and how its text falls
 * into frames (src/hooks/useSSEStream.ts).
 */
module SseEffects {
  import opened Outcomes
  import opened JsText
  import opened Framing
  import opened SseStream

  // ---------------------------------------------------------------- the events of a stream

  /** The events of the frames, in order; a frame that parses to nothing has none. */
  function Events(parse: Text -> Option<SseEvent>, frames: seq<Text>): seq<SseEvent> {
    if frames == [] then []
    else
      var e := parse(frames[|frames| - 1]);
      Events(parse, frames[..|frames| - 1]) + if e.Some? then [e.value] else []
  }

  /** The frames of a text; what follows the last blank line counts unless it is blank. */
  function Frames(text: Text): seq<Text> {
    var pieces := Split(text);
    if IsBlank(pieces[|pieces| - 1]) then pieces[..|pieces| - 1] else pieces
  }

  predicate Nonempty(t: Option<Text>) { t.Some? && |t.value| > 0 }

  /** Events that replace the content. */
  predicate Replaces(e: SseEvent) { e.kind.RepairStart? || (e.kind.Final? && Nonempty(e.data)) }

  predicate IsRepair(e: SseEvent) { e.kind.RepairStart? }

  predicate IsFinal(e: SseEvent) { e.kind.Final? }

  predicate IsError(e: SseEvent) { e.kind.Error? }

  predicate IsVerdict(e: SseEvent) { e.kind.ValidationError? || e.kind.RepairStart? }

  predicate NamesModel(e: SseEvent) { e.kind.Meta? && Nonempty(e.data) }

  ghost predicate Last(es: seq<SseEvent>, p: SseEvent -> bool, i: nat) {
    i < |es| && p(es[i]) && forall j :: i < j < |es| ==> !p(es[j])
  }

  ghost predicate First(es: seq<SseEvent>, p: SseEvent -> bool, i: nat) {
    i < |es| && p(es[i]) && forall j :: 0 <= j < i ==> !p(es[j])
  }

  ghost predicate Never(es: seq<SseEvent>, p: SseEvent -> bool) { forall i :: 0 <= i < |es| ==> !p(es[i]) }

  function Datum(e: SseEvent): Text { if e.kind.Delta? && e.data.Some? then e.data.value else [] }

  /** The data of all deltas, one after the other. */
  function DeltaData(es: seq<SseEvent>): Text { Flat(seq(|es|, i requires 0 <= i < |es| => Datum(es[i]))) }

  /** What a replacing event puts. */
  function Put(e: SseEvent): Text { if e.kind.Final? && e.data.Some? then e.data.value else [] }

  // ---------------------------------------------------------------- the fields of the view

  const NO_MESSAGE: Text := U("Unknown error")
  const NO_VERDICT: Text := U("Validation failed")

  /** From `before`, the content is what the last replacing event put, then all deltas since. */
  ghost predicate ContentOf(before: Text, es: seq<SseEvent>, content: Text) {
    && (Never(es, Replaces) ==> content == before + DeltaData(es))
    && (forall i: nat :: Last(es, Replaces, i) ==>
        content == Put(es[i]) + DeltaData(es[i + 1..]))
  }

  /** The text an event shows: its error, else its data, else `otherwise`. */
  ghost predicate Shows(shown: Option<Text>, e: SseEvent, otherwise: Text) {
    && (e.error.Some? ==> shown == e.error)
    && (e.error.None? && e.data.Some? ==> shown == e.data)
    && (e.error.None? && e.data.None? ==> shown == Some(otherwise))
  }

  ghost predicate ErrorOf(before: Option<Text>, es: seq<SseEvent>, error: Option<Text>, otherwise: Text) {
    && (Never(es, IsError) ==> error == before)
    && (forall i: nat :: Last(es, IsError, i) ==> Shows(error, es[i], otherwise))
  }

  /** The model is the first that a `meta` event names. */
  ghost predicate ModelOf(before: Option<Text>, es: seq<SseEvent>, model: Option<Text>) {
    && (before.Some? || Never(es, NamesModel) ==> model == before)
    && (forall i: nat :: before.None? && First(es, NamesModel, i) ==> model == es[i].data)
  }

  /** The detail an error event shows: its code and message with the model named by then; none without a code. */
  ghost predicate Details(detail: Option<ErrorDetail>, e: SseEvent, model: Option<Text>) {
    if Nonempty(e.code) then detail == Some(ErrorDetail(e.code.value, model, e.message)) else detail == None
  }

  /** The detail is that of the last error, with the model named before it. */
  ghost predicate DetailOf(before: View, es: seq<SseEvent>, detail: Option<ErrorDetail>) {
    && (Never(es, IsError) ==> detail == before.errorDetail)
    && (forall i: nat :: Last(es, IsError, i) ==>
        exists model :: ModelOf(before.metaModel, es[..i], model) && Details(detail, es[i], model))
  }

  /** A repair takes the verdict of the validation away. */
  ghost predicate VerdictOf(before: Option<Text>, es: seq<SseEvent>, verdict: Option<Text>, otherwise: Text) {
    && (Never(es, IsVerdict) ==> verdict == before)
    && (forall i: nat :: Last(es, IsVerdict, i) ==>
        if es[i].kind.RepairStart? then verdict.None? else Shows(verdict, es[i], otherwise))
  }

  ghost predicate ProgressOf(before: Option<Text>, es: seq<SseEvent>, progress: Option<Text>) {
    && (Never(es, IsRepair) ==> progress == before)
    && (forall i: nat :: Last(es, IsRepair, i) ==> progress == es[i].data)
  }

  ghost predicate ValidatedOf(before: bool, es: seq<SseEvent>, validated: bool) {
    && (Never(es, IsFinal) ==> validated == before)
    && (forall i: nat :: Last(es, IsFinal, i) ==> validated == es[i].validated)
  }

  /** All that the view shows, but for the flag `completed`. */
  ghost predicate Explained(v: View, es: seq<SseEvent>, w: View) {
    && ContentOf(v.content, es, w.content)
    && ErrorOf(v.error, es, w.error, NO_MESSAGE)
    && DetailOf(v, es, w.errorDetail)
    && ModelOf(v.metaModel, es, w.metaModel)
    && VerdictOf(v.validationError, es, w.validationError, NO_VERDICT)
    && ProgressOf(v.repairProgress, es, w.repairProgress)
    && ValidatedOf(v.validated, es, w.validated)
  }

  // ---------------------------------------------------------------- one more event

  lemma NeverSnoc(es: seq<SseEvent>, e: SseEvent, p: SseEvent -> bool)
    ensures Never(es + [e], p) <==> Never(es, p) && !p(e)
  {
    var fs := es + [e];
    assert fs[|es|] == e && forall j :: 0 <= j < |es| ==> fs[j] == es[j];
  }

  lemma LastSnoc(es: seq<SseEvent>, e: SseEvent, p: SseEvent -> bool, i: nat)
    ensures Last(es + [e], p, i) <==> if p(e) then i == |es| else Last(es, p, i)
  {
    var fs := es + [e];
    assert fs[|es|] == e && forall j :: 0 <= j < |es| ==> fs[j] == es[j];
  }

  lemma FirstSnoc(es: seq<SseEvent>, e: SseEvent, p: SseEvent -> bool, i: nat)
    ensures First(es + [e], p, i) <==> First(es, p, i) || (Never(es, p) && p(e) && i == |es|)
  {
    var fs := es + [e];
    assert fs[|es|] == e && forall j :: 0 <= j < |es| ==> fs[j] == es[j];
  }

  lemma {:induction false} FlatSnoc(chunks: seq<Text>, c: Text)
    ensures Flat(chunks + [c]) == Flat(chunks) + c
  {
    if chunks == [] {
      assert (chunks + [c])[1..] == [];
    } else {
      assert (chunks + [c])[1..] == chunks[1..] + [c];
      FlatSnoc(chunks[1..], c);
    }
  }

  lemma DeltaDataSnoc(es: seq<SseEvent>, e: SseEvent)
    ensures DeltaData(es + [e]) == DeltaData(es) + Datum(e)
  {
    var data := seq(|es|, i requires 0 <= i < |es| => Datum(es[i]));
    var fs := es + [e];
    assert seq(|fs|, i requires 0 <= i < |fs| => Datum(fs[i])) == data + [Datum(e)];
    FlatSnoc(data, Datum(e));
  }

  /** Behind the last replacing event stands one datum more. */
  lemma ContentGrows(put: Text, es: seq<SseEvent>, i: nat, e: SseEvent, content: Text)
    requires i < |es| && content == put + DeltaData(es[i + 1..])
    ensures content + Datum(e) == put + DeltaData((es + [e])[i + 1..])
  {
    assert (es + [e])[i + 1..] == es[i + 1..] + [e];
    DeltaDataSnoc(es[i + 1..], e);
    ConcatAssoc(put, DeltaData(es[i + 1..]), Datum(e));
  }

  lemma NothingBehind(es: seq<SseEvent>)
    ensures DeltaData(es[|es|..]) == []
  {
    assert es[|es|..] == [];
  }

  lemma ContentStep(before: Text, es: seq<SseEvent>, content: Text, e: SseEvent, content': Text)
    requires ContentOf(before, es, content)
    requires content' == if Replaces(e) then Put(e) else content + Datum(e)
    ensures ContentOf(before, es + [e], content')
  {
    var fs := es + [e];
    NeverSnoc(es, e, Replaces);
    if Never(fs, Replaces) {
      DeltaDataSnoc(es, e);
      ConcatAssoc(before, DeltaData(es), Datum(e));
    }
    forall i: nat | Last(fs, Replaces, i) ensures content' == Put(fs[i]) + DeltaData(fs[i + 1..]) {
      LastSnoc(es, e, Replaces, i);
      if Replaces(e) {
        NothingBehind(fs);
      } else {
        ContentGrows(Put(es[i]), es, i, e, content);
      }
    }
  }

  lemma ErrorStep(before: Option<Text>, es: seq<SseEvent>, error: Option<Text>, otherwise: Text, e: SseEvent,
                  error': Option<Text>)
    requires ErrorOf(before, es, error, otherwise)
    requires if IsError(e) then Shows(error', e, otherwise) else error' == error
    ensures ErrorOf(before, es + [e], error', otherwise)
  {
    NeverSnoc(es, e, IsError);
    forall i: nat | Last(es + [e], IsError, i) ensures Shows(error', (es + [e])[i], otherwise) {
      LastSnoc(es, e, IsError, i);
    }
  }

  lemma ModelStep(before: Option<Text>, es: seq<SseEvent>, model: Option<Text>, e: SseEvent, model': Option<Text>)
    requires ModelOf(before, es, model)
    requires model' == if model.None? && NamesModel(e) then e.data else model
    ensures ModelOf(before, es + [e], model')
  {
    NeverSnoc(es, e, NamesModel);
    forall i: nat | before.None? && First(es + [e], NamesModel, i) ensures model' == (es + [e])[i].data {
      FirstSnoc(es, e, NamesModel, i);
    }
  }

  lemma VerdictStep(before: Option<Text>, es: seq<SseEvent>, verdict: Option<Text>, otherwise: Text, e: SseEvent,
                    verdict': Option<Text>)
    requires VerdictOf(before, es, verdict, otherwise)
    requires e.kind.ValidationError? ==> Shows(verdict', e, otherwise)
    requires e.kind.RepairStart? ==> verdict' == None
    requires !IsVerdict(e) ==> verdict' == verdict
    ensures VerdictOf(before, es + [e], verdict', otherwise)
  {
    NeverSnoc(es, e, IsVerdict);
    forall i: nat | Last(es + [e], IsVerdict, i)
      ensures if (es + [e])[i].kind.RepairStart? then verdict'.None? else Shows(verdict', (es + [e])[i], otherwise)
    {
      LastSnoc(es, e, IsVerdict, i);
    }
  }

  lemma ProgressStep(before: Option<Text>, es: seq<SseEvent>, progress: Option<Text>, e: SseEvent,
                     progress': Option<Text>)
    requires ProgressOf(before, es, progress)
    requires progress' == if IsRepair(e) then e.data else progress
    ensures ProgressOf(before, es + [e], progress')
  {
    NeverSnoc(es, e, IsRepair);
    forall i: nat | Last(es + [e], IsRepair, i) ensures progress' == (es + [e])[i].data {
      LastSnoc(es, e, IsRepair, i);
    }
  }

  lemma ValidatedStep(before: bool, es: seq<SseEvent>, validated: bool, e: SseEvent, validated': bool)
    requires ValidatedOf(before, es, validated)
    requires validated' == if IsFinal(e) then e.validated else validated
    ensures ValidatedOf(before, es + [e], validated')
  {
    NeverSnoc(es, e, IsFinal);
    forall i: nat | Last(es + [e], IsFinal, i) ensures validated' == (es + [e])[i].validated {
      LastSnoc(es, e, IsFinal, i);
    }
  }

  lemma DetailStep(v: View, es: seq<SseEvent>, detail: Option<ErrorDetail>, model: Option<Text>, e: SseEvent,
                   detail': Option<ErrorDetail>)
    requires DetailOf(v, es, detail) && ModelOf(v.metaModel, es, model)
    requires if IsError(e) then Details(detail', e, model) else detail' == detail
    ensures DetailOf(v, es + [e], detail')
  {
    var fs := es + [e];
    NeverSnoc(es, e, IsError);
    forall i: nat | Last(fs, IsError, i)
      ensures exists m :: ModelOf(v.metaModel, fs[..i], m) && Details(detail', fs[i], m)
    {
      LastSnoc(es, e, IsError, i);
      assert fs[..i] == es[..i] && es[..|es|] == es;
      if IsError(e) {
        assert ModelOf(v.metaModel, fs[..i], model) && Details(detail', fs[i], model);
      } else {
        var m :| ModelOf(v.metaModel, es[..i], m) && Details(detail, es[i], m);
        assert ModelOf(v.metaModel, fs[..i], m) && Details(detail', fs[i], m);
      }
    }
  }

  /** The effect of a single event, field by field. */
  lemma EventEffects(w: View, e: SseEvent)
    ensures var w' := Dispatched(w, e);
            && w'.content == (if Replaces(e) then Put(e) else w.content + Datum(e))
            && (if IsError(e) then Shows(w'.error, e, NO_MESSAGE) && Details(w'.errorDetail, e, w.metaModel)
                else w'.error == w.error && w'.errorDetail == w.errorDetail)
            && w'.metaModel == (if w.metaModel.None? && NamesModel(e) then e.data else w.metaModel)
            && (e.kind.ValidationError? ==> Shows(w'.validationError, e, NO_VERDICT))
            && (e.kind.RepairStart? ==> w'.validationError == None)
            && (!IsVerdict(e) ==> w'.validationError == w.validationError)
            && w'.repairProgress == (if IsRepair(e) then e.data else w.repairProgress)
            && w'.validated == (if IsFinal(e) then e.validated else w.validated)
  {
  }

  lemma ExplainedStep(v: View, es: seq<SseEvent>, w: View, e: SseEvent)
    requires Explained(v, es, w)
    ensures Explained(v, es + [e], Dispatched(w, e))
  {
    var w' := Dispatched(w, e);
    EventEffects(w, e);
    ContentStep(v.content, es, w.content, e, w'.content);
    ErrorStep(v.error, es, w.error, NO_MESSAGE, e, w'.error);
    DetailStep(v, es, w.errorDetail, w.metaModel, e, w'.errorDetail);
    ModelStep(v.metaModel, es, w.metaModel, e, w'.metaModel);
    VerdictStep(v.validationError, es, w.validationError, NO_VERDICT, e, w'.validationError);
    ProgressStep(v.repairProgress, es, w.repairProgress, e, w'.repairProgress);
    ValidatedStep(v.validated, es, w.validated, e, w'.validated);
  }

  // ---------------------------------------------------------------- whole streams

  lemma NothingYet(v: View)
    ensures Explained(v, [], v)
  {
    assert DeltaData([]) == [];
  }

  /** After any frames each field is what its events say. */
  lemma {:induction false} FramesExplained(parse: Text -> Option<SseEvent>, v: View, frames: seq<Text>)
    ensures Explained(v, Events(parse, frames), AfterFrames(parse, v, frames))
    decreases |frames|
  {
    if frames == [] {
      NothingYet(v);
    } else {
      var init, last := frames[..|frames| - 1], frames[|frames| - 1];
      assert frames == init + [last];
      AfterFramesConcat(parse, v, init, [last]);
      AfterOneFrame(parse, AfterFrames(parse, v, init), last);
      FramesExplained(parse, v, init);
      if parse(last).Some? {
        ExplainedStep(v, Events(parse, init), AfterFrames(parse, v, init), parse(last).value);
      } else {
        assert Events(parse, frames) == Events(parse, init);
      }
    }
  }

  lemma CompletedIsApart(v: View, es: seq<SseEvent>, w: View, completed: bool)
    requires Explained(v, es, w)
    ensures Explained(v, es, w.(completed := completed))
  {
  }

  /** The end of a stream adds its last frame, if that is not blank. */
  lemma EndExplained(parse: Text -> Option<SseEvent>, v: View, init: seq<Text>, last: Text, staleCompleted: bool)
    ensures Explained(v, Events(parse, if IsBlank(last) then init else init + [last]),
                      AtEnd(parse, AfterFrames(parse, v, init), last, staleCompleted))
  {
    var frames := if IsBlank(last) then init else init + [last];
    FramesExplained(parse, v, frames);
    AfterFramesConcat(parse, v, init, [last]);
    CompletedIsApart(v, Events(parse, frames), AfterFrames(parse, v, frames), true);
  }

  /**
   * What a whole stream shows: the last content put and the deltas since, the last error, the first model, the last
   * verdict no repair took away, the last repair's progress, and the last final's mark.
   */
  lemma StreamExplained(parse: Text -> Option<SseEvent>, text: Text, staleCompleted: bool)
    ensures Explained(BLANK_VIEW, Events(parse, Frames(text)), AfterStream(parse, text, staleCompleted))
  {
    var pieces := Split(text);
    var init, last := pieces[..|pieces| - 1], pieces[|pieces| - 1];
    assert pieces == init + [last];
    EndExplained(parse, BLANK_VIEW, init, last, staleCompleted);
  }

  // ---------------------------------------------------------------- frames of a text

  /** The four ways to write a blank line: two line ends, each LF or CR LF. */
  const BLANK_LINES: set<Text> := {[10, 10], [10, 13, 10], [13, 10, 10], [13, 10, 13, 10]}

  predicate BlankLineAt(t: Text, i: nat)
    requires i <= |t|
  {
    exists sep :: sep in BLANK_LINES && sep <= t[i..]
  }

  /** No blank line starts in `t` before `q`. */
  predicate NoneBefore(t: Text, q: nat)
    requires q <= |t|
  {
    forall i :: 0 <= i < q ==> !BlankLineAt(t, i)
  }

  /** `t` starts with `p`, and then comes `sep`, the first blank line there is. */
  predicate FirstCut(t: Text, p: Text, sep: Text) { sep in BLANK_LINES && p + sep <= t && NoneBefore(t, |p|) }

  predicate NoCut(t: Text) { NoneBefore(t, |t|) }

  /** `t` falls into pieces, each with what `first` finds behind it, and a last one in which `last` finds nothing. */
  predicate FallsInto(first: (Text, Text, Text) -> bool, last: Text -> bool, t: Text, pieces: seq<Text>,
                      seps: seq<Text>)
    decreases |seps|
  {
    if seps == [] then pieces == [t] && last(t)
    else
      && pieces != [] && first(t, pieces[0], seps[0]) && |pieces[0]| + |seps[0]| <= |t|
      && FallsInto(first, last, t[|pieces[0]| + |seps[0]|..], pieces[1..], seps[1..])
  }

  lemma FallsIntoCons(first: (Text, Text, Text) -> bool, last: Text -> bool, t: Text, p: Text, sep: Text,
                      ps: seq<Text>, ss: seq<Text>)
    requires first(t, p, sep) && |p| + |sep| <= |t| && FallsInto(first, last, t[|p| + |sep|..], ps, ss)
    ensures FallsInto(first, last, t, [p] + ps, [sep] + ss)
  {
    assert ([p] + ps)[1..] == ps && ([sep] + ss)[1..] == ss;
  }

  lemma BlankLineIsLiteral(t: Text, i: nat)
    requires i <= |t|
    ensures BlankLine(t, i).Some? ==> t[i..BlankLine(t, i).value] in BLANK_LINES
    ensures BlankLine(t, i).Some? <==> BlankLineAt(t, i)
  {
    var u := t[i..];
    if BlankLine(t, i).Some? {
      var sep := t[i..BlankLine(t, i).value];
      assert sep == [10, 10] || sep == [10, 13, 10] || sep == [13, 10, 10] || sep == [13, 10, 13, 10];
    }
    if sep :| sep in BLANK_LINES && sep <= u {
      assert forall k :: 0 <= k < |sep| ==> t[i + k] == u[k] == sep[k];
    }
  }

  lemma NoneFound(t: Text, q: nat)
    requires q <= |t| && forall k :: 0 <= k < q ==> BlankLine(t, k).None?
    ensures NoneBefore(t, q)
  {
    forall i | 0 <= i < q ensures !BlankLineAt(t, i) {
      BlankLineIsLiteral(t, i);
    }
  }

  lemma FoundIsFirstCut(t: Text, q: nat, e: nat)
    requires q <= |t| && BlankLine(t, q) == Some(e) && forall k :: 0 <= k < q ==> BlankLine(t, k).None?
    ensures FirstCut(t, t[..q], t[q..e])
  {
    NoneFound(t, q);
    BlankLineIsLiteral(t, q);
    assert t[..q] + t[q..e] == t[..e];
  }

  /** The frames of a text, with the blank lines between them, are the text cut at each first blank line. */
  lemma {:induction false} SplitCutsAtBlankLines(t: Text) returns (seps: seq<Text>)
    ensures FallsInto(FirstCut, NoCut, t, Split(t), seps)
    decreases |t|
  {
    var found := FindSeparator(t, 0);
    if found.None? {
      seps := [];
      NoneFound(t, |t|);
    } else {
      var q, e := found.value, BlankLine(t, found.value).value;
      var rest := SplitCutsAtBlankLines(t[e..]);
      seps := [t[q..e]] + rest;
      FoundIsFirstCut(t, q, e);
      FallsIntoCons(FirstCut, NoCut, t, t[..q], t[q..e], Split(t[e..]), rest);
    }
  }

  // ---------------------------------------------------------------- there is one such cut

  /** `first` finds at most one cut, and none where `last` holds. */
  ghost predicate Decided(first: (Text, Text, Text) -> bool, last: Text -> bool) {
    && (forall t, p, s, p', s' :: first(t, p, s) && first(t, p', s') ==> p == p' && s == s')
    && (forall t, p, s :: first(t, p, s) ==> !last(t))
  }

  lemma SameHeads<T>(s: seq<T>, t: seq<T>)
    requires s != [] && t != [] && s[0] == t[0] && s[1..] == t[1..]
    ensures s == t
  {
    assert s == [s[0]] + s[1..] && t == [t[0]] + t[1..];
  }

  lemma {:induction false} FallsOneWay(first: (Text, Text, Text) -> bool, last: Text -> bool, t: Text,
                                       ps: seq<Text>, ss: seq<Text>, qs: seq<Text>, rs: seq<Text>)
    requires Decided(first, last) && FallsInto(first, last, t, ps, ss) && FallsInto(first, last, t, qs, rs)
    ensures ps == qs && ss == rs
    decreases |ss|
  {
    if ss != [] && rs != [] {
      assert ps[0] == qs[0] && ss[0] == rs[0];
      FallsOneWay(first, last, t[|ps[0]| + |ss[0]|..], ps[1..], ss[1..], qs[1..], rs[1..]);
      SameHeads(ps, qs);
      SameHeads(ss, rs);
    }
  }

  lemma SepAt(t: Text, p: Text, sep: Text)
    requires p + sep <= t && sep in BLANK_LINES
    ensures sep <= t[|p|..] && |p| < |t| && p == t[..|p|] && BlankLineAt(t, |p|)
  {
    assert (p + sep)[|p|..] == sep && t[..|p + sep|] == p + sep;
    assert t[|p|..][..|sep|] == sep;
  }

  lemma BlankLinesPrefixFree(u: Text, a: Text, b: Text)
    requires a in BLANK_LINES && b in BLANK_LINES && a <= u && b <= u
    ensures a == b
  {
    assert a[0] == u[0] == b[0] && a[1] == u[1] == b[1];
    assert |a| > 2 ==> a[2] == u[2];
    assert |b| > 2 ==> b[2] == u[2];
  }

  lemma SameFirstCut(t: Text, p: Text, sep: Text, p': Text, sep': Text)
    requires FirstCut(t, p, sep) && FirstCut(t, p', sep')
    ensures p == p' && sep == sep'
  {
    SepAt(t, p, sep);
    SepAt(t, p', sep');
    assert |p| == |p'|;
    BlankLinesPrefixFree(t[|p|..], sep, sep');
  }

  /** No other pieces fit the text: the frames are the only way to cut it at each first blank line. */
  lemma FramesAreTheOnlyCut(t: Text, pieces: seq<Text>, seps: seq<Text>)
    requires FallsInto(FirstCut, NoCut, t, pieces, seps)
    ensures pieces == Split(t)
  {
    var seps' := SplitCutsAtBlankLines(t);
    forall t, p, s, p', s' | FirstCut(t, p, s) && FirstCut(t, p', s') ensures p == p' && s == s' {
      SameFirstCut(t, p, s, p', s');
    }
    forall t, p, s | FirstCut(t, p, s) ensures !NoCut(t) {
      SepAt(t, p, s);
    }
    FallsOneWay(FirstCut, NoCut, t, pieces, seps, Split(t), seps');
  }
}
