/**
 * The SSE reader of src/hooks/useSSEStream.ts: frames are cut at blank lines (`/\r?\n\r?\n/`, section
 * 9.2.5 of the WHATWG HTML standard restricted to LF and CRLF) and drive the visible state.
 * Frame parsing (src/lib/sse-frame.ts) is a parameter.
 */
module SseStream {
  import opened Outcomes
  import opened JsText
  import opened Framing

  // ---------------------------------------------------------------- splitting

  const CR: Unit := 0x0D
  const LF: Unit := 0x0A

  /** Where a line end `\r?\n` that starts at `i` stops. */
  function LineEnd(t: Text, i: nat): Option<nat> {
    if i < |t| && t[i] == LF then Some(i + 1)
    else if i + 1 < |t| && t[i] == CR && t[i + 1] == LF then Some(i + 2)
    else None
  }

  /** Where a separator `\r?\n\r?\n` that starts at `i` stops. */
  function BlankLine(t: Text, i: nat): (r: Option<nat>)
    ensures r.Some? ==> i + 2 <= r.value <= |t| && r.value <= i + 4
  {
    if LineEnd(t, i).Some? then LineEnd(t, LineEnd(t, i).value) else None
  }

  /** The leftmost separator from `i` on. */
  function FindSeparator(t: Text, i: nat): (r: Option<nat>)
    ensures r.Some? ==>
        i <= r.value && BlankLine(t, r.value).Some? && forall k :: i <= k < r.value ==> BlankLine(t, k).None?
    ensures r.None? ==> forall k :: i <= k ==> BlankLine(t, k).None?
    decreases |t| - i
  {
    if i >= |t| then None
    else if BlankLine(t, i).Some? then Some(i)
    else FindSeparator(t, i + 1)
  }

  /** `t.split(/\r?\n\r?\n/)`. */
  function Split(t: Text): (pieces: seq<Text>)
    ensures pieces != []
    decreases |t|
  {
    var q := FindSeparator(t, 0);
    if q.None? then [t] else [t[..q.value]] + Split(t[BlankLine(t, q.value).value..])
  }

  /** One frame off the front of the buffer. */
  function CutEvent(b: Text): Cut {
    var q := FindSeparator(b, 0);
    if q.None? then Wait else Cut(Some(b[..q.value]), b[BlankLine(b, q.value).value..])
  }

  lemma CutEventShrinks()
    ensures Shrinks(CutEvent)
  {
  }

  /** Popping the last piece of the split leaves what the cutting loop leaves. */
  lemma {:induction false} SplitIsDrain(t: Text)
    ensures Shrinks(CutEvent)
    ensures Split(t) == Drain(CutEvent, t).0 + [Drain(CutEvent, t).1]
    decreases |t|
  {
    CutEventShrinks();
    if CutEvent(t).Cut? {
      SplitIsDrain(CutEvent(t).rest);
    }
  }

  /** A separator starting inside `b` and reaching past its end leaves room for no separator within `b` after it. */
  lemma NoSeparatorBehindTornOne(b: Text, y: Text, p: nat, q: nat)
    requires p < q && BlankLine(b, q).Some?
    ensures BlankLine(b + y, p) == BlankLine(b, p)
  {
  }

  lemma CutEventAppend(b: Text, y: Text)
    requires CutEvent(b).Cut?
    ensures CutEvent(b + y) == Cut(CutEvent(b).out, CutEvent(b).rest + y)
  {
    var q := FindSeparator(b, 0).value;
    var e := BlankLine(b, q).value;
    assert BlankLine(b + y, q) == Some(e);
    forall p | 0 <= p < q ensures BlankLine(b + y, p).None? {
      NoSeparatorBehindTornOne(b, y, p, q);
    }
    assert FindSeparator(b + y, 0) == Some(q);
    assert (b + y)[..q] == b[..q];
    assert (b + y)[e..] == b[e..] + y;
  }

  lemma CutEventStable()
    ensures Stable(CutEvent)
  {
    forall b, y | CutEvent(b).Cut? ensures CutEvent(b + y) == Cut(CutEvent(b).out, CutEvent(b).rest + y) {
      CutEventAppend(b, y);
    }
  }

  // ---------------------------------------------------------------- events and visible state

  datatype EventType = Delta | ValidationError | RepairStart | Final | Error | UpstreamReached | Meta

  datatype SseEvent = SseEvent(
    kind: EventType, data: Option<Text>, error: Option<Text>, validated: bool,
    code: Option<Text>, message: Option<Text>)

  datatype ErrorDetail = ErrorDetail(code: Text, model: Option<Text>, providerMessage: Option<Text>)

  /** What the hook shows, and the model name remembered for error details. */
  datatype View = View(
    metaModel: Option<Text>, content: Text, error: Option<Text>, errorDetail: Option<ErrorDetail>,
    validationError: Option<Text>, completed: bool, validated: bool, repairProgress: Option<Text>)

  const BLANK_VIEW := View(None, [], None, None, None, false, false, None)

  /** A JavaScript string that is present and not empty. */
  predicate Truthy(t: Option<Text>) { t.Some? && t.value != [] }

  /** `a ?? b ?? c`. */
  function Coalesce(a: Option<Text>, b: Option<Text>, c: Text): Text {
    if a.Some? then a.value else if b.Some? then b.value else c
  }

  const VALIDATION_FAILED: Text := U("Validation failed")
  const UNKNOWN_ERROR: Text := U("Unknown error")

  /** The effect of one event on the view. */
  function Dispatched(v: View, e: SseEvent): View {
    match e.kind
    case Meta => if v.metaModel.None? && Truthy(e.data) then v.(metaModel := e.data) else v
    case Delta => if Truthy(e.data) then v.(content := v.content + e.data.value) else v
    case RepairStart => v.(content := [], validationError := None, repairProgress := e.data)
    case Final =>
      v.(content := if Truthy(e.data) then e.data.value else v.content, validated := e.validated, completed := true)
    case ValidationError => v.(validationError := Some(Coalesce(e.error, e.data, VALIDATION_FAILED)))
    case Error => v.(error := Some(Coalesce(e.error, e.data, UNKNOWN_ERROR)),
                     errorDetail := if Truthy(e.code) then Some(ErrorDetail(e.code.value, v.metaModel, e.message))
                                    else None)
    case UpstreamReached => v
  }

  /** The effect of a list of frames; a frame that parses to nothing is skipped. */
  function AfterFrames(parse: Text -> Option<SseEvent>, v: View, frames: seq<Text>): View
    decreases |frames|
  {
    if frames == [] then v
    else
      var e := parse(frames[0]);
      AfterFrames(parse, if e.Some? then Dispatched(v, e.value) else v, frames[1..])
  }

  /** The end of the stream: a last frame without a blank line is parsed, then the stream counts as complete. */
  function AtEnd(parse: Text -> Option<SseEvent>, v: View, leftover: Text, staleCompleted: bool): View {
    var v' := if IsBlank(leftover) then v else AfterFrames(parse, v, [leftover]);
    if staleCompleted then v' else v'.(completed := true)
  }

  /** The whole stream received as one text. */
  function AfterStream(parse: Text -> Option<SseEvent>, text: Text, staleCompleted: bool): View {
    var pieces := Split(text);
    AtEnd(parse, AfterFrames(parse, BLANK_VIEW, pieces[..|pieces| - 1]), pieces[|pieces| - 1], staleCompleted)
  }

  lemma AfterOneFrame(parse: Text -> Option<SseEvent>, v: View, frame: Text)
    ensures AfterFrames(parse, v, [frame]) == if parse(frame).Some? then Dispatched(v, parse(frame).value) else v
  {
    assert [frame][1..] == [];
  }

  lemma {:induction false} AfterFramesConcat(parse: Text -> Option<SseEvent>, v: View, fs: seq<Text>, gs: seq<Text>)
    ensures AfterFrames(parse, v, fs + gs) == AfterFrames(parse, AfterFrames(parse, v, fs), gs)
    decreases |fs|
  {
    if fs == [] {
      assert fs + gs == gs;
    } else {
      assert (fs + gs)[0] == fs[0] && (fs + gs)[1..] == fs[1..] + gs;
      var e := parse(fs[0]);
      AfterFramesConcat(parse, if e.Some? then Dispatched(v, e.value) else v, fs[1..], gs);
    }
  }

  // ---------------------------------------------------------------- the reader

  class SseReader {
    const parse: Text -> Option<SseEvent>
    var buffer: Text
    var metaModel: Option<Text>
    var content: Text
    var error: Option<Text>
    var errorDetail: Option<ErrorDetail>
    var validationError: Option<Text>
    var completed: bool
    var validated: bool
    var repairProgress: Option<Text>

    function Shown(): View
      reads this
    {
      View(metaModel, content, error, errorDetail, validationError, completed, validated, repairProgress)
    }

    constructor (parse: Text -> Option<SseEvent>)
      ensures this.parse == parse && buffer == [] && Shown() == BLANK_VIEW
    {
      this.parse := parse;
      buffer, content := [], [];
      metaModel, error, errorDetail, validationError, repairProgress := None, None, None, None, None;
      completed, validated := false, false;
    }

    method Dispatch(e: SseEvent)
      modifies this
      ensures Shown() == Dispatched(old(Shown()), e) && buffer == old(buffer)
    {
      match e.kind {
        case Meta =>
          if metaModel.None? && Truthy(e.data) { metaModel := e.data; }
        case Delta =>
          if Truthy(e.data) { content := content + e.data.value; }
        case RepairStart =>
          content := [];
          validationError := None;
          repairProgress := e.data;
        case Final =>
          if Truthy(e.data) { content := e.data.value; }
          validated := e.validated;
          completed := true;
        case ValidationError =>
          validationError := Some(Coalesce(e.error, e.data, VALIDATION_FAILED));
        case Error =>
          error := Some(Coalesce(e.error, e.data, UNKNOWN_ERROR));
          errorDetail := if Truthy(e.code) then Some(ErrorDetail(e.code.value, metaModel, e.message)) else None;
        case UpstreamReached =>
      }
    }

    /** One turn of the read loop. */
    method OnChunk(value: Text)
      modifies this
      ensures Shrinks(CutEvent)
      ensures var (frames, rest) := Drain(CutEvent, old(buffer) + value);
              buffer == rest && Shown() == AfterFrames(parse, old(Shown()), frames)
    {
      CutEventShrinks();
      buffer := buffer + value;
      SplitIsDrain(buffer);
      var frames := Split(buffer);
      buffer := frames[|frames| - 1];
      frames := frames[..|frames| - 1];
      for i := 0 to |frames|
        invariant Shown() == AfterFrames(parse, old(Shown()), frames[..i])
        invariant buffer == Drain(CutEvent, old(buffer) + value).1
      {
        AfterFramesConcat(parse, old(Shown()), frames[..i], [frames[i]]);
        assert frames[..i] + [frames[i]] == frames[..i + 1];
        var event := parse(frames[i]);
        if event.Some? { Dispatch(event.value); }
      }
      assert frames[..|frames|] == frames;
    }

    /** What follows the read loop; `staleCompleted` is the `completed` value of the render that made the callback. */
    method Finish(staleCompleted: bool)
      modifies this
      ensures Shown() == AtEnd(parse, old(Shown()), old(buffer), staleCompleted)
    {
      if !IsBlank(buffer) {
        AfterOneFrame(parse, Shown(), buffer);
        var event := parse(buffer);
        if event.Some? { Dispatch(event.value); }
      }
      if !staleCompleted { completed := true; }
    }

    /**
     * A whole stream: however the text is cut into chunks, the final state is that of the uncut text.
     */
    method ReadStream(chunks: seq<Text>, staleCompleted: bool)
      requires buffer == [] && Shown() == BLANK_VIEW
      modifies this
      ensures Shown() == AfterStream(parse, Flat(chunks), staleCompleted)
    {
      CutEventShrinks();
      CutEventStable();
      for i := 0 to |chunks|
        invariant var (frames, rest) := Feed(CutEvent, [], chunks[..i]);
                  buffer == rest && Shown() == AfterFrames(parse, BLANK_VIEW, frames)
      {
        FeedSnoc(CutEvent, [], chunks[..i], chunks[i]);
        assert chunks[..i] + [chunks[i]] == chunks[..i + 1];
        var before := Feed(CutEvent, [], chunks[..i]).0;
        AfterFramesConcat(parse, BLANK_VIEW, before, Drain(CutEvent, buffer + chunks[i]).0);
        OnChunk(chunks[i]);
      }
      assert chunks[..|chunks|] == chunks;
      FeedWholeText(chunks);
      Finish(staleCompleted);
    }
  }

  lemma FeedWholeText(chunks: seq<Text>)
    ensures Shrinks(CutEvent)
    ensures var (frames, rest) := Feed(CutEvent, [], chunks); Split(Flat(chunks)) == frames + [rest]
  {
    CutEventShrinks();
    CutEventStable();
    SplitIsDrain(Flat(chunks));
    if chunks != [] {
      ChunkingIrrelevant(CutEvent, [], chunks);
      assert [] + Flat(chunks) == Flat(chunks);
    }
  }

  /** Two ways of cutting one stream show the same frames and leave the same rest, delimiters cut in two included. */
  lemma SplittingIgnoresChunking(chunks: seq<Text>, chunks': seq<Text>)
    requires Flat(chunks) == Flat(chunks')
    ensures Shrinks(CutEvent) && Feed(CutEvent, [], chunks) == Feed(CutEvent, [], chunks')
  {
    FeedWholeText(chunks);
    FeedWholeText(chunks');
    var (f, r) := Feed(CutEvent, [], chunks);
    var (f', r') := Feed(CutEvent, [], chunks');
    assert f == (f + [r])[..|f|] && r == (f + [r])[|f|];
    assert |f + [r]| == |f' + [r']|;
    assert f' == (f' + [r'])[..|f'|] && r' == (f' + [r'])[|f'|];
  }

  // ---------------------------------------------------------------- when a stream counts as complete

  predicate HasFinal(parse: Text -> Option<SseEvent>, frames: seq<Text>) {
    exists i :: 0 <= i < |frames| && parse(frames[i]).Some? && parse(frames[i]).value.kind == Final
  }

  lemma {:induction false} CompletedIffFinal(parse: Text -> Option<SseEvent>, v: View, frames: seq<Text>)
    ensures AfterFrames(parse, v, frames).completed <==> v.completed || HasFinal(parse, frames)
    decreases |frames|
  {
    if frames != [] {
      var e := parse(frames[0]);
      CompletedIffFinal(parse, if e.Some? then Dispatched(v, e.value) else v, frames[1..]);
      assert frames == [frames[0]] + frames[1..];
    }
  }

  /**
   * A finished stream is shown as completed exactly when it held a `final` frame or the callback was
   * made by a render in which no earlier stream had completed: the closing `if (!completed)` reads a
   * stale value, so a second stream without a `final` frame stays incomplete.
   */
  lemma CompletedExactly(parse: Text -> Option<SseEvent>, text: Text, staleCompleted: bool)
    ensures var pieces := Split(text);
            var frames := if IsBlank(pieces[|pieces| - 1]) then pieces[..|pieces| - 1] else pieces;
            AfterStream(parse, text, staleCompleted).completed <==> !staleCompleted || HasFinal(parse, frames)
  {
    var pieces := Split(text);
    var init, last := pieces[..|pieces| - 1], pieces[|pieces| - 1];
    CompletedIffFinal(parse, BLANK_VIEW, init);
    CompletedIffFinal(parse, BLANK_VIEW, pieces);
    assert pieces == init + [last];
    AfterFramesConcat(parse, BLANK_VIEW, init, [last]);
  }
}
