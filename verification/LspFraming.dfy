/**
 * The LSP proxy's framing (server.ts): the `Content-Length` encoder towards the language server and
 * the incremental decoder of its output (header part of the LSP 3.17 Base Protocol).
 */
module LspFraming {
  import opened Outcomes
  import opened JsText
  import opened Framing

  const HEADER_END: Text := [0x0D, 0x0A, 0x0D, 0x0A]
  const LENGTH_FIELD: Text := U("Content-Length: ")

  // ---------------------------------------------------------------- the header pattern /Content-Length: (\d+)/i

  function FoldCase(u: Unit): Unit { if 0x41 <= u <= 0x5A then u + 0x20 else u }

  /** The pattern matches at position `p`: the field name in any case, then a digit. */
  predicate FieldAt(header: Text, p: nat) {
    && p + |LENGTH_FIELD| < |header|
    && (forall i :: 0 <= i < |LENGTH_FIELD| ==> FoldCase(header[p + i]) == FoldCase(LENGTH_FIELD[i]))
    && IsDigit(header[p + |LENGTH_FIELD|])
  }

  /** The captured length of the leftmost match from `p` on; the run of digits is taken whole. */
  function ContentLength(header: Text, p: nat): Option<nat>
    decreases |header| - p
  {
    if p >= |header| then None
    else if FieldAt(header, p) then
      var digits := header[p + |LENGTH_FIELD|..];
      Some(ReadDecimal(digits[..DigitRun(digits)]))
    else ContentLength(header, p + 1)
  }

  // ---------------------------------------------------------------- the decoder

  /** Cutting behind a header that ends at `h` and announces `length`. */
  function CutBody(b: Text, h: nat, length: Option<nat>): Cut
    requires h + 4 <= |b|
  {
    var start := h + 4;
    if length.None? then Cut(None, b[start..])
    else
      var end := start + length.value;
      if |b| < end then Wait else Cut(Some(b[start..end]), b[end..])
  }

  /** One turn of the decoding loop. */
  function CutFrame(b: Text): Cut {
    var headerEnd := IndexFrom(b, HEADER_END, 0);
    if headerEnd.None? then Wait
    else CutBody(b, headerEnd.value, ContentLength(b[..headerEnd.value], 0))
  }

  lemma CutFrameShrinks()
    ensures Shrinks(CutFrame)
  {
  }

  lemma CutBodyAppend(b: Text, y: Text, h: nat, length: Option<nat>)
    requires h + 4 <= |b| && CutBody(b, h, length).Cut?
    ensures CutBody(b + y, h, length) == Cut(CutBody(b, h, length).out, CutBody(b, h, length).rest + y)
  {
    var start := h + 4;
    assert (b + y)[start..] == b[start..] + y;
    if length.Some? {
      var end := start + length.value;
      assert (b + y)[start..end] == b[start..end];
      assert (b + y)[end..] == b[end..] + y;
    }
  }

  lemma CutFrameAppend(b: Text, y: Text)
    requires CutFrame(b).Cut?
    ensures CutFrame(b + y) == Cut(CutFrame(b).out, CutFrame(b).rest + y)
  {
    IndexStable(b, y, HEADER_END);
    var h := IndexFrom(b, HEADER_END, 0).value;
    assert (b + y)[..h] == b[..h];
    CutBodyAppend(b, y, h, ContentLength(b[..h], 0));
  }

  lemma CutFrameStable()
    ensures Stable(CutFrame)
  {
    forall b, y | CutFrame(b).Cut? ensures CutFrame(b + y) == Cut(CutFrame(b).out, CutFrame(b).rest + y) {
      CutFrameAppend(b, y);
    }
  }

  /** The stdout side of one connection. */
  class FrameDecoder {
    var buffer: Text

    constructor ()
      ensures buffer == []
    {
      buffer := [];
    }

    /** The `data` handler. `open` says whether the WebSocket can still send. */
    method OnData(data: Text, open: bool) returns (sent: seq<Text>)
      modifies this
      ensures Shrinks(CutFrame)
      ensures var (ms, rest) := Drain(CutFrame, old(buffer) + data);
              buffer == rest && sent == if open then ms else []
    {
      CutFrameShrinks();
      buffer := buffer + data;
      sent := [];
      ghost var all := buffer;
      ghost var decoded := [];
      DrainStart(CutFrame, all);
      while true
        invariant Draining(CutFrame, all, decoded, buffer)
        invariant sent == if open then decoded else []
        decreases |buffer|
      {
        var headerEnd := IndexFrom(buffer, HEADER_END, 0);
        if headerEnd.None? { break; }
        var header := buffer[..headerEnd.value];
        var contentLength := ContentLength(header, 0);
        if contentLength.None? {
          DrainTurn(CutFrame, all, decoded, buffer, None, buffer[headerEnd.value + 4..]);
          buffer := buffer[headerEnd.value + 4..];
          continue;
        }
        var messageStart := headerEnd.value + 4;
        var messageEnd := messageStart + contentLength.value;
        if |buffer| < messageEnd { break; }
        assert CutFrame(buffer) == CutBody(buffer, headerEnd.value, contentLength);
        var message := buffer[messageStart..messageEnd];
        DrainTurn(CutFrame, all, decoded, buffer, Some(message), buffer[messageEnd..]);
        buffer := buffer[messageEnd..];
        decoded := decoded + [message];
        if open {
          sent := sent + [message];
        }
      }
      DrainEnd(CutFrame, all, decoded, buffer);
    }

    /**
     * A whole run of the handler, `open[i]` saying whether the WebSocket could send at chunk `i`: the final
     * buffer depends on the concatenated text only, and a message arrives exactly if the socket is open at
     * the chunk that completes it.
     */
    method OnChunks(chunks: seq<Text>, open: seq<bool>) returns (sent: seq<Text>)
      requires |open| == |chunks|
      modifies this
      ensures Shrinks(CutFrame)
      ensures chunks == [] ==> buffer == old(buffer)
      ensures chunks != [] ==> buffer == Drain(CutFrame, old(buffer) + Flat(chunks)).1
      ensures sent == Arrived(old(buffer), chunks, open)
      ensures Throughout(open) && chunks != [] ==> sent == Drain(CutFrame, old(buffer) + Flat(chunks)).0
    {
      CutFrameShrinks();
      CutFrameStable();
      sent := [];
      for i := 0 to |chunks|
        invariant buffer == Feed(CutFrame, old(buffer), chunks[..i]).1
        invariant sent == Arrived(old(buffer), chunks[..i], open[..i])
        invariant Throughout(open) ==> sent == Feed(CutFrame, old(buffer), chunks[..i]).0
      {
        ArrivedSnoc(old(buffer), chunks[..i], open[..i], chunks[i], open[i]);
        FeedSnoc(CutFrame, old(buffer), chunks[..i], chunks[i]);
        assert chunks[..i] + [chunks[i]] == chunks[..i + 1] && open[..i] + [open[i]] == open[..i + 1];
        var more := OnData(chunks[i], open[i]);
        sent := sent + more;
      }
      assert chunks[..|chunks|] == chunks && open[..|open|] == open;
      if chunks != [] {
        ChunkingIrrelevant(CutFrame, old(buffer), chunks);
      }
    }
  }

  predicate Throughout(open: seq<bool>) { forall i :: 0 <= i < |open| ==> open[i] }

  /** The messages completed by the last chunk: those of all chunks behind those of the chunks before it. */
  ghost function Completed(b: Text, chunks: seq<Text>): seq<Text>
    requires chunks != [] && Shrinks(CutFrame)
  {
    var before := Feed(CutFrame, b, chunks[..|chunks| - 1]).0;
    var all := Feed(CutFrame, b, chunks).0;
    if |before| <= |all| then all[|before|..] else []
  }

  /** The messages completed while the socket was open. */
  ghost function Arrived(b: Text, chunks: seq<Text>, open: seq<bool>): seq<Text>
    requires |open| == |chunks| && Shrinks(CutFrame)
    decreases |chunks|
  {
    if chunks == [] then []
    else
      var n := |chunks| - 1;
      Arrived(b, chunks[..n], open[..n]) + if open[n] then Completed(b, chunks) else []
  }

  lemma ArrivedSnoc(b: Text, chunks: seq<Text>, open: seq<bool>, chunk: Text, now: bool)
    requires |open| == |chunks| && Shrinks(CutFrame)
    ensures var (ns, _) := Drain(CutFrame, Feed(CutFrame, b, chunks).1 + chunk);
            Arrived(b, chunks + [chunk], open + [now]) == Arrived(b, chunks, open) + if now then ns else []
  {
    FeedSnoc(CutFrame, b, chunks, chunk);
    assert (chunks + [chunk])[..|chunks|] == chunks && (open + [now])[..|chunks|] == open;
    var ms := Feed(CutFrame, b, chunks).0;
    var ns := Drain(CutFrame, Feed(CutFrame, b, chunks).1 + chunk).0;
    assert (ms + ns)[|ms|..] == ns;
  }

  /** Feeding x then y leaves the same buffer and emits the same messages as feeding x + y, from any buffer. */
  lemma DecodingIgnoresChunking(b: Text, x: Text, y: Text)
    ensures Shrinks(CutFrame) && Feed(CutFrame, b, [x, y]) == Feed(CutFrame, b, [x + y])
  {
    CutFrameShrinks();
    CutFrameStable();
    ChunkingIrrelevant(CutFrame, b, [x, y]);
    ChunkingIrrelevant(CutFrame, b, [x + y]);
    assert Flat([x, y]) == x + y == Flat([x + y]) by {
      assert [x, y][1..] == [y] && [y][1..] == [] && [x + y][1..] == [];
    }
  }

  // ---------------------------------------------------------------- the encoder

  /** `Buffer.byteLength(m)`: the length of the UTF-8 form, a lone surrogate counting as U+FFFD. */
  function ByteLength(m: Text): nat {
    if m == [] then 0
    else if |m| >= 2 && IsLead(m[0]) && IsTrail(m[1]) then 4 + ByteLength(m[2..])
    else (if m[0] < 0x80 then 1 else if m[0] < 0x800 then 2 else 3) + ByteLength(m[1..])
  }

  predicate IsAscii(m: Text) { forall i :: 0 <= i < |m| ==> m[i] < 0x80 }

  /** UTF-8 bytes and UTF-16 units are equally many exactly for ASCII. */
  lemma {:induction false} ByteLengthAscii(m: Text)
    ensures ByteLength(m) >= |m|
    ensures ByteLength(m) == |m| <==> IsAscii(m)
  {
    if m == [] {
    } else if |m| >= 2 && IsLead(m[0]) && IsTrail(m[1]) {
      ByteLengthAscii(m[2..]);
    } else {
      ByteLengthAscii(m[1..]);
      assert m == [m[0]] + m[1..];
    }
  }

  function Header(n: nat): Text { LENGTH_FIELD + Decimal(n) }

  /** What the `message` handler writes to the language server. */
  function Encode(m: Text): Text { Header(ByteLength(m)) + HEADER_END + m }

  function EncodeAll(ms: seq<Text>): Text {
    if ms == [] then [] else Encode(ms[0]) + EncodeAll(ms[1..])
  }

  lemma HeaderIsRead(n: nat)
    ensures ContentLength(Header(n), 0) == Some(n)
  {
    var h, d := Header(n), Decimal(n);
    assert forall i :: 0 <= i < |LENGTH_FIELD| ==> h[i] == LENGTH_FIELD[i];
    assert h[|LENGTH_FIELD|..] == d;
    assert h[0 + |LENGTH_FIELD|] == d[0];
    assert FieldAt(h, 0);
    DigitRunStops(d, []);
    assert d + [] == d && d[..|d|] == d;
    DecimalRoundTrip(n);
  }

  lemma HeaderEnds(n: nat, body: Text)
    ensures IndexFrom(Header(n) + HEADER_END + body, HEADER_END, 0) == Some(|Header(n)|)
  {
    var h := Header(n);
    var b := h + HEADER_END + body;
    assert forall i :: 0 <= i < |LENGTH_FIELD| ==> LENGTH_FIELD[i] != 0x0D;
    assert b[|h|..|h| + 4] == HEADER_END;
    assert OccursAt(b, HEADER_END, |h|);
    forall k | 0 <= k < |h| ensures !OccursAt(b, HEADER_END, k) {
      assert b[k] == h[k] != 0x0D;
      assert b[k..k + 4][0] == b[k];
    }
  }

  lemma CutConcat(header: Text, sep: Text, body: Text, n: nat)
    requires |sep| == 4
    ensures (header + sep + body)[..|header|] == header
    ensures CutBody(header + sep + body, |header|, Some(n)) == if |body| < n then Wait
      else Cut(Some(body[..n]), body[n..])
  {
    var b := header + sep + body;
    if n <= |body| {
      var start := |header| + 4;
      var end := start + n;
      assert b[start..end] == body[..n];
      assert b[end..] == body[n..];
    }
  }

  /** The decoder takes as many code units as the encoder counted bytes. */
  lemma CutEncoded(m: Text, rest: Text)
    ensures var n := ByteLength(m);
            CutFrame(Encode(m) + rest) == if |m + rest| < n then Wait else Cut(Some((m + rest)[..n]), (m + rest)[n..])
  {
    var n := ByteLength(m);
    ConcatAssoc(Header(n) + HEADER_END, m, rest);
    HeaderEnds(n, m + rest);
    HeaderIsRead(n);
    CutConcat(Header(n), HEADER_END, m + rest, n);
  }

  lemma SameFirst(m: Text, ns: seq<Text>, ms: seq<Text>)
    requires ms != [] && ms[0] == m
    ensures [m] + ns == ms <==> ns == ms[1..]
  {
    assert ms == [m] + ms[1..];
    assert ([m] + ns)[1..] == ns;
  }

  /**
   * Encoded messages decode to themselves exactly when all of them are ASCII, bodies with blank lines
   * included: the encoder counts bytes and the decoder cuts code units.
   */
  lemma {:induction false} RoundTripIffAscii(ms: seq<Text>)
    ensures Shrinks(CutFrame)
    ensures Drain(CutFrame, EncodeAll(ms)) == (ms, []) <==> forall i :: 0 <= i < |ms| ==> IsAscii(ms[i])
  {
    CutFrameShrinks();
    if ms == [] {
      assert CutFrame([]) == Wait;
    } else {
      var m, rest := ms[0], EncodeAll(ms[1..]);
      var n := ByteLength(m);
      CutEncoded(m, rest);
      ByteLengthAscii(m);
      RoundTripIffAscii(ms[1..]);
      assert ms == [m] + ms[1..];
      if IsAscii(m) {
        assert (m + rest)[..n] == m && (m + rest)[n..] == rest;
        DrainCut(CutFrame, EncodeAll(ms), Cut(Some(m), rest));
        SameFirst(m, Drain(CutFrame, rest).0, ms);
      } else if |m + rest| >= n {
        var other, behind := (m + rest)[..n], (m + rest)[n..];
        DrainCut(CutFrame, EncodeAll(ms), Cut(Some(other), behind));
        assert ([other] + Drain(CutFrame, behind).0)[0] != m;
      }
    }
  }

  /** Any chunking of encoded ASCII messages decodes to exactly those messages and an empty buffer. */
  lemma ChunkedRoundTrip(ms: seq<Text>, chunks: seq<Text>)
    requires Flat(chunks) == EncodeAll(ms)
    ensures Shrinks(CutFrame)
    ensures Feed(CutFrame, [], chunks) == (ms, []) <==> forall i :: 0 <= i < |ms| ==> IsAscii(ms[i])
  {
    CutFrameShrinks();
    CutFrameStable();
    RoundTripIffAscii(ms);
    if chunks == [] {
      assert ms == [];
    } else {
      ChunkingIrrelevant(CutFrame, [], chunks);
      assert [] + Flat(chunks) == Flat(chunks);
    }
  }
}
