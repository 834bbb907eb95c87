/**
 * What the decoder makes of a header and a body, and how many bytes a message has, stated on the text itself
 * (server.ts).
 */
module LspHeaders {
  import opened Outcomes
  import opened JsText
  import opened Framing
  import opened LspFraming

  // ---------------------------------------------------------------- the length field

  /** The units with Latin capitals made small. */
  function Lower(t: Text): (r: Text)
    ensures |r| == |t|
    ensures forall i :: 0 <= i < |t| ==> r[i] == if 0x41 <= t[i] <= 0x5A then t[i] + 32 else t[i]
  {
    seq<Unit>(|t|, i requires 0 <= i < |t| => if 0x41 <= t[i] <= 0x5A then t[i] + 32 else t[i])
  }

  const FIELD: Text := U("content-length: ")

  /** The field name in any case, then a digit. */
  predicate FieldStarts(header: Text, p: nat) {
    p + 16 < |header| && Lower(header[p..p + 16]) == FIELD && 0x30 <= header[p + 16] <= 0x39
  }

  lemma FoldedName()
    ensures |FIELD| == 16 && |LENGTH_FIELD| == 16
    ensures forall i :: 0 <= i < 16 ==> FIELD[i] == FoldCase(LENGTH_FIELD[i])
  {
  }

  lemma FieldExactly(header: Text, p: nat)
    ensures FieldAt(header, p) <==> FieldStarts(header, p)
  {
    FoldedName();
    if p + 16 < |header| {
      var name := header[p..p + 16];
      assert forall i :: 0 <= i < 16 ==> name[i] == header[p + i];
      if FieldAt(header, p) {
        forall i | 0 <= i < 16 ensures Lower(name)[i] == FIELD[i] {
          assert FoldCase(header[p + i]) == FoldCase(LENGTH_FIELD[i]);
        }
      }
      if FieldStarts(header, p) {
        forall i | 0 <= i < |LENGTH_FIELD| ensures FoldCase(header[p + i]) == FoldCase(LENGTH_FIELD[i]) {
          assert Lower(name)[i] == FIELD[i];
        }
      }
    }
  }

  /** The length is that of the first field, all its digits taken. */
  lemma {:induction false} LengthRead(header: Text, from: nat, p: nat, end: nat)
    requires from <= p && FieldStarts(header, p) && forall q: nat :: from <= q < p ==> !FieldStarts(header, q)
    requires p + 16 < end <= |header| && AllDigits(header[p + 16..end])
    requires end == |header| || !IsDigit(header[end])
    ensures ContentLength(header, from) == Some(ReadDecimal(header[p + 16..end]))
    decreases p - from
  {
    FoldedName();
    FieldExactly(header, from);
    if from < p {
      LengthRead(header, from + 1, p, end);
    } else {
      var digits, rest := header[p + 16..end], header[end..];
      assert header[p + 16..] == digits + rest;
      DigitRunStops(digits, rest);
      assert (digits + rest)[..|digits|] == digits;
    }
  }

  /** Without the field anywhere there is no length. */
  lemma {:induction false} NoLength(header: Text, from: nat)
    requires forall q: nat :: from <= q < |header| ==> !FieldStarts(header, q)
    ensures ContentLength(header, from) == None
    decreases |header| - from
  {
    if from < |header| {
      FieldExactly(header, from);
      NoLength(header, from + 1);
    }
  }

  // ---------------------------------------------------------------- one message

  predicate BlankLineAt(b: Text, i: nat) { i + 4 <= |b| && b[i..i + 4] == [13, 10, 13, 10] }

  /** The header ends at the first blank line. */
  ghost predicate HeaderEndsAt(b: Text, h: nat) {
    BlankLineAt(b, h) && forall i: nat :: i < h ==> !BlankLineAt(b, i)
  }

  lemma HeaderEndExactly(b: Text, h: nat)
    ensures HeaderEndsAt(b, h) <==> IndexFrom(b, HEADER_END, 0) == Some(h)
  {
    assert forall i: nat :: BlankLineAt(b, i) <==> OccursAt(b, HEADER_END, i);
  }

  /** A header without a length is thrown away. */
  lemma MalformedHeaderIsSkipped(b: Text, h: nat)
    requires HeaderEndsAt(b, h) && forall q: nat :: q < h ==> !FieldStarts(b[..h], q)
    ensures CutFrame(b) == Cut(None, b[h + 4..])
  {
    HeaderEndExactly(b, h);
    NoLength(b[..h], 0);
  }

  /** With a length the message is that many units behind the blank line, as soon as they are there. */
  lemma MessageFollowsHeader(b: Text, h: nat, p: nat, end: nat)
    requires HeaderEndsAt(b, h)
    requires FieldStarts(b[..h], p) && forall q: nat :: q < p ==> !FieldStarts(b[..h], q)
    requires p + 16 < end <= h && AllDigits(b[p + 16..end]) && !IsDigit(b[end])
    ensures var n := ReadDecimal(b[p + 16..end]);
            CutFrame(b) == if |b| < h + 4 + n then Wait else Cut(Some(b[h + 4..h + 4 + n]), b[h + 4 + n..])
  {
    HeaderEndExactly(b, h);
    assert b[..h][p + 16..end] == b[p + 16..end];
    assert end < h ==> b[..h][end] == b[end];
    LengthRead(b[..h], 0, p, end);
  }

  /** Without a blank line nothing is cut. */
  lemma HeaderIsAwaited(b: Text)
    requires forall i: nat :: !BlankLineAt(b, i)
    ensures CutFrame(b) == Wait
  {
    if IndexFrom(b, HEADER_END, 0).Some? {
      HeaderEndExactly(b, IndexFrom(b, HEADER_END, 0).value);
    }
  }

  // ---------------------------------------------------------------- bytes

  /** How many bytes UTF-8 needs for a unit on its own, a lone surrogate counting as U+FFFD. */
  lemma BytesOfUnit(u: Unit)
    ensures ByteLength([u]) == if u <= 0x7F then 1 else if u <= 0x7FF then 2 else 3
  {
    assert [u][1..] == [];
  }

  /** A surrogate pair is one character of four bytes. */
  lemma BytesOfPair(lead: Unit, trail: Unit)
    requires 0xD800 <= lead <= 0xDBFF && 0xDC00 <= trail <= 0xDFFF
    ensures ByteLength([lead, trail]) == 4
  {
    assert [lead, trail][2..] == [];
  }

  /** Bytes add up wherever a text is cut, except inside a pair. */
  lemma {:induction false} BytesConcat(a: Text, b: Text)
    requires a == [] || b == [] || !IsLead(a[|a| - 1]) || !IsTrail(b[0])
    ensures ByteLength(a + b) == ByteLength(a) + ByteLength(b)
    decreases |a|
  {
    if a == [] {
      assert a + b == b;
    } else if |a| >= 2 && IsLead(a[0]) && IsTrail(a[1]) {
      assert (a + b)[2..] == a[2..] + b;
      BytesConcat(a[2..], b);
    } else {
      assert (a + b)[1..] == a[1..] + b;
      BytesConcat(a[1..], b);
    }
  }
}
