/**
 * A reader for JSON text without white space (RFC 8259), and what it gets back from the canonical
 * serialisation: the same value, every object with its keys in ascending order of code units.
 */
module JsonReader {
  import opened CanonicalJson
  import opened JsNumber
  import opened JsText
  import opened Outcomes
  import opened Sorting

  // ---------------------------------------------------------------- the order of keys

  /** `a` stands before `b` in a dictionary over code units: it is cut short, or smaller where they first differ. */
  ghost predicate Precedes(a: Text, b: Text) {
    a < b || exists n: nat :: FirstSmaller(a, b, n)
  }

  predicate FirstSmaller(a: Text, b: Text, n: nat) { n < |a| && n < |b| && a[..n] == b[..n] && a[n] < b[n] }

  lemma {:induction false} LeqPrecedes(a: Text, b: Text)
    requires TextLeq(a, b) && a != b
    ensures Precedes(a, b)
  {
    if a == [] {
      assert a < b;
    } else if a[0] < b[0] {
      assert FirstSmaller(a, b, 0);
    } else {
      assert a == [a[0]] + a[1..] && b == [b[0]] + b[1..];
      LeqPrecedes(a[1..], b[1..]);
      if a[1..] < b[1..] {
        assert a < b;
      } else {
        var n: nat :| FirstSmaller(a[1..], b[1..], n);
        assert a[..n + 1] == [a[0]] + a[1..][..n] && b[..n + 1] == [b[0]] + b[1..][..n];
        assert FirstSmaller(a, b, n + 1);
      }
    }
  }

  ghost predicate Ascending(ks: seq<Text>) { forall i, j :: 0 <= i < j < |ks| ==> Precedes(ks[i], ks[j]) }

  /** The keys of an object are written in dictionary order. */
  lemma KeysAscend(ms: seq<Member>)
    requires Distinct(Keys(ms))
    ensures Ascending(SortedKeys(ms))
  {
    var ks := SortedKeys(ms);
    TextLeqIsTotalOrder();
    SortSorts(TextLeq, Keys(ms));
    forall i, j | 0 <= i < j < |ks| ensures Precedes(ks[i], ks[j]) {
      TwiceInMultiset(ks, i, j);
      OccursOnce(Keys(ms), ks[i]);
      LeqPrecedes(ks[i], ks[j]);
    }
  }

  lemma TwiceInMultiset(ks: seq<Text>, i: nat, j: nat)
    requires i < j < |ks|
    ensures ks[i] == ks[j] ==> multiset(ks)[ks[i]] >= 2
  {
    assert ks == ks[..j] + ks[j..] && ks[i] in ks[..j] && ks[j] in ks[j..];
  }

  // ---------------------------------------------------------------- the reader

  predicate StartsWith(t: Text, w: Text) { |w| <= |t| && t[..|w|] == w }

  function NumeralRun(t: Text): (n: nat)
    ensures n <= |t|
  {
    if t == [] || !NumeralUnit(t[0]) then 0 else 1 + NumeralRun(t[1..])
  }

  function ReadDigits(t: Text, negative: bool): Option<Num> {
    var (ds, point) := Read(t);
    if Trimmed(ds) then Some(Finite(negative, ds, point)) else None
  }

  function ReadNumber(t: Text): Option<Num> {
    if t == [ZERO] then Some(Zero)
    else if t != [] && t[0] == MINUS then ReadDigits(t[1..], true)
    else ReadDigits(t, false)
  }

  function ReadNumberValue(t: Text): (r: Option<(Json, Text)>)
    ensures r.Some? ==> |r.value.1| < |t|
  {
    var n := NumeralRun(t);
    var x := ReadNumber(t[..n]);
    if n == 0 || x.None? then None else Some((Number(x.value), t[n..]))
  }

  lemma {:induction false} UnescapeShortens(t: Text)
    ensures |Unescape(t).1| <= |t|
    decreases |t|
  {
    if t != [] && t[0] != QUOTE {
      UnescapeShortens(t[ReadUnit(t).1..]);
    }
  }

  /** The value that a text starts with, and what follows it. */
  function ReadValue(t: Text): (r: Option<(Json, Text)>)
    ensures r.Some? ==> |r.value.1| < |t|
    decreases |t|, 2
  {
    if t == [] then None
    else if StartsWith(t, U("null")) then Some((Null, t[4..]))
    else if StartsWith(t, U("true")) then Some((Bool(true), t[4..]))
    else if StartsWith(t, U("false")) then Some((Bool(false), t[5..]))
    else if t[0] == QUOTE then
      UnescapeShortens(t[1..]);
      Some((Str(Unescape(t[1..]).0), Unescape(t[1..]).1))
    else if t[0] == 0x5B then
      if |t| > 1 && t[1] == 0x5D then Some((Array([]), t[2..]))
      else
        var items := ReadItems(t[1..]);
        if items.None? then None else Some((Array(items.value.0), items.value.1))
    else if t[0] == 0x7B then
      if |t| > 1 && t[1] == 0x7D then Some((Object([]), t[2..]))
      else
        var members := ReadMembers(t[1..]);
        if members.None? then None else Some((Object(members.value.0), members.value.1))
    else ReadNumberValue(t)
  }

  /** Values with commas between them, up to the closing bracket. */
  function ReadItems(t: Text): (r: Option<(seq<Json>, Text)>)
    ensures r.Some? ==> |r.value.1| < |t|
    decreases |t|, 3
  {
    var v := ReadValue(t);
    if v.None? || v.value.1 == [] then None
    else
      var (first, rest) := v.value;
      if rest[0] == 0x5D then Some(([first], rest[1..]))
      else if rest[0] == COMMA then
        var more := ReadItems(rest[1..]);
        if more.None? then None else Some(([first] + more.value.0, more.value.1))
      else None
  }

  /** A string, a colon and a value. */
  function ReadMember(t: Text): (r: Option<(Member, Text)>)
    ensures r.Some? ==> |r.value.1| < |t|
    decreases |t|, 3
  {
    if t == [] || t[0] != QUOTE then None
    else
      UnescapeShortens(t[1..]);
      var (key, rest) := Unescape(t[1..]);
      if rest == [] || rest[0] != COLON then None
      else
        var v := ReadValue(rest[1..]);
        if v.None? then None else Some((Member(key, v.value.0), v.value.1))
  }

  /** Members with commas between them, up to the closing brace. */
  function ReadMembers(t: Text): (r: Option<(seq<Member>, Text)>)
    ensures r.Some? ==> |r.value.1| < |t|
    decreases |t|, 4
  {
    var m := ReadMember(t);
    if m.None? || m.value.1 == [] then None
    else
      var (first, rest) := m.value;
      if rest[0] == 0x7D then Some(([first], rest[1..]))
      else if rest[0] == COMMA then
        var more := ReadMembers(rest[1..]);
        if more.None? then None else Some(([first] + more.value.0, more.value.1))
      else None
  }

  // ---------------------------------------------------------------- what is read back

  /** The value with the members of every object in the order of writing. */
  function Canonical(v: Json): Json
    decreases v, 0
  {
    match v
    case Array(items) => Array(CanonicalItems(items))
    case Object(ms) => Object(CanonicalMembers(ms, SortedKeys(ms)))
    case _ => v
  }

  function CanonicalItems(items: seq<Json>): seq<Json>
    decreases items, 0
  {
    if items == [] then [] else [Canonical(items[0])] + CanonicalItems(items[1..])
  }

  function CanonicalMembers(ms: seq<Member>, ks: seq<Text>): seq<Member>
    requires forall k :: k in ks ==> k in Keys(ms)
    decreases ms, |ks|
  {
    if ks == [] then [] else [Member(ks[0], Canonical(Get(ms, ks[0])))] + CanonicalMembers(ms, ks[1..])
  }

  lemma {:induction false} RunOfNumeral(a: Text, r: Text)
    requires AllNumeral(a) && StopsNumber(r)
    ensures NumeralRun(a + r) == |a|
  {
    if a == [] {
      assert a + r == r;
    } else {
      assert (a + r)[1..] == a[1..] + r;
      RunOfNumeral(a[1..], r);
    }
  }

  lemma NumberReadsBack(x: Num)
    ensures ReadNumber(Numeral(x)) == Some(x)
  {
    if x.Finite? {
      PrintHead(x.digits, x.point);
      ReadPrint(x.digits, x.point);
      if x.negative {
        assert Numeral(x)[1..] == Print(x.digits, x.point);
      }
    }
  }

  /** A text that starts with none of the three letters starts with none of the three words. */
  lemma WordsByHead(t: Text)
    requires t != [] && t[0] != 0x6E && t[0] != 0x74 && t[0] != 0x66
    ensures !StartsWith(t, U("null")) && !StartsWith(t, U("true")) && !StartsWith(t, U("false"))
  {
    assert |t| >= 4 ==> t[..4][0] == t[0];
    assert |t| >= 5 ==> t[..5][0] == t[0];
    assert U("null")[0] == 0x6E && U("true")[0] == 0x74 && U("false")[0] == 0x66;
  }

  lemma NumeralTaken(a: Text, x: Num, r: Text)
    requires a != [] && AllNumeral(a) && StopsNumber(r) && ReadNumber(a) == Some(x)
    ensures ReadNumberValue(a + r) == Some((Number(x), r))
  {
    RunOfNumeral(a, r);
    assert (a + r)[..|a|] == a && (a + r)[|a|..] == r;
  }

  /** A text that starts like a number is read as one. */
  lemma NumberIsReached(t: Text)
    requires t != [] && (IsDigit(t[0]) || t[0] == MINUS)
    ensures ReadValue(t) == ReadNumberValue(t)
  {
    WordsByHead(t);
  }

  lemma NumberValueReadsBack(x: Num, r: Text)
    requires StopsNumber(r)
    ensures ReadValue(Numeral(x) + r) == Some((Number(x), r))
  {
    NumeralHead(x);
    NumberReadsBack(x);
    NumeralTaken(Numeral(x), x, r);
    assert (Numeral(x) + r)[0] == Numeral(x)[0];
    NumberIsReached(Numeral(x) + r);
  }

  lemma WordReadsBack(w: Text, r: Text)
    ensures StartsWith(w + r, w) && (w + r)[|w|..] == r
  {
  }

  lemma ConstantsReadBack(r: Text)
    ensures ReadValue(U("null") + r) == Some((Null, r))
    ensures ReadValue(U("true") + r) == Some((Bool(true), r))
    ensures ReadValue(U("false") + r) == Some((Bool(false), r))
  {
    WordReadsBack(U("null"), r);
    WordReadsBack(U("true"), r);
    WordReadsBack(U("false"), r);
    assert (U("true") + r)[..4][0] != U("null")[0];
    assert (U("false") + r)[..4][0] != U("null")[0] && (U("false") + r)[..4][0] != U("true")[0];
  }

  lemma StringReadsBack(s: Text, r: Text)
    ensures ReadValue(Quote(s) + r) == Some((Str(s), r))
  {
    var t := Quote(s) + r;
    QuoteHead(s, r);
    UnescapeEscape(s, r);
    WordsByHead(t);
    assert t[1..] == Escape(s) + ([QUOTE] + r);
  }

  /** The head of a joined list: its first part, then a comma and the rest of the list, or the closing sign. */
  lemma JoinStep(ps: seq<Text>, close: Text)
    requires ps != []
    ensures |ps| == 1 ==> Join(ps) + close == ps[0] + close
    ensures |ps| > 1 ==> Join(ps) + close == ps[0] + ([COMMA] + (Join(ps[1..]) + close))
  {
    ConcatAssoc(ps[0], Tail(ps[1..]), close);
    if |ps| == 1 {
      assert Tail(ps[1..]) + close == close;
    } else {
      ConcatAssoc([COMMA], ps[1], Tail(ps[1..][1..]));
      assert ps[1..][0] == ps[1];
      ConcatAssoc([COMMA], Join(ps[1..]), close);
    }
  }

  lemma {:induction false} ItemsReadBack(items: seq<Json>, r: Text)
    requires items != [] && StringifyItems(items).Ok?
    ensures ReadItems(Join(StringifyItems(items).value) + ([0x5D] + r)) == Some((CanonicalItems(items), r))
    decreases items, 0
  {
    var ps := StringifyItems(items).value;
    var close := [0x5D] + r;
    JoinStep(ps, close);
    if |items| == 1 {
      ReadsBack(items[0], close);
      assert close[1..] == r;
      assert CanonicalItems(items) == [Canonical(items[0])];
    } else {
      assert ps[1..] == StringifyItems(items[1..]).value;
      var rest := [COMMA] + (Join(ps[1..]) + close);
      ReadsBack(items[0], rest);
      ItemsReadBack(items[1..], r);
      assert rest[1..] == Join(ps[1..]) + close;
    }
  }

  lemma {:induction false} MemberReadsBack(ms: seq<Member>, k: Text, r: Text)
    requires k in Keys(ms) && Stringify(Get(ms, k)).Ok? && StopsNumber(r)
    ensures ReadMember(MemberText(k, Stringify(Get(ms, k)).value) + r) == Some((Member(k, Canonical(Get(ms, k))), r))
    decreases ms, 0
  {
    var t := Stringify(Get(ms, k)).value;
    var rest := [COLON] + (t + r);
    MemberTextHead(k, t, r);
    QuoteHead(k, rest);
    UnescapeEscape(k, rest);
    assert (Quote(k) + rest)[1..] == Escape(k) + ([QUOTE] + rest);
    assert rest[1..] == t + r;
    ReadsBack(Get(ms, k), r);
  }

  lemma {:induction false} MembersReadBack(ms: seq<Member>, ks: seq<Text>, r: Text)
    requires ks != [] && (forall k :: k in ks ==> k in Keys(ms)) && StringifyMembers(ms, ks).Ok?
    ensures ReadMembers(Join(StringifyMembers(ms, ks).value) + ([0x7D] + r)) == Some((CanonicalMembers(ms, ks), r))
    decreases ms, 1, |ks|
  {
    var ps := StringifyMembers(ms, ks).value;
    var close := [0x7D] + r;
    JoinStep(ps, close);
    assert ps[0] == MemberText(ks[0], Stringify(Get(ms, ks[0])).value);
    if |ks| == 1 {
      MemberReadsBack(ms, ks[0], close);
      assert close[1..] == r;
      assert CanonicalMembers(ms, ks) == [Member(ks[0], Canonical(Get(ms, ks[0])))];
    } else {
      assert ps[1..] == StringifyMembers(ms, ks[1..]).value;
      var rest := [COMMA] + (Join(ps[1..]) + close);
      MemberReadsBack(ms, ks[0], rest);
      MembersReadBack(ms, ks[1..], r);
      assert rest[1..] == Join(ps[1..]) + close;
    }
  }

  lemma {:induction false} ArrayReadsBack(items: seq<Json>, r: Text)
    requires StringifyItems(items).Ok?
    ensures ReadValue(([0x5B] + Join(StringifyItems(items).value) + [0x5D]) + r)
         == Some((Array(CanonicalItems(items)), r))
    decreases items, 1
  {
    var ps := StringifyItems(items).value;
    var t := ([0x5B] + Join(ps) + [0x5D]) + r;
    BracketTail(0x5B, ps, 0x5D, r);
    WordsByHead(t);
    assert t[1..] == Join(ps) + ([0x5D] + r);
    if items == [] {
      assert Join(ps) + ([0x5D] + r) == [0x5D] + r;
      assert t[2..] == r;
    } else {
      ItemsReadBack(items, r);
      ItemParts(items);
      Head(items[0], []);
      FirstOfJoin(ps, [0x5D] + r);
      assert ps[0] + [] == ps[0];
      assert t[1] != 0x5D;
    }
  }

  lemma FirstOfJoin(ps: seq<Text>, close: Text)
    requires ps != [] && ps[0] != []
    ensures Join(ps) + close != [] && (Join(ps) + close)[0] == ps[0][0]
  {
  }

  lemma {:induction false} ObjectReadsBack(ms: seq<Member>, r: Text)
    requires StringifyMembers(ms, SortedKeys(ms)).Ok?
    ensures ReadValue(([0x7B] + Join(StringifyMembers(ms, SortedKeys(ms)).value) + [0x7D]) + r)
        == Some((Object(CanonicalMembers(ms, SortedKeys(ms))), r))
    decreases ms, 2
  {
    var ks := SortedKeys(ms);
    var ps := StringifyMembers(ms, ks).value;
    var t := ([0x7B] + Join(ps) + [0x7D]) + r;
    BracketTail(0x7B, ps, 0x7D, r);
    WordsByHead(t);
    assert t[1..] == Join(ps) + ([0x7D] + r);
    if ks == [] {
      assert Join(ps) + ([0x7D] + r) == [0x7D] + r;
      assert t[2..] == r;
    } else {
      MembersReadBack(ms, ks, r);
      MemberPartsOpen(ms, ks);
      FirstOfJoin(ps, [0x7D] + r);
      assert t[1] != 0x7D;
    }
  }

  /** Reading what was written gives the value back, with the members of its objects in the order of writing. */
  lemma {:induction false} ReadsBack(v: Json, r: Text)
    requires Stringify(v).Ok? && StopsNumber(r)
    ensures ReadValue(Stringify(v).value + r) == Some((Canonical(v), r))
    decreases v, 1
  {
    match v {
      case Null => ConstantsReadBack(r);
      case Bool(_) => ConstantsReadBack(r);
      case Number(x) => NumberValueReadsBack(x, r);
      case Str(s) => StringReadsBack(s, r);
      case Array(items) => ArrayReadsBack(items, r);
      case Object(ms) => ObjectReadsBack(ms, r);
    }
  }

  // ---------------------------------------------------------------- stated without the serialiser's parts

  /** Every object has its keys in ascending order, at every depth. */
  ghost predicate Ordered(v: Json) {
    match v
    case Array(items) => forall i :: 0 <= i < |items| ==> Ordered(items[i])
    case Object(ms) => Ascending(Keys(ms)) && forall i :: 0 <= i < |ms| ==> Ordered(ms[i].value)
    case _ => true
  }

  lemma {:induction false} CanonicalItemsAt(items: seq<Json>)
    ensures |CanonicalItems(items)| == |items|
    ensures forall i :: 0 <= i < |items| ==> CanonicalItems(items)[i] == Canonical(items[i])
  {
    if items != [] {
      CanonicalItemsAt(items[1..]);
      assert items == [items[0]] + items[1..];
    }
  }

  lemma {:induction false} CanonicalMembersAt(ms: seq<Member>, ks: seq<Text>)
    requires forall k :: k in ks ==> k in Keys(ms)
    ensures Keys(CanonicalMembers(ms, ks)) == ks
    ensures forall i :: 0 <= i < |ks| ==> CanonicalMembers(ms, ks)[i] == Member(ks[i], Canonical(Get(ms, ks[i])))
  {
    if ks != [] {
      CanonicalMembersAt(ms, ks[1..]);
      assert ks == [ks[0]] + ks[1..];
      assert Keys(CanonicalMembers(ms, ks)) == [ks[0]] + Keys(CanonicalMembers(ms, ks[1..]));
    }
  }

  lemma {:induction false} CanonicalIsOrdered(v: Json)
    requires Proper(v)
    ensures Ordered(Canonical(v)) && Meaning(Canonical(v)) == Meaning(v)
    decreases v, 1
  {
    match v {
      case Array(items) =>
        CanonicalItemsAt(items);
        forall i | 0 <= i < |items|
          ensures Ordered(Canonical(items[i])) && Meaning(Canonical(items[i])) == Meaning(items[i])
        {
          CanonicalIsOrdered(items[i]);
        }
      case Object(ms) => CanonicalObject(ms);
      case _ =>
    }
  }

  lemma {:induction false} CanonicalObject(ms: seq<Member>)
    requires Proper(Object(ms))
    ensures Ordered(Canonical(Object(ms))) && Meaning(Canonical(Object(ms))) == Meaning(Object(ms))
    decreases ms, 0
  {
    var ks := SortedKeys(ms);
    var cs := CanonicalMembers(ms, ks);
    CanonicalMembersAt(ms, ks);
    KeysAscend(ms);
    forall i | 0 <= i < |ks| ensures Ordered(cs[i].value) && Meaning(cs[i].value) == Meaning(Get(ms, ks[i])) {
      var j := IndexOfKey(ms, ks[i]);
      assert Get(ms, ks[i]) == ms[j].value;
      CanonicalIsOrdered(ms[j].value);
    }
    forall k | k in Keys(ms) ensures k in Keys(cs) && Meaning(Get(cs, k)) == Meaning(Get(ms, k)) {
      assert k in ks;
      var i := IndexOfKey(cs, k);
      assert ks[i] == k;
    }
    SameObjectMeaning(cs, ms);
  }

  /**
   * The canonical text is JSON: the reader gets from it a value that equals the serialised one with objects
   * read as finite maps, and meets the keys of every object in ascending order of code units.
   */
  lemma WrittenInOrder(v: Json, r: Text)
    requires Proper(v) && Hashable(v) && StopsNumber(r)
    ensures Stringify(v).Ok?
    ensures var read := ReadValue(Stringify(v).value + r);
            && read.Some? && read.value.1 == r
            && Meaning(read.value.0) == Meaning(v) && Ordered(read.value.0)
  {
    OkIffHashable(v);
    ReadsBack(v, r);
    CanonicalIsOrdered(v);
  }

  // ---------------------------------------------------------------- how strings are written

  /** The control characters with a letter of their own: backspace, tab, line feed, form feed, carriage return. */
  const LETTERS: seq<(Unit, char)> := [(8, 'b'), (9, 't'), (10, 'n'), (12, 'f'), (13, 'r')]

  /** A hexadecimal digit, the letters small. */
  predicate IsHexDigit(u: Unit) { '0' as int <= u <= '9' as int || 'a' as int <= u <= 'f' as int }

  /** Units that stand for themselves: no control character, quote, backslash or half of a pair. */
  predicate StandsForItself(u: Unit) { u >= 32 && u != '"' as int && u != '\\' as int && !(0xD800 <= u <= 0xDFFF) }

  /** A unit stands for itself, or is written with a backslash, as its own letter if it has one, else in hexadecimal. */
  lemma EscapesExactly(u: Unit)
    ensures StandsForItself(u) ==> EscapeUnit(u) == [u]
    ensures u == '"' as int || u == '\\' as int ==> EscapeUnit(u) == ['\\' as int, u]
    ensures forall i :: 0 <= i < |LETTERS| && u == LETTERS[i].0 ==> EscapeUnit(u) == ['\\' as int, LETTERS[i].1 as int]
    ensures !StandsForItself(u) && u != '"' as int && u != '\\' as int
            && (forall i :: 0 <= i < |LETTERS| ==> u != LETTERS[i].0)
      ==> && |EscapeUnit(u)| == 6 && EscapeUnit(u)[..2] == ['\\' as int, 'u' as int]
          && (forall i :: 2 <= i < 6 ==> IsHexDigit(EscapeUnit(u)[i]))
  {
    assert u in {8, 9, 10, 12, 13} ==> exists i :: 0 <= i < |LETTERS| && u == LETTERS[i].0 by {
      assert LETTERS[0].0 == 8 && LETTERS[1].0 == 9 && LETTERS[2].0 == 10 && LETTERS[3].0 == 12 && LETTERS[4].0 == 13;
    }
  }

  /** A text of such units is written between quotes as it is. */
  lemma {:induction false} PlainTextIsQuoted(t: Text)
    requires forall i :: 0 <= i < |t| ==> StandsForItself(t[i])
    ensures Escape(t) == t
  {
    if t != [] {
      PlainTextIsQuoted(t[1..]);
      assert t == [t[0]] + t[1..];
    }
  }
}
