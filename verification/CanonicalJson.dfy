/**
 * The canonical serialisation whose bytes are hashed for a decision record
 * (src/config/credit-risk-demo.ts). Its worth is that it is injective up to key order:
 * `PreimageExact` says which parts of a record the pre-image pins down.
 */
module CanonicalJson {
  import opened Outcomes
  import opened JsText
  import opened JsNumber
  import opened Sorting

  /**
   * The values `stableStringify` can be handed. An object lists its members in `Object.keys` order.
   * `NonFinite` is NaN or an infinity; `Unsupported` is undefined, a function, a symbol or a bigint.
   */
  datatype Json =
    | Null
    | Bool(b: bool)
    | Number(n: Num)
    | NonFinite
    | Str(s: Text)
    | Unsupported
    | Array(items: seq<Json>)
    | Object(members: seq<Member>)

  datatype Member = Member(key: Text, value: Json)

  datatype Error = NonFiniteNumber | UnsupportedType

  // ---------------------------------------------------------------- objects

  function Keys(ms: seq<Member>): (ks: seq<Text>)
    ensures |ks| == |ms| && forall i :: 0 <= i < |ms| ==> ks[i] == ms[i].key
  {
    seq(|ms|, i requires 0 <= i < |ms| => ms[i].key)
  }

  function IndexOfKey(ms: seq<Member>, k: Text): (i: nat)
    requires k in Keys(ms)
    ensures i < |ms| && ms[i].key == k
  {
    if ms[0].key == k then 0
    else
      assert Keys(ms) == [ms[0].key] + Keys(ms[1..]);
      1 + IndexOfKey(ms[1..], k)
  }

  /** `obj[k]`. */
  function Get(ms: seq<Member>, k: Text): (v: Json)
    requires k in Keys(ms)
  {
    ms[IndexOfKey(ms, k)].value
  }

  /** What the language guarantees of every object: one value per key, at every depth. */
  ghost predicate Proper(v: Json) {
    match v
    case Array(items) => forall i :: 0 <= i < |items| ==> Proper(items[i])
    case Object(ms) => Distinct(Keys(ms)) && forall i :: 0 <= i < |ms| ==> Proper(ms[i].value)
    case _ => true
  }

  // ---------------------------------------------------------------- order of keys

  /** The default order of `sort()`: lexicographic by code unit. */
  predicate TextLeq(a: Text, b: Text) {
    a == [] || (b != [] && (a[0] < b[0] || (a[0] == b[0] && TextLeq(a[1..], b[1..]))))
  }

  lemma {:induction false} TextLeqTotal(a: Text, b: Text)
    ensures TextLeq(a, b) || TextLeq(b, a)
    ensures TextLeq(a, b) && TextLeq(b, a) ==> a == b
  {
    if a != [] && b != [] {
      TextLeqTotal(a[1..], b[1..]);
      assert a == [a[0]] + a[1..] && b == [b[0]] + b[1..];
    }
  }

  lemma {:induction false} TextLeqTransitive(a: Text, b: Text, c: Text)
    requires TextLeq(a, b) && TextLeq(b, c)
    ensures TextLeq(a, c)
  {
    if a != [] && a[0] == b[0] == c[0] {
      TextLeqTransitive(a[1..], b[1..], c[1..]);
    }
  }

  lemma TextLeqIsTotalOrder()
    ensures TotalOrder(TextLeq)
  {
    forall a, b ensures (TextLeq(a, b) || TextLeq(b, a)) && (TextLeq(a, b) && TextLeq(b, a) ==> a == b) {
      TextLeqTotal(a, b);
    }
    forall a, b, c | TextLeq(a, b) && TextLeq(b, c) ensures TextLeq(a, c) {
      TextLeqTransitive(a, b, c);
    }
  }

  function SortedKeys(ms: seq<Member>): (ks: seq<Text>)
    ensures |ks| == |ms| && multiset(ks) == multiset(Keys(ms))
    ensures forall k :: k in ks <==> k in Keys(ms)
  {
    TextLeqIsTotalOrder();
    SortSorts(TextLeq, Keys(ms));
    var ks := Sort(TextLeq, Keys(ms));
    assert forall k :: k in ks <==> k in multiset(ks);
    assert forall k :: k in Keys(ms) <==> k in multiset(Keys(ms));
    ks
  }

  // ---------------------------------------------------------------- the serialiser

  function HexDigit(d: nat): Unit
    requires d < 16
  {
    if d < 10 then 0x30 + d else 0x61 + d - 10
  }

  function Hex4(u: Unit): Text {
    [HexDigit(u / 4096), HexDigit(u / 256 % 16), HexDigit(u / 16 % 16), HexDigit(u % 16)]
  }

  /** One code unit inside a JSON string (section 7 of RFC 8259; lone surrogates are escaped too). */
  function EscapeUnit(u: Unit): Text {
    if u == QUOTE || u == BACKSLASH then [BACKSLASH, u]
    else if u == 0x08 then [BACKSLASH, 0x62]
    else if u == 0x09 then [BACKSLASH, 0x74]
    else if u == 0x0A then [BACKSLASH, 0x6E]
    else if u == 0x0C then [BACKSLASH, 0x66]
    else if u == 0x0D then [BACKSLASH, 0x72]
    else if u < 0x20 || IsLead(u) || IsTrail(u) then [BACKSLASH, 0x75] + Hex4(u)
    else [u]
  }

  predicate StartsPair(s: Text) { |s| >= 2 && IsLead(s[0]) && IsTrail(s[1]) }

  function Escape(s: Text): Text {
    if s == [] then []
    else if StartsPair(s) then [s[0], s[1]] + Escape(s[2..])
    else EscapeUnit(s[0]) + Escape(s[1..])
  }

  /** `JSON.stringify` of a string. */
  function Quote(s: Text): Text { [QUOTE] + Escape(s) + [QUOTE] }

  const NULL_TEXT := U("null")
  const TRUE_TEXT := U("true")
  const FALSE_TEXT := U("false")

  /** What `join(',')` puts after the first part. */
  function Tail(parts: seq<Text>): Text {
    if parts == [] then [] else [COMMA] + parts[0] + Tail(parts[1..])
  }

  /** `parts.join(',')`. */
  function Join(parts: seq<Text>): Text {
    if parts == [] then [] else parts[0] + Tail(parts[1..])
  }

  function Stringify(v: Json): Result<Text, Error>
    decreases v, 0
  {
    match v
    case Null => Ok(NULL_TEXT)
    case Bool(b) => Ok(if b then TRUE_TEXT else FALSE_TEXT)
    case Number(n) => Ok(Numeral(n))
    case NonFinite => Err(NonFiniteNumber)
    case Str(s) => Ok(Quote(s))
    case Unsupported => Err(UnsupportedType)
    case Array(items) =>
      var parts :- StringifyItems(items);
      Ok([0x5B] + Join(parts) + [0x5D])
    case Object(ms) =>
      var parts :- StringifyMembers(ms, SortedKeys(ms));
      Ok([0x7B] + Join(parts) + [0x7D])
  }

  function StringifyItems(items: seq<Json>): (r: Result<seq<Text>, Error>)
    ensures r.Ok? ==> |r.value| == |items|
    decreases items, 0
  {
    if items == [] then Ok([])
    else
      var first :- Stringify(items[0]);
      var rest :- StringifyItems(items[1..]);
      Ok([first] + rest)
  }

  function StringifyMembers(ms: seq<Member>, ks: seq<Text>): (r: Result<seq<Text>, Error>)
    requires forall k :: k in ks ==> k in Keys(ms)
    ensures r.Ok? ==> |r.value| == |ks|
    decreases ms, |ks|
  {
    if ks == [] then Ok([])
    else
      var first :- Stringify(Get(ms, ks[0]));
      var rest :- StringifyMembers(ms, ks[1..]);
      Ok([Quote(ks[0]) + [COLON] + first] + rest)
  }

  // ---------------------------------------------------------------- strings decode

  function HexValue(u: Unit): nat {
    if 0x30 <= u <= 0x39 then u - 0x30 else if 0x61 <= u <= 0x66 then u - 0x61 + 10 else 0
  }

  /** The code unit that `t` starts with inside a JSON string, and how many units spell it. */
  function ReadUnit(t: Text): (Unit, nat)
    requires t != []
    ensures 0 < ReadUnit(t).1 <= |t|
  {
    if t[0] != BACKSLASH || |t| == 1 then (t[0], 1)
    else if t[1] == 0x75 && |t| >= 6 then (ReadHex4(t[2], t[3], t[4], t[5]), 6)
    else (Unabbreviate(t[1]), 2)
  }

  function ReadHex4(a: Unit, b: Unit, c: Unit, d: Unit): Unit {
    4096 * HexValue(a) + 256 * HexValue(b) + 16 * HexValue(c) + HexValue(d)
  }

  function Unabbreviate(u: Unit): Unit {
    if u == 0x62 then 0x08
    else if u == 0x74 then 0x09
    else if u == 0x6E then 0x0A
    else if u == 0x66 then 0x0C
    else if u == 0x72 then 0x0D
    else u
  }

  /** A reader for the inside of a JSON string: the string up to the closing quote, and what follows it. */
  function Unescape(t: Text): (Text, Text) {
    if t == [] then ([], [])
    else if t[0] == QUOTE then ([], t[1..])
    else
      var (u, n) := ReadUnit(t);
      var (s, r) := Unescape(t[n..]);
      ([u] + s, r)
  }

  lemma HexDigitRoundTrip(d: nat)
    requires d < 16
    ensures HexValue(HexDigit(d)) == d
  {
  }

  lemma FourHexDigits(u: Unit)
    ensures u == 4096 * (u / 4096) + 256 * (u / 256 % 16) + 16 * (u / 16 % 16) + u % 16
  {
    assert u / 256 == 16 * (u / 4096) + u / 256 % 16;
    assert u / 16 == 16 * (u / 256) + u / 16 % 16;
  }

  lemma Hex4RoundTrip(u: Unit)
    ensures var h := Hex4(u); ReadHex4(h[0], h[1], h[2], h[3]) == u
  {
    FourHexDigits(u);
    HexDigitRoundTrip(u / 4096);
    HexDigitRoundTrip(u / 256 % 16);
    HexDigitRoundTrip(u / 16 % 16);
    HexDigitRoundTrip(u % 16);
  }

  /** An escaped unit is read back whatever follows it, and never looks like a closing quote. */
  lemma ReadEscapedUnit(u: Unit, t: Text)
    ensures EscapeUnit(u) != [] && EscapeUnit(u)[0] != QUOTE
    ensures ReadUnit(EscapeUnit(u) + t) == (u, |EscapeUnit(u)|)
  {
    Hex4RoundTrip(u);
  }

  lemma UnescapeStep(e: Text, u: Unit, t: Text)
    requires e != [] && e[0] != QUOTE && ReadUnit(e + t) == (u, |e|)
    ensures Unescape(e + t) == ([u] + Unescape(t).0, Unescape(t).1)
  {
    assert (e + t)[|e|..] == t;
  }

  lemma EscapeHead(s: Text, q: Text)
    requires s != []
    ensures StartsPair(s) ==> Escape(s) + q == [s[0]] + ([s[1]] + (Escape(s[2..]) + q))
    ensures !StartsPair(s) ==> Escape(s) + q == EscapeUnit(s[0]) + (Escape(s[1..]) + q)
  {
    if StartsPair(s) {
      ConcatAssoc([s[0], s[1]], Escape(s[2..]), q);
      ConcatAssoc([s[0]], [s[1]], Escape(s[2..]) + q);
      assert [s[0]] + [s[1]] == [s[0], s[1]];
    } else {
      ConcatAssoc(EscapeUnit(s[0]), Escape(s[1..]), q);
    }
  }

  /** Reading what `Quote` wrote gives the string back, whatever text follows. */
  lemma {:induction false} UnescapeEscape(s: Text, r: Text)
    ensures Unescape(Escape(s) + ([QUOTE] + r)) == (s, r)
  {
    var q := [QUOTE] + r;
    if s == [] {
      assert Escape(s) + q == q && q[1..] == r;
    } else if StartsPair(s) {
      var t := Escape(s[2..]) + q;
      EscapeHead(s, q);
      UnescapeEscape(s[2..], r);
      UnescapeStep([s[1]], s[1], t);
      UnescapeStep([s[0]], s[0], [s[1]] + t);
      assert s == [s[0]] + ([s[1]] + s[2..]);
    } else {
      var t := Escape(s[1..]) + q;
      EscapeHead(s, q);
      UnescapeEscape(s[1..], r);
      ReadEscapedUnit(s[0], t);
      UnescapeStep(EscapeUnit(s[0]), s[0], t);
      assert s == [s[0]] + s[1..];
    }
  }

  lemma QuoteHead(s: Text, r: Text)
    ensures Quote(s) + r == [QUOTE] + (Escape(s) + ([QUOTE] + r))
  {
  }

  /** A quoted string ends where its closing quote stands. */
  lemma QuoteUnique(s: Text, t: Text, rs: Text, rt: Text)
    requires Quote(s) + rs == Quote(t) + rt
    ensures s == t && rs == rt
  {
    QuoteHead(s, rs);
    QuoteHead(t, rt);
    SameTail(QUOTE, Escape(s) + ([QUOTE] + rs), Escape(t) + ([QUOTE] + rt));
    UnescapeEscape(s, rs);
    UnescapeEscape(t, rt);
  }

  lemma SameTail(u: Unit, a: Text, b: Text)
    requires [u] + a == [u] + b
    ensures a == b
  {
    assert a == ([u] + a)[1..] && b == ([u] + b)[1..];
  }

  // ---------------------------------------------------------------- what a value means

  /** A JSON value with its objects read as finite maps: the reference notion of equality. */
  datatype Value =
    | VNull
    | VBool(b: bool)
    | VNumber(n: Num)
    | VNonFinite
    | VStr(s: Text)
    | VUnsupported
    | VArray(items: seq<Value>)
    | VObject(fields: map<Text, Value>)

  function Meaning(v: Json): Value {
    match v
    case Null => VNull
    case Bool(b) => VBool(b)
    case Number(n) => VNumber(n)
    case NonFinite => VNonFinite
    case Str(s) => VStr(s)
    case Unsupported => VUnsupported
    case Array(items) => VArray(seq(|items|, i requires 0 <= i < |items| => Meaning(items[i])))
    case Object(ms) => VObject(map k | k in Keys(ms) :: Meaning(Get(ms, k)))
  }

  lemma FieldsOf(ms: seq<Member>)
    ensures var fields := Meaning(Object(ms)).fields;
            && (forall k :: k in Keys(ms) <==> k in fields)
            && (forall k :: k in Keys(ms) ==> fields[k] == Meaning(Get(ms, k)))
  {
  }

  // ---------------------------------------------------------------- unique decodability

  /** The first code unit tells the kind of value apart. */
  lemma Head(v: Json, r: Text)
    requires Stringify(v).Ok?
    ensures Stringify(v).value != []
    ensures var u := (Stringify(v).value + r)[0];
            match v
            case Null => u == 0x6E
            case Bool(b) => u == if b then 0x74 else 0x66
            case Number(n) => if n.Finite? && n.negative then u == MINUS else IsDigit(u)
            case Str(_) => u == QUOTE
            case Array(_) => u == 0x5B
            case Object(_) => u == 0x7B
            case _ => false
  {
    if v.Number? { NumeralHead(v.n); }
  }

  lemma SameSuffix(a: Text, ra: Text, rb: Text)
    requires a + ra == a + rb
    ensures ra == rb
  {
    assert ra == (a + ra)[|a|..] && rb == (a + rb)[|a|..];
  }

  // Lists of parts: if any two parts can be told apart, so can the joined lists.

  ghost predicate Separable(p: Text, q: Text) {
    forall r, r' :: StopsNumber(r) && StopsNumber(r') && p + r == q + r' ==> p == q
  }

  ghost predicate SeparableParts(ps: seq<Text>, qs: seq<Text>) {
    forall i, j :: 0 <= i < |ps| && 0 <= j < |qs| ==> Separable(ps[i], qs[j])
  }

  /** No part starts with the closing bracket. */
  predicate Opens(ps: seq<Text>, close: Unit) {
    forall i :: 0 <= i < |ps| ==> ps[i] != [] && ps[i][0] != close
  }

  lemma TailHead(ps: seq<Text>, close: Unit, r: Text)
    requires !NumeralUnit(close)
    ensures ps == [] ==> Tail(ps) + ([close] + r) == [close] + r
    ensures ps != [] ==> Tail(ps) + ([close] + r) == [COMMA] + (ps[0] + (Tail(ps[1..]) + ([close] + r)))
    ensures StopsNumber(Tail(ps) + ([close] + r))
  {
    if ps != [] {
      ConcatAssoc([COMMA] + ps[0], Tail(ps[1..]), [close] + r);
      ConcatAssoc([COMMA], ps[0], Tail(ps[1..]) + ([close] + r));
    }
  }

  lemma {:induction false} TailUnique(ps: seq<Text>, qs: seq<Text>, close: Unit, ra: Text, rb: Text)
    requires SeparableParts(ps, qs) && close != COMMA && !NumeralUnit(close)
    requires Tail(ps) + ([close] + ra) == Tail(qs) + ([close] + rb)
    ensures ps == qs && ra == rb
    decreases |ps|, 1
  {
    TailHead(ps, close, ra);
    TailHead(qs, close, rb);
    if ps == [] {
      SameTail(close, ra, rb);
    } else {
      var ta, tb := Tail(ps[1..]) + ([close] + ra), Tail(qs[1..]) + ([close] + rb);
      SameTail(COMMA, ps[0] + ta, qs[0] + tb);
      PartUnique(ps, qs, close, ra, rb);
      assert ps == [ps[0]] + ps[1..] && qs == [qs[0]] + qs[1..];
    }
  }

  lemma {:induction false} PartUnique(ps: seq<Text>, qs: seq<Text>, close: Unit, ra: Text, rb: Text)
    requires SeparableParts(ps, qs) && close != COMMA && !NumeralUnit(close)
    requires ps != [] && qs != []
    requires ps[0] + (Tail(ps[1..]) + ([close] + ra)) == qs[0] + (Tail(qs[1..]) + ([close] + rb))
    ensures ps[0] == qs[0] && ps[1..] == qs[1..] && ra == rb
    decreases |ps|, 0
  {
    var ta, tb := Tail(ps[1..]) + ([close] + ra), Tail(qs[1..]) + ([close] + rb);
    TailHead(ps[1..], close, ra);
    TailHead(qs[1..], close, rb);
    assert Separable(ps[0], qs[0]);
    SameSuffix(ps[0], ta, tb);
    TailUnique(ps[1..], qs[1..], close, ra, rb);
  }

  lemma JoinHead(ps: seq<Text>, close: Unit, r: Text)
    requires Opens(ps, close)
    ensures ps == [] ==> Join(ps) + ([close] + r) == [close] + r
    ensures ps != [] ==> Join(ps) + ([close] + r) == ps[0] + (Tail(ps[1..]) + ([close] + r))
    ensures ps == [] <==> (Join(ps) + ([close] + r))[0] == close
  {
    if ps != [] {
      ConcatAssoc(ps[0], Tail(ps[1..]), [close] + r);
    }
  }

  lemma JoinUnique(ps: seq<Text>, qs: seq<Text>, close: Unit, ra: Text, rb: Text)
    requires SeparableParts(ps, qs) && close != COMMA && !NumeralUnit(close)
    requires Opens(ps, close) && Opens(qs, close)
    requires Join(ps) + ([close] + ra) == Join(qs) + ([close] + rb)
    ensures ps == qs && ra == rb
  {
    JoinHead(ps, close, ra);
    JoinHead(qs, close, rb);
    if ps != [] {
      PartUnique(ps, qs, close, ra, rb);
      assert ps == [ps[0]] + ps[1..] && qs == [qs[0]] + qs[1..];
    } else {
      SameTail(close, ra, rb);
    }
  }

  lemma BracketTail(open: Unit, ps: seq<Text>, close: Unit, r: Text)
    ensures ([open] + Join(ps) + [close]) + r == [open] + (Join(ps) + ([close] + r))
  {
    ConcatAssoc([open] + Join(ps), [close], r);
    ConcatAssoc([open], Join(ps), [close] + r);
  }

  lemma BracketsUnique(open: Unit, ps: seq<Text>, qs: seq<Text>, close: Unit, ra: Text, rb: Text)
    requires SeparableParts(ps, qs) && close != COMMA && !NumeralUnit(close)
    requires Opens(ps, close) && Opens(qs, close)
    requires ([open] + Join(ps) + [close]) + ra == ([open] + Join(qs) + [close]) + rb
    ensures ps == qs && ra == rb
  {
    BracketTail(open, ps, close, ra);
    BracketTail(open, qs, close, rb);
    SameTail(open, Join(ps) + ([close] + ra), Join(qs) + ([close] + rb));
    JoinUnique(ps, qs, close, ra, rb);
  }

  lemma {:induction false} ItemParts(items: seq<Json>)
    requires StringifyItems(items).Ok?
    ensures forall i :: 0 <= i < |items| ==>
              Stringify(items[i]).Ok? && StringifyItems(items).value[i] == Stringify(items[i]).value
  {
    if items != [] {
      var first, rest := Stringify(items[0]), StringifyItems(items[1..]);
      ItemParts(items[1..]);
      assert StringifyItems(items).value == [first.value] + rest.value;
      forall i | 0 <= i < |items|
        ensures Stringify(items[i]).Ok? && StringifyItems(items).value[i] == Stringify(items[i]).value
      {
        if i > 0 {
          assert items[i] == items[1..][i - 1];
        }
      }
    }
  }

  function MemberText(k: Text, t: Text): Text { Quote(k) + [COLON] + t }

  lemma {:induction false} MemberParts(ms: seq<Member>, ks: seq<Text>)
    requires forall k :: k in ks ==> k in Keys(ms)
    requires StringifyMembers(ms, ks).Ok?
    ensures forall i :: 0 <= i < |ks| ==>
              Stringify(Get(ms, ks[i])).Ok? &&
              StringifyMembers(ms, ks).value[i] == MemberText(ks[i], Stringify(Get(ms, ks[i])).value)
  {
    if ks != [] {
      MemberParts(ms, ks[1..]);
      assert ks == [ks[0]] + ks[1..];
    }
  }

  lemma MemberTextHead(k: Text, t: Text, r: Text)
    ensures MemberText(k, t) + r == Quote(k) + ([COLON] + (t + r))
    ensures MemberText(k, t)[0] == QUOTE
  {
    ConcatAssoc(Quote(k) + [COLON], t, r);
    ConcatAssoc(Quote(k), [COLON], t + r);
  }

  lemma MemberTextUnique(k: Text, t: Text, r: Text, k': Text, t': Text, r': Text)
    requires MemberText(k, t) + r == MemberText(k', t') + r'
    ensures k == k' && t + r == t' + r'
  {
    MemberTextHead(k, t, r);
    MemberTextHead(k', t', r');
    QuoteUnique(k, k', [COLON] + (t + r), [COLON] + (t' + r'));
    SameTail(COLON, t + r, t' + r');
  }

  /**
   * Canonical texts can be told apart inside any text that does not prolong a numeral: equal
   * concatenations come from values with one meaning, and leave the same remainder.
   */
  lemma {:induction false} Unique(a: Json, b: Json, ra: Text, rb: Text)
    requires Stringify(a).Ok? && Stringify(b).Ok?
    requires StopsNumber(ra) && StopsNumber(rb)
    requires Stringify(a).value + ra == Stringify(b).value + rb
    ensures Meaning(a) == Meaning(b) && ra == rb
    decreases a, 1
  {
    Head(a, ra);
    Head(b, rb);
    match a {
      case Null =>
        SameSuffix(NULL_TEXT, ra, rb);
      case Bool(x) =>
        SameSuffix(if x then TRUE_TEXT else FALSE_TEXT, ra, rb);
      case Number(m) =>
        NumeralUnique(m, b.n, ra, rb);
      case Str(s) =>
        QuoteUnique(s, b.s, ra, rb);
      case Array(xs) =>
        ArraysUnique(xs, b.items, ra, rb);
      case Object(ms) =>
        var ns := b.members;
        ObjectsUnique(ms, StringifyMembers(ms, SortedKeys(ms)).value, ns, StringifyMembers(ns, SortedKeys(ns)).value,
            ra, rb);
    }
  }

  lemma {:induction false} ArraysUnique(xs: seq<Json>, ys: seq<Json>, ra: Text, rb: Text)
    requires StringifyItems(xs).Ok? && StringifyItems(ys).Ok?
    requires ([0x5B] + Join(StringifyItems(xs).value) + [0x5D]) + ra
        == ([0x5B] + Join(StringifyItems(ys).value) + [0x5D]) + rb
    ensures Meaning(Array(xs)) == Meaning(Array(ys)) && ra == rb
    decreases xs, 0
  {
    var ps, qs := StringifyItems(xs).value, StringifyItems(ys).value;
    ItemParts(xs);
    ItemParts(ys);
    forall i | 0 <= i < |xs| ensures ps[i] != [] && ps[i][0] != 0x5D { Head(xs[i], []); }
    forall j | 0 <= j < |ys| ensures qs[j] != [] && qs[j][0] != 0x5D { Head(ys[j], []); }
    forall i, j, r, r' | 0 <= i < |xs| && 0 <= j < |ys| && StopsNumber(r) && StopsNumber(r') && ps[i] + r == qs[j] + r'
      ensures ps[i] == qs[j]
    {
      Unique(xs[i], ys[j], r, r');
      assert ps[i] == (ps[i] + r)[..|ps[i]|];
      assert qs[j] == (qs[j] + r')[..|qs[j]|];
    }
    BracketsUnique(0x5B, ps, qs, 0x5D, ra, rb);
    forall i | 0 <= i < |xs| ensures Meaning(xs[i]) == Meaning(ys[i]) {
      Unique(xs[i], ys[i], [], []);
    }
  }

  lemma {:induction false} MembersSeparable(ms: seq<Member>, k: Text, n: Json, l: Text)
    requires k in Keys(ms) && Stringify(Get(ms, k)).Ok? && Stringify(n).Ok?
    ensures Separable(MemberText(k, Stringify(Get(ms, k)).value), MemberText(l, Stringify(n).value))
    ensures MemberText(k, Stringify(Get(ms, k)).value) == MemberText(l, Stringify(n).value) ==>
              k == l && Meaning(Get(ms, k)) == Meaning(n)
    decreases ms, 0
  {
    var t, t' := Stringify(Get(ms, k)).value, Stringify(n).value;
    var p, q := MemberText(k, t), MemberText(l, t');
    forall r, r' | StopsNumber(r) && StopsNumber(r') && p + r == q + r' ensures p == q {
      MemberTextUnique(k, t, r, l, t', r');
      Unique(Get(ms, k), n, r, r');
      assert p == (p + r)[..|p|] && q == (q + r')[..|q|];
    }
    if p == q {
      assert p + [] == q + [];
      MemberTextUnique(k, t, [], l, t', []);
      Unique(Get(ms, k), n, [], []);
    }
  }

  lemma SameObjectMeaning(ms: seq<Member>, ns: seq<Member>)
    requires forall k :: k in Keys(ms) <==> k in Keys(ns)
    requires forall k :: k in Keys(ms) ==> Meaning(Get(ms, k)) == Meaning(Get(ns, k))
    ensures Meaning(Object(ms)) == Meaning(Object(ns))
  {
  }

  lemma MemberPartsOpen(ms: seq<Member>, ks: seq<Text>)
    requires forall k :: k in ks ==> k in Keys(ms)
    requires StringifyMembers(ms, ks).Ok?
    ensures Opens(StringifyMembers(ms, ks).value, 0x7D)
  {
    MemberParts(ms, ks);
    forall i | 0 <= i < |ks|
      ensures StringifyMembers(ms, ks).value[i] != [] && StringifyMembers(ms, ks).value[i][0] != 0x7D
    {
      MemberTextHead(ks[i], Stringify(Get(ms, ks[i])).value, []);
    }
  }

  lemma {:induction false} MemberListsSeparable(
      ms: seq<Member>, ks: seq<Text>, ps: seq<Text>, ns: seq<Member>, ls: seq<Text>, qs: seq<Text>)
    requires (forall k :: k in ks ==> k in Keys(ms)) && (forall l :: l in ls ==> l in Keys(ns))
    requires StringifyMembers(ms, ks) == Ok(ps) && StringifyMembers(ns, ls) == Ok(qs)
    ensures SeparableParts(ps, qs)
    ensures ps == qs ==> ks == ls && forall k :: k in ks ==> Meaning(Get(ms, k)) == Meaning(Get(ns, k))
    decreases ms, 1
  {
    MemberParts(ms, ks);
    MemberParts(ns, ls);
    forall i, j | 0 <= i < |ps| && 0 <= j < |qs|
      ensures Separable(ps[i], qs[j])
      ensures ps[i] == qs[j] ==> ks[i] == ls[j] && Meaning(Get(ms, ks[i])) == Meaning(Get(ns, ls[j]))
    {
      MembersSeparable(ms, ks[i], Get(ns, ls[j]), ls[j]);
    }
  }

  lemma {:induction false} ObjectsUnique(ms: seq<Member>, ps: seq<Text>, ns: seq<Member>, qs: seq<Text>, ra: Text,
      rb: Text)
    requires StringifyMembers(ms, SortedKeys(ms)) == Ok(ps) && StringifyMembers(ns, SortedKeys(ns)) == Ok(qs)
    requires ([0x7B] + Join(ps) + [0x7D]) + ra == ([0x7B] + Join(qs) + [0x7D]) + rb
    ensures Meaning(Object(ms)) == Meaning(Object(ns)) && ra == rb
    decreases ms, 2
  {
    MemberListsSeparable(ms, SortedKeys(ms), ps, ns, SortedKeys(ns), qs);
    MemberPartsOpen(ms, SortedKeys(ms));
    MemberPartsOpen(ns, SortedKeys(ns));
    BracketsUnique(0x7B, ps, qs, 0x7D, ra, rb);
    forall k | k in Keys(ms) || k in Keys(ns)
      ensures k in Keys(ms) && k in Keys(ns) && Meaning(Get(ms, k)) == Meaning(Get(ns, k))
    {
      assert k in SortedKeys(ms);
    }
    SameObjectMeaning(ms, ns);
  }

  // ---------------------------------------------------------------- key order does not matter

  lemma SortedKeysDetermined(ms: seq<Member>, ns: seq<Member>)
    requires Distinct(Keys(ms)) && Distinct(Keys(ns))
    requires forall k :: k in Keys(ms) <==> k in Keys(ns)
    ensures SortedKeys(ms) == SortedKeys(ns)
  {
    DistinctSameElements(Keys(ms), Keys(ns));
    TextLeqIsTotalOrder();
    SortForgetsOrder(TextLeq, Keys(ms), Keys(ns));
  }

  /** Equal meanings give the same text, or the same error. */
  lemma {:induction false} Determined(a: Json, b: Json)
    requires Proper(a) && Proper(b) && Meaning(a) == Meaning(b)
    ensures Stringify(a) == Stringify(b)
    decreases a, 1
  {
    match a {
      case Array(xs) =>
        var ys := b.items;
        forall i | 0 <= i < |xs| ensures Meaning(xs[i]) == Meaning(ys[i]) {
          assert Meaning(a).items[i] == Meaning(b).items[i];
        }
        ItemsDetermined(xs, ys);
      case Object(ms) =>
        var ns := b.members;
        FieldsOf(ms);
        FieldsOf(ns);
        SortedKeysDetermined(ms, ns);
        MembersDetermined(ms, ns, SortedKeys(ms));
      case _ =>
    }
  }

  lemma {:induction false} ItemsDetermined(xs: seq<Json>, ys: seq<Json>)
    requires |xs| == |ys|
    requires forall i :: 0 <= i < |xs| ==> Proper(xs[i]) && Proper(ys[i]) && Meaning(xs[i]) == Meaning(ys[i])
    ensures StringifyItems(xs) == StringifyItems(ys)
    decreases xs, 0
  {
    if xs != [] {
      Determined(xs[0], ys[0]);
      ItemsDetermined(xs[1..], ys[1..]);
    }
  }

  lemma {:induction false} MembersDetermined(ms: seq<Member>, ns: seq<Member>, ks: seq<Text>)
    requires forall k :: k in ks ==> k in Keys(ms) && k in Keys(ns)
    requires forall k :: k in ks ==> Meaning(Get(ms, k)) == Meaning(Get(ns, k))
    requires forall i :: 0 <= i < |ms| ==> Proper(ms[i].value)
    requires forall i :: 0 <= i < |ns| ==> Proper(ns[i].value)
    ensures StringifyMembers(ms, ks) == StringifyMembers(ns, ks)
    decreases ms, |ks|
  {
    if ks != [] {
      Determined(Get(ms, ks[0]), Get(ns, ks[0]));
      MembersDetermined(ms, ns, ks[1..]);
    }
  }

  /**
   * The canonical form is injective up to key order: two hashable values have the same text exactly
   * when they are equal with objects read as finite maps.
   */
  lemma Injective(a: Json, b: Json)
    requires Proper(a) && Proper(b)
    requires Stringify(a).Ok? && Stringify(b).Ok?
    ensures Stringify(a) == Stringify(b) <==> Meaning(a) == Meaning(b)
  {
    if Stringify(a) == Stringify(b) {
      Unique(a, b, [], []);
    }
    if Meaning(a) == Meaning(b) {
      Determined(a, b);
    }
  }

  // ---------------------------------------------------------------- which values are refused

  /** Nothing that JSON cannot express occurs anywhere in the value. */
  predicate Hashable(v: Json) {
    match v
    case NonFinite => false
    case Unsupported => false
    case Array(items) => forall i :: 0 <= i < |items| ==> Hashable(items[i])
    case Object(ms) => forall i :: 0 <= i < |ms| ==> Hashable(ms[i].value)
    case _ => true
  }

  lemma GetOwn(ms: seq<Member>, i: nat)
    requires i < |ms| && Distinct(Keys(ms))
    ensures ms[i].key in Keys(ms) && Get(ms, ms[i].key) == ms[i].value
  {
    assert Keys(ms)[i] == ms[i].key;
    var j := IndexOfKey(ms, ms[i].key);
    assert Keys(ms)[j] == Keys(ms)[i];
  }

  /** The serialiser throws exactly on the values that JSON cannot express. */
  lemma {:induction false} OkIffHashable(v: Json)
    requires Proper(v)
    ensures Stringify(v).Ok? <==> Hashable(v)
    decreases v, 1
  {
    match v {
      case Array(items) => ItemsOkIffHashable(items);
      case Object(ms) =>
        MembersOkIffHashable(ms, SortedKeys(ms));
        forall i | 0 <= i < |ms| ensures ms[i].key in SortedKeys(ms) && Get(ms, ms[i].key) == ms[i].value {
          GetOwn(ms, i);
        }
      case _ =>
    }
  }

  lemma {:induction false} ItemsOkIffHashable(items: seq<Json>)
    requires forall i :: 0 <= i < |items| ==> Proper(items[i])
    ensures StringifyItems(items).Ok? <==> forall i :: 0 <= i < |items| ==> Hashable(items[i])
    decreases items, 0
  {
    if items != [] {
      OkIffHashable(items[0]);
      ItemsOkIffHashable(items[1..]);
      assert items == [items[0]] + items[1..];
    }
  }

  lemma {:induction false} MembersOkIffHashable(ms: seq<Member>, ks: seq<Text>)
    requires forall k :: k in ks ==> k in Keys(ms)
    requires forall i :: 0 <= i < |ms| ==> Proper(ms[i].value)
    ensures StringifyMembers(ms, ks).Ok? <==> forall k :: k in ks ==> Hashable(Get(ms, k))
    decreases ms, |ks|
  {
    if ks != [] {
      OkIffHashable(Get(ms, ks[0]));
      MembersOkIffHashable(ms, ks[1..]);
      assert ks == [ks[0]] + ks[1..];
    }
  }

  // ---------------------------------------------------------------- the text survives UTF-8

  lemma {:induction false} EscapeWellFormed(s: Text)
    ensures WellFormed(Escape(s))
  {
    if s == [] {
    } else if StartsPair(s) {
      EscapeWellFormed(s[2..]);
      assert Escape(s)[2..] == Escape(s[2..]);
    } else {
      EscapeWellFormed(s[1..]);
      NoSurrogates(EscapeUnit(s[0]));
      WellFormedConcat(EscapeUnit(s[0]), Escape(s[1..]));
    }
  }

  lemma {:induction false} NoSurrogates(t: Text)
    requires forall i :: 0 <= i < |t| ==> !IsLead(t[i]) && !IsTrail(t[i])
    ensures WellFormed(t)
  {
    if t != [] {
      NoSurrogates(t[1..]);
    }
  }

  lemma {:induction false} TailWellFormed(ps: seq<Text>)
    requires forall i :: 0 <= i < |ps| ==> WellFormed(ps[i])
    ensures WellFormed(Tail(ps)) && WellFormed(Join(ps))
  {
    if ps != [] {
      TailWellFormed(ps[1..]);
      NoSurrogates([COMMA]);
      WellFormedConcat([COMMA], ps[0]);
      WellFormedConcat([COMMA] + ps[0], Tail(ps[1..]));
      WellFormedConcat(ps[0], Tail(ps[1..]));
    }
  }

  lemma WrapWellFormed(open: Unit, t: Text, close: Unit)
    requires WellFormed(t) && open < 0xD800 && close < 0xD800
    ensures WellFormed([open] + t + [close])
  {
    NoSurrogates([open]);
    NoSurrogates([close]);
    WellFormedConcat([open], t);
    WellFormedConcat([open] + t, [close]);
  }

  /**
   * The canonical text never holds a lone surrogate, whatever strings it was made of. Encoding it as
   * UTF-8 therefore replaces nothing, and the hashed bytes are as injective as the text.
   */
  lemma {:induction false} CanonicalTextWellFormed(v: Json)
    requires Stringify(v).Ok?
    ensures WellFormed(Stringify(v).value)
    decreases v, 1
  {
    match v {
      case Str(s) =>
        EscapeWellFormed(s);
        WrapWellFormed(QUOTE, Escape(s), QUOTE);
      case Array(items) =>
        ItemParts(items);
        forall i | 0 <= i < |items| ensures WellFormed(Stringify(items[i]).value) {
          CanonicalTextWellFormed(items[i]);
        }
        TailWellFormed(StringifyItems(items).value);
        WrapWellFormed(0x5B, Join(StringifyItems(items).value), 0x5D);
      case Object(ms) =>
        var ps := StringifyMembers(ms, SortedKeys(ms)).value;
        MembersWellFormed(ms, SortedKeys(ms));
        TailWellFormed(ps);
        WrapWellFormed(0x7B, Join(ps), 0x7D);
      case Null => NoSurrogates(NULL_TEXT);
      case Bool(b) => NoSurrogates(if b then TRUE_TEXT else FALSE_TEXT);
      case Number(n) =>
        NumeralHead(n);
        NoSurrogates(Numeral(n));
    }
  }

  lemma {:induction false} MembersWellFormed(ms: seq<Member>, ks: seq<Text>)
    requires forall k :: k in ks ==> k in Keys(ms)
    requires StringifyMembers(ms, ks).Ok?
    ensures forall i :: 0 <= i < |ks| ==> WellFormed(StringifyMembers(ms, ks).value[i])
    decreases ms, 0
  {
    MemberParts(ms, ks);
    forall i | 0 <= i < |ks| ensures WellFormed(StringifyMembers(ms, ks).value[i]) {
      var t := Stringify(Get(ms, ks[i])).value;
      CanonicalTextWellFormed(Get(ms, ks[i]));
      EscapeWellFormed(ks[i]);
      WrapWellFormed(QUOTE, Escape(ks[i]), QUOTE);
      NoSurrogates([COLON]);
      WellFormedConcat(Quote(ks[i]), [COLON]);
      WellFormedConcat(Quote(ks[i]) + [COLON], t);
    }
  }
}
