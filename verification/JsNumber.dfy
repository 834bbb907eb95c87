/**
 * Finite JavaScript numbers by their shortest decimal form, and how they are printed (section
 * 6.1.6.1.20 of ECMA-262): plain, with a decimal point, or with an exponent.
 */
module JsNumber {
  import opened JsText

  /** The digits of a number: not empty, and without a zero at either end. */
  predicate Trimmed(ds: Text) {
    ds != [] && AllDigits(ds) && ds[0] != ZERO && ds[|ds| - 1] != ZERO
  }

  type Digits = ds: Text | Trimmed(ds) witness [ZERO + 1]

  /** Zero of either sign, or a sign with 0.`digits` times 10 to the power `point`. */
  datatype Num = Zero | Finite(negative: bool, digits: Digits, point: int)

  const PLUS: Unit := 0x2B
  const DOT: Unit := 0x2E
  const EXP: Unit := 0x65

  function Zeros(n: nat): (t: Text)
    ensures |t| == n && AllDigits(t) && forall i :: 0 <= i < n ==> t[i] == ZERO
  {
    seq(n, _ => ZERO)
  }

  function Exponent(e: int): Text { if e < 0 then [MINUS] + Decimal(-e) else [PLUS] + Decimal(e) }

  /** Digits with a decimal point after the first, if there are more. */
  function Mantissa(ds: Digits): Text { if |ds| == 1 then ds else [ds[0], DOT] + ds[1..] }

  function Print(ds: Digits, point: int): Text {
    if |ds| <= point <= 21 then ds + Zeros(point - |ds|)
    else if 0 < point <= 21 then ds[..point] + [DOT] + ds[point..]
    else if -6 < point <= 0 then [ZERO, DOT] + Zeros(-point) + ds
    else Mantissa(ds) + [EXP] + Exponent(point - 1)
  }

  /** `String(x)`. */
  function Numeral(x: Num): Text {
    match x
    case Zero => [ZERO]
    case Finite(negative, ds, point) => if negative then [MINUS] + Print(ds, point) else Print(ds, point)
  }

  // ---------------------------------------------------------------- reading a numeral back

  /** Where `u` first occurs, or the length of the text. */
  function IndexOf(t: Text, u: Unit): (i: nat)
    ensures i <= |t| && (i < |t| ==> t[i] == u) && (i == |t| <==> u !in t)
  {
    if t == [] || t[0] == u then 0 else 1 + IndexOf(t[1..], u)
  }

  function DropZeros(t: Text): (r: Text)
    ensures |r| <= |t|
  {
    if t != [] && t[0] == ZERO then DropZeros(t[1..]) else t
  }

  function ChopZeros(t: Text): Text {
    if t != [] && t[|t| - 1] == ZERO then ChopZeros(t[..|t| - 1]) else t
  }

  function ReadExponent(t: Text): int
    requires t != [] && AllDigits(t[1..])
  {
    var n: int := ReadDecimal(t[1..]);
    if t[0] == MINUS then -n else n
  }

  /** A reader for what `Print` writes: the digits and the place of the point. */
  function Read(t: Text): (Text, int) {
    var e, d := IndexOf(t, EXP), IndexOf(t, DOT);
    if e + 1 < |t| && AllDigits(t[e + 2..]) then
      (if e < 2 then t[..e] else [t[0]] + t[2..e], ReadExponent(t[e + 1..]) + 1)
    else if d >= |t| then (ChopZeros(t), |t|)
    else if d == 1 && t[0] == ZERO then (DropZeros(t[2..]), |DropZeros(t[2..])| - |t[2..]|)
    else (t[..d] + t[d + 1..], d)
  }

  lemma {:induction false} IndexOfFirst(a: Text, u: Unit, b: Text)
    requires u !in a
    ensures IndexOf(a + [u] + b, u) == |a|
  {
    if a != [] {
      assert (a + [u] + b)[1..] == a[1..] + [u] + b;
      IndexOfFirst(a[1..], u, b);
    }
  }

  lemma {:induction false} DropLeading(n: nat, ds: Digits)
    ensures DropZeros(Zeros(n) + ds) == ds
    decreases n
  {
    if n == 0 {
      assert Zeros(0) + ds == ds;
    } else {
      assert (Zeros(n) + ds)[1..] == Zeros(n - 1) + ds;
      DropLeading(n - 1, ds);
    }
  }

  lemma {:induction false} ChopTrailing(ds: Digits, n: nat)
    ensures ChopZeros(ds + Zeros(n)) == ds
    decreases n
  {
    if n == 0 {
      assert ds + Zeros(0) == ds;
    } else {
      assert (ds + Zeros(n))[..|ds| + n - 1] == ds + Zeros(n - 1);
      ChopTrailing(ds, n - 1);
    }
  }

  lemma ExponentRead(e: int)
    ensures Exponent(e) != [] && AllDigits(Exponent(e)[1..]) && ReadExponent(Exponent(e)) == e
  {
    DecimalRoundTrip(if e < 0 then -e else e);
  }

  lemma NoSuch(t: Text, u: Unit)
    requires AllDigits(t) && !IsDigit(u)
    ensures u !in t
  {
  }

  lemma PlainRead(ds: Digits, point: int)
    requires |ds| <= point <= 21
    ensures Read(Print(ds, point)) == (ds, point)
  {
    var t := ds + Zeros(point - |ds|);
    NoSuch(t, EXP);
    NoSuch(t, DOT);
    ChopTrailing(ds, point - |ds|);
  }

  lemma PointRead(ds: Digits, point: int)
    requires 0 < point <= 21 && point < |ds|
    ensures Read(Print(ds, point)) == (ds, point)
  {
    var t := ds[..point] + [DOT] + ds[point..];
    NoSuch(ds[..point], DOT);
    IndexOfFirst(ds[..point], DOT, ds[point..]);
    assert EXP !in t;
    assert t[0] == ds[0];
    assert t[..point] + t[point + 1..] == ds;
  }

  lemma SmallRead(ds: Digits, point: int)
    requires -6 < point <= 0
    ensures Read(Print(ds, point)) == (ds, point)
  {
    var t := [ZERO, DOT] + Zeros(-point) + ds;
    IndexOfFirst([ZERO], DOT, Zeros(-point) + ds);
    assert t == [ZERO] + [DOT] + (Zeros(-point) + ds);
    assert EXP !in t;
    assert t[2..] == Zeros(-point) + ds;
    DropLeading(-point, ds);
  }

  lemma ReadBehindExponent(m: Text, x: Text)
    requires EXP !in m && m != [] && x != [] && AllDigits(x[1..])
    ensures Read(m + [EXP] + x) == (if |m| < 2 then m else [m[0]] + m[2..], ReadExponent(x) + 1)
  {
    var t := m + [EXP] + x;
    IndexOfFirst(m, EXP, x);
    assert t[|m| + 1..] == x && t[|m| + 2..] == x[1..] && t[..|m|] == m;
    if |m| >= 2 { assert t[2..|m|] == m[2..]; }
  }

  lemma MantissaRead(ds: Digits)
    ensures EXP !in Mantissa(ds) && Mantissa(ds) != []
    ensures (if |Mantissa(ds)| < 2 then Mantissa(ds) else [Mantissa(ds)[0]] + Mantissa(ds)[2..]) == ds
  {
    if |ds| > 1 {
      assert Mantissa(ds)[2..] == ds[1..];
      assert [ds[0]] + ds[1..] == ds;
    }
  }

  lemma ScientificRead(ds: Digits, point: int)
    requires point > 21 || point <= -6
    ensures Read(Print(ds, point)) == (ds, point)
  {
    MantissaRead(ds);
    ExponentRead(point - 1);
    ReadBehindExponent(Mantissa(ds), Exponent(point - 1));
  }

  /** Reading what was printed gives digits and point back. */
  lemma ReadPrint(ds: Digits, point: int)
    ensures Read(Print(ds, point)) == (ds, point)
  {
    if |ds| <= point <= 21 {
      PlainRead(ds, point);
    } else if 0 < point <= 21 {
      PointRead(ds, point);
    } else if -6 < point <= 0 {
      SmallRead(ds, point);
    } else {
      ScientificRead(ds, point);
    }
  }

  lemma PrintHead(ds: Digits, point: int)
    ensures Print(ds, point) != [] && IsDigit(Print(ds, point)[0]) && Print(ds, point) != [ZERO]
  {
  }

  /** Different numbers are printed differently. */
  lemma NumeralInjective(x: Num, y: Num)
    requires Numeral(x) == Numeral(y)
    ensures x == y
  {
    if x.Finite? { PrintHead(x.digits, x.point); ReadPrint(x.digits, x.point); }
    if y.Finite? { PrintHead(y.digits, y.point); ReadPrint(y.digits, y.point); }
    if x.Finite? && y.Finite? && x.negative && y.negative {
      assert Numeral(x)[1..] == Print(x.digits, x.point) && Numeral(y)[1..] == Print(y.digits, y.point);
    }
  }

  // ---------------------------------------------------------------- where a numeral ends

  predicate NumeralUnit(u: Unit) { IsDigit(u) || u == PLUS || u == MINUS || u == DOT || u == EXP }

  /** `r` cannot prolong a numeral. */
  predicate StopsNumber(r: Text) { r == [] || !NumeralUnit(r[0]) }

  predicate AllNumeral(t: Text) { forall i :: 0 <= i < |t| ==> NumeralUnit(t[i]) }

  lemma NumeralParts(a: Text, b: Text)
    ensures AllNumeral(a) && AllNumeral(b) ==> AllNumeral(a + b)
    ensures AllDigits(a) ==> AllNumeral(a)
  {
  }

  lemma ExponentIsNumeral(m: Text, e: int)
    requires AllNumeral(m)
    ensures AllNumeral(m + [EXP] + Exponent(e))
  {
    NumeralParts(Decimal(if e < 0 then -e else e), []);
    NumeralParts([if e < 0 then MINUS else PLUS], Decimal(if e < 0 then -e else e));
    NumeralParts(m, [EXP]);
    NumeralParts(m + [EXP], Exponent(e));
  }

  lemma MantissaIsNumeral(ds: Digits)
    ensures AllNumeral(Mantissa(ds))
  {
  }

  lemma ThreeParts(a: Text, b: Text, c: Text)
    requires AllNumeral(a) && AllNumeral(b) && AllNumeral(c)
    ensures AllNumeral(a + b + c)
  {
    NumeralParts(a, b);
    NumeralParts(a + b, c);
  }

  lemma DigitsAreNumeral(t: Text)
    requires AllDigits(t)
    ensures AllNumeral(t)
  {
  }

  lemma PlainIsNumeral(ds: Digits, n: nat)
    ensures AllNumeral(ds + Zeros(n)) && AllNumeral([ZERO, DOT] + Zeros(n) + ds)
  {
    DigitsAreNumeral(ds);
    DigitsAreNumeral(Zeros(n));
    NumeralParts(ds, Zeros(n));
    ThreeParts([ZERO, DOT], Zeros(n), ds);
  }

  lemma PointIsNumeral(ds: Digits, n: nat)
    requires n <= |ds|
    ensures AllNumeral(ds[..n] + [DOT] + ds[n..])
  {
    DigitsAreNumeral(ds[..n]);
    DigitsAreNumeral(ds[n..]);
    ThreeParts(ds[..n], [DOT], ds[n..]);
  }

  lemma PrintIsNumeral(ds: Digits, point: int)
    ensures AllNumeral(Print(ds, point))
  {
    if |ds| <= point <= 21 {
      PlainIsNumeral(ds, point - |ds|);
    } else if 0 < point <= 21 {
      PointIsNumeral(ds, point);
    } else if -6 < point <= 0 {
      PlainIsNumeral(ds, -point);
    } else {
      MantissaIsNumeral(ds);
      ExponentIsNumeral(Mantissa(ds), point - 1);
    }
  }

  lemma NumeralHead(x: Num)
    ensures AllNumeral(Numeral(x)) && Numeral(x) != []
    ensures if x.Finite? && x.negative then Numeral(x)[0] == MINUS else IsDigit(Numeral(x)[0])
  {
    if x.Finite? {
      PrintHead(x.digits, x.point);
      PrintIsNumeral(x.digits, x.point);
      NumeralParts([MINUS], Print(x.digits, x.point));
    }
  }

  /** A run of numeral units that the text starts with is no longer than the numeral it starts with. */
  lemma RunLength(a: Text, ra: Text, b: Text, rb: Text)
    requires AllNumeral(b) && StopsNumber(ra) && a + ra == b + rb
    ensures |b| <= |a|
  {
    assert forall i :: 0 <= i < |b| ==> NumeralUnit((b + rb)[i]);
    if ra == [] {
      assert |a| == |b + rb|;
    } else {
      assert (a + ra)[|a|] == ra[0];
      assert !NumeralUnit((b + rb)[|a|]);
    }
  }

  /** Two numerals followed by text that cannot prolong them can be told apart. */
  lemma NumeralUnique(x: Num, y: Num, rx: Text, ry: Text)
    requires StopsNumber(rx) && StopsNumber(ry)
    requires Numeral(x) + rx == Numeral(y) + ry
    ensures x == y && rx == ry
  {
    var a, b := Numeral(x), Numeral(y);
    NumeralHead(x);
    NumeralHead(y);
    RunLength(a, rx, b, ry);
    RunLength(b, ry, a, rx);
    assert a == (a + rx)[..|a|] == (b + ry)[..|b|] == b;
    assert rx == (a + rx)[|a|..] == (b + ry)[|b|..] == ry;
    NumeralInjective(x, y);
  }

  // ---------------------------------------------------------------- whole numbers

  lemma {:induction false} DecimalHead(n: nat)
    requires n > 0
    ensures Decimal(n)[0] != ZERO
  {
    if n >= 10 { DecimalHead(n / 10); }
  }

  lemma {:induction false} ChopIsTrimmed(t: Text)
    requires t != [] && AllDigits(t) && t[0] != ZERO
    ensures Trimmed(ChopZeros(t)) && |ChopZeros(t)| <= |t| && t == ChopZeros(t) + Zeros(|t| - |ChopZeros(t)|)
    decreases |t|
  {
    var n := |t| - 1;
    if t[n] == ZERO {
      ChopIsTrimmed(t[..n]);
      assert t == t[..n] + [ZERO];
      assert Zeros(|t| - |ChopZeros(t)|) == Zeros(n - |ChopZeros(t)|) + [ZERO];
    }
  }

  /** The number with the decimal numeral of `n`. */
  function OfNat(n: nat): Num {
    if n == 0 then Zero
    else
      DecimalHead(n);
      ChopIsTrimmed(Decimal(n));
      Finite(false, ChopZeros(Decimal(n)), |Decimal(n)|)
  }

  /** Whole numbers of up to 21 digits are printed in full. */
  lemma WholeNumbersInFull(n: nat)
    requires |Decimal(n)| <= 21
    ensures Numeral(OfNat(n)) == Decimal(n)
  {
    if n > 0 {
      DecimalHead(n);
      ChopIsTrimmed(Decimal(n));
    }
  }

  // ---------------------------------------------------------------- which notation is used

  /** The place of the point from which on numbers are too large, or too small, to be written out. */
  predicate TooLarge(point: int) { point >= 22 }

  predicate TooSmall(point: int) { point <= -6 }

  lemma PartsHave(a: Text, b: Text, c: Text, u: Unit)
    ensures u in a + b + c <==> u in a || u in b || u in c
  {
  }

  /**
   * Numbers of 1e21 and more get an exponent with a plus sign, those below 1e-6 one with a minus sign, all others
   * none; and a decimal point stands exactly where digits follow the first, or the whole ones.
   */
  lemma NotationExactly(ds: Digits, point: int)
    ensures EXP in Print(ds, point) <==> TooLarge(point) || TooSmall(point)
    ensures PLUS in Print(ds, point) <==> TooLarge(point)
    ensures MINUS in Print(ds, point) <==> TooSmall(point)
    ensures DOT in Print(ds, point) <==> if TooLarge(point) || TooSmall(point) then |ds| > 1 else point < |ds|
  {
    forall u: Unit | !IsDigit(u)
      ensures u in Print(ds, point) <==>
        if TooLarge(point) then u == EXP || u == PLUS || (u == DOT && |ds| > 1)
        else if TooSmall(point) then u == EXP || u == MINUS || (u == DOT && |ds| > 1)
        else u == DOT && point < |ds|
    {
      NotationHas(ds, point, u);
    }
    assert !IsDigit(EXP) && !IsDigit(PLUS) && !IsDigit(MINUS) && !IsDigit(DOT);
  }

  lemma NotationHas(ds: Digits, point: int, u: Unit)
    requires !IsDigit(u)
    ensures u in Print(ds, point) <==>
      if TooLarge(point) then u == EXP || u == PLUS || (u == DOT && |ds| > 1)
      else if TooSmall(point) then u == EXP || u == MINUS || (u == DOT && |ds| > 1)
      else u == DOT && point < |ds|
  {
    NoSuch(ds, u);
    if |ds| <= point <= 21 {
      NoSuch(Zeros(point - |ds|), u);
    } else if 0 < point <= 21 {
      PartsHave(ds[..point], [DOT], ds[point..], u);
    } else if -6 < point <= 0 {
      NoSuch(Zeros(-point), u);
      PartsHave([ZERO, DOT], Zeros(-point), ds, u);
    } else {
      MantissaHas(ds, u);
      ExponentHas(point - 1, u);
      PartsHave(Mantissa(ds), [EXP], Exponent(point - 1), u);
    }
  }

  lemma MantissaHas(ds: Digits, u: Unit)
    requires !IsDigit(u)
    ensures u in Mantissa(ds) <==> u == DOT && |ds| > 1
  {
    NoSuch(ds, u);
    if |ds| > 1 {
      NoSuch(ds[1..], u);
      PartsHave([ds[0], DOT], ds[1..], [], u);
    }
  }

  lemma ExponentHas(e: int, u: Unit)
    requires !IsDigit(u)
    ensures u in Exponent(e) <==> u == if e < 0 then MINUS else PLUS
  {
    var n := if e < 0 then -e else e;
    NoSuch(Decimal(n), u);
    PartsHave([if e < 0 then MINUS else PLUS], Decimal(n), [], u);
  }
}
