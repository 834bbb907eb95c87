/** JavaScript strings: sequences of UTF-16 code units, lone surrogates included. */
module JsText {
  type Unit = u: int | 0 <= u < 0x10000
  type Text = seq<Unit>

  /** A literal made of characters of the basic multilingual plane. */
  function U(s: string): (t: Text)
    requires forall i :: 0 <= i < |s| ==> s[i] as int < 0x10000
    ensures |t| == |s| && forall i :: 0 <= i < |s| ==> t[i] == s[i] as int
  {
    seq<Unit>(|s|, i requires 0 <= i < |s| => s[i] as int)
  }

  lemma ConcatAssoc(a: Text, b: Text, c: Text)
    ensures (a + b) + c == a + (b + c)
  {
  }

  const QUOTE: Unit := 0x22
  const COMMA: Unit := 0x2C
  const MINUS: Unit := 0x2D
  const ZERO: Unit := 0x30
  const COLON: Unit := 0x3A
  const BACKSLASH: Unit := 0x5C

  // ---------------------------------------------------------------- decimal numerals

  predicate IsDigit(u: Unit) { 0x30 <= u <= 0x39 }

  predicate AllDigits(t: Text) { forall i :: 0 <= i < |t| ==> IsDigit(t[i]) }

  /** The decimal numeral of `n`, as `String(n)` prints a safe integer. */
  function Decimal(n: nat): (t: Text)
    ensures t != [] && AllDigits(t)
  {
    if n < 10 then [ZERO + n] else Decimal(n / 10) + [ZERO + n % 10]
  }

  /** `parseInt(t, 10)` of a run of digits. */
  function ReadDecimal(t: Text): nat
    requires AllDigits(t)
  {
    if t == [] then 0 else 10 * ReadDecimal(t[..|t| - 1]) + (t[|t| - 1] - ZERO)
  }

  lemma {:induction false} DecimalRoundTrip(n: nat)
    ensures ReadDecimal(Decimal(n)) == n
  {
    if n >= 10 {
      DecimalRoundTrip(n / 10);
      assert Decimal(n)[..|Decimal(n)| - 1] == Decimal(n / 10);
    }
  }

  /** The length of the run of digits that `t` starts with. */
  function DigitRun(t: Text): (k: nat)
    ensures k <= |t| && AllDigits(t[..k])
    ensures k < |t| ==> !IsDigit(t[k])
  {
    if t != [] && IsDigit(t[0]) then
      var k := 1 + DigitRun(t[1..]);
      assert t[..k] == [t[0]] + t[1..][..k - 1];
      k
    else 0
  }

  /** `r` cannot prolong a run of digits. */
  predicate StopsNumeral(r: Text) { r == [] || !IsDigit(r[0]) }

  lemma DigitRunStops(a: Text, r: Text)
    requires AllDigits(a) && StopsNumeral(r)
    ensures DigitRun(a + r) == |a|
  {
    var k := DigitRun(a + r);
    assert forall i :: 0 <= i < |a| ==> IsDigit((a + r)[i]);
    assert forall i :: 0 <= i < k ==> IsDigit((a + r)[i]) by {
      assert forall i :: 0 <= i < k ==> (a + r)[..k][i] == (a + r)[i];
    }
    assert r != [] ==> (a + r)[|a|] == r[0];
  }

  // ---------------------------------------------------------------- surrogates, blanks

  predicate IsLead(u: Unit) { 0xD800 <= u < 0xDC00 }
  predicate IsTrail(u: Unit) { 0xDC00 <= u < 0xE000 }

  /** No lone surrogate: the text is the UTF-16 form of a sequence of characters. */
  predicate WellFormed(t: Text) {
    if t == [] then true
    else if IsLead(t[0]) then |t| >= 2 && IsTrail(t[1]) && WellFormed(t[2..])
    else !IsTrail(t[0]) && WellFormed(t[1..])
  }

  lemma {:induction false} WellFormedConcat(a: Text, b: Text)
    requires WellFormed(a) && WellFormed(b)
    ensures WellFormed(a + b)
  {
    if a == [] {
      assert a + b == b;
    } else if IsLead(a[0]) {
      WellFormedConcat(a[2..], b);
      assert (a + b)[2..] == a[2..] + b;
    } else {
      WellFormedConcat(a[1..], b);
      assert (a + b)[1..] == a[1..] + b;
    }
  }

  /** The code units that `String.prototype.trim` removes. */
  predicate IsWhitespace(u: Unit) {
    || 0x09 <= u <= 0x0D || u == 0x20 || u == 0xA0 || u == 0x1680 || 0x2000 <= u <= 0x200A
    || u == 0x2028 || u == 0x2029 || u == 0x202F || u == 0x205F || u == 0x3000 || u == 0xFEFF
  }

  /** `t.trim().length === 0`. */
  predicate IsBlank(t: Text) { forall i :: 0 <= i < |t| ==> IsWhitespace(t[i]) }
}
