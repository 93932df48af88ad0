/**
 * Numbers as JSON.stringify prints them, used by packages/themes/src/index.ts:
 * Number::toString of ECMA-262, section 6.1.6.1.20. Text is a sequence of UTF-16
 * code units, as in the source language.
 */
module JsonNumbers {

  type Unit = u: nat | u < 0x10000

  type Text = seq<Unit>

  const PLUS: Unit := 43
  const COMMA: Unit := 44
  const MINUS: Unit := 45
  const POINT: Unit := 46
  const ZERO: Unit := 48
  const CLOSE_BRACKET: Unit := 93
  const EXPONENT: Unit := 101
  const CLOSE_BRACE: Unit := 125

  /** A significand without trailing zeros; in particular it is not zero. */
  type Significand = s: nat | s % 10 != 0 witness 1

  /**
   * A finite number. With k the number of digits of `s`, NonZero is the number of
   * absolute value s * 10^(n-k); its shortest significand has no trailing zero.
   */
  datatype Number = Zero | NonZero(negative: bool, s: Significand, n: int)

  predicate IsDigit(u: Unit) { 48 <= u <= 57 }

  ghost predicate AllDigits(t: Text) {
    forall i :: 0 <= i < |t| ==> IsDigit(t[i])
  }

  function Digits(n: nat): (r: Text)
    ensures r != [] && AllDigits(r)
  {
    if n < 10 then [ZERO + n] else Digits(n / 10) + [ZERO + n % 10]
  }

  function Zeros(count: nat): Text {
    seq(count, _ => ZERO)
  }

  /** The digits with a point after the first, unless it is the only one. */
  function Mantissa(digits: Text): Text
    requires digits != []
  {
    if |digits| == 1 then digits else digits[..1] + [POINT] + digits[1..]
  }

  function ExponentText(n: int): Text {
    [EXPONENT, if n < 0 then MINUS else PLUS] + Digits(if n < 1 then 1 - n else n - 1)
  }

  function Unsigned(s: Significand, n: int): Text {
    var d := Digits(s);
    if |d| <= n <= 21 then d + Zeros(n - |d|)
    else if 0 < n <= 21 then d[..n] + [POINT] + d[n..]
    else if -6 < n <= 0 then [ZERO, POINT] + Zeros(-n) + d
    else Mantissa(d) + ExponentText(n)
  }

  function NumberText(x: Number): Text {
    match x
    case Zero => [ZERO]
    case NonZero(negative, s, n) => (if negative then [MINUS] else []) + Unsigned(s, n)
  }

  // ---- Digits -----------------------------------------------------------

  function Value(digits: Text): int
    requires AllDigits(digits)
  {
    if digits == [] then 0 else Value(digits[..|digits| - 1]) * 10 + digits[|digits| - 1] - ZERO
  }

  lemma {:induction false} DigitsHaveValue(n: nat)
    ensures Value(Digits(n)) == n
  {
    if n >= 10 {
      DigitsHaveValue(n / 10);
      assert Digits(n)[..|Digits(n)| - 1] == Digits(n / 10);
    } else {
      assert Digits(n)[..0] == [];
    }
  }

  lemma DigitsAreInjective(m: nat, n: nat)
    requires Digits(m) == Digits(n)
    ensures m == n
  {
    DigitsHaveValue(m);
    DigitsHaveValue(n);
  }

  lemma {:induction false} NoLeadingZero(n: nat)
    requires n > 0
    ensures Digits(n)[0] != ZERO
  {
    if n >= 10 { NoLeadingZero(n / 10); }
  }

  lemma NoTrailingZero(s: Significand)
    ensures Digits(s)[|Digits(s)| - 1] != ZERO
  {
  }

  // ---- The four forms ---------------------------------------------------

  ghost predicate IsPlain(s: Significand, n: int) { |Digits(s)| <= n <= 21 }

  ghost predicate IsPointed(s: Significand, n: int) { 0 < n <= 21 && n < |Digits(s)| }

  ghost predicate IsFraction(n: int) { -6 < n <= 0 }

  ghost predicate IsScientific(n: int) { n <= -6 || 21 < n }

  /** The text alone tells the form: its first unit, a point, an exponent. */
  lemma FormIsVisible(s: Significand, n: int)
    ensures Unsigned(s, n) != [] && IsDigit(Unsigned(s, n)[0])
    ensures Unsigned(s, n)[0] == ZERO <==> IsFraction(n)
    ensures EXPONENT in Unsigned(s, n) <==> IsScientific(n)
    ensures !IsScientific(n) && !IsFraction(n) ==> (POINT in Unsigned(s, n) <==> IsPointed(s, n))
    ensures |Unsigned(s, n)| == 1 ==> Unsigned(s, n) != [ZERO]
  {
    NoLeadingZero(s);
    var d, x := Digits(s), Unsigned(s, n);
    if IsPlain(s, n) {
    } else if IsPointed(s, n) {
      assert x[n] == POINT;
    } else if IsFraction(n) {
    } else {
      assert x[|Mantissa(d)|] == EXPONENT;
    }
  }

  lemma PlainIsUnambiguous(s: Significand, n: int, t: Significand, m: int)
    requires IsPlain(s, n) && IsPlain(t, m) && Unsigned(s, n) == Unsigned(t, m)
    ensures s == t && n == m
  {
    var x := Unsigned(s, n);
    var k, l := |Digits(s)|, |Digits(t)|;
    assert |x| == n == m;
    NoTrailingZero(s);
    NoTrailingZero(t);
    assert x[k - 1] != ZERO && x[l - 1] != ZERO;
    assert Digits(s) == x[..k] && Digits(t) == x[..l];
    DigitsAreInjective(s, t);
  }

  lemma PointedIsUnambiguous(s: Significand, n: int, t: Significand, m: int)
    requires IsPointed(s, n) && IsPointed(t, m) && Unsigned(s, n) == Unsigned(t, m)
    ensures s == t && n == m
  {
    var x := Unsigned(s, n);
    assert x[n] == POINT && x[m] == POINT;
    assert Digits(s) == x[..n] + x[n + 1..] && Digits(t) == x[..n] + x[n + 1..];
    DigitsAreInjective(s, t);
  }

  lemma FractionIsUnambiguous(s: Significand, n: int, t: Significand, m: int)
    requires IsFraction(n) && IsFraction(m) && Unsigned(s, n) == Unsigned(t, m)
    ensures s == t && n == m
  {
    var x := Unsigned(s, n);
    NoLeadingZero(s);
    NoLeadingZero(t);
    assert x[2 - n] == Digits(s)[0] && x[2 - m] == Digits(t)[0];
    assert Digits(s) == x[2 - n..] && Digits(t) == x[2 - n..];
    DigitsAreInjective(s, t);
  }

  lemma MantissaIsInjective(c: Text, d: Text)
    requires c != [] && d != [] && Mantissa(c) == Mantissa(d)
    ensures c == d
  {
    var x := Mantissa(c);
    if |c| > 1 { assert c == x[..1] + x[2..]; }
    if |d| > 1 { assert d == x[..1] + x[2..]; }
  }

  lemma ScientificIsUnambiguous(s: Significand, n: int, t: Significand, m: int)
    requires IsScientific(n) && IsScientific(m) && Unsigned(s, n) == Unsigned(t, m)
    ensures s == t && n == m
  {
    var x, c, d := Unsigned(s, n), Mantissa(Digits(s)), Mantissa(Digits(t));
    assert x[|c|] == EXPONENT && x[|d|] == EXPONENT;
    assert c == x[..|c|] && d == x[..|c|];
    MantissaIsInjective(Digits(s), Digits(t));
    DigitsAreInjective(s, t);
    assert ExponentText(n) == x[|c|..] && ExponentText(m) == x[|c|..];
    assert ExponentText(n)[1] == ExponentText(m)[1];
    assert ExponentText(n)[2..] == ExponentText(m)[2..];
    DigitsAreInjective(if n < 1 then 1 - n else n - 1, if m < 1 then 1 - m else m - 1);
  }

  lemma UnsignedIsInjective(s: Significand, n: int, t: Significand, m: int)
    requires Unsigned(s, n) == Unsigned(t, m)
    ensures s == t && n == m
  {
    FormIsVisible(s, n);
    FormIsVisible(t, m);
    if IsScientific(n) {
      ScientificIsUnambiguous(s, n, t, m);
    } else if IsFraction(n) {
      FractionIsUnambiguous(s, n, t, m);
    } else if IsPointed(s, n) {
      PointedIsUnambiguous(s, n, t, m);
    } else {
      PlainIsUnambiguous(s, n, t, m);
    }
  }

  /** Different numbers are printed differently. */
  lemma NumberTextIsInjective(x: Number, y: Number)
    requires NumberText(x) == NumberText(y)
    ensures x == y
  {
    NumberStarts(x);
    NumberStarts(y);
    if x.NonZero? { FormIsVisible(x.s, x.n); }
    if y.NonZero? { FormIsVisible(y.s, y.n); }
    if x.NonZero? && y.NonZero? {
      if x.negative {
        assert NumberText(x)[1..] == Unsigned(x.s, x.n) && NumberText(y)[1..] == Unsigned(y.s, y.n);
      } else {
        assert NumberText(x) == Unsigned(x.s, x.n) && NumberText(y) == Unsigned(y.s, y.n);
      }
      UnsignedIsInjective(x.s, x.n, y.s, y.n);
    }
  }

  lemma NumberStarts(x: Number)
    ensures NumberText(x) != [] && (NumberText(x)[0] == MINUS || IsDigit(NumberText(x)[0]))
    ensures NumberText(x)[0] == MINUS <==> x.NonZero? && x.negative
  {
    if x.NonZero? { FormIsVisible(x.s, x.n); }
  }

  // ---- What the text denotes ---------------------------------------------

  function Pow10(e: nat): nat {
    if e == 0 then 1 else 10 * Pow10(e - 1)
  }

  /** The grammar of section 6 of RFC 8259: whole part, fraction, exponent. */
  function Spelled(whole: Text, fraction: Text, exponent: int): Text {
    whole
    + (if fraction == [] then [] else [46] + fraction)
    + (if exponent == 0 then []
       else if exponent < 0 then [101, 45] + Digits(-exponent)
       else [101, 43] + Digits(exponent))
  }

  lemma {:induction false} ValueOfTrailingZeros(d: Text, count: nat)
    requires AllDigits(d)
    ensures AllDigits(d + Zeros(count)) && Value(d + Zeros(count)) == Value(d) * Pow10(count)
  {
    if count == 0 {
      assert d + Zeros(0) == d;
    } else {
      ValueOfTrailingZeros(d, count - 1);
      assert (d + Zeros(count))[..|d| + count - 1] == d + Zeros(count - 1);
    }
  }

  lemma {:induction false} ValueOfLeadingZeros(d: Text, count: nat)
    requires AllDigits(d)
    ensures AllDigits(Zeros(count) + d) && Value(Zeros(count) + d) == Value(d)
  {
    if d == [] {
      if count > 0 {
        ValueOfLeadingZeros([], count - 1);
        assert (Zeros(count) + [])[..count - 1] == Zeros(count - 1) + [];
      }
    } else {
      ValueOfLeadingZeros(d[..|d| - 1], count);
      assert (Zeros(count) + d)[..count + |d| - 1] == Zeros(count) + d[..|d| - 1];
    }
  }

  /**
   * The text is a JSON number of the right value: with k digits in `s`, its digits times ten to
   * the power of its exponent less the places behind the point are s * 10^(n-k).
   */
  ghost predicate Denotes(s: Significand, n: int, whole: Text, fraction: Text, exponent: int) {
    var k := |Digits(s)|;
    && Unsigned(s, n) == Spelled(whole, fraction, exponent)
    && whole != [] && AllDigits(whole + fraction) && (whole[0] == ZERO ==> whole == [ZERO])
    && (|| (Value(whole + fraction) == s && exponent - |fraction| == n - k)
        || (n >= k && Value(whole + fraction) == s * Pow10(n - k) && exponent == 0 && fraction == []))
  }

  lemma PlainDenotes(s: Significand, n: int)
    requires IsPlain(s, n)
    ensures Denotes(s, n, Digits(s) + Zeros(n - |Digits(s)|), [], 0)
  {
    var d := Digits(s);
    var whole := d + Zeros(n - |d|);
    DigitsHaveValue(s);
    NoLeadingZero(s);
    ValueOfTrailingZeros(d, n - |d|);
    assert whole + [] == whole && whole[0] == d[0];
  }

  lemma FractionIsSpelled(zeros: Text, d: Text)
    requires d != []
    ensures [ZERO, POINT] + zeros + d == Spelled([ZERO], zeros + d, 0)
  {
  }

  lemma ZeroInFront(count: nat, d: Text)
    ensures [ZERO] + (Zeros(count) + d) == Zeros(count + 1) + d
  {
  }

  lemma FractionDenotes(s: Significand, n: int)
    requires IsFraction(n)
    ensures Denotes(s, n, [ZERO], Zeros(-n) + Digits(s), 0)
  {
    hide Digits, Value, Zeros, Spelled;
    var d := Digits(s);
    DigitsHaveValue(s);
    ValueOfLeadingZeros(d, -n + 1);
    ZeroInFront(-n, d);
    FractionIsSpelled(Zeros(-n), d);
    assert |Zeros(-n) + d| == |d| - n by { ZerosAreMany(-n); }
  }

  lemma ZerosAreMany(count: nat)
    ensures |Zeros(count)| == count
  {
  }

  lemma PointedDenotes(s: Significand, n: int)
    requires IsPointed(s, n)
    ensures Denotes(s, n, Digits(s)[..n], Digits(s)[n..], 0)
  {
    hide Digits, Value;
    var d := Digits(s);
    DigitsHaveValue(s);
    NoLeadingZero(s);
    assert d[..n] + d[n..] == d && d[..n][0] == d[0];
    assert Spelled(d[..n], d[n..], 0) == d[..n] + ([POINT] + d[n..]);
  }

  lemma ScientificDenotes(s: Significand, n: int)
    requires IsScientific(n)
    ensures Denotes(s, n, Digits(s)[..1], Digits(s)[1..], n - 1)
  {
    hide Digits, Value;
    var d := Digits(s);
    DigitsHaveValue(s);
    NoLeadingZero(s);
    assert d[..1] + d[1..] == d && d[..1][0] == d[0];
    assert d[..1] + (if d[1..] == [] then [] else [POINT] + d[1..]) == Mantissa(d);
  }

  lemma UnsignedDenotes(s: Significand, n: int)
    ensures exists whole, fraction, exponent :: Denotes(s, n, whole, fraction, exponent)
  {
    hide Denotes;
    if IsPlain(s, n) {
      PlainDenotes(s, n);
    } else if IsFraction(n) {
      FractionDenotes(s, n);
    } else if IsPointed(s, n) {
      PointedDenotes(s, n);
    } else {
      ScientificDenotes(s, n);
    }
  }

  // ---- Numbers inside a longer text --------------------------------------

  /** What may follow a value: nothing, or punctuation. */
  predicate Ends(a: Text) {
    a == [] || a[0] == COMMA || a[0] == CLOSE_BRACKET || a[0] == CLOSE_BRACE
  }

  predicate IsNumeric(u: Unit) {
    IsDigit(u) || u == PLUS || u == MINUS || u == POINT || u == EXPONENT
  }

  ghost predicate AllNumeric(t: Text) {
    forall i :: 0 <= i < |t| ==> IsNumeric(t[i])
  }

  lemma NumberIsNumeric(x: Number)
    ensures AllNumeric(NumberText(x))
  {
    if x.NonZero? {
      assert AllNumeric(Mantissa(Digits(x.s))) && AllNumeric(ExponentText(x.n));
      assert AllNumeric(Unsigned(x.s, x.n));
    }
  }

  lemma RunEndsNoLater(x: Text, y: Text, a: Text, b: Text)
    requires AllNumeric(y) && Ends(a) && x + a == y + b
    ensures |y| <= |x|
  {
    var text := x + a;
    assert forall i :: 0 <= i < |y| ==> text[i] == y[i];
    assert |x| < |text| ==> text[|x|] == a[0] && !IsNumeric(text[|x|]);
  }

  /** The text determines the number and where it ends. */
  lemma NumbersAreUnambiguous(x: Number, y: Number, a: Text, b: Text)
    requires Ends(a) && Ends(b) && NumberText(x) + a == NumberText(y) + b
    ensures x == y && a == b
  {
    var p, q := NumberText(x), NumberText(y);
    NumberIsNumeric(x);
    NumberIsNumeric(y);
    RunEndsNoLater(p, q, a, b);
    RunEndsNoLater(q, p, b, a);
    assert p == (p + a)[..|p|] && q == (q + b)[..|q|];
    assert a == (p + a)[|p|..] && b == (q + b)[|q|..];
    NumberTextIsInjective(x, y);
  }
}
