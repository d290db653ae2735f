/** What a numeral is worth: the scanned digits against the rational number they spell. */
module JsonNumeral {
  import opened Utf8
  import opened JsonLiteral
  import opened JsonNumber
  import Digits

  function Up(exponent: int): nat {
    if exponent > 0 then exponent else 0
  }

  /** a / 10^i == b / 10^j, without division. */
  predicate SameRatio(a: nat, i: nat, b: nat, j: nat) {
    a * Digits.Pow10(j) == b * Digits.Pow10(i)
  }

  lemma {:induction false} Pow10Sum(i: nat, j: nat)
    ensures Digits.Pow10(i + j) == Digits.Pow10(i) * Digits.Pow10(j)
  {
    if i > 0 {
      Pow10Sum(i - 1, j);
      var p, q := Digits.Pow10(i - 1), Digits.Pow10(j);
      assert 10 * (p * q) == (10 * p) * q;
    }
  }

  /** Dropping trailing zeros keeps the value. */
  lemma {:induction false} StripKeeps(magnitude: nat, scale: nat)
    ensures var (m, s) := Strip(magnitude, scale);
            s <= scale && m * Digits.Pow10(scale - s) == magnitude
    decreases scale
  {
    if scale > 0 && magnitude % 10 == 0 {
      StripKeeps(magnitude / 10, scale - 1);
      var (m, s) := Strip(magnitude, scale);
      var p := Digits.Pow10(scale - 1 - s);
      assert m * (10 * p) == 10 * (m * p);
    }
  }

  lemma Cancel(a: nat, b: nat, k: nat)
    requires k > 0
    ensures a * k < b * k <==> a < b
    ensures a * k == b * k <==> a == b
  {
    if a < b {
      Multiply(a, b, k);
    } else if b < a {
      Multiply(b, a, k);
    }
  }

  lemma Multiply(a: nat, b: nat, k: nat)
    requires a < b && k > 0
    ensures a * k < b * k
  {
    assert b * k == a * k + (b - a) * k;
    assert (b - a) * k > 0;
  }

  /** Stripped and unstripped forms have one value and overflow together. */
  lemma StripRatio(magnitude: nat, scale: nat)
    ensures var (m, s) := Strip(magnitude, scale);
            SameRatio(m, s, magnitude, scale) && (InRange(m, s) <==> InRange(magnitude, scale))
  {
    var (m, s) := Strip(magnitude, scale);
    StripKeeps(magnitude, scale);
    Pow10Sum(s, scale - s);
    Rescale(m, Digits.Pow10(s), Digits.Pow10(scale - s), OVERFLOW);
  }

  lemma Rescale(m: nat, p: nat, q: nat, limit: nat)
    requires q > 0
    ensures m * (p * q) == (m * q) * p
    ensures m < limit * p <==> m * q < limit * (p * q)
  {
    assert (limit * p) * q == limit * (p * q);
    Cancel(m, limit * p, q);
  }

  /** The number is +-numerator / 10^places, exactly, or infinite when that is too large for
      an `f64`. */
  predicate Worth(n: Number, negative: bool, numerator: nat, places: nat) {
    match n
    case NaN => false
    case Infinite(sign) => sign == negative && !InRange(numerator, places)
    case Finite(d) =>
      && SignFits(d, negative)
      && SameRatio(Abs(d.mantissa), d.scale, numerator, places)
      && InRange(numerator, places)
  }

  predicate SignFits(d: Decimal, negative: bool) {
    (d.mantissa > 0 ==> !negative) && (d.mantissa < 0 ==> negative)
  }

  /** n * 10^k. */
  function Shift(n: nat, k: nat): nat {
    n * Digits.Pow10(k)
  }

  /** The number is +-magnitude * 10^exponent. */
  predicate Denotes(n: Number, negative: bool, magnitude: nat, exponent: int) {
    Worth(n, negative, Shift(magnitude, Up(exponent)), Up(-exponent))
  }

  lemma ScaledDenotes(negative: bool, magnitude: nat, exponent: int)
    ensures Denotes(Scaled(negative, magnitude, exponent), negative, magnitude, exponent)
  {
    if exponent < 0 {
      assert magnitude * Digits.Pow10(0) == magnitude;
      StripRatio(magnitude, -exponent);
    }
  }

  function FractionOf(lit: ShapedLiteral): (ds: seq<byte>)
    ensures Digits.AllDigits(ds)
  {
    if lit.fraction.Some? then lit.fraction.value else []
  }

  /** Whole part and fraction as one integer, and the power of ten it counts. */
  function Magnitude(lit: ShapedLiteral): nat {
    Shift(Digits.Value(lit.whole), |FractionOf(lit)|) + Digits.Value(FractionOf(lit))
  }

  function Order(lit: ShapedLiteral): int {
    ExponentValue(lit.exponent) - |FractionOf(lit)|
  }

  /** A numeral is worth its whole part, plus its fraction by 10^-places, by 10^exponent. */
  lemma NumeralDenotes(lit: ShapedLiteral)
    requires NumberOf(lit).Some?
    ensures Denotes(NumberOf(lit).value, lit.negative, Magnitude(lit), Order(lit))
  {
    Digits.ValueConcat(lit.whole, FractionOf(lit));
    assert Mantissa(lit) == lit.whole + FractionOf(lit);
    ScaledDenotes(lit.negative, Digits.Value(Mantissa(lit)), Order(lit));
  }

  lemma {:induction false} TrailingZero(m: nat, k: nat)
    requires k > 0
    ensures m * Digits.Pow10(k) % 10 == 0
  {
    var p := Digits.Pow10(k - 1);
    assert m * (10 * p) == 10 * (m * p);
  }

  /** The canonical form is unique: one value, one `Decimal`. */
  lemma DecimalUnique(a: Decimal, b: Decimal)
    requires (a.mantissa < 0) == (b.mantissa < 0) && SameRatio(Abs(a.mantissa), a.scale, Abs(b.mantissa), b.scale)
    ensures a == b
  {
    if a.scale <= b.scale {
      SmallerScale(Abs(a.mantissa), a.scale, Abs(b.mantissa), b.scale);
      DigitOfAbs(b.mantissa);
    } else {
      SmallerScale(Abs(b.mantissa), b.scale, Abs(a.mantissa), a.scale);
      DigitOfAbs(a.mantissa);
    }
    assert Digits.Pow10(0) == 1;
  }

  lemma DigitOfAbs(m: int)
    ensures Abs(m) % 10 == 0 <==> m % 10 == 0
  {
  }

  lemma SmallerScale(a: nat, i: nat, b: nat, j: nat)
    requires i <= j && SameRatio(a, i, b, j)
    ensures a * Digits.Pow10(j - i) == b
    ensures i < j ==> b % 10 == 0
    ensures i == j ==> a == b
  {
    Pow10Sum(i, j - i);
    var p, q := Digits.Pow10(i), Digits.Pow10(j - i);
    assert a * (p * q) == (a * q) * p;
    Cancel(a * q, b, p);
    if i < j {
      TrailingZero(a, j - i);
    }
  }

  /** The rational a numeral spells, as a numerator over 10^Places. */
  function Numerator(lit: ShapedLiteral): nat {
    Shift(Magnitude(lit), Up(Order(lit)))
  }

  function Places(lit: ShapedLiteral): nat {
    Up(-Order(lit))
  }

  lemma CrossTrans(a: nat, b: nat, c: nat, p: nat, q: nat, r: nat)
    requires a * q == b * p && b * r == c * q && q > 0
    ensures a * r == c * p
  {
    assert (a * r) * q == (a * q) * r == (b * p) * r;
    assert (c * p) * q == (c * q) * p == (b * r) * p;
    assert (b * p) * r == (b * r) * p;
    Cancel(a * r, c * p, q);
  }

  lemma RatioTrans(a: nat, i: nat, b: nat, j: nat, c: nat, k: nat)
    requires SameRatio(a, i, b, j) && SameRatio(b, j, c, k)
    ensures SameRatio(a, i, c, k)
  {
    CrossTrans(a, b, c, Digits.Pow10(i), Digits.Pow10(j), Digits.Pow10(k));
  }

  lemma CrossLess(a: nat, b: nat, p: nat, q: nat, limit: nat)
    requires a * q == b * p && p > 0 && q > 0
    ensures a < limit * p <==> b < limit * q
  {
    assert (limit * p) * q == (limit * q) * p;
    Cancel(a, limit * p, q);
    Cancel(b, limit * q, p);
  }

  lemma SameRange(a: nat, i: nat, b: nat, j: nat)
    requires SameRatio(a, i, b, j)
    ensures InRange(a, i) <==> InRange(b, j)
  {
    CrossLess(a, b, Digits.Pow10(i), Digits.Pow10(j), OVERFLOW);
  }

  /** Numerals that spell the same rational are the same number, however they are written. */
  lemma SameWorth(a: ShapedLiteral, b: ShapedLiteral)
    requires NumberOf(a).Some? && NumberOf(b).Some? && a.negative == b.negative
    requires SameRatio(Numerator(a), Places(a), Numerator(b), Places(b))
    ensures NumberOf(a) == NumberOf(b)
  {
    NumeralDenotes(a);
    NumeralDenotes(b);
    OneWorth(NumberOf(a).value, Numerator(a), Places(a), NumberOf(b).value, Numerator(b), Places(b), a.negative);
  }

  lemma OneWorth(m: Number, a: nat, i: nat, n: Number, b: nat, j: nat, negative: bool)
    requires Worth(m, negative, a, i) && Worth(n, negative, b, j) && SameRatio(a, i, b, j)
    ensures m == n
  {
    SameRange(a, i, b, j);
    if m.Finite? && n.Finite? {
      var d, e := m.decimal, n.decimal;
      RatioTrans(Abs(d.mantissa), d.scale, a, i, b, j);
      RatioTrans(Abs(d.mantissa), d.scale, b, j, Abs(e.mantissa), e.scale);
      ZeroTogether(Abs(d.mantissa), d.scale, Abs(e.mantissa), e.scale);
      DecimalUnique(d, e);
    }
  }

  lemma ZeroTogether(a: nat, i: nat, b: nat, j: nat)
    requires SameRatio(a, i, b, j)
    ensures a == 0 <==> b == 0
  {
    Cancel(0, a, Digits.Pow10(j));
    Cancel(0, b, Digits.Pow10(i));
  }
}
