/** JSON numbers: the `f64` a literal stands for, and how an `f64` prints.

    A finite `f64` is modelled by its exact decimal value; magnitudes at or above the point
    where IEEE rounding overflows become infinite. */
module JsonNumber {
  import opened Wrappers
  import opened Utf8
  import opened JsonLiteral
  import Digits

  /** 2^1024 - 2^970: the least magnitude that rounds to infinity. */
  const OVERFLOW: nat := 0xFFFFFFFFFFFFFC_0000000000000000000000_0000000000000000000000_0000000000000000000000_0000000000000000000000_0000000000000000000000_0000000000000000000000_0000000000000000000000_0000000000000000000000_0000000000000000000000_0000000000000000000000_0000000000000000000000

  /** Stands for mantissa / 10^scale. */
  datatype RawDecimal = RawDecimal(mantissa: int, scale: nat)

  function Abs(n: int): nat {
    if n < 0 then -n else n
  }

  predicate Canonical(d: RawDecimal) {
    d.scale == 0 || d.mantissa % 10 != 0
  }

  predicate InRange(magnitude: nat, scale: nat) {
    magnitude < OVERFLOW * Digits.Pow10(scale)
  }

  type Decimal = d: RawDecimal | Canonical(d) && InRange(Abs(d.mantissa), d.scale)
    witness RawDecimal(0, 0)

  datatype Number = Finite(decimal: Decimal) | Infinite(negative: bool) | NaN

  // From literal to number, as `str::parse::<f64>` reads what the scanner can produce

  function Mantissa(lit: ShapedLiteral): seq<byte> {
    lit.whole + (if lit.fraction.Some? then lit.fraction.value else [])
  }

  /** Drops trailing zeros of the fraction. */
  function Strip(magnitude: nat, scale: nat): (r: (nat, nat))
    ensures r.1 == 0 || r.0 % 10 != 0
    decreases scale
  {
    if scale > 0 && magnitude % 10 == 0 then Strip(magnitude / 10, scale - 1) else (magnitude, scale)
  }

  lemma NegatedDigit(m: int)
    requires m % 10 != 0
    ensures (-m) % 10 != 0
  {
  }

  /** The number +-magnitude * 10^exponent. */
  function Scaled(negative: bool, magnitude: nat, exponent: int): Number {
    var (m, s) := if exponent >= 0 then (magnitude * Digits.Pow10(exponent), 0) else Strip(magnitude, -exponent);
    if InRange(m, s) then
      assert s > 0 && negative ==> (-m) % 10 != 0 by { if s > 0 { NegatedDigit(m); } }
      Finite(RawDecimal(if negative then -m else m, s))
    else
      Infinite(negative)
  }

  function ExponentValue(exponent: Option<Exponent>): int
    requires exponent.Some? ==> ShapedExponent(exponent.value)
  {
    if exponent.None? then
      0
    else
      var n: int := Digits.Value(exponent.value.digits);
      if exponent.value.sign == Some(MINUS) then -n else n
  }

  /** No digit in the mantissa, or none after an exponent letter, is an error. */
  function NumberOf(lit: ShapedLiteral): Option<Number> {
    if Mantissa(lit) == [] || (lit.exponent.Some? && lit.exponent.value.digits == []) then
      None
    else
      var places := if lit.fraction.Some? then |lit.fraction.value| else 0;
      Some(Scaled(lit.negative, Digits.Value(Mantissa(lit)), ExponentValue(lit.exponent) - places))
  }

  /** `str::parse::<f64>` on a scanned text. */
  function ParseF64(text: seq<byte>): Option<Number> {
    var (lit, rest) := Read(text);
    if rest == [] then NumberOf(lit) else None
  }

  lemma ParseF64OfText(lit: ShapedLiteral)
    ensures ParseF64(Text(lit)) == NumberOf(lit)
  {
    ReadText(lit, []);
    assert Text(lit) + [] == Text(lit);
  }

  // Printing

  lemma SplitAt(magnitude: nat, unit: nat)
    requires unit > 0
    ensures magnitude / unit >= 0 && 0 <= magnitude % unit < unit
    ensures magnitude / unit * unit + magnitude % unit == magnitude
  {
  }

  /** The literal `{}` prints for a finite `f64`: never an exponent. */
  function PlainLiteral(negative: bool, magnitude: nat, scale: nat): ShapedLiteral {
    var unit := Digits.Pow10(scale);
    SplitAt(magnitude, unit);
    Literal(
      negative,
      Digits.Decimal(magnitude / unit),
      if scale == 0 then None else Some(Digits.Padded(magnitude % unit, scale)),
      None)
  }

  lemma PlainLiteralValue(negative: bool, magnitude: nat, scale: nat)
    ensures var lit := PlainLiteral(negative, magnitude, scale);
            Mantissa(lit) != [] && Digits.Value(Mantissa(lit)) == magnitude
  {
    var lit := PlainLiteral(negative, magnitude, scale);
    var unit := Digits.Pow10(scale);
    SplitAt(magnitude, unit);
    if scale == 0 {
      assert Mantissa(lit) == lit.whole;
    } else {
      Digits.ValueConcat(lit.whole, lit.fraction.value);
    }
  }

  function IntegerText(n: int): seq<byte> {
    SignText(n < 0) + Digits.Decimal(Abs(n))
  }

  const INTEGER_LIMIT: nat := 1_000_000_000_000_000

  /** `write_number`: small integral values print as `i64`, everything else as `f64`. */
  function PrintedText(n: Number): seq<byte> {
    match n
    case Finite(d) =>
      if d.scale == 0 && Abs(d.mantissa) < INTEGER_LIMIT then IntegerText(d.mantissa) else Text(LiteralOf(d))
    case Infinite(negative) => SignText(negative) + [0x69, 0x6E, 0x66]
    case NaN => [0x4E, 0x61, 0x4E]
  }

  function LiteralOf(d: Decimal): ShapedLiteral {
    PlainLiteral(d.mantissa < 0, Abs(d.mantissa), d.scale)
  }

  lemma PlainInteger(n: int)
    ensures Text(PlainLiteral(n < 0, Abs(n), 0)) == IntegerText(n)
  {
    assert Digits.Pow10(0) == 1;
  }

  lemma StripCanonical(magnitude: nat, scale: nat)
    requires scale == 0 || magnitude % 10 != 0
    ensures Strip(magnitude, scale) == (magnitude, scale)
  {
  }

  /** Both branches of `write_number` print the same literal, and it reads back exactly. */
  lemma PrintedReadsBack(d: Decimal)
    ensures PrintedText(Finite(d)) == Text(LiteralOf(d))
    ensures NumberOf(LiteralOf(d)) == Some(Finite(d))
  {
    if d.scale == 0 {
      PlainInteger(d.mantissa);
    }
    PlainLiteralValue(d.mantissa < 0, Abs(d.mantissa), d.scale);
    PlainLiteralShape(d.mantissa < 0, Abs(d.mantissa), d.scale);
    ScaledCanonical(d);
  }

  lemma PlainLiteralShape(negative: bool, magnitude: nat, scale: nat)
    ensures var lit := PlainLiteral(negative, magnitude, scale);
            && lit.negative == negative && lit.exponent.None?
            && (if lit.fraction.Some? then |lit.fraction.value| == scale else scale == 0)
  {
  }

  lemma ScaledCanonical(d: Decimal)
    ensures Scaled(d.mantissa < 0, Abs(d.mantissa), -(d.scale as int)) == Finite(d)
  {
    StripCanonical(Abs(d.mantissa), d.scale);
    if d.scale == 0 {
      assert Abs(d.mantissa) * Digits.Pow10(0) == Abs(d.mantissa);
    }
  }
}
