/** JSON number literals, part by part: how they are written and how the parser scans them. */
module JsonLiteral {
  import opened Sequences
  import opened Wrappers
  import opened Utf8
  import Digits

  const MINUS: byte := 0x2D
  const PLUS: byte := 0x2B
  const DOT: byte := 0x2E
  const LOWER_E: byte := 0x65
  const UPPER_E: byte := 0x45

  /** A scanned literal, part by part; nothing forces a part to be non-empty. */
  datatype Literal = Literal(
    negative: bool, whole: seq<byte>, fraction: Option<seq<byte>>, exponent: Option<Exponent>)

  datatype Exponent = Exponent(letter: byte, sign: Option<byte>, digits: seq<byte>)

  predicate Shaped(lit: Literal) {
    && Digits.AllDigits(lit.whole)
    && (lit.fraction.Some? ==> Digits.AllDigits(lit.fraction.value))
    && (lit.exponent.Some? ==> ShapedExponent(lit.exponent.value))
  }

  predicate ShapedExponent(e: Exponent) {
    && (e.letter == LOWER_E || e.letter == UPPER_E)
    && (e.sign.Some? ==> e.sign.value == PLUS || e.sign.value == MINUS)
    && Digits.AllDigits(e.digits)
  }

  type ShapedLiteral = l: Literal | Shaped(l) witness Literal(false, [], None, None)

  // Texts of the parts

  function SignText(negative: bool): seq<byte> {
    if negative then [MINUS] else []
  }

  function FractionText(fraction: Option<seq<byte>>): seq<byte> {
    if fraction.Some? then [DOT] + fraction.value else []
  }

  function OptionalText(b: Option<byte>): seq<byte> {
    if b.Some? then [b.value] else []
  }

  function ExponentText(exponent: Option<Exponent>): seq<byte> {
    if exponent.None? then
      []
    else
      var Exponent(letter, sign, digits) := exponent.value;
      [letter] + (OptionalText(sign) + digits)
  }

  function Text(lit: Literal): seq<byte> {
    SignText(lit.negative) + UnsignedText(lit)
  }

  // Scanning

  predicate Starts(bs: seq<byte>, b: byte) {
    bs != [] && bs[0] == b
  }

  function ReadFraction(bs: seq<byte>): (r: (Option<seq<byte>>, seq<byte>))
    ensures r.0.Some? ==> Digits.AllDigits(r.0.value)
    ensures FractionText(r.0) + r.1 == bs
  {
    if Starts(bs, DOT) then
      var ds := Digits.Run(bs[1..]);
      (Some(ds), bs[1 + |ds|..])
    else
      (None, bs)
  }

  /** An optional sign and the digits after it. */
  function ReadSigned(bs: seq<byte>): (r: (Option<byte>, seq<byte>, seq<byte>))
    ensures r.0.Some? ==> r.0.value == PLUS || r.0.value == MINUS
    ensures Digits.AllDigits(r.1)
    ensures (OptionalText(r.0) + r.1) + r.2 == bs
  {
    if Starts(bs, PLUS) || Starts(bs, MINUS) then
      var ds := Digits.Run(bs[1..]);
      (Some(bs[0]), ds, bs[1..][|ds|..])
    else
      var ds := Digits.Run(bs);
      (None, ds, bs[|ds|..])
  }

  function ReadExponent(bs: seq<byte>): (r: (Option<Exponent>, seq<byte>))
    ensures r.0.Some? ==> ShapedExponent(r.0.value)
    ensures ExponentText(r.0) + r.1 == bs
  {
    if Starts(bs, LOWER_E) || Starts(bs, UPPER_E) then
      var (sign, digits, rest) := ReadSigned(bs[1..]);
      Gather(bs, [bs[0]], bs[1..], OptionalText(sign) + digits, rest);
      (Some(Exponent(bs[0], sign, digits)), rest)
    else
      (None, bs)
  }

  /** The part of a literal after its sign. */
  function UnsignedText(lit: Literal): seq<byte> {
    lit.whole + (FractionText(lit.fraction) + ExponentText(lit.exponent))
  }

  /** Fraction and exponent. */
  function ReadParts(bs: seq<byte>): (r: (Option<seq<byte>>, Option<Exponent>, seq<byte>))
    ensures r.0.Some? ==> Digits.AllDigits(r.0.value)
    ensures r.1.Some? ==> ShapedExponent(r.1.value)
    ensures (FractionText(r.0) + ExponentText(r.1)) + r.2 == bs
  {
    var (fraction, afterFraction) := ReadFraction(bs);
    var (exponent, rest) := ReadExponent(afterFraction);
    Assoc(FractionText(fraction), ExponentText(exponent), rest);
    (fraction, exponent, rest)
  }

  function ReadUnsigned(negative: bool, bs: seq<byte>): (r: (ShapedLiteral, seq<byte>))
    ensures r.0.negative == negative
    ensures UnsignedText(r.0) + r.1 == bs
  {
    var whole := Digits.Run(bs);
    var after := bs[|whole|..];
    var (fraction, exponent, rest) := ReadParts(after);
    Gather(bs, whole, after, FractionText(fraction) + ExponentText(exponent), rest);
    (Literal(negative, whole, fraction, exponent), rest)
  }

  lemma RegroupText(lit: Literal, rest: seq<byte>)
    ensures UnsignedText(lit) + rest
         == lit.whole + (FractionText(lit.fraction) + (ExponentText(lit.exponent) + rest))
  {
    Regroup(lit.whole, FractionText(lit.fraction), ExponentText(lit.exponent), rest);
  }

  /** The literal at the front of `bs`, and what follows it. */
  function Read(bs: seq<byte>): (r: (ShapedLiteral, seq<byte>))
    ensures Text(r.0) + r.1 == bs
  {
    if Starts(bs, MINUS) then
      var r := ReadUnsigned(true, bs[1..]);
      Gather(bs, [MINUS], bs[1..], UnsignedText(r.0), r.1);
      r
    else
      var r := ReadUnsigned(false, bs);
      assert [] + UnsignedText(r.0) == UnsignedText(r.0);
      r
  }

  /** Nothing at the front of `tail` can be taken for more of a number. */
  predicate EndsNumber(tail: seq<byte>) {
    tail == [] || !Continues(tail[0])
  }

  predicate Continues(b: byte) {
    Digits.IsDigit(b) || b == DOT || b == LOWER_E || b == UPPER_E || b == PLUS || b == MINUS
  }

  lemma ReadFractionOfText(f: Option<seq<byte>>, tail: seq<byte>)
    requires f.Some? ==> Digits.AllDigits(f.value)
    requires tail == [] || (!Digits.IsDigit(tail[0]) && tail[0] != DOT)
    ensures ReadFraction(FractionText(f) + tail) == (f, tail)
  {
    var bs := FractionText(f) + tail;
    if f.Some? {
      assert bs[1..] == f.value + tail;
      Digits.RunOfConcat(f.value, tail);
    } else {
      assert bs == tail;
    }
  }

  lemma ReadSignedOfText(sign: Option<byte>, digits: seq<byte>, tail: seq<byte>)
    requires sign.Some? ==> sign.value == PLUS || sign.value == MINUS
    requires Digits.AllDigits(digits) && EndsNumber(tail)
    ensures ReadSigned((OptionalText(sign) + digits) + tail) == (sign, digits, tail)
  {
    var bs := (OptionalText(sign) + digits) + tail;
    Digits.RunOfConcat(digits, tail);
    assert (digits + tail)[|digits|..] == tail;
    if sign.Some? {
      Cons(sign.value, digits, tail);
    } else {
      assert OptionalText(sign) + digits == digits;
      assert digits == [] ==> digits + tail == tail;
    }
  }

  lemma Cons(b: byte, middle: seq<byte>, tail: seq<byte>)
    ensures ([b] + middle) + tail == [b] + (middle + tail)
    ensures (([b] + middle) + tail)[1..] == middle + tail
  {
  }

  lemma ReadExponentOfText(e: Option<Exponent>, tail: seq<byte>)
    requires e.Some? ==> ShapedExponent(e.value)
    requires EndsNumber(tail)
    ensures ReadExponent(ExponentText(e) + tail) == (e, tail)
  {
    var bs := ExponentText(e) + tail;
    if e.Some? {
      var Exponent(letter, sign, digits) := e.value;
      ReadSignedOfText(sign, digits, tail);
      var after := (OptionalText(sign) + digits) + tail;
      Cons(letter, OptionalText(sign) + digits, tail);
      assert bs == [letter] + after;
    } else {
      assert bs == tail;
    }
  }

  lemma ReadUnsignedOfText(lit: ShapedLiteral, tail: seq<byte>)
    requires EndsNumber(tail)
    ensures ReadUnsigned(lit.negative, UnsignedText(lit) + tail) == (lit, tail)
  {
    RegroupText(lit, tail);
    var afterFraction := ExponentText(lit.exponent) + tail;
    var afterWhole := FractionText(lit.fraction) + afterFraction;
    assert afterWhole == [] || !Digits.IsDigit(afterWhole[0]);
    Digits.RunOfConcat(lit.whole, afterWhole);
    assert (lit.whole + afterWhole)[|lit.whole|..] == afterWhole;
    ReadFractionOfText(lit.fraction, afterFraction);
    ReadExponentOfText(lit.exponent, tail);
  }

  /** Scanning is inverse to writing a literal out, whatever may follow a value. */
  lemma ReadText(lit: ShapedLiteral, tail: seq<byte>)
    requires EndsNumber(tail)
    ensures Read(Text(lit) + tail) == (lit, tail)
  {
    ReadUnsignedOfText(lit, tail);
    var unsigned := UnsignedText(lit);
    if lit.negative {
      Cons(MINUS, unsigned, tail);
    } else {
      assert Text(lit) == unsigned;
      UnsignedStart(lit, tail);
    }
  }

  lemma UnsignedStart(lit: ShapedLiteral, tail: seq<byte>)
    requires EndsNumber(tail)
    ensures !Starts(UnsignedText(lit) + tail, MINUS)
  {
    RegroupText(lit, tail);
    if lit.whole == [] {
      assert UnsignedText(lit) + tail == FractionText(lit.fraction) + (ExponentText(lit.exponent) + tail);
    }
  }
}
