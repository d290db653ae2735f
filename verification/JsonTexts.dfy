/** The parser on texts written out character by character: what string literals, numerals and
    white space mean, without reference to the grammar's own tables. */
module JsonTexts {
  import opened Wrappers
  import opened Sequences
  import opened Utf8
  import opened TextLaws
  import opened JsonLiteral
  import opened JsonNumber
  import opened JsonNumeral
  import opened JsonValue
  import opened JsonWriter
  import opened JsonSpec
  import opened JsonBoundaries
  import opened JsonSyntax
  import opened JsonAccepts
  import opened JsonReconstruct
  import opened JsonRoundTrip
  import Digits

  // Escapes (section 7 of RFC 8259)

  const LETTERS: string := "\"\\/bfnrt"
  const MEANINGS: string := ['"', '\\', '/', 8 as char, 12 as char, '\n', '\r', '\t']

  /** A hexadecimal digit in either case. */
  predicate SpellsDigit(c: char, d: nat)
    requires d < 16
  {
    c == "0123456789abcdef"[d] || c == "0123456789ABCDEF"[d]
  }

  /** The digits spell n, last digit last. */
  predicate SpellsHex(s: string, n: nat) {
    if s == [] then n == 0 else SpellsDigit(s[|s| - 1], n % 0x10) && SpellsHex(s[..|s| - 1], n / 0x10)
  }

  predicate SpellsHex4(s: string, n: nat) {
    |s| == 4 && SpellsHex(s, n)
  }

  lemma DigitValue(c: char, d: nat)
    requires d < 16 && SpellsDigit(c, d)
    ensures c as int < 0x80 && IsHex(c as int) && HexValue(c as int) == d
  {
  }

  /** What a run of hexadecimal digits is worth, read from the front. */
  function HexSum(s: string): nat
    requires forall i :: 0 <= i < |s| ==> s[i] as int < 0x80 && IsHex(s[i] as int)
  {
    if s == [] then 0 else HexSum(s[..|s| - 1]) * 0x10 + HexValue(s[|s| - 1] as int)
  }

  lemma {:induction false} SpelledSum(s: string, n: nat)
    requires SpellsHex(s, n)
    ensures forall i :: 0 <= i < |s| ==> s[i] as int < 0x80 && IsHex(s[i] as int)
    ensures HexSum(s) == n
  {
    if s != [] {
      SpelledSum(s[..|s| - 1], n / 0x10);
      DigitValue(s[|s| - 1], n % 0x10);
    }
  }

  lemma FourDigits(s: string)
    requires |s| == 4 && forall i :: 0 <= i < |s| ==> s[i] as int < 0x80 && IsHex(s[i] as int)
    ensures IsHex4(Codes(s)) && Hex4Value(Codes(s)) == HexSum(s)
  {
    var a, b, c := s[..3], s[..2], s[..1];
    assert a[..2] == b && b[..1] == c && c[..0] == [];
    assert HexSum(c) == HexValue(s[0] as int);
    assert HexSum(b) == HexSum(c) * 0x10 + HexValue(s[1] as int);
    assert HexSum(a) == HexSum(b) * 0x10 + HexValue(s[2] as int);
    assert Codes(s)[0] != PLUS;
  }

  /** Four digits spelling n, each in either case, are read as n. */
  lemma HexDigitsSpell(s: string, n: nat)
    requires SpellsHex4(s, n)
    ensures forall i :: 0 <= i < |s| ==> s[i] as int < 0x80
    ensures IsHex4(Codes(s)) && Hex4Value(Codes(s)) == n < 0x1_0000
  {
    SpelledSum(s, n);
    FourDigits(s);
  }

  /** A four-digit escape is read as the number its digits spell. */
  lemma EscapeCodes(s: string, n: nat)
    requires SpellsHex4(s, n)
    ensures forall i :: 0 <= i < |s| ==> s[i] as int < 0x80
    ensures Encode("\\u" + s) == [BACKSLASH, LOWER_U] + Codes(s)
  {
    HexDigitsSpell(s, n);
    EncodeTwo('\\', 'u');
    assert "\\u" == ['\\', 'u'];
    EncodeConcat("\\u", s);
    EncodeCodes(s);
  }

  /** The ways to write one character of a string. */
  datatype Spelling = Itself | Letter(k: nat) | Hex(digits: string) | HexPair(high: string, low: string)

  function SpellingText(how: Spelling, c: char): string {
    match how
    case Itself => [c]
    case Letter(k) => if k < 8 then ['\\', LETTERS[k]] else []
    case Hex(digits) => "\\u" + digits
    case HexPair(high, low) => ("\\u" + high) + ("\\u" + low)
  }

  /** The digits of the two surrogates of 0x10000 + n. */
  predicate SpellPair(high: string, low: string, n: nat) {
    SpellsHex4(high, 0xD800 + n / 0x400) && SpellsHex4(low, 0xDC00 + n % 0x400)
  }

  predicate Spells(how: Spelling, c: char) {
    match how
    case Itself => c != '"' && c != '\\'
    case Letter(k) => k < 8 && c == MEANINGS[k]
    case Hex(digits) => SpellsHex4(digits, c as int)
    case HexPair(high, low) => c as int >= 0x1_0000 && SpellPair(high, low, c as int - 0x1_0000)
  }

  lemma LetterPiece(k: nat)
    requires k < 8
    ensures LETTERS[k] as int < 0x80
    ensures ShortEscape(LETTERS[k] as int) == Some(MEANINGS[k])
  {
  }

  lemma PairPiece(high: string, low: string, c: char) returns (p: Piece)
    requires Spells(HexPair(high, low), c)
    ensures PieceOk(p) && PieceChar(p) == c && PieceText(p) == Encode(("\\u" + high) + ("\\u" + low))
  {
    var n := c as int - 0x1_0000;
    SurrogatePairsOnto(c as int);
    p := SurrogatePiece(high, 0xD800 + n / 0x400, low, 0xDC00 + n % 0x400, c);
  }

  lemma SurrogatePiece(high: string, h: nat, low: string, l: nat, c: char) returns (p: Piece)
    requires SpellsHex4(high, h) && SpellsHex4(low, l) && IsHighSurrogate(h) && IsLowSurrogate(l) && Combine(h, l) == c as int
    ensures PieceOk(p) && PieceChar(p) == c && PieceText(p) == Encode(("\\u" + high) + ("\\u" + low))
  {
    HexDigitsSpell(high, h);
    HexDigitsSpell(low, l);
    EscapeCodes(high, h);
    EscapeCodes(low, l);
    p := Pair(Codes(high), Codes(low));
    EncodeConcat("\\u" + high, "\\u" + low);
    Assoc([BACKSLASH, LOWER_U], Codes(high), [BACKSLASH, LOWER_U] + Codes(low));
  }

  lemma PieceOfSpelling(how: Spelling, c: char) returns (p: Piece)
    requires Spells(how, c)
    ensures PieceOk(p) && PieceChar(p) == c && PieceText(p) == Encode(SpellingText(how, c))
  {
    match how
    case Itself =>
      p := Raw(c);
      EncodeOne(c);
    case Letter(k) =>
      LetterPiece(k);
      p := Short(LETTERS[k] as int);
      EncodeTwo('\\', LETTERS[k]);
    case Hex(digits) =>
      EscapeCodes(digits, c as int);
      HexDigitsSpell(digits, c as int);
      p := Code(Codes(digits));
    case HexPair(high, low) =>
      p := PairPiece(high, low, c);
  }

  function SpelledText(hows: seq<Spelling>, cs: string): string
    requires |hows| == |cs|
  {
    if cs == [] then [] else SpellingText(hows[0], cs[0]) + SpelledText(hows[1..], cs[1..])
  }

  predicate AllSpell(hows: seq<Spelling>, cs: string) {
    |hows| == |cs| && forall i :: 0 <= i < |cs| ==> Spells(hows[i], cs[i])
  }

  lemma {:induction false} PiecesOfSpellings(hows: seq<Spelling>, cs: string) returns (ps: seq<Piece>)
    requires AllSpell(hows, cs)
    ensures PiecesOk(ps) && Chars(ps) == cs && PiecesText(ps) == Encode(SpelledText(hows, cs))
  {
    if cs == [] {
      ps := [];
    } else {
      var p := PieceOfSpelling(hows[0], cs[0]);
      var rest := PiecesOfSpellings(hows[1..], cs[1..]);
      ps := [p] + rest;
      ConsPiece(p, rest);
      assert cs == [cs[0]] + cs[1..];
      EncodeConcat(SpellingText(hows[0], cs[0]), SpelledText(hows[1..], cs[1..]));
    }
  }

  lemma ConsPiece(p: Piece, rest: seq<Piece>)
    requires PieceOk(p) && PiecesOk(rest)
    ensures var ps := [p] + rest;
            PiecesOk(ps) && Chars(ps) == [PieceChar(p)] + Chars(rest) && PiecesText(ps) == PieceText(p) + PiecesText(rest)
  {
    assert ([p] + rest)[1..] == rest;
  }

  lemma QuotedParses(text: string, ps: seq<Piece>)
    requires PiecesOk(ps) && PiecesText(ps) == Encode(text)
    ensures Parse("\"" + text + "\"") == Ok(Str(Chars(ps)))
  {
    EncodeBracketed('"', text, '"');
    assert "\"" == ['"'];
    var v := Quoted(ps);
    BareItem(v);
    assert ItemOk(Item([], v, []));
    AcceptsExactlyTheGrammar("\"" + text + "\"", Meaning(v));
  }

  /** A string literal parses to the characters it spells, each as itself, by letter, or by one or
      two four-digit escapes with digits in either case. */
  lemma StringsParse(hows: seq<Spelling>, cs: string)
    requires AllSpell(hows, cs)
    ensures Parse("\"" + SpelledText(hows, cs) + "\"") == Ok(Str(cs))
  {
    var ps := PiecesOfSpellings(hows, cs);
    QuotedParses(SpelledText(hows, cs), ps);
  }

  lemma OneSpelling(how: Spelling, c: char)
    requires Spells(how, c)
    ensures Parse("\"" + SpellingText(how, c) + "\"") == Ok(Str([c]))
  {
    var p := PieceOfSpelling(how, c);
    OnePiece(p);
    QuotedParses(SpellingText(how, c), [p]);
  }

  predicate IsSurrogate(n: nat) {
    0xD800 <= n <= 0xDFFF
  }

  /** One escape is the character its digits spell, unless they spell a surrogate. */
  lemma HexEscapeParses(s: string, n: nat)
    requires n < 0x1_0000 && !IsSurrogate(n) && SpellsHex4(s, n)
    ensures Parse("\"" + ("\\u" + s) + "\"") == Ok(Str([n as char]))
  {
    OneSpelling(Hex(s), n as char);
  }

  /** The escapes of its two surrogates are any character beyond 0xFFFF. */
  lemma HexPairParses(high: string, low: string, n: nat)
    requires 0x1_0000 <= n <= 0x10_FFFF && SpellPair(high, low, n - 0x1_0000)
    ensures Parse("\"" + (("\\u" + high) + ("\\u" + low)) + "\"") == Ok(Str([n as char]))
  {
    OneSpelling(HexPair(high, low), n as char);
  }

  /** A surrogate on its own is an error. */
  lemma LoneSurrogateFails(s: string, n: nat)
    requires IsSurrogate(n) && SpellsHex4(s, n)
    ensures Parse("\"" + ("\\u" + s) + "\"").Err?
  {
    EncodeBracketed('"', "\\u" + s, '"');
    assert "\"" == ['"'];
    EscapeCodes(s, n);
    HexDigitsSpell(s, n);
    LoneFails(Codes(s));
    Assoc([BACKSLASH, LOWER_U], Codes(s), [QUOTE]);
    Regroup([QUOTE], [BACKSLASH, LOWER_U], Codes(s), [QUOTE]);
  }

  lemma LoneFails(hex: seq<byte>)
    requires IsHex4(hex) && IsSurrogate(Hex4Value(hex))
    ensures ParseBytes([QUOTE] + ([BACKSLASH, LOWER_U] + (hex + [QUOTE]))).Failed?
  {
    var unicode := hex + [QUOTE];
    ParsesHex4(hex, [QUOTE]);
    assert ParseUnicode(unicode).Failed?;
    assert ([LOWER_U] + unicode)[1..] == unicode;
    EscapeFails([LOWER_U] + unicode);
    assert [BACKSLASH, LOWER_U] + unicode == [BACKSLASH] + ([LOWER_U] + unicode);
  }

  lemma EscapeFails(bs: seq<byte>)
    requires ParseEscape(bs).Failed?
    ensures ParseBytes([QUOTE] + ([BACKSLASH] + bs)).Failed?
  {
    var all := [QUOTE] + ([BACKSLASH] + bs);
    assert all[1..] == [BACKSLASH] + bs;
    assert ([BACKSLASH] + bs)[1..] == bs;
    assert SkipWs(all) == all;
    assert ParseString(all).Failed?;
  }

  /** No other character may follow a backslash. */
  lemma OtherEscapeFails(c: char, rest: string)
    requires c !in LETTERS && c != 'u'
    ensures Parse("\"\\" + ([c] + rest)).Err?
  {
    EncodeTwo('"', '\\');
    assert "\"\\" == ['"', '\\'];
    EncodeConcat("\"\\", [c] + rest);
    EncodeConcat([c], rest);
    EncodeOne(c);
    var bs := EncodeChar(c) + Encode(rest);
    FirstOfOther(c, Encode(rest));
    EscapeFails(bs);
    assert [QUOTE, BACKSLASH] + bs == [QUOTE] + ([BACKSLASH] + bs);
  }

  lemma FirstOfOther(c: char, rest: seq<byte>)
    requires c !in LETTERS && c != 'u'
    ensures ParseEscape(EncodeChar(c) + rest).Failed?
  {
    var b := (EncodeChar(c) + rest)[0];
    assert b == EncodeChar(c)[0];
    assert LETTERS[0] == '"' && LETTERS[1] == '\\' && LETTERS[2] == '/' && LETTERS[3] == 'b';
    assert LETTERS[4] == 'f' && LETTERS[5] == 'n' && LETTERS[6] == 'r' && LETTERS[7] == 't';
    assert c as int < 0x80 ==> b == c as int;
    assert c as int >= 0x80 ==> b >= 0xC0;
  }

  // Insignificant white space (section 2)

  predicate Blank(s: string) {
    forall i :: 0 <= i < |s| ==> s[i] in " \t\n\r"
  }

  lemma SpaceExactly(b: byte)
    ensures IsSpace(b) <==> b as char in " \t\n\r"
  {
  }

  lemma {:induction false} BlankIsGap(s: string)
    requires Blank(s)
    ensures IsGap(Encode(s))
  {
    forall i | 0 <= i < |s| ensures s[i] as int < 0x80 && IsSpace(s[i] as int) {
      assert s[i] in " \t\n\r";
      SpaceExactly(s[i] as int);
    }
    EncodeCodes(s);
  }

  /** Blanks around an accepted text change nothing. */
  lemma BlanksAround(before: string, text: string, after: string)
    requires Blank(before) && Blank(after) && Parse(text).Ok?
    ensures Parse(before + (text + after)) == Parse(text)
  {
    DecodeEncode(text);
    var d := DocumentOf(Encode(text));
    BlankIsGap(before);
    BlankIsGap(after);
    var e := Item(Encode(before) + d.before, d.value, d.after + Encode(after));
    EncodeConcat(before, text + after);
    EncodeConcat(text, after);
    PaddedText(Encode(before), d, Encode(after));
    assert ItemOk(e);
    AcceptsExactlyTheGrammar(text, Meaning(d.value));
    AcceptsExactlyTheGrammar(before + (text + after), Meaning(d.value));
  }

  lemma PaddedText(before: seq<byte>, d: Item, after: seq<byte>)
    ensures ItemText(Item(before + d.before, d.value, d.after + after)) == before + (ItemText(d) + after)
  {
    Assoc(before, d.before, SyntaxText(d.value) + (d.after + after));
    Regroup(d.before, SyntaxText(d.value), d.after, after);
  }

  // Numerals (section 6)

  /** A numeral as its characters: sign, digits, point and digits, letter, sign, digits. */
  datatype Written = Written(
    negative: bool, whole: string, fraction: Option<string>, exponent: Option<WrittenExponent>)

  datatype WrittenExponent = WrittenExponent(letter: char, sign: string, digits: string)

  predicate WellWritten(n: Written) {
    && DigitChars(n.whole) && n.whole != []
    && (n.fraction.Some? ==> DigitChars(n.fraction.value))
    && (n.exponent.Some? ==>
          var e := n.exponent.value;
          (e.letter == 'e' || e.letter == 'E') && (e.sign == "" || e.sign == "+" || e.sign == "-") &&
          DigitChars(e.digits) && e.digits != [])
  }

  function TextOf(n: Written): string {
    (if n.negative then "-" else "") +
    (n.whole +
     ((if n.fraction.Some? then "." + n.fraction.value else "") +
      (if n.exponent.Some? then [n.exponent.value.letter] + (n.exponent.value.sign + n.exponent.value.digits) else "")))
  }

  /** The digits of whole part and fraction as one number, and the power of ten it counts. */
  function MagnitudeOf(n: Written): nat
    requires WellWritten(n)
  {
    var fraction := if n.fraction.Some? then n.fraction.value else [];
    Shift(NatOf(n.whole), |fraction|) + NatOf(fraction)
  }

  function OrderOf(n: Written): int
    requires WellWritten(n)
  {
    var exponent: int :=
      if n.exponent.None? then 0
      else if n.exponent.value.sign == "-" then -(NatOf(n.exponent.value.digits) as int)
      else NatOf(n.exponent.value.digits);
    exponent - (if n.fraction.Some? then |n.fraction.value| else 0)
  }

  function ExponentOf(e: WrittenExponent): Exponent
    requires (e.letter == 'e' || e.letter == 'E') && DigitChars(e.digits)
  {
    Exponent(
      e.letter as int,
      if e.sign == "" then None else if e.sign == "+" then Some(0x2B) else Some(0x2D),
      Codes(e.digits))
  }

  function RawLiteralOf(n: Written): Literal
    requires WellWritten(n)
  {
    Literal(
      n.negative,
      Codes(n.whole),
      if n.fraction.Some? then Some(Codes(n.fraction.value)) else None,
      if n.exponent.Some? then Some(ExponentOf(n.exponent.value)) else None)
  }

  lemma WrittenShaped(n: Written)
    requires WellWritten(n)
    ensures Shaped(RawLiteralOf(n))
  {
    NatOfCodes(n.whole);
    if n.fraction.Some? {
      NatOfCodes(n.fraction.value);
    }
    if n.exponent.Some? {
      NatOfCodes(n.exponent.value.digits);
    }
  }

  lemma EncodeFraction(fraction: Option<string>)
    requires fraction.Some? ==> DigitChars(fraction.value)
    ensures Encode(if fraction.Some? then "." + fraction.value else "")
         == FractionText(if fraction.Some? then Some(Codes(fraction.value)) else None)
  {
    if fraction.Some? {
      EncodeOne('.');
      EncodeConcat(".", fraction.value);
      EncodeCodes(fraction.value);
    }
  }

  lemma EncodeExponent(e: WrittenExponent)
    requires (e.letter == 'e' || e.letter == 'E') && (e.sign == "" || e.sign == "+" || e.sign == "-")
    requires DigitChars(e.digits)
    ensures Encode([e.letter] + (e.sign + e.digits)) == ExponentText(Some(ExponentOf(e)))
  {
    EncodeOne(e.letter);
    EncodeConcat([e.letter], e.sign + e.digits);
    EncodeConcat(e.sign, e.digits);
    EncodeCodes(e.digits);
    if e.sign != "" {
      EncodeOne(e.sign[0]);
      assert e.sign == [e.sign[0]];
    }
  }

  lemma EncodeWritten(n: Written)
    requires WellWritten(n)
    ensures Encode(TextOf(n)) == JsonLiteral.Text(RawLiteralOf(n))
  {
    var sign := if n.negative then "-" else "";
    var fraction := if n.fraction.Some? then "." + n.fraction.value else "";
    var exponent :=
      if n.exponent.Some? then [n.exponent.value.letter] + (n.exponent.value.sign + n.exponent.value.digits) else "";
    EncodeConcat(sign, n.whole + (fraction + exponent));
    EncodeConcat(n.whole, fraction + exponent);
    EncodeConcat(fraction, exponent);
    EncodeCodes(n.whole);
    EncodeFraction(n.fraction);
    if n.exponent.Some? {
      EncodeExponent(n.exponent.value);
    }
    if n.negative {
      EncodeOne('-');
    }
  }

  lemma WrittenWorth(n: Written)
    requires WellWritten(n) && Shaped(RawLiteralOf(n))
    ensures NumeralOk(RawLiteralOf(n))
    ensures Magnitude(RawLiteralOf(n)) == MagnitudeOf(n) && Order(RawLiteralOf(n)) == OrderOf(n)
  {
    var lit: ShapedLiteral := RawLiteralOf(n);
    NatOfCodes(n.whole);
    if n.fraction.Some? {
      NatOfCodes(n.fraction.value);
    }
    if n.exponent.Some? {
      NatOfCodes(n.exponent.value.digits);
    }
    assert Mantissa(lit)[0] == lit.whole[0];
  }

  /** A numeral parses to what its characters spell, exact before rounding, or to infinity if and
      only if that reaches the magnitude that overflows. */
  lemma NumeralsParse(n: Written)
    requires WellWritten(n)
    ensures var r := Parse(TextOf(n));
            && r.Ok? && r.value.Num?
            && Worth(r.value.number, n.negative, Shift(MagnitudeOf(n), Up(OrderOf(n))), Up(-OrderOf(n)))
  {
    WrittenShaped(n);
    WrittenWorth(n);
    EncodeWritten(n);
    var lit: ShapedLiteral := RawLiteralOf(n);
    var v := Numeral(lit);
    BareItem(v);
    assert ItemOk(Item([], v, []));
    AcceptsExactlyTheGrammar(TextOf(n), Meaning(v));
    NumeralDenotes(lit);
  }

  /** Which scanned literals are numerals: digits before the point, or behind a minus sign and a
      point, and digits after an exponent's letter. */
  lemma NumeralExactly(lit: ShapedLiteral)
    ensures NumeralOk(lit)
       <==> && (lit.whole != [] || (lit.negative && lit.fraction.Some? && lit.fraction.value != []))
            && (lit.exponent.Some? ==> lit.exponent.value.digits != [])
  {
    if lit.fraction.Some? {
      assert Mantissa(lit) == [] <==> lit.whole == [] && lit.fraction.value == [];
    }
  }

  // What is not a number

  /** NaN and the infinities print as bare words, which no JSON text holds. */
  lemma NonFiniteTexts()
    ensures Print(Num(NaN)) == "NaN" && Print(Num(Infinite(false))) == "inf" && Print(Num(Infinite(true))) == "-inf"
  {
    WordOf([0x4E, 0x61, 0x4E], "NaN");
    WordOf([0x69, 0x6E, 0x66], "inf");
    WordOf([0x2D, 0x69, 0x6E, 0x66], "-inf");
    assert SignText(false) + [0x69, 0x6E, 0x66] == [0x69, 0x6E, 0x66];
    assert SignText(true) + [0x69, 0x6E, 0x66] == [0x2D, 0x69, 0x6E, 0x66];
  }

  lemma WordOf(bs: seq<byte>, word: string)
    requires Ascii(bs) && |word| == |bs| && forall i :: 0 <= i < |bs| ==> word[i] == bs[i] as char
    ensures FromAscii(bs) == word
  {
    forall i | 0 <= i < |bs| ensures FromAscii(bs)[i] == word[i] {
      FromAsciiAt(bs, i);
    }
  }

  /** 2^88. */
  const BIG: nat := 0x1_0000_0000_0000_0000_0000_00

  /** The magnitude that overflows is (2^54 - 1) * 2^970: halfway from the greatest `f64`,
      (2^53 - 1) * 2^971, to the power of two after it. */
  lemma OverflowExactly()
    ensures OVERFLOW == 0x3F_FFFF_FFFF_FFFF * (4 * (BIG * BIG * BIG * BIG * BIG * BIG * BIG * BIG * BIG * BIG * BIG))
  {
  }
}
