/** What each parsing function computes from the bytes still unread. */
module JsonSpec {
  import opened Wrappers
  import opened Utf8
  import opened JsonLiteral
  import opened JsonNumber
  import opened JsonValue
  import Digits

  const QUOTE: byte := 0x22
  const BACKSLASH: byte := 0x5C
  const SLASH: byte := 0x2F
  const COMMA: byte := 0x2C
  const COLON: byte := 0x3A
  const LBRACE: byte := 0x7B
  const RBRACE: byte := 0x7D
  const LBRACKET: byte := 0x5B
  const RBRACKET: byte := 0x5D
  const LOWER_B: byte := 0x62
  const LOWER_F: byte := 0x66
  const LOWER_N: byte := 0x6E
  const LOWER_R: byte := 0x72
  const LOWER_T: byte := 0x74
  const LOWER_U: byte := 0x75

  const NULL_TEXT: seq<byte> := [0x6E, 0x75, 0x6C, 0x6C]
  const TRUE_TEXT: seq<byte> := [0x74, 0x72, 0x75, 0x65]
  const FALSE_TEXT: seq<byte> := [0x66, 0x61, 0x6C, 0x73, 0x65]

  datatype Error =
    | TrailingData
    | ExpectedByte(expected: byte)
    | ExpectedLiteral(literal: seq<byte>)
    | UnexpectedByte
    | ExpectedCommaOrClose(close: byte)
    | UnterminatedString
    | InvalidEscape
    | TruncatedEscape
    | InvalidUnicodeEscape
    | InvalidLowSurrogate
    | UnpairedHighSurrogate
    | InvalidSurrogatePair
    | InvalidUtf8
    | EmptyText
    | InvalidNumber

  /** A result together with the bytes left unread when it was reached. */
  datatype Step<+T> = Parsed(value: T, rest: seq<byte>) | Failed(error: Error, rest: seq<byte>) {
    predicate IsFailure() {
      Failed?
    }

    function PropagateFailure<U>(): Step<U>
      requires Failed?
    {
      Failed(error, rest)
    }

    function Extract(): (T, seq<byte>)
      requires Parsed?
    {
      (value, rest)
    }

    function Result(): Result<T, Error> {
      match this
      case Parsed(v, _) => Ok(v)
      case Failed(e, _) => Err(e)
    }
  }

  predicate IsSpace(b: byte) {
    b == 0x20 || b == 0x09 || b == 0x0A || b == 0x0D
  }

  function SkipWs(bs: seq<byte>): (rest: seq<byte>)
    ensures |rest| <= |bs|
    ensures rest != [] ==> !IsSpace(rest[0])
  {
    if bs != [] && IsSpace(bs[0]) then SkipWs(bs[1..]) else bs
  }

  function Expect(bs: seq<byte>, b: byte): Step<()> {
    if Starts(bs, b) then Parsed((), bs[1..]) else Failed(ExpectedByte(b), bs)
  }

  function TakeLiteral<T>(bs: seq<byte>, literal: seq<byte>, value: T): Step<T> {
    if literal <= bs then Parsed(value, bs[|literal|..]) else Failed(ExpectedLiteral(literal), bs)
  }

  // Strings

  predicate IsHex(b: byte) {
    0x30 <= b <= 0x39 || 0x41 <= b <= 0x46 || 0x61 <= b <= 0x66
  }

  function HexValue(b: byte): (n: nat)
    requires IsHex(b)
    ensures n < 16
  {
    if b <= 0x39 then b - 0x30 else if b <= 0x46 then b - 0x41 + 10 else b - 0x61 + 10
  }

  /** The four bytes `u32::from_str_radix(_, 16)` accepts: a leading `+` is allowed. */
  predicate IsHex4(hex: seq<byte>) {
    && |hex| == 4
    && (IsHex(hex[0]) || hex[0] == PLUS)
    && IsHex(hex[1]) && IsHex(hex[2]) && IsHex(hex[3])
  }

  function Hex4Value(hex: seq<byte>): (n: nat)
    requires IsHex4(hex)
    ensures n < 0x1_0000
  {
    var high := if hex[0] == PLUS then 0 else HexValue(hex[0]);
    high * 0x1000 + HexValue(hex[1]) * 0x100 + HexValue(hex[2]) * 0x10 + HexValue(hex[3])
  }

  function ParseHex4(bs: seq<byte>): (r: Step<nat>)
    ensures r.Parsed? ==> r.value < 0x1_0000 && |r.rest| + 4 == |bs|
  {
    if |bs| < 4 then
      Failed(TruncatedEscape, bs)
    else if IsHex4(bs[..4]) then
      Parsed(Hex4Value(bs[..4]), bs[4..])
    else
      Failed(InvalidUnicodeEscape, bs)
  }

  predicate IsHighSurrogate(n: int) {
    0xD800 <= n <= 0xDBFF
  }

  predicate IsLowSurrogate(n: int) {
    0xDC00 <= n <= 0xDFFF
  }

  /** The supplementary code point two surrogates stand for. */
  function Combine(high: int, low: int): int {
    0x1_0000 + (high - 0xD800) * 0x400 + (low - 0xDC00)
  }

  /** The escape after `\u`. */
  function ParseUnicode(bs: seq<byte>): (r: Step<char>)
    ensures r.Parsed? ==> |r.rest| < |bs|
  {
    var (code, afterCode) :- ParseHex4(bs);
    if IsHighSurrogate(code) then
      if |afterCode| >= 2 && afterCode[0] == BACKSLASH && afterCode[1] == LOWER_U then
        var (low, afterLow) :- ParseHex4(afterCode[2..]);
        if !IsLowSurrogate(low) then
          Failed(InvalidLowSurrogate, afterLow)
        else if IsScalar(Combine(code, low)) then
          Parsed(Combine(code, low) as char, afterLow)
        else
          Failed(InvalidSurrogatePair, afterLow)
      else
        Failed(UnpairedHighSurrogate, afterCode)
    else if IsScalar(code) then
      Parsed(code as char, afterCode)
    else
      Failed(InvalidUnicodeEscape, afterCode)
  }

  /** The character a one-letter escape stands for. */
  function ShortEscape(letter: byte): Option<char> {
    if letter == QUOTE then Some('"')
    else if letter == BACKSLASH then Some('\\')
    else if letter == SLASH then Some('/')
    else if letter == LOWER_B then Some(8 as char)
    else if letter == LOWER_F then Some(12 as char)
    else if letter == LOWER_N then Some('\n')
    else if letter == LOWER_R then Some('\r')
    else if letter == LOWER_T then Some('\t')
    else None
  }

  /** An escape, from the byte after the backslash. */
  function ParseEscape(bs: seq<byte>): (r: Step<char>)
    ensures r.Parsed? ==> |r.rest| < |bs|
  {
    if bs == [] then
      Failed(InvalidEscape, bs)
    else if ShortEscape(bs[0]).Some? then
      Parsed(ShortEscape(bs[0]).value, bs[1..])
    else if bs[0] == LOWER_U then
      ParseUnicode(bs[1..])
    else
      Failed(InvalidEscape, bs)
  }

  /** One character copied as it stands; all that is left must be well-formed UTF-8. */
  function CopyChar(bs: seq<byte>): (r: Step<char>)
    requires bs != []
    ensures r.Parsed? ==> |r.rest| < |bs|
  {
    match Decode(bs)
    case None => Failed(InvalidUtf8, bs)
    case Some(s) =>
      if s == [] || |EncodeChar(s[0])| > |bs| then
        Failed(EmptyText, bs)
      else
        Parsed(s[0], bs[|EncodeChar(s[0])|..])
  }

  /** One character of a string, escaped or copied. */
  function ParseChar(bs: seq<byte>): (r: Step<char>)
    requires bs != []
    ensures r.Parsed? ==> |r.rest| < |bs|
  {
    if bs[0] == BACKSLASH then ParseEscape(bs[1..]) else CopyChar(bs)
  }

  /** The characters up to the closing quote, after those in `read`. */
  function ParseChars(bs: seq<byte>, read: string): (r: Step<string>)
    ensures r.Parsed? ==> |r.rest| < |bs|
    decreases |bs|
  {
    if bs == [] then
      Failed(UnterminatedString, bs)
    else if bs[0] == QUOTE then
      Parsed(read, bs[1..])
    else
      var (c, rest) :- ParseChar(bs);
      ParseChars(rest, read + [c])
  }

  function ParseString(bs: seq<byte>): (r: Step<string>)
    ensures r.Parsed? ==> |r.rest| < |bs|
  {
    var (_, rest) :- Expect(bs, QUOTE);
    ParseChars(rest, [])
  }

  // Values

  function ParseNumber(bs: seq<byte>): Step<Value> {
    var (lit, rest) := Read(bs);
    match NumberOf(lit)
    case None => Failed(InvalidNumber, rest)
    case Some(n) => Parsed(Num(n), rest)
  }

  lemma ParseNumberShrinks(bs: seq<byte>)
    ensures ParseNumber(bs).Parsed? ==> |ParseNumber(bs).rest| < |bs|
  {
    var (lit, rest) := Read(bs);
    assert |bs| == |Text(lit)| + |rest|;
    if |Text(lit)| == 0 {
      assert Mantissa(lit) == [];
    }
  }

  function ParseValue(bs: seq<byte>): (r: Step<Value>)
    ensures r.Parsed? ==> |r.rest| < |bs|
    decreases |bs|, 2
  {
    var at := SkipWs(bs);
    if at == [] then
      Failed(UnexpectedByte, at)
    else if at[0] == LBRACE then
      ParseObject(at)
    else if at[0] == LBRACKET then
      ParseArray(at)
    else if at[0] == QUOTE then
      var (s, rest) :- ParseString(at);
      Parsed(Str(s), rest)
    else if at[0] == LOWER_T then
      TakeLiteral(at, TRUE_TEXT, Bool(true))
    else if at[0] == LOWER_F then
      TakeLiteral(at, FALSE_TEXT, Bool(false))
    else if at[0] == LOWER_N then
      TakeLiteral(at, NULL_TEXT, Null)
    else if at[0] == MINUS || Digits.IsDigit(at[0]) then
      ParseNumberShrinks(at);
      ParseNumber(at)
    else
      Failed(UnexpectedByte, at)
  }

  function ParseObject(bs: seq<byte>): (r: Step<Value>)
    ensures r.Parsed? ==> |r.rest| < |bs|
    decreases |bs|, 1
  {
    var (_, inside) :- Expect(bs, LBRACE);
    var at := SkipWs(inside);
    if Starts(at, RBRACE) then Parsed(Object([]), at[1..]) else ParseMembers(at, [])
  }

  /** What follows a member or an item: a comma (more to come) or the closing byte. */
  function ParseSeparator(bs: seq<byte>, close: byte): (r: Step<bool>)
    ensures r.Parsed? ==> |r.rest| < |bs|
  {
    var at := SkipWs(bs);
    if Starts(at, COMMA) then
      Parsed(true, at[1..])
    else if Starts(at, close) then
      Parsed(false, at[1..])
    else
      Failed(ExpectedCommaOrClose(close), at)
  }

  function ParseMember(bs: seq<byte>): (r: Step<Entry>)
    ensures r.Parsed? ==> |r.rest| < |bs|
    decreases |bs|, 0
  {
    var (key, afterKey) :- ParseString(SkipWs(bs));
    var (_, afterColon) :- Expect(SkipWs(afterKey), COLON);
    var (value, afterValue) :- ParseValue(afterColon);
    Parsed(Entry(key, value), afterValue)
  }

  /** The members still to come, after those recorded in `entries`. */
  function ParseMembers(bs: seq<byte>, entries: seq<Entry>): (r: Step<Value>)
    ensures r.Parsed? ==> |r.rest| < |bs|
    decreases |bs|, 1
  {
    var (member, afterValue) :- ParseMember(bs);
    var recorded := Upsert(entries, member.key, member.value);
    var (more, rest) :- ParseSeparator(afterValue, RBRACE);
    if more then ParseMembers(rest, recorded) else Parsed(Object(recorded), rest)
  }

  function ParseArray(bs: seq<byte>): (r: Step<Value>)
    ensures r.Parsed? ==> |r.rest| < |bs|
    decreases |bs|, 1
  {
    var (_, inside) :- Expect(bs, LBRACKET);
    var at := SkipWs(inside);
    if Starts(at, RBRACKET) then Parsed(Array([]), at[1..]) else ParseItems(at, [])
  }

  /** The items still to come, after `items`. */
  function ParseItems(bs: seq<byte>, items: seq<Value>): (r: Step<Value>)
    ensures r.Parsed? ==> |r.rest| < |bs|
    decreases |bs|, 3
  {
    var (value, afterValue) :- ParseValue(bs);
    var (more, rest) :- ParseSeparator(afterValue, RBRACKET);
    if more then ParseItems(rest, items + [value]) else Parsed(Array(items + [value]), rest)
  }

  /** `Value::parse` on the bytes of its argument. */
  function ParseBytes(bs: seq<byte>): Step<Value> {
    var (value, rest) :- ParseValue(SkipWs(bs));
    var at := SkipWs(rest);
    if at == [] then Parsed(value, at) else Failed(TrailingData, at)
  }

  /** `Value::parse`: a `&str` is well-formed UTF-8 by its type. */
  function Parse(input: string): Result<Value, Error> {
    ParseBytes(Encode(input)).Result()
  }
}
