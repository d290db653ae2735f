/** The mutable-cursor parser; every method is proved against its function in `JsonSpec`. */
module JsonParser {
  import opened Wrappers
  import opened Sequences
  import opened Utf8
  import opened JsonLiteral
  import opened JsonNumber
  import opened JsonValue
  import opened JsonSpec
  import Digits

  class Parser {
    const bytes: seq<byte>
    var pos: nat

    constructor (bytes: seq<byte>)
      ensures this.bytes == bytes && pos == 0
    {
      this.bytes := bytes;
      pos := 0;
    }

    ghost predicate Valid()
      reads this
    {
      pos <= |bytes|
    }

    /** The bytes still unread. */
    ghost function Rest(): seq<byte>
      requires Valid()
      reads this
    {
      bytes[pos..]
    }

    /** The method returned what `s` says and left the cursor where `s` says. */
    ghost predicate Reached<T>(r: Result<T, Error>, s: Step<T>)
      reads this
    {
      Valid() && Rest() == s.rest && r == s.Result()
    }

    function Peek(): Option<byte>
      reads this
    {
      if pos < |bytes| then Some(bytes[pos]) else None
    }

    method SkipWhitespace()
      requires Valid()
      modifies this
      ensures Valid() && old(pos) <= pos && Rest() == SkipWs(old(Rest()))
    {
      while pos < |bytes| && IsSpace(bytes[pos])
        invariant Valid() && old(pos) <= pos
        invariant SkipWs(Rest()) == SkipWs(old(Rest()))
      {
        pos := pos + 1;
      }
    }

    method ExpectByte(b: byte) returns (r: Result<(), Error>)
      requires Valid()
      modifies this
      ensures Reached(r, Expect(old(Rest()), b)) && old(pos) <= pos
      ensures r.Ok? ==> pos == old(pos) + 1
    {
      if Peek() == Some(b) {
        pos := pos + 1;
        r := Ok(());
      } else {
        r := Err(ExpectedByte(b));
      }
    }

    method TakeText(literal: seq<byte>, value: Value) returns (r: Result<Value, Error>)
      requires Valid()
      modifies this
      ensures Reached(r, TakeLiteral(old(Rest()), literal, value)) && old(pos) <= pos
    {
      var end := pos + |literal|;
      if end <= |bytes| && bytes[pos..end] == literal {
        assert bytes[pos..][..|literal|] == literal;
        pos := end;
        r := Ok(value);
      } else {
        if |literal| <= |Rest()| {
          assert Rest()[..|literal|] == bytes[pos..end];
        }
        r := Err(ExpectedLiteral(literal));
      }
    }

    method ParseHex() returns (r: Result<nat, Error>)
      requires Valid()
      modifies this
      ensures Reached(r, ParseHex4(old(Rest()))) && old(pos) <= pos
      ensures r.Ok? ==> r.value < 0x1_0000
    {
      if |bytes| < pos + 4 {
        return Err(TruncatedEscape);
      }
      var hex := bytes[pos..pos + 4];
      assert hex == Rest()[..4];
      if IsHex4(hex) {
        pos := pos + 4;
        r := Ok(Hex4Value(hex));
      } else {
        r := Err(InvalidUnicodeEscape);
      }
    }

    method ParseUnicodeEscape() returns (r: Result<char, Error>)
      requires Valid()
      modifies this
      ensures Reached(r, ParseUnicode(old(Rest()))) && old(pos) <= pos
    {
      var code :- ParseHex();
      if IsHighSurrogate(code) {
        if pos + 2 <= |bytes| && bytes[pos] == BACKSLASH && bytes[pos + 1] == LOWER_U {
          pos := pos + 2;
          var low :- ParseHex();
          if !IsLowSurrogate(low) {
            return Err(InvalidLowSurrogate);
          }
          var c := Combine(code, low);
          r := if IsScalar(c) then Ok(c as char) else Err(InvalidSurrogatePair);
        } else {
          r := Err(UnpairedHighSurrogate);
        }
      } else {
        r := if IsScalar(code) then Ok(code as char) else Err(InvalidUnicodeEscape);
      }
    }

    method ParseOneEscape() returns (r: Result<char, Error>)
      requires Valid()
      modifies this
      ensures Reached(r, ParseEscape(old(Rest()))) && old(pos) <= pos
    {
      match Peek() {
        case None =>
          r := Err(InvalidEscape);
        case Some(b) =>
          if ShortEscape(b).Some? {
            pos := pos + 1;
            r := Ok(ShortEscape(b).value);
          } else if b == LOWER_U {
            pos := pos + 1;
            r := ParseUnicodeEscape();
          } else {
            r := Err(InvalidEscape);
          }
      }
    }

    method CopyOneChar() returns (r: Result<char, Error>)
      requires pos < |bytes|
      modifies this
      ensures Reached(r, CopyChar(old(Rest()))) && old(pos) <= pos
      ensures r.Ok? ==> old(pos) < pos
    {
      var rest := bytes[pos..];
      match Decode(rest) {
        case None =>
          r := Err(InvalidUtf8);
        case Some(s) =>
          if s == [] || |EncodeChar(s[0])| > |rest| {
            r := Err(EmptyText);
          } else {
            pos := pos + |EncodeChar(s[0])|;
            r := Ok(s[0]);
          }
      }
    }

    /** One turn of the string loop, away from the closing quote and the end. */
    method ParseOneChar() returns (r: Result<char, Error>)
      requires pos < |bytes|
      modifies this
      ensures Reached(r, ParseChar(old(Rest()))) && old(pos) <= pos
      ensures r.Ok? ==> old(pos) < pos
    {
      if bytes[pos] == BACKSLASH {
        pos := pos + 1;
        r := ParseOneEscape();
      } else {
        r := CopyOneChar();
      }
    }

    method ParseText() returns (r: Result<string, Error>)
      requires Valid()
      modifies this
      ensures Reached(r, ParseString(old(Rest()))) && old(pos) <= pos
      ensures r.Ok? ==> old(pos) < pos
    {
      var _ :- ExpectByte(QUOTE);
      var s := [];
      while true
        invariant Valid() && old(pos) < pos
        invariant ParseChars(Rest(), s) == ParseString(old(Rest()))
        decreases |bytes| - pos
      {
        match Peek() {
          case None =>
            return Err(UnterminatedString);
          case Some(b) =>
            if b == QUOTE {
              pos := pos + 1;
              return Ok(s);
            }
            var c :- ParseOneChar();
            s := s + [c];
        }
      }
    }

    method SkipDigits()
      requires Valid()
      modifies this
      ensures Valid() && old(pos) <= pos
      ensures var before := old(Rest()); Rest() == before[|Digits.Run(before)|..]
    {
      while pos < |bytes| && Digits.IsDigit(bytes[pos])
        invariant Valid() && old(pos) <= pos
        invariant |Digits.Run(old(Rest()))| == (pos - old(pos)) + |Digits.Run(Rest())|
      {
        pos := pos + 1;
      }
    }

    method SkipFraction()
      requires Valid()
      modifies this
      ensures Valid() && old(pos) <= pos && Rest() == ReadFraction(old(Rest())).1
    {
      if Peek() == Some(DOT) {
        pos := pos + 1;
        SkipDigits();
      }
    }

    method SkipSigned()
      requires Valid()
      modifies this
      ensures Valid() && old(pos) <= pos && Rest() == ReadSigned(old(Rest())).2
    {
      if Peek() == Some(PLUS) || Peek() == Some(MINUS) {
        pos := pos + 1;
      }
      SkipDigits();
    }

    method SkipExponent()
      requires Valid()
      modifies this
      ensures Valid() && old(pos) <= pos && Rest() == ReadExponent(old(Rest())).1
    {
      if Peek() == Some(LOWER_E) || Peek() == Some(UPPER_E) {
        pos := pos + 1;
        SkipSigned();
      }
    }

    method SkipNumber()
      requires Valid()
      modifies this
      ensures Valid() && old(pos) <= pos && Rest() == Read(old(Rest())).1
    {
      ghost var before := Rest();
      if Peek() == Some(MINUS) {
        pos := pos + 1;
      }
      ReadInSteps(before, Rest());
      SkipDigits();
      SkipFraction();
      SkipExponent();
    }

    method ParseNum() returns (r: Result<Value, Error>)
      requires Valid()
      modifies this
      ensures Reached(r, ParseNumber(old(Rest()))) && old(pos) <= pos
    {
      var start := pos;
      SkipNumber();
      Slices(bytes, start, pos);
      var number := ReadNumber(bytes[start..pos], bytes[start..], bytes[pos..]);
      return number;
    }

    method ParseAny() returns (r: Result<Value, Error>)
      requires Valid()
      modifies this
      ensures Reached(r, ParseValue(old(Rest()))) && old(pos) <= pos
      ensures r.Ok? ==> old(pos) < pos
      decreases |bytes| - pos, 2
    {
      SkipWhitespace();
      match Peek() {
        case None =>
          r := Err(UnexpectedByte);
        case Some(b) =>
          if b == LBRACE {
            r := ParseObj();
          } else if b == LBRACKET {
            r := ParseArr();
          } else if b == QUOTE {
            var s :- ParseText();
            r := Ok(Str(s));
          } else if b == LOWER_T {
            r := TakeText(TRUE_TEXT, Bool(true));
          } else if b == LOWER_F {
            r := TakeText(FALSE_TEXT, Bool(false));
          } else if b == LOWER_N {
            r := TakeText(NULL_TEXT, Null);
          } else if b == MINUS || Digits.IsDigit(b) {
            r := ParseNum();
          } else {
            r := Err(UnexpectedByte);
          }
      }
    }

    method ParseOneMember() returns (r: Result<Entry, Error>)
      requires Valid()
      modifies this
      ensures Reached(r, ParseMember(old(Rest()))) && old(pos) <= pos
      ensures r.Ok? ==> old(pos) < pos
      decreases |bytes| - pos, 0
    {
      SkipWhitespace();
      var key :- ParseText();
      SkipWhitespace();
      var _ :- ExpectByte(COLON);
      var value :- ParseAny();
      r := Ok(Entry(key, value));
    }

    method ParseSeparatorByte(close: byte) returns (r: Result<bool, Error>)
      requires Valid()
      modifies this
      ensures Reached(r, ParseSeparator(old(Rest()), close)) && old(pos) <= pos
      ensures r.Ok? ==> old(pos) < pos
    {
      SkipWhitespace();
      if Peek() == Some(COMMA) {
        pos := pos + 1;
        r := Ok(true);
      } else if Peek() == Some(close) {
        pos := pos + 1;
        r := Ok(false);
      } else {
        r := Err(ExpectedCommaOrClose(close));
      }
    }

    method ParseObj() returns (r: Result<Value, Error>)
      requires Valid()
      modifies this
      ensures Reached(r, ParseObject(old(Rest()))) && old(pos) <= pos
      decreases |bytes| - pos, 1
    {
      var _ :- ExpectByte(LBRACE);
      SkipWhitespace();
      if Peek() == Some(RBRACE) {
        pos := pos + 1;
        return Ok(Object([]));
      }
      r := ParseMemberLoop();
    }

    /** The loop of `parse_object`. */
    method ParseMemberLoop() returns (r: Result<Value, Error>)
      requires Valid()
      modifies this
      ensures Reached(r, ParseMembers(old(Rest()), [])) && old(pos) <= pos
      decreases |bytes| - pos, 1
    {
      ghost var goal := ParseMembers(Rest(), []);
      var entries := [];
      var more := true;
      while more
        invariant Valid() && old(pos) <= pos
        invariant goal == if more then ParseMembers(Rest(), entries) else Parsed(Object(entries), Rest())
        decreases more, |bytes| - pos
      {
        var member :- ParseOneMember();
        entries := Upsert(entries, member.key, member.value);
        more :- ParseSeparatorByte(RBRACE);
      }
      r := Ok(Object(entries));
    }

    method ParseArr() returns (r: Result<Value, Error>)
      requires Valid()
      modifies this
      ensures Reached(r, ParseArray(old(Rest()))) && old(pos) <= pos
      decreases |bytes| - pos, 1
    {
      var _ :- ExpectByte(LBRACKET);
      SkipWhitespace();
      if Peek() == Some(RBRACKET) {
        pos := pos + 1;
        return Ok(Array([]));
      }
      r := ParseItemLoop();
    }

    /** The loop of `parse_array`. */
    method ParseItemLoop() returns (r: Result<Value, Error>)
      requires Valid()
      modifies this
      ensures Reached(r, ParseItems(old(Rest()), [])) && old(pos) <= pos
      decreases |bytes| - pos, 3
    {
      ghost var goal := ParseItems(Rest(), []);
      var items := [];
      var more := true;
      while more
        invariant Valid() && old(pos) <= pos
        invariant goal == if more then ParseItems(Rest(), items) else Parsed(Array(items), Rest())
        decreases more, |bytes| - pos
      {
        var value :- ParseAny();
        items := items + [value];
        more :- ParseSeparatorByte(RBRACKET);
      }
      r := Ok(Array(items));
    }
  }

  lemma ReadInSteps(bs: seq<byte>, unsigned: seq<byte>)
    requires unsigned == if Starts(bs, MINUS) then bs[1..] else bs
    ensures Read(bs).1 == ReadExponent(ReadFraction(unsigned[|Digits.Run(unsigned)|..]).1).1
  {
  }

  /** The scanned slice is the literal's text, so `f64` parsing sees that literal. */
  method ReadNumber(text: seq<byte>, ghost before: seq<byte>, ghost rest: seq<byte>) returns (r: Result<Value, Error>)
    requires before == text + rest && rest == Read(before).1
    ensures ParseNumber(before).rest == rest && r == ParseNumber(before).Result()
  {
    ghost var lit := Read(before).0;
    SamePrefix(text, Text(lit), rest);
    ParseF64OfText(lit);
    match ParseF64(text) {
      case None => r := Err(InvalidNumber);
      case Some(n) => r := Ok(Num(n));
    }
  }

  /** `Value::parse`. */
  method ParseJson(input: string) returns (r: Result<Value, Error>)
    ensures r == Parse(input)
  {
    var p := new Parser(Encode(input));
    p.SkipWhitespace();
    var value :- p.ParseAny();
    p.SkipWhitespace();
    if p.pos != |p.bytes| {
      return Err(TrailingData);
    }
    r := Ok(value);
  }
}
