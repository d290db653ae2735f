/** On well-formed UTF-8 the cursor always stops on a character boundary, so the errors that
    blame the encoding cannot occur. */
module JsonBoundaries {
  import opened Utf8
  import opened JsonLiteral
  import opened JsonValue
  import opened JsonWriter
  import opened JsonSpec
  import Digits

  predicate Unreachable(e: Error) {
    e == InvalidUtf8 || e == EmptyText || e == InvalidSurrogatePair
  }

  /** Stopped on a boundary, and not for one of the unreachable reasons. */
  predicate OnBoundary<T>(s: Step<T>) {
    Valid(s.rest) && (s.Failed? ==> !Unreachable(s.error))
  }

  lemma DropAscii(bs: seq<byte>, k: nat)
    requires Valid(bs) && k <= |bs| && Ascii(bs[..k])
    ensures Valid(bs[k..])
  {
    assert bs == bs[..k] + bs[k..];
    ValidAfterAscii(bs[..k], bs[k..]);
  }

  lemma {:induction false} SkipWsBoundary(bs: seq<byte>)
    requires Valid(bs)
    ensures Valid(SkipWs(bs))
  {
    if bs != [] && IsSpace(bs[0]) {
      DropAscii(bs, 1);
      SkipWsBoundary(bs[1..]);
    }
  }

  lemma ExpectBoundary(bs: seq<byte>, b: byte)
    requires Valid(bs) && b < 0x80
    ensures OnBoundary(Expect(bs, b))
  {
    if Starts(bs, b) {
      DropAscii(bs, 1);
    }
  }

  lemma TakeLiteralBoundary<T>(bs: seq<byte>, literal: seq<byte>, value: T)
    requires Valid(bs) && Ascii(literal)
    ensures OnBoundary(TakeLiteral(bs, literal, value))
  {
    if literal <= bs {
      assert bs[..|literal|] == literal;
      DropAscii(bs, |literal|);
    }
  }

  lemma ParseHex4Boundary(bs: seq<byte>)
    requires Valid(bs)
    ensures OnBoundary(ParseHex4(bs))
  {
    if ParseHex4(bs).Parsed? {
      DropAscii(bs, 4);
    }
  }

  /** Surrogate pairs and supplementary code points correspond one to one. */
  lemma SurrogatePairs(high: int, low: int, n: int)
    requires IsHighSurrogate(high) && IsLowSurrogate(low)
    ensures 0x1_0000 <= Combine(high, low) <= 0x10_FFFF && IsScalar(Combine(high, low))
    ensures Combine(high, low) == n
       <==> high == 0xD800 + (n - 0x1_0000) / 0x400 && low == 0xDC00 + (n - 0x1_0000) % 0x400
  {
    var m := n - 0x1_0000;
    var h, l := high - 0xD800, low - 0xDC00;
    assert 0 <= l < 0x400;
    assert m == h * 0x400 + l <==> m / 0x400 == h && m % 0x400 == l;
  }

  /** Every supplementary code point has a pair that spells it. */
  lemma SurrogatePairsOnto(n: int)
    requires 0x1_0000 <= n <= 0x10_FFFF
    ensures var high, low := 0xD800 + (n - 0x1_0000) / 0x400, 0xDC00 + (n - 0x1_0000) % 0x400;
            IsHighSurrogate(high) && IsLowSurrogate(low) && Combine(high, low) == n
  {
  }

  lemma ParseUnicodeBoundary(bs: seq<byte>)
    requires Valid(bs)
    ensures OnBoundary(ParseUnicode(bs))
  {
    ParseHex4Boundary(bs);
    var code := ParseHex4(bs);
    if code.Parsed? && IsHighSurrogate(code.value) && |code.rest| >= 2
       && code.rest[0] == BACKSLASH && code.rest[1] == LOWER_U {
      DropAscii(code.rest, 2);
      ParseHex4Boundary(code.rest[2..]);
      var low := ParseHex4(code.rest[2..]);
      if low.Parsed? && IsLowSurrogate(low.value) {
        SurrogatePairs(code.value, low.value, 0);
      }
    }
  }

  lemma ParseCharBoundary(bs: seq<byte>)
    requires Valid(bs) && bs != []
    ensures OnBoundary(ParseChar(bs))
  {
    if bs[0] == BACKSLASH {
      DropAscii(bs, 1);
      var rest := bs[1..];
      if rest != [] && rest[0] < 0x80 {
        DropAscii(rest, 1);
        if rest[0] == LOWER_U {
          ParseUnicodeBoundary(rest[1..]);
        }
      }
    } else {
      ValidAfterFirst(bs);
    }
  }

  lemma {:induction false} ParseCharsBoundary(bs: seq<byte>, read: string)
    requires Valid(bs)
    ensures OnBoundary(ParseChars(bs, read))
    decreases |bs|
  {
    if bs != [] {
      if bs[0] == QUOTE {
        DropAscii(bs, 1);
      } else {
        ParseCharBoundary(bs);
        var c := ParseChar(bs);
        if c.Parsed? {
          ParseCharsBoundary(c.rest, read + [c.value]);
        }
      }
    }
  }

  lemma ParseStringBoundary(bs: seq<byte>)
    requires Valid(bs)
    ensures OnBoundary(ParseString(bs))
  {
    ExpectBoundary(bs, QUOTE);
    if Starts(bs, QUOTE) {
      ParseCharsBoundary(bs[1..], []);
    }
  }

  lemma ParseNumberBoundary(bs: seq<byte>)
    requires Valid(bs)
    ensures OnBoundary(ParseNumber(bs))
  {
    NumberStops(bs);
    AfterLiteral(Read(bs).0, Read(bs).1);
  }

  lemma NumberStops(bs: seq<byte>)
    ensures ParseNumber(bs).rest == Read(bs).1
    ensures ParseNumber(bs).Failed? ==> ParseNumber(bs).error == InvalidNumber
  {
  }

  lemma AfterLiteral(lit: ShapedLiteral, rest: seq<byte>)
    requires Valid(Text(lit) + rest)
    ensures Valid(rest)
  {
    LiteralAscii(lit);
    ValidAfterAscii(Text(lit), rest);
  }

  lemma {:induction false} ParseValueBoundary(bs: seq<byte>)
    requires Valid(bs)
    ensures OnBoundary(ParseValue(bs))
    decreases |bs|, 2
  {
    SkipWsBoundary(bs);
    var at := SkipWs(bs);
    if at != [] {
      if at[0] == LBRACE {
        ParseObjectBoundary(at);
      } else if at[0] == LBRACKET {
        ParseArrayBoundary(at);
      } else if at[0] == QUOTE {
        ParseStringBoundary(at);
      } else if at[0] == LOWER_T {
        TakeLiteralBoundary(at, TRUE_TEXT, Bool(true));
      } else if at[0] == LOWER_F {
        TakeLiteralBoundary(at, FALSE_TEXT, Bool(false));
      } else if at[0] == LOWER_N {
        TakeLiteralBoundary(at, NULL_TEXT, Null);
      } else if at[0] == MINUS || Digits.IsDigit(at[0]) {
        ParseNumberBoundary(at);
      }
    }
  }

  lemma {:induction false} ParseObjectBoundary(bs: seq<byte>)
    requires Valid(bs)
    ensures OnBoundary(ParseObject(bs))
    decreases |bs|, 1
  {
    ExpectBoundary(bs, LBRACE);
    if Starts(bs, LBRACE) {
      SkipWsBoundary(bs[1..]);
      var at := SkipWs(bs[1..]);
      if Starts(at, RBRACE) {
        DropAscii(at, 1);
      } else {
        ParseMembersBoundary(at, []);
      }
    }
  }

  lemma ParseSeparatorBoundary(bs: seq<byte>, close: byte)
    requires Valid(bs) && close < 0x80
    ensures OnBoundary(ParseSeparator(bs, close))
  {
    SkipWsBoundary(bs);
    var at := SkipWs(bs);
    if Starts(at, COMMA) || Starts(at, close) {
      DropAscii(at, 1);
    }
  }

  lemma {:induction false} ParseMemberBoundary(bs: seq<byte>)
    requires Valid(bs)
    ensures OnBoundary(ParseMember(bs))
    decreases |bs|, 0
  {
    SkipWsBoundary(bs);
    ParseStringBoundary(SkipWs(bs));
    var key := ParseString(SkipWs(bs));
    if key.Parsed? {
      SkipWsBoundary(key.rest);
      ExpectBoundary(SkipWs(key.rest), COLON);
      var colon := Expect(SkipWs(key.rest), COLON);
      if colon.Parsed? {
        ParseValueBoundary(colon.rest);
      }
    }
  }

  lemma {:induction false} ParseMembersBoundary(bs: seq<byte>, entries: seq<Entry>)
    requires Valid(bs)
    ensures OnBoundary(ParseMembers(bs, entries))
    decreases |bs|, 1
  {
    ParseMemberBoundary(bs);
    var member := ParseMember(bs);
    if member.Parsed? {
      ParseSeparatorBoundary(member.rest, RBRACE);
      var separator := ParseSeparator(member.rest, RBRACE);
      if separator.Parsed? && separator.value {
        ParseMembersBoundary(separator.rest, Upsert(entries, member.value.key, member.value.value));
      }
    }
  }

  lemma {:induction false} ParseArrayBoundary(bs: seq<byte>)
    requires Valid(bs)
    ensures OnBoundary(ParseArray(bs))
    decreases |bs|, 1
  {
    ExpectBoundary(bs, LBRACKET);
    if Starts(bs, LBRACKET) {
      SkipWsBoundary(bs[1..]);
      var at := SkipWs(bs[1..]);
      if Starts(at, RBRACKET) {
        DropAscii(at, 1);
      } else {
        ParseItemsBoundary(at, []);
      }
    }
  }

  lemma {:induction false} ParseItemsBoundary(bs: seq<byte>, items: seq<Value>)
    requires Valid(bs)
    ensures OnBoundary(ParseItems(bs, items))
    decreases |bs|, 3
  {
    ParseValueBoundary(bs);
    var value := ParseValue(bs);
    if value.Parsed? {
      ParseSeparatorBoundary(value.rest, RBRACKET);
      var separator := ParseSeparator(value.rest, RBRACKET);
      if separator.Parsed? && separator.value {
        ParseItemsBoundary(separator.rest, items + [value.value]);
      }
    }
  }

  /** No `&str` makes the parser report "invalid utf-8", "unexpected end of string" or
      "invalid surrogate pair". */
  lemma EncodingErrorsUnreachable(input: string)
    ensures Parse(input).Err? ==> !Unreachable(Parse(input).error)
  {
    DecodeEncode(input);
    SkipWsBoundary(Encode(input));
    ParseValueBoundary(SkipWs(Encode(input)));
  }
}
