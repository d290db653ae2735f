/** Every legal text parses, to the value it means, and the parser stops exactly at its end. */
module JsonAccepts {
  import opened Sequences
  import opened Utf8
  import opened JsonLiteral
  import opened JsonNumber
  import opened JsonValue
  import opened JsonSpec
  import opened JsonSyntax
  import opened JsonBoundaries
  import Digits

  lemma {:induction false} SkipGap(ws: seq<byte>, tail: seq<byte>)
    requires IsGap(ws)
    ensures SkipWs(ws + tail) == SkipWs(tail)
  {
    if ws == [] {
      assert ws + tail == tail;
    } else {
      assert (ws + tail)[1..] == ws[1..] + tail;
      SkipGap(ws[1..], tail);
    }
  }

  lemma ParseValueAfterGap(ws: seq<byte>, tail: seq<byte>)
    requires IsGap(ws)
    ensures ParseValue(ws + tail) == ParseValue(tail)
  {
    SkipGap(ws, tail);
  }

  // Strings

  lemma ParsesHex4(hex: seq<byte>, tail: seq<byte>)
    requires IsHex4(hex)
    ensures ParseHex4(hex + tail) == Parsed(Hex4Value(hex), tail)
  {
    assert (hex + tail)[..4] == hex;
  }

  lemma ParsesPair(high: seq<byte>, low: seq<byte>, tail: seq<byte>)
    requires PieceOk(Pair(high, low))
    ensures ParseUnicode(high + (([BACKSLASH, LOWER_U] + low) + tail)) == Parsed(PieceChar(Pair(high, low)), tail)
  {
    var afterHigh := ([BACKSLASH, LOWER_U] + low) + tail;
    ParsesHex4(high, afterHigh);
    assert afterHigh[2..] == low + tail;
    ParsesHex4(low, tail);
    SurrogatePairs(Hex4Value(high), Hex4Value(low), 0);
  }

  lemma ParsesRaw(c: char, tail: seq<byte>)
    requires PieceOk(Raw(c))
    requires Valid(EncodeChar(c) + tail)
    ensures ParseChar(EncodeChar(c) + tail) == Parsed(c, tail)
    ensures EncodeChar(c)[0] != QUOTE
  {
    var bs := EncodeChar(c) + tail;
    DecodeFirstOfEncoding(c, tail);
    assert bs[0] == EncodeChar(c)[0];
    assert bs[0] < 0x80 ==> bs[0] as char == c;
    assert bs[|EncodeChar(c)|..] == tail;
  }

  lemma ParsesPiece(p: Piece, tail: seq<byte>)
    requires PieceOk(p)
    requires Valid(PieceText(p) + tail)
    ensures PieceText(p) != [] && PieceText(p)[0] != QUOTE
    ensures ParseChar(PieceText(p) + tail) == Parsed(PieceChar(p), tail)
  {
    var bs := PieceText(p) + tail;
    match p
    case Raw(c) =>
      ParsesRaw(c, tail);
    case Short(letter) =>
      assert bs[1..] == [letter] + tail;
    case Code(hex) =>
      assert bs[1..] == [LOWER_U] + (hex + tail);
      assert bs[1..][1..] == hex + tail;
      ParsesHex4(hex, tail);
    case Pair(high, low) =>
      var rest := high + (([BACKSLASH, LOWER_U] + low) + tail);
      assert bs[1..] == [LOWER_U] + rest;
      assert bs[1..][1..] == rest;
      ParsesPair(high, low, tail);
  }

  lemma {:induction false} ParsesPieces(ps: seq<Piece>, tail: seq<byte>, read: string)
    requires PiecesOk(ps)
    requires Valid(PiecesText(ps) + ([QUOTE] + tail))
    ensures ParseChars(PiecesText(ps) + ([QUOTE] + tail), read) == Parsed(read + Chars(ps), tail)
    decreases ps
  {
    var bs := PiecesText(ps) + ([QUOTE] + tail);
    if ps == [] {
      assert bs == [QUOTE] + tail;
      assert bs[1..] == tail && read + [] == read;
    } else {
      var rest := PiecesText(ps[1..]) + ([QUOTE] + tail);
      Assoc(PieceText(ps[0]), PiecesText(ps[1..]), [QUOTE] + tail);
      ParsesPiece(ps[0], rest);
      ParseCharBoundary(bs);
      ParsesPieces(ps[1..], tail, read + [PieceChar(ps[0])]);
      Assoc(read, [PieceChar(ps[0])], Chars(ps[1..]));
    }
  }

  lemma ParsesQuoted(ps: seq<Piece>, tail: seq<byte>)
    requires PiecesOk(ps)
    requires Valid(QuotedText(ps) + tail)
    ensures ParseString(QuotedText(ps) + tail) == Parsed(Chars(ps), tail)
  {
    var bs := QuotedText(ps) + tail;
    var inside := PiecesText(ps) + ([QUOTE] + tail);
    Regroup([QUOTE], PiecesText(ps), [QUOTE], tail);
    assert ([QUOTE] + inside)[1..] == inside;
    DropAscii(bs, 1);
    ParsesPieces(ps, tail, []);
    assert [] + Chars(ps) == Chars(ps);
  }

  // Values

  lemma NumberDispatch(bs: seq<byte>)
    requires bs != [] && (bs[0] == MINUS || Digits.IsDigit(bs[0]))
    ensures ParseValue(bs) == ParseNumber(bs)
  {
    var b := bs[0];
    assert !IsSpace(b);
    assert b != LBRACE && b != LBRACKET && b != QUOTE && b != LOWER_T && b != LOWER_F && b != LOWER_N;
    var at := SkipWs(bs);
    assert at == bs;
    var number := ParseNumber(at);
  }

  lemma ParsesNumeral(lit: ShapedLiteral, tail: seq<byte>)
    requires NumeralOk(lit) && EndsNumber(tail)
    ensures ParseValue(Text(lit) + tail) == Parsed(Num(NumberOf(lit).value), tail)
  {
    ReadText(lit, tail);
    assert Text(lit)[0] == if lit.negative then MINUS else lit.whole[0];
    NumberDispatch(Text(lit) + tail);
  }

  lemma ParsesWord(v: Syntax, tail: seq<byte>)
    requires v.NullWord? || v.BoolWord?
    ensures ParseValue(SyntaxText(v) + tail) == Parsed(Meaning(v), tail)
  {
    var word := SyntaxText(v);
    var bs := word + tail;
    assert bs[0] == word[0];
    assert word <= bs && bs[|word|..] == tail;
  }

  lemma SeparatorAfterGap(ws: seq<byte>, b: byte, rest: seq<byte>, close: byte)
    requires IsGap(ws) && !IsSpace(b) && (b == COMMA || b == close)
    ensures ParseSeparator(ws + ([b] + rest), close) == Parsed(b == COMMA, rest)
    ensures close == RBRACE || close == RBRACKET ==> EndsNumber(ws + ([b] + rest))
  {
    SkipGap(ws, [b] + rest);
    assert ([b] + rest)[1..] == rest;
    assert ws == [] ==> ws + ([b] + rest) == [b] + rest;
  }

  lemma {:induction false} ParsesValue(v: Syntax, tail: seq<byte>)
    requires SyntaxOk(v)
    requires Valid(SyntaxText(v) + tail) && EndsNumber(tail)
    ensures ParseValue(SyntaxText(v) + tail) == Parsed(Meaning(v), tail)
    decreases v
  {
    var bs := SyntaxText(v) + tail;
    match v
    case NullWord =>
      ParsesWord(v, tail);
    case BoolWord(b) =>
      ParsesWord(v, tail);
    case Numeral(lit) =>
      ParsesNumeral(lit, tail);
    case Quoted(pieces) =>
      ParsesQuoted(pieces, tail);
      assert bs[0] == QUOTE;
    case List(gap, items) =>
      ListInside(gap, items, tail);
      if items != [] {
        DropAscii(bs, 1);
        ParsesItems(items, tail, []);
        assert [] + Meanings(items) == Meanings(items);
        ListFromItems(bs);
      }
    case Braces(gap, members) =>
      BracesInside(gap, members, tail);
      if members != [] {
        DropAscii(bs, 1);
        ParsesMembers(members, tail, []);
        assert [] + Pairs(members) == Pairs(members);
        BracesFromMembers(bs);
      }
  }

  lemma ListInside(gap: seq<byte>, items: seq<Item>, tail: seq<byte>)
    requires IsGap(gap)
    ensures var bs := SyntaxText(List(gap, items)) + tail;
            && Starts(bs, LBRACKET)
            && (items != [] ==> bs[1..] == ItemsText(items) + ([RBRACKET] + tail))
            && (items == [] ==> ParseValue(bs) == Parsed(Array([]), tail))
  {
    var bs := SyntaxText(List(gap, items)) + tail;
    var inside := if items == [] then gap else ItemsText(items);
    assert bs == [LBRACKET] + (inside + ([RBRACKET] + tail));
    assert bs[1..] == inside + ([RBRACKET] + tail);
    if items == [] {
      SkipGap(gap, [RBRACKET] + tail);
      assert ([RBRACKET] + tail)[1..] == tail;
    }
  }

  lemma BracesInside(gap: seq<byte>, members: seq<Member>, tail: seq<byte>)
    requires IsGap(gap)
    ensures var bs := SyntaxText(Braces(gap, members)) + tail;
            && Starts(bs, LBRACE)
            && (members != [] ==> bs[1..] == MembersText(members) + ([RBRACE] + tail))
            && (members == [] ==> ParseValue(bs) == Parsed(Object([]), tail))
  {
    var bs := SyntaxText(Braces(gap, members)) + tail;
    var inside := if members == [] then gap else MembersText(members);
    assert bs == [LBRACE] + (inside + ([RBRACE] + tail));
    assert bs[1..] == inside + ([RBRACE] + tail);
    if members == [] {
      SkipGap(gap, [RBRACE] + tail);
      assert ([RBRACE] + tail)[1..] == tail;
    }
  }

  lemma ListFromItems(bs: seq<byte>)
    requires Starts(bs, LBRACKET)
    requires ParseItems(bs[1..], []).Parsed?
    ensures ParseValue(bs) == ParseItems(bs[1..], [])
  {
    ItemsAfterSkip(bs[1..], []);
  }

  lemma BracesFromMembers(bs: seq<byte>)
    requires Starts(bs, LBRACE)
    requires ParseMembers(bs[1..], []).Parsed?
    ensures ParseValue(bs) == ParseMembers(bs[1..], [])
  {
    MembersAfterSkip(bs[1..], []);
  }

  lemma SkipTwice(bs: seq<byte>)
    ensures SkipWs(SkipWs(bs)) == SkipWs(bs)
  {
  }

  /** Where items parse, skipping whitespace first changes nothing and does not meet `]`. */
  lemma ItemsAfterSkip(bs: seq<byte>, items: seq<Value>)
    requires ParseItems(bs, items).Parsed?
    ensures ParseItems(SkipWs(bs), items) == ParseItems(bs, items)
    ensures !Starts(SkipWs(bs), RBRACKET)
  {
    SkipTwice(bs);
    assert ParseValue(SkipWs(bs)) == ParseValue(bs);
  }

  lemma MembersAfterSkip(bs: seq<byte>, entries: seq<Entry>)
    requires ParseMembers(bs, entries).Parsed?
    ensures ParseMembers(SkipWs(bs), entries) == ParseMembers(bs, entries)
    ensures !Starts(SkipWs(bs), RBRACE)
  {
    SkipTwice(bs);
    assert ParseMember(SkipWs(bs)) == ParseMember(bs);
  }

  /** An item up to the separator `b` that follows it. */
  lemma {:induction false} ParsesItem(i: Item, b: byte, rest: seq<byte>, close: byte)
    requires ItemOk(i)
    requires Valid(ItemText(i) + ([b] + rest))
    requires (b == COMMA || b == close) && (close == RBRACE || close == RBRACKET)
    ensures ParseValue(ItemText(i) + ([b] + rest)) == Parsed(Meaning(i.value), i.after + ([b] + rest))
    ensures ParseSeparator(i.after + ([b] + rest), close) == Parsed(b == COMMA, rest)
    ensures Valid(rest)
    decreases i
  {
    var tail := i.after + ([b] + rest);
    var bs := ItemText(i) + ([b] + rest);
    assert bs == i.before + (SyntaxText(i.value) + tail);
    ValidAfterAscii(i.before, SyntaxText(i.value) + tail);
    ParseValueAfterGap(i.before, SyntaxText(i.value) + tail);
    SeparatorAfterGap(i.after, b, rest, close);
    ParsesValue(i.value, tail);
    ParseValueBoundary(bs);
    ParseSeparatorBoundary(tail, close);
  }

  lemma ItemsTextSplit(items: seq<Item>, tail: seq<byte>)
    requires items != []
    ensures ItemsText(items) + ([RBRACKET] + tail)
         == ItemText(items[0]) +
            (if |items| > 1 then [COMMA] + (ItemsText(items[1..]) + ([RBRACKET] + tail)) else [RBRACKET] + tail)
  {
    if |items| > 1 {
      var more := ItemsText(items[1..]);
      Assoc(ItemText(items[0]), [COMMA] + more, [RBRACKET] + tail);
      Assoc([COMMA], more, [RBRACKET] + tail);
    } else {
      assert ItemsText(items) == ItemText(items[0]);
    }
  }

  lemma MembersTextSplit(members: seq<Member>, tail: seq<byte>)
    requires members != []
    ensures MembersText(members) + ([RBRACE] + tail)
         == MemberText(members[0]) +
            (if |members| > 1 then [COMMA] + (MembersText(members[1..]) + ([RBRACE] + tail)) else [RBRACE] + tail)
  {
    if |members| > 1 {
      var more := MembersText(members[1..]);
      Assoc(MemberText(members[0]), [COMMA] + more, [RBRACE] + tail);
      Assoc([COMMA], more, [RBRACE] + tail);
    } else {
      assert MembersText(members) == MemberText(members[0]);
    }
  }

  lemma {:induction false} ParsesItems(items: seq<Item>, tail: seq<byte>, read: seq<Value>)
    requires items != [] && ItemsOk(items)
    requires Valid(ItemsText(items) + ([RBRACKET] + tail))
    ensures ParseItems(ItemsText(items) + ([RBRACKET] + tail), read) == Parsed(Array(read + Meanings(items)), tail)
    decreases items
  {
    var bs := ItemsText(items) + ([RBRACKET] + tail);
    var more := |items| > 1;
    var rest := if more then ItemsText(items[1..]) + ([RBRACKET] + tail) else tail;
    var b := if more then COMMA else RBRACKET;
    ItemsTextSplit(items, tail);
    ParsesItem(items[0], b, rest, RBRACKET);
    var value := Meaning(items[0].value);
    if more {
      ParsesItems(items[1..], tail, read + [value]);
      assert read + [value] + Meanings(items[1..]) == read + Meanings(items);
    } else {
      assert Meanings(items) == [value] + Meanings(items[1..]) == [value];
    }
  }

  /** A member from the end of its key on, and what follows it. */
  function AfterKey(m: Member, tail: seq<byte>): seq<byte> {
    m.afterKey + ([COLON] + (ItemText(m.item) + tail))
  }

  lemma MemberAt(m: Member, tail: seq<byte>)
    requires MemberOk(m)
    ensures SkipWs(MemberText(m) + tail) == QuotedText(m.key) + AfterKey(m, tail)
    ensures SkipWs(AfterKey(m, tail)) == [COLON] + (ItemText(m.item) + tail)
    ensures SkipWs(AfterKey(m, tail))[1..] == ItemText(m.item) + tail
  {
    var colon := [COLON] + ItemText(m.item);
    Regroup(m.before, QuotedText(m.key), m.afterKey + colon, tail);
    Assoc(m.afterKey, colon, tail);
    Assoc([COLON], ItemText(m.item), tail);
    var at := QuotedText(m.key) + AfterKey(m, tail);
    SkipGap(m.before, at);
    assert at[0] == QUOTE;
    SkipGap(m.afterKey, [COLON] + (ItemText(m.item) + tail));
  }

  lemma MemberRest(m: Member, b: byte, x: seq<byte>)
    requires MemberOk(m) && Valid(MemberText(m) + ([b] + x))
    ensures Valid(ItemText(m.item) + ([b] + x))
  {
    var tail := [b] + x;
    MemberAt(m, tail);
    SkipWsBoundary(MemberText(m) + tail);
    KeyParses(m, b, x);
    ParseStringBoundary(QuotedText(m.key) + AfterKey(m, tail));
    SkipWsBoundary(AfterKey(m, tail));
    ExpectBoundary(SkipWs(AfterKey(m, tail)), COLON);
  }

  lemma {:induction false} ParsesMember(m: Member, b: byte, rest: seq<byte>)
    requires MemberOk(m)
    requires Valid(MemberText(m) + ([b] + rest))
    requires b == COMMA || b == RBRACE
    ensures ParseMember(MemberText(m) + ([b] + rest)) == Parsed(PairOf(m), m.item.after + ([b] + rest))
    ensures ParseSeparator(m.item.after + ([b] + rest), RBRACE) == Parsed(b == COMMA, rest)
    ensures Valid(rest)
    decreases m
  {
    var tail := [b] + rest;
    MemberAt(m, tail);
    MemberRest(m, b, rest);
    KeyParses(m, b, rest);
    ParsesItem(m.item, b, rest, RBRACE);
  }

  lemma KeyParses(m: Member, b: byte, x: seq<byte>)
    requires MemberOk(m) && Valid(MemberText(m) + ([b] + x))
    ensures ParseString(QuotedText(m.key) + AfterKey(m, [b] + x)) == Parsed(Chars(m.key), AfterKey(m, [b] + x))
  {
    MemberAt(m, [b] + x);
    SkipWsBoundary(MemberText(m) + ([b] + x));
    ParsesQuoted(m.key, AfterKey(m, [b] + x));
  }

  lemma {:induction false} ParsesMembers(members: seq<Member>, tail: seq<byte>, read: seq<Entry>)
    requires members != [] && MembersOk(members)
    requires Valid(MembersText(members) + ([RBRACE] + tail))
    ensures ParseMembers(MembersText(members) + ([RBRACE] + tail), Collect(read))
         == Parsed(Object(Collect(read + Pairs(members))), tail)
    decreases members
  {
    var bs := MembersText(members) + ([RBRACE] + tail);
    var more := |members| > 1;
    var rest := if more then MembersText(members[1..]) + ([RBRACE] + tail) else tail;
    var b := if more then COMMA else RBRACE;
    MembersTextSplit(members, tail);
    ParsesMember(members[0], b, rest);
    var pair := PairOf(members[0]);
    CollectSnoc(read, pair);
    Assoc(read, [pair], Pairs(members[1..]));
    if more {
      ParsesMembers(members[1..], tail, read + [pair]);
    } else {
      assert Pairs(members) == [pair];
    }
  }

  /** A whole text: a value with whitespace around it. */
  lemma ParsesDocument(d: Item)
    requires ItemOk(d) && Valid(ItemText(d))
    ensures ParseBytes(ItemText(d)) == Parsed(Meaning(d.value), [])
  {
    var at := SyntaxText(d.value) + d.after;
    SkipGap(d.before, at);
    SkipTwice(at);
    ValidAfterAscii(d.before, at);
    assert d.after != [] ==> EndsNumber(d.after);
    ParsesValue(d.value, d.after);
    SkipGap(d.after, []);
    assert d.after + [] == d.after;
    assert ParseValue(SkipWs(ItemText(d))) == ParseValue(at);
  }
}
