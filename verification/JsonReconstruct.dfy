/** Whatever the parser accepts was a legal text: the tree behind it is rebuilt. */
module JsonReconstruct {
  import opened Sequences
  import opened Utf8
  import opened JsonLiteral
  import opened JsonNumber
  import opened JsonValue
  import opened JsonSpec
  import opened JsonSyntax
  import opened JsonAccepts
  import Digits

  lemma {:induction false} GapOf(bs: seq<byte>) returns (gap: seq<byte>)
    ensures IsGap(gap) && bs == gap + SkipWs(bs)
  {
    if bs != [] && IsSpace(bs[0]) {
      var rest := GapOf(bs[1..]);
      gap := [bs[0]] + rest;
      assert bs == [bs[0]] + (rest + SkipWs(bs));
    } else {
      gap := [];
    }
  }

  lemma Hex4Of(bs: seq<byte>) returns (hex: seq<byte>)
    requires ParseHex4(bs).Parsed?
    ensures IsHex4(hex) && bs == hex + ParseHex4(bs).rest && Hex4Value(hex) == ParseHex4(bs).value
  {
    hex := bs[..4];
  }

  lemma UnicodeOf(bs: seq<byte>) returns (p: Piece)
    requires ParseUnicode(bs).Parsed?
    ensures PieceOk(p) && PieceChar(p) == ParseUnicode(bs).value
    ensures [BACKSLASH, LOWER_U] + bs == PieceText(p) + ParseUnicode(bs).rest
  {
    var hex := Hex4Of(bs);
    var rest := ParseHex4(bs).rest;
    if IsHighSurrogate(Hex4Value(hex)) {
      var low := Hex4Of(rest[2..]);
      p := Pair(hex, low);
      var tail := ParseUnicode(bs).rest;
      assert rest == [BACKSLASH, LOWER_U] + (low + tail);
      assert bs == hex + (([BACKSLASH, LOWER_U] + low) + tail);
      Assoc([BACKSLASH, LOWER_U], hex + ([BACKSLASH, LOWER_U] + low), tail);
      Assoc(hex, [BACKSLASH, LOWER_U] + low, tail);
    } else {
      p := Code(hex);
      Assoc([BACKSLASH, LOWER_U], hex, rest);
    }
  }

  lemma PieceOf(bs: seq<byte>) returns (p: Piece)
    requires bs != [] && bs[0] != QUOTE && ParseChar(bs).Parsed?
    ensures PieceOk(p) && PieceChar(p) == ParseChar(bs).value
    ensures bs == PieceText(p) + ParseChar(bs).rest
  {
    if bs[0] == BACKSLASH {
      var at := bs[1..];
      if ShortEscape(at[0]).Some? {
        p := Short(at[0]);
        assert bs == [BACKSLASH, at[0]] + at[1..];
      } else {
        p := UnicodeOf(at[1..]);
        assert bs == [BACKSLASH, LOWER_U] + at[1..];
      }
    } else {
      p := Raw(ParseChar(bs).value);
      EncodeDecode(bs);
      var s := Decode(bs).value;
      assert bs == EncodeChar(s[0]) + Encode(s[1..]);
      assert EncodeChar('"') == [QUOTE] && EncodeChar('\\') == [BACKSLASH];
    }
  }

  lemma {:induction false} PiecesOf(bs: seq<byte>, read: string) returns (ps: seq<Piece>)
    requires ParseChars(bs, read).Parsed?
    ensures PiecesOk(ps) && ParseChars(bs, read).value == read + Chars(ps)
    ensures bs == PiecesText(ps) + ([QUOTE] + ParseChars(bs, read).rest)
    decreases |bs|
  {
    if bs[0] == QUOTE {
      ps := [];
      assert read + [] == read;
    } else {
      var p := PieceOf(bs);
      var c := ParseChar(bs);
      var rest := PiecesOf(c.rest, read + [c.value]);
      ps := [p] + rest;
      assert ps[1..] == rest;
      Assoc(read, [c.value], Chars(rest));
      Assoc(PieceText(p), PiecesText(rest), [QUOTE] + ParseChars(bs, read).rest);
    }
  }

  lemma QuotedOf(bs: seq<byte>) returns (ps: seq<Piece>)
    requires ParseString(bs).Parsed?
    ensures PiecesOk(ps) && ParseString(bs).value == Chars(ps)
    ensures bs == QuotedText(ps) + ParseString(bs).rest
  {
    ps := PiecesOf(bs[1..], []);
    assert [] + Chars(ps) == Chars(ps);
    var rest := ParseString(bs).rest;
    assert bs == [QUOTE] + (PiecesText(ps) + ([QUOTE] + rest));
    Assoc(PiecesText(ps), [QUOTE], rest);
    Assoc([QUOTE], PiecesText(ps) + [QUOTE], rest);
  }

  lemma NumeralOf(bs: seq<byte>) returns (lit: ShapedLiteral)
    requires bs != [] && (bs[0] == MINUS || Digits.IsDigit(bs[0])) && ParseNumber(bs).Parsed?
    ensures NumeralOk(lit) && ParseNumber(bs).value == Num(NumberOf(lit).value)
    ensures bs == Text(lit) + ParseNumber(bs).rest
  {
    lit := Read(bs).0;
    if bs[0] != MINUS {
      assert Digits.Run(bs) != [];
    }
  }

  /** The tree of the value at the front of `bs`, and the gap before it. */
  lemma {:induction false} ValueOf(bs: seq<byte>) returns (before: seq<byte>, v: Syntax)
    requires ParseValue(bs).Parsed?
    ensures IsGap(before) && SyntaxOk(v) && Meaning(v) == ParseValue(bs).value
    ensures bs == before + (SyntaxText(v) + ParseValue(bs).rest)
    decreases |bs|, 2
  {
    before := GapOf(bs);
    var at := SkipWs(bs);
    if at[0] == LBRACE {
      v := BracesOf(at);
    } else if at[0] == LBRACKET {
      v := ListOf(at);
    } else if at[0] == QUOTE {
      var ps := QuotedOf(at);
      v := Quoted(ps);
    } else if at[0] == LOWER_T {
      v := BoolWord(true);
    } else if at[0] == LOWER_F {
      v := BoolWord(false);
    } else if at[0] == LOWER_N {
      v := NullWord;
    } else {
      NumberDispatch(at);
      var lit := NumeralOf(at);
      v := Numeral(lit);
    }
  }

  lemma GapBefore(bs: seq<byte>, b: byte) returns (gap: seq<byte>)
    requires Starts(SkipWs(bs), b)
    ensures IsGap(gap) && bs == gap + ([b] + SkipWs(bs)[1..])
  {
    gap := GapOf(bs);
  }

  lemma {:induction false} ListOf(bs: seq<byte>) returns (v: Syntax)
    requires ParseArray(bs).Parsed?
    ensures SyntaxOk(v) && Meaning(v) == ParseArray(bs).value
    ensures bs == SyntaxText(v) + ParseArray(bs).rest
    decreases |bs|, 1
  {
    var inside, rest := bs[1..], ParseArray(bs).rest;
    var at := SkipWs(inside);
    var body: seq<byte>;
    if Starts(at, RBRACKET) {
      body := GapBefore(inside, RBRACKET);
      v := List(body, []);
    } else {
      var gap := GapOf(inside);
      var items := ItemsOf(at, []);
      assert [] + Meanings(items) == Meanings(items);
      var first := items[0].(before := gap + items[0].before);
      var all := [first] + items[1..];
      v := List([], all);
      PrependGap(gap, items);
      body := ItemsText(all);
      Assoc(gap, ItemsText(items), [RBRACKET] + rest);
    }
    assert bs == [LBRACKET] + (body + ([RBRACKET] + rest));
    Assoc(body, [RBRACKET], rest);
    Assoc([LBRACKET], body + [RBRACKET], rest);
  }

  /** Whitespace skipped before the first item belongs to that item. */
  lemma PrependGap(gap: seq<byte>, items: seq<Item>)
    requires IsGap(gap) && items != [] && ItemsOk(items)
    ensures var all := [items[0].(before := gap + items[0].before)] + items[1..];
            ItemsOk(all) && Meanings(all) == Meanings(items) && ItemsText(all) == gap + ItemsText(items)
  {
    var first := items[0].(before := gap + items[0].before);
    var all := [first] + items[1..];
    assert ItemOk(items[0]);
    assert ItemOk(first);
    assert all[1..] == items[1..];
    var more := if |items| > 1 then [COMMA] + ItemsText(items[1..]) else [];
    Assoc(gap, items[0].before, SyntaxText(first.value) + first.after);
    Assoc(gap, ItemText(items[0]), more);
  }

  lemma {:induction false} ItemsOf(bs: seq<byte>, read: seq<Value>) returns (items: seq<Item>)
    requires ParseItems(bs, read).Parsed?
    ensures items != [] && ItemsOk(items) && ParseItems(bs, read).value == Array(read + Meanings(items))
    ensures bs == ItemsText(items) + ([RBRACKET] + ParseItems(bs, read).rest)
    decreases |bs|, 3
  {
    var before, v := ValueOf(bs);
    var value := ParseValue(bs);
    var separator := ParseSeparator(value.rest, RBRACKET);
    var b := if separator.value then COMMA else RBRACKET;
    var after := GapBefore(value.rest, b);
    var item := Item(before, v, after);
    var tail := ParseItems(bs, read).rest;
    assert bs == ItemText(item) + ([b] + separator.rest) by {
      Assoc(SyntaxText(v), after, [b] + separator.rest);
      Assoc(before, SyntaxText(v) + after, [b] + separator.rest);
    }
    if separator.value {
      var rest := ItemsOf(separator.rest, read + [value.value]);
      items := [item] + rest;
      assert items[1..] == rest;
      ItemsTextSplit(items, tail);
      Assoc(read, [value.value], Meanings(rest));
    } else {
      items := [item];
      assert items[1..] == [];
      assert ItemOk(item) && ItemsOk(items[1..]) && ItemsOk(items);
      assert Meanings(items) == [value.value];
      ItemsTextSplit(items, tail);
    }
  }

  lemma {:induction false} BracesOf(bs: seq<byte>) returns (v: Syntax)
    requires ParseObject(bs).Parsed?
    ensures SyntaxOk(v) && Meaning(v) == ParseObject(bs).value
    ensures bs == SyntaxText(v) + ParseObject(bs).rest
    decreases |bs|, 1
  {
    var inside, rest := bs[1..], ParseObject(bs).rest;
    var at := SkipWs(inside);
    var body: seq<byte>;
    if Starts(at, RBRACE) {
      body := GapBefore(inside, RBRACE);
      v := Braces(body, []);
    } else {
      var gap := GapOf(inside);
      var members := MembersOf(at, []);
      assert [] + Pairs(members) == Pairs(members);
      var first := members[0].(before := gap + members[0].before);
      var all := [first] + members[1..];
      v := Braces([], all);
      PrependGapToMember(gap, members);
      body := MembersText(all);
      Assoc(gap, MembersText(members), [RBRACE] + rest);
    }
    assert bs == [LBRACE] + (body + ([RBRACE] + rest));
    Assoc(body, [RBRACE], rest);
    Assoc([LBRACE], body + [RBRACE], rest);
  }

  lemma PrependGapToMember(gap: seq<byte>, members: seq<Member>)
    requires IsGap(gap) && members != [] && MembersOk(members)
    ensures var all := [members[0].(before := gap + members[0].before)] + members[1..];
            MembersOk(all) && Pairs(all) == Pairs(members) && MembersText(all) == gap + MembersText(members)
  {
    var first := members[0].(before := gap + members[0].before);
    var all := [first] + members[1..];
    assert MemberOk(members[0]);
    assert MemberOk(first);
    assert all[1..] == members[1..];
    var more := if |members| > 1 then [COMMA] + MembersText(members[1..]) else [];
    Assoc(gap, members[0].before, QuotedText(first.key) + (first.afterKey + ([COLON] + ItemText(first.item))));
    Assoc(gap, MemberText(members[0]), more);
  }

  lemma {:induction false} MemberOf(bs: seq<byte>, b: byte) returns (m: Member)
    requires ParseMember(bs).Parsed? && Starts(SkipWs(ParseMember(bs).rest), b)
    ensures MemberOk(m) && PairOf(m) == ParseMember(bs).value
    ensures bs == MemberText(m) + ([b] + SkipWs(ParseMember(bs).rest)[1..])
    decreases |bs|, 0
  {
    var before := GapOf(bs);
    var at := SkipWs(bs);
    var key := QuotedOf(at);
    var afterKeyBytes := ParseString(at).rest;
    var afterKey := GapBefore(afterKeyBytes, COLON);
    var afterColon := SkipWs(afterKeyBytes)[1..];
    var beforeValue, v := ValueOf(afterColon);
    var value := ParseValue(afterColon);
    var after := GapBefore(value.rest, b);
    var item := Item(beforeValue, v, after);
    m := Member(before, key, afterKey, item);
    assert ItemOk(item);
    var tail := [b] + SkipWs(value.rest)[1..];
    assert afterColon == ItemText(item) + tail by {
      Assoc(SyntaxText(v), after, tail);
      Assoc(beforeValue, SyntaxText(v) + after, tail);
    }
    MemberTextSplit(m, tail);
  }

  lemma MemberTextSplit(m: Member, tail: seq<byte>)
    ensures MemberText(m) + tail
         == m.before + (QuotedText(m.key) + (m.afterKey + ([COLON] + (ItemText(m.item) + tail))))
  {
    var item := ItemText(m.item);
    var colon := [COLON] + item;
    var key := m.afterKey + colon;
    Assoc([COLON], item, tail);
    Assoc(m.afterKey, colon, tail);
    Assoc(QuotedText(m.key), key, tail);
    Assoc(m.before, QuotedText(m.key) + key, tail);
  }

  lemma {:induction false} MembersOf(bs: seq<byte>, read: seq<Entry>) returns (members: seq<Member>)
    requires ParseMembers(bs, Collect(read)).Parsed?
    ensures members != [] && MembersOk(members)
    ensures ParseMembers(bs, Collect(read)).value == Object(Collect(read + Pairs(members)))
    ensures bs == MembersText(members) + ([RBRACE] + ParseMembers(bs, Collect(read)).rest)
    decreases |bs|, 1
  {
    var parsed := ParseMember(bs);
    var separator := ParseSeparator(parsed.rest, RBRACE);
    var b := if separator.value then COMMA else RBRACE;
    var m := MemberOf(bs, b);
    var tail := ParseMembers(bs, Collect(read)).rest;
    CollectSnoc(read, parsed.value);
    if separator.value {
      var rest := MembersOf(separator.rest, read + [parsed.value]);
      members := [m] + rest;
      assert members[1..] == rest;
      MembersTextSplit(members, tail);
      Assoc(read, [parsed.value], Pairs(rest));
    } else {
      members := [m];
      assert members[1..] == [];
      assert Pairs(members) == [parsed.value];
      MembersTextSplit(members, tail);
    }
  }

  lemma DocumentOf(bs: seq<byte>) returns (d: Item)
    requires ParseBytes(bs).Parsed?
    ensures ItemOk(d) && ItemText(d) == bs && Meaning(d.value) == ParseBytes(bs).value
  {
    var gap := GapOf(bs);
    var before, v := ValueOf(SkipWs(bs));
    var rest := ParseValue(SkipWs(bs)).rest;
    var after := GapOf(rest);
    assert after + [] == after;
    d := Item(gap + before, v, after);
    Assoc(gap, before, SyntaxText(v) + after);
  }
}
