/** The printer and the parser against each other, and the parser against its grammar. */
module JsonRoundTrip {
  import opened Wrappers
  import opened Sequences
  import opened Utf8
  import opened JsonLiteral
  import opened JsonNumber
  import opened JsonValue
  import opened JsonWriter
  import opened JsonSpec
  import opened JsonBoundaries
  import opened JsonSyntax
  import opened JsonAccepts
  import opened JsonReconstruct
  import opened JsonUnambiguous
  import Digits

  /** The parser accepts exactly the texts of the grammar, each with its meaning. */
  lemma AcceptsExactlyTheGrammar(input: string, v: Value)
    ensures Parse(input) == Ok(v)
       <==> exists d: Item :: ItemOk(d) && ItemText(d) == Encode(input) && Meaning(d.value) == v
  {
    DecodeEncode(input);
    if Parse(input) == Ok(v) {
      var d := DocumentOf(Encode(input));
      assert ItemOk(d) && ItemText(d) == Encode(input) && Meaning(d.value) == v;
    }
    forall d: Item | ItemOk(d) && ItemText(d) == Encode(input) && Meaning(d.value) == v
      ensures Parse(input) == Ok(v)
    {
      ParsesDocument(d);
    }
  }

  /** Any RFC 8259 rendering parses to its value, the last of repeated names winning. */
  lemma RfcTextsParse(input: string, d: Item)
    requires RfcItem(d) && ItemText(d) == Encode(input)
    ensures ItemOk(d) && Parse(input) == Ok(Meaning(d.value))
  {
    RfcIsOk(d.value);
    DecodeEncode(input);
    ParsesDocument(d);
  }

  // The tree of a printed value

  function CanonPiece(c: char): Piece {
    if c == '"' then Short(QUOTE)
    else if c == '\\' then Short(BACKSLASH)
    else if c == '\n' then Short(LOWER_N)
    else if c == '\r' then Short(LOWER_R)
    else if c == '\t' then Short(LOWER_T)
    else if c as int < 0x20 then Code(Hex4(c as int))
    else Raw(c)
  }

  function CanonPieces(s: string): seq<Piece> {
    if s == [] then [] else [CanonPiece(s[0])] + CanonPieces(s[1..])
  }

  function Canon(v: Value): Syntax
    decreases v, 0
  {
    match v
    case Null => NullWord
    case Bool(b) => BoolWord(b)
    case Num(n) => if n.Finite? then Numeral(LiteralOf(n.decimal)) else Bare(PrintedText(n))
    case Str(s) => Quoted(CanonPieces(s))
    case Array(items) => List([], CanonItems(items))
    case Object(entries) => Braces([], CanonMembers(entries))
  }

  function CanonItem(v: Value): Item
    decreases v, 1
  {
    Item([], Canon(v), [])
  }

  function CanonItems(items: seq<Value>): (r: seq<Item>)
    ensures |r| == |items|
    decreases items
  {
    if items == [] then [] else [CanonItem(items[0])] + CanonItems(items[1..])
  }

  function CanonMember(e: Entry): Member
    decreases e
  {
    Member([], CanonPieces(e.key), [], CanonItem(e.value))
  }

  function CanonMembers(entries: seq<Entry>): (r: seq<Member>)
    ensures |r| == |entries|
    decreases entries
  {
    if entries == [] then [] else [CanonMember(entries[0])] + CanonMembers(entries[1..])
  }

  // Printed texts are the texts of those trees

  lemma EncodeOne(c: char)
    ensures Encode([c]) == EncodeChar(c)
  {
    assert [c][1..] == [];
    assert Encode([]) == [];
  }

  lemma EncodeTwo(c: char, d: char)
    requires c as int < 0x80 && d as int < 0x80
    ensures Encode([c, d]) == [c as int, d as int]
  {
    EncodeOne(d);
    assert [c, d][1..] == [d];
  }

  lemma PrintedPiece(c: char)
    ensures Encode(PrintChar(c)) == PieceText(CanonPiece(c))
  {
    if c == '"' || c == '\\' || c == '\n' || c == '\r' || c == '\t' {
      EncodeTwo('\\', PrintChar(c)[1]);
      assert PrintChar(c) == ['\\', PrintChar(c)[1]];
    } else if c as int < 0x20 {
      var hex := Hex4(c as int);
      EncodeTwo('\\', 'u');
      assert "\\u" == ['\\', 'u'];
      EncodeConcat("\\u", FromAscii(hex));
      EncodeFromAscii(hex);
    } else {
      EncodeOne(c);
    }
  }

  lemma {:induction false} PrintedPieces(s: string)
    ensures Encode(PrintChars(s)) == PiecesText(CanonPieces(s))
  {
    if s != [] {
      PrintedPiece(s[0]);
      PrintedPieces(s[1..]);
      EncodeConcat(PrintChar(s[0]), PrintChars(s[1..]));
      assert CanonPieces(s)[1..] == CanonPieces(s[1..]);
    }
  }

  lemma PrintedQuoted(s: string)
    ensures Encode(PrintString(s)) == QuotedText(CanonPieces(s))
  {
    var body := PrintChars(s);
    PrintedPieces(s);
    EncodeOne('"');
    EncodeConcat("\"" + body, "\"");
    EncodeConcat("\"", body);
    assert QuotedText(CanonPieces(s)) == [QUOTE] + PiecesText(CanonPieces(s)) + [QUOTE];
  }

  lemma EncodeBracketed(open: char, body: string, close: char)
    requires open as int < 0x80 && close as int < 0x80
    ensures Encode([open] + body + [close]) == [open as int] + (Encode(body) + [close as int])
  {
    EncodeOne(open);
    EncodeOne(close);
    EncodeConcat([open] + body, [close]);
    EncodeConcat([open], body);
    assert [open as int] + Encode(body) + [close as int] == [open as int] + (Encode(body) + [close as int]);
  }

  lemma PrintedWords()
    ensures Encode("null") == NULL_TEXT && Encode("true") == TRUE_TEXT && Encode("false") == FALSE_TEXT
  {
    EncodeTwo('n', 'u');
    EncodeTwo('l', 'l');
    EncodeTwo('t', 'r');
    EncodeTwo('u', 'e');
    EncodeTwo('f', 'a');
    EncodeTwo('l', 's');
    EncodeOne('e');
    EncodeConcat(['n', 'u'], ['l', 'l']);
    EncodeConcat(['t', 'r'], ['u', 'e']);
    EncodeConcat(['f', 'a'], ['l', 's']);
    EncodeConcat(['f', 'a', 'l', 's'], ['e']);
    assert ['n', 'u'] + ['l', 'l'] == "null";
    assert ['t', 'r'] + ['u', 'e'] == "true";
    assert ['f', 'a'] + ['l', 's'] == ['f', 'a', 'l', 's'];
    assert ['f', 'a', 'l', 's'] + ['e'] == "false";
  }

  lemma PrintedNumber(n: Number)
    ensures Encode(PrintNumber(n)) == SyntaxText(Canon(Num(n)))
  {
    PrintedAscii(n);
    var text := PrintedText(n);
    EncodeFromAscii(text);
    if n.Finite? {
      PrintedReadsBack(n.decimal);
      assert text == Text(LiteralOf(n.decimal));
    }
  }

  lemma {:induction false} PrintedIsCanon(v: Value)
    ensures Encode(Print(v)) == SyntaxText(Canon(v))
    decreases v, 0
  {
    match v
    case Null => PrintedWords();
    case Bool(b) => PrintedWords();
    case Num(n) => PrintedNumber(n);
    case Str(s) => PrintedQuoted(s);
    case Array(items) => PrintedList(items);
    case Object(entries) => PrintedBraces(entries);
  }

  lemma {:induction false} PrintedList(items: seq<Value>)
    ensures Encode("[" + PrintItems(items) + "]") == SyntaxText(List([], CanonItems(items)))
    decreases items, 1
  {
    EncodeBracketed('[', PrintItems(items), ']');
    if items != [] {
      PrintedItems(items);
    }
  }

  lemma {:induction false} PrintedBraces(entries: seq<Entry>)
    ensures Encode("{" + PrintEntries(entries) + "}") == SyntaxText(Braces([], CanonMembers(entries)))
    decreases entries, 1
  {
    EncodeBracketed('{', PrintEntries(entries), '}');
    if entries != [] {
      PrintedEntries(entries);
    }
  }

  lemma ItemTextPlain(v: Value)
    ensures ItemText(CanonItem(v)) == SyntaxText(Canon(v))
  {
  }

  lemma {:induction false} PrintedItems(items: seq<Value>)
    requires items != []
    ensures Encode(PrintItems(items)) == ItemsText(CanonItems(items))
    decreases items, 0
  {
    var canon := CanonItems(items);
    PrintedIsCanon(items[0]);
    ItemTextPlain(items[0]);
    assert canon[1..] == CanonItems(items[1..]);
    if |items| > 1 {
      PrintedItems(items[1..]);
      EncodeOne(',');
      EncodeConcat(",", PrintItems(items[1..]));
      EncodeConcat(Print(items[0]), "," + PrintItems(items[1..]));
    } else {
      assert PrintItems(items) == Print(items[0]);
    }
  }

  lemma {:induction false} PrintedEntry(e: Entry)
    ensures Encode(PrintEntry(e)) == MemberText(CanonMember(e))
    decreases e, 0
  {
    PrintedQuoted(e.key);
    PrintedIsCanon(e.value);
    ItemTextPlain(e.value);
    EncodeOne(':');
    EncodeConcat(PrintString(e.key) + ":", Print(e.value));
    EncodeConcat(PrintString(e.key), ":");
    var key, text := QuotedText(CanonPieces(e.key)), SyntaxText(Canon(e.value));
    Assoc(key, [COLON], text);
    assert [] + (key + ([] + ([COLON] + text))) == key + ([COLON] + text);
  }

  lemma {:induction false} PrintedEntries(entries: seq<Entry>)
    requires entries != []
    ensures Encode(PrintEntries(entries)) == MembersText(CanonMembers(entries))
    decreases entries, 0
  {
    var canon := CanonMembers(entries);
    PrintedEntry(entries[0]);
    assert canon[1..] == CanonMembers(entries[1..]);
    if |entries| > 1 {
      PrintedEntries(entries[1..]);
      EncodeOne(',');
      EncodeConcat(",", PrintEntries(entries[1..]));
      EncodeConcat(PrintEntry(entries[0]), "," + PrintEntries(entries[1..]));
    } else {
      assert PrintEntries(entries) == PrintEntry(entries[0]);
    }
  }

  // Finite values

  predicate AllFinite(v: Value)
    decreases v
  {
    match v
    case Num(n) => n.Finite?
    case Array(items) => forall i :: 0 <= i < |items| ==> AllFinite(items[i])
    case Object(entries) => forall i :: 0 <= i < |entries| ==> AllFinite(entries[i].value)
    case _ => true
  }

  /** No object, at any depth, repeats a key. */
  predicate DistinctThroughout(v: Value)
    decreases v
  {
    match v
    case Array(items) => forall i :: 0 <= i < |items| ==> DistinctThroughout(items[i])
    case Object(entries) =>
      DistinctKeys(entries) && forall i :: 0 <= i < |entries| ==> DistinctThroughout(entries[i].value)
    case _ => true
  }

  lemma CanonPieceRfc(c: char)
    ensures RfcPiece(CanonPiece(c)) && PieceOk(CanonPiece(c)) && PieceChar(CanonPiece(c)) == c
  {
    var n := c as int;
    if n < 0x20 {
      assert n == n / 16 * 16 + n % 16;
      assert HexValue(Digits.HexDigit(n / 16)) == n / 16 && HexValue(Digits.HexDigit(n % 16)) == n % 16;
    }
  }

  lemma {:induction false} CanonPiecesRfc(s: string)
    ensures RfcPieces(CanonPieces(s)) && PiecesOk(CanonPieces(s)) && Chars(CanonPieces(s)) == s
  {
    if s != [] {
      CanonPieceRfc(s[0]);
      CanonPiecesRfc(s[1..]);
      var ps := CanonPieces(s);
      assert ps[1..] == CanonPieces(s[1..]);
    }
  }

  lemma LiteralOfRfc(d: Decimal)
    ensures RfcNumeral(LiteralOf(d))
  {
    var unit := Digits.Pow10(d.scale);
    SplitAt(Abs(d.mantissa), unit);
  }

  /** What is printed for a finite value is RFC 8259 JSON. */
  lemma {:induction false} FinitePrintsRfc(v: Value)
    requires AllFinite(v)
    ensures RfcSyntax(Canon(v))
    decreases v, 0
  {
    match v
    case Null =>
    case Bool(_) =>
    case Num(n) => LiteralOfRfc(n.decimal);
    case Str(s) => CanonPiecesRfc(s);
    case Array(items) => FiniteItemsRfc(items);
    case Object(entries) => FiniteEntriesRfc(entries);
  }

  lemma {:induction false} FiniteItemsRfc(items: seq<Value>)
    requires forall i :: 0 <= i < |items| ==> AllFinite(items[i])
    ensures RfcItems(CanonItems(items))
    decreases items
  {
    if items != [] {
      FinitePrintsRfc(items[0]);
      FiniteItemsRfc(items[1..]);
      assert CanonItems(items)[1..] == CanonItems(items[1..]);
      assert RfcItem(CanonItem(items[0]));
    }
  }

  lemma {:induction false} FiniteEntriesRfc(entries: seq<Entry>)
    requires forall i :: 0 <= i < |entries| ==> AllFinite(entries[i].value)
    ensures RfcMembers(CanonMembers(entries))
    decreases entries
  {
    if entries != [] {
      CanonPiecesRfc(entries[0].key);
      FinitePrintsRfc(entries[0].value);
      FiniteEntriesRfc(entries[1..]);
      assert CanonMembers(entries)[1..] == CanonMembers(entries[1..]);
      assert RfcItem(CanonItem(entries[0].value));
      assert RfcMember(CanonMember(entries[0]));
    }
  }

  // Meanings of printed values

  lemma {:induction false} CanonMeaning(v: Value)
    requires AllFinite(v) && DistinctThroughout(v)
    ensures SyntaxOk(Canon(v)) && Meaning(Canon(v)) == v
    decreases v, 0
  {
    FinitePrintsRfc(v);
    RfcIsOk(Canon(v));
    match v
    case Null =>
    case Bool(_) =>
    case Num(n) => PrintedReadsBack(n.decimal);
    case Str(s) => CanonPiecesRfc(s);
    case Array(items) => CanonMeanings(items);
    case Object(entries) =>
      CanonPairs(entries);
      CollectOfDistinct(entries);
  }

  lemma {:induction false} CanonMeanings(items: seq<Value>)
    requires forall i :: 0 <= i < |items| ==> AllFinite(items[i]) && DistinctThroughout(items[i])
    ensures ItemsOk(CanonItems(items)) && Meanings(CanonItems(items)) == items
    decreases items
  {
    if items != [] {
      CanonMeaning(items[0]);
      CanonMeanings(items[1..]);
      assert CanonItems(items)[1..] == CanonItems(items[1..]);
      assert ItemOk(CanonItem(items[0]));
    }
  }

  lemma {:induction false} CanonPairs(entries: seq<Entry>)
    requires forall i :: 0 <= i < |entries| ==> AllFinite(entries[i].value) && DistinctThroughout(entries[i].value)
    ensures MembersOk(CanonMembers(entries)) && Pairs(CanonMembers(entries)) == entries
    decreases entries
  {
    if entries != [] {
      CanonPiecesRfc(entries[0].key);
      CanonMeaning(entries[0].value);
      CanonPairs(entries[1..]);
      assert CanonMembers(entries)[1..] == CanonMembers(entries[1..]);
      assert ItemOk(CanonItem(entries[0].value));
      assert MemberOk(CanonMember(entries[0]));
    }
  }

  // What the parser returns never repeats a key

  lemma {:induction false} CollectKeeps(pairs: seq<Entry>, e: Entry)
    requires e in Collect(pairs)
    ensures e in pairs
  {
    var init, last := pairs[..|pairs| - 1], pairs[|pairs| - 1];
    if e != Entry(last.key, last.value) {
      assert e in Without(Collect(init), last.key);
      WithoutKeeps(Collect(init), last.key, e);
      CollectKeeps(init, e);
    }
  }

  lemma {:induction false} MeaningDistinct(v: Syntax)
    requires SyntaxOk(v)
    ensures DistinctThroughout(Meaning(v))
    decreases v
  {
    match v
    case NullWord =>
    case BoolWord(_) =>
    case Numeral(_) =>
    case Quoted(_) =>
    case List(_, items) =>
      MeaningsDistinct(items);
    case Braces(_, members) =>
      var pairs := Pairs(members);
      PairsDistinct(members);
      CollectDistinct(pairs);
      forall i | 0 <= i < |Collect(pairs)| ensures DistinctThroughout(Collect(pairs)[i].value) {
        CollectKeeps(pairs, Collect(pairs)[i]);
      }
  }

  lemma {:induction false} MeaningsDistinct(items: seq<Item>)
    requires ItemsOk(items)
    ensures forall i :: 0 <= i < |Meanings(items)| ==> DistinctThroughout(Meanings(items)[i])
    decreases items
  {
    if items != [] {
      assert ItemOk(items[0]);
      MeaningDistinct(items[0].value);
      MeaningsDistinct(items[1..]);
    }
  }

  lemma {:induction false} PairsDistinct(members: seq<Member>)
    requires MembersOk(members)
    ensures forall i :: 0 <= i < |Pairs(members)| ==> DistinctThroughout(Pairs(members)[i].value)
    decreases members
  {
    if members != [] {
      var m := members[0];
      assert MemberOk(m) && ItemOk(m.item);
      MeaningDistinct(m.item.value);
      PairsDistinct(members[1..]);
    }
  }

  lemma ParsedIsDistinct(input: string)
    requires Parse(input).Ok?
    ensures DistinctThroughout(Parse(input).value)
  {
    var d := DocumentOf(Encode(input));
    MeaningDistinct(d.value);
  }

  // Values with a NaN or an infinity print as text the parser rejects

  lemma BareFails(n: Number, tail: seq<byte>)
    requires !n.Finite?
    ensures ParseValue(PrintedText(n) + tail).Failed?
  {
    var bs := PrintedText(n) + tail;
    if n == Infinite(true) {
      assert bs == [MINUS] + ([0x69, 0x6E, 0x66] + tail);
      assert bs[1..] == [0x69, 0x6E, 0x66] + tail;
      assert Digits.Run(bs[1..]) == [];
      assert bs[1..][0..] == bs[1..];
      assert Mantissa(Read(bs).0) == [];
      NumberDispatch(bs);
    } else {
      assert bs[0] == PrintedText(n)[0];
    }
  }

  lemma CanonStart(v: Value)
    ensures SyntaxText(Canon(v)) != []
    ensures SyntaxText(Canon(v))[0] != RBRACKET && !IsSpace(SyntaxText(Canon(v))[0])
  {
    if v.Num? && v.number.Finite? {
      LiteralOfRfc(v.number.decimal);
    }
  }

  lemma PlainStart(text: seq<byte>, tail: seq<byte>)
    requires text != [] && !IsSpace(text[0])
    ensures SkipWs(text + tail) == text + tail && (text + tail)[0] == text[0]
  {
  }

  lemma {:induction false} NonFiniteFails(v: Value, tail: seq<byte>)
    requires !AllFinite(v)
    requires Valid(SyntaxText(Canon(v)) + tail) && EndsNumber(tail)
    ensures ParseValue(SyntaxText(Canon(v)) + tail).Failed?
    decreases v, 0
  {
    match v
    case Num(n) =>
      BareFails(n, tail);
    case Array(items) =>
      var bs := SyntaxText(Canon(v)) + tail;
      ListInside([], CanonItems(items), tail);
      DropAscii(bs, 1);
      NonFiniteItemsFail(items, tail, []);
      ItemsStart(items, [RBRACKET] + tail);
      ListFails(bs);
    case Object(entries) =>
      var bs := SyntaxText(Canon(v)) + tail;
      BracesInside([], CanonMembers(entries), tail);
      DropAscii(bs, 1);
      NonFiniteMembersFail(entries, tail, []);
      MembersStart(entries, [RBRACE] + tail);
      BracesFail(bs);
  }

  lemma ListFails(bs: seq<byte>)
    requires Starts(bs, LBRACKET) && SkipWs(bs[1..]) == bs[1..] && !Starts(bs[1..], RBRACKET)
    requires ParseItems(bs[1..], []).Failed?
    ensures ParseValue(bs).Failed?
  {
  }

  lemma BracesFail(bs: seq<byte>)
    requires Starts(bs, LBRACE) && SkipWs(bs[1..]) == bs[1..] && !Starts(bs[1..], RBRACE)
    requires ParseMembers(bs[1..], []).Failed?
    ensures ParseValue(bs).Failed?
  {
  }

  lemma ItemsStart(items: seq<Value>, tail: seq<byte>)
    requires items != []
    ensures var inside := ItemsText(CanonItems(items)) + tail;
            inside != [] && inside[0] != RBRACKET && SkipWs(inside) == inside
  {
    CanonStart(items[0]);
    ItemTextPlain(items[0]);
    PlainStart(ItemsText(CanonItems(items)), tail);
  }

  lemma MembersStart(entries: seq<Entry>, tail: seq<byte>)
    requires entries != []
    ensures var inside := MembersText(CanonMembers(entries)) + tail;
            inside != [] && inside[0] == QUOTE && SkipWs(inside) == inside
  {
    PlainMember(entries[0], []);
    assert MembersText(CanonMembers(entries))[0] == QUOTE;
    PlainStart(MembersText(CanonMembers(entries)), tail);
  }

  lemma {:induction false} NonFiniteItemsFail(items: seq<Value>, tail: seq<byte>, read: seq<Value>)
    requires exists i :: 0 <= i < |items| && !AllFinite(items[i])
    requires Valid(ItemsText(CanonItems(items)) + ([RBRACKET] + tail))
    ensures ParseItems(ItemsText(CanonItems(items)) + ([RBRACKET] + tail), read).Failed?
    decreases items
  {
    var canon := CanonItems(items);
    var bs := ItemsText(canon) + ([RBRACKET] + tail);
    var more := |items| > 1;
    assert canon[1..] == CanonItems(items[1..]);
    var rest := if more then ItemsText(CanonItems(items[1..])) + ([RBRACKET] + tail) else tail;
    var b := if more then COMMA else RBRACKET;
    ItemsTextSplit(canon, tail);
    ItemTextPlain(items[0]);
    if AllFinite(items[0]) {
      FiniteItemParses(items[0], b, rest);
      var value := Meaning(Canon(items[0]));
      LaterNonFinite(items);
      NonFiniteItemsFail(items[1..], tail, read + [value]);
      LaterItemsFail(bs, value, [b] + rest, rest, read);
    } else {
      NonFiniteFails(items[0], [b] + rest);
      FirstItemFails(bs, read);
    }
  }

  lemma LaterNonFinite(items: seq<Value>)
    requires exists i :: 0 <= i < |items| && !AllFinite(items[i])
    requires AllFinite(items[0])
    ensures |items| > 1 && exists i :: 0 <= i < |items[1..]| && !AllFinite(items[1..][i])
  {
    var i :| 0 <= i < |items| && !AllFinite(items[i]);
    assert items[i] == items[1..][i - 1];
  }

  lemma FirstItemFails(bs: seq<byte>, read: seq<Value>)
    requires ParseValue(bs).Failed?
    ensures ParseItems(bs, read).Failed?
  {
  }

  lemma LaterItemsFail(bs: seq<byte>, value: Value, after: seq<byte>, rest: seq<byte>, read: seq<Value>)
    requires ParseValue(bs) == Parsed(value, after) && ParseSeparator(after, RBRACKET) == Parsed(true, rest)
    requires ParseItems(rest, read + [value]).Failed?
    ensures ParseItems(bs, read).Failed?
  {
  }

  lemma FiniteItemParses(v: Value, b: byte, rest: seq<byte>)
    requires AllFinite(v) && (b == COMMA || b == RBRACKET)
    requires Valid(ItemText(CanonItem(v)) + ([b] + rest))
    ensures SyntaxOk(Canon(v)) && Valid(rest)
    ensures ParseValue(ItemText(CanonItem(v)) + ([b] + rest)) == Parsed(Meaning(Canon(v)), [b] + rest)
    ensures ParseSeparator([b] + rest, RBRACKET) == Parsed(b == COMMA, rest)
  {
    FinitePrintsRfc(v);
    RfcIsOk(Canon(v));
    ParsesItem(CanonItem(v), b, rest, RBRACKET);
    assert [] + ([b] + rest) == [b] + rest;
  }

  lemma CanonMemberOk(e: Entry)
    requires AllFinite(e.value)
    ensures MemberOk(CanonMember(e))
  {
    CanonPiecesRfc(e.key);
    FinitePrintsRfc(e.value);
    RfcIsOk(Canon(e.value));
    assert ItemOk(CanonItem(e.value));
  }

  lemma {:induction false} NonFiniteMembersFail(entries: seq<Entry>, tail: seq<byte>, read: seq<Entry>)
    requires exists i :: 0 <= i < |entries| && !AllFinite(entries[i].value)
    requires Valid(MembersText(CanonMembers(entries)) + ([RBRACE] + tail))
    ensures ParseMembers(MembersText(CanonMembers(entries)) + ([RBRACE] + tail), read).Failed?
    decreases entries
  {
    var canon := CanonMembers(entries);
    var more := |entries| > 1;
    assert canon[1..] == CanonMembers(entries[1..]);
    var rest := if more then MembersText(CanonMembers(entries[1..])) + ([RBRACE] + tail) else tail;
    var b := if more then COMMA else RBRACE;
    MembersTextSplit(canon, tail);
    var e := entries[0];
    if AllFinite(e.value) {
      CanonMemberOk(e);
      ParsesMember(CanonMember(e), b, rest);
      var i :| 0 <= i < |entries| && !AllFinite(entries[i].value);
      assert entries[i] == entries[1..][i - 1];
      var pair := PairOf(CanonMember(e));
      NonFiniteMembersFail(entries[1..], tail, Upsert(read, pair.key, pair.value));
    } else {
      NonFiniteMemberFails(e, [b] + rest);
    }
  }

  lemma PlainMember(e: Entry, tail: seq<byte>)
    ensures MemberText(CanonMember(e)) + tail
         == QuotedText(CanonPieces(e.key)) + ([COLON] + (SyntaxText(Canon(e.value)) + tail))
    ensures (MemberText(CanonMember(e)) + tail)[0] == QUOTE
  {
    var m := CanonMember(e);
    var colon := [COLON] + (SyntaxText(Canon(e.value)) + tail);
    ItemTextPlain(e.value);
    MemberTextSplit(m, tail);
    assert [] + colon == colon;
    assert [] + (QuotedText(m.key) + colon) == QuotedText(m.key) + colon;
  }

  lemma {:induction false} NonFiniteMemberFails(e: Entry, tail: seq<byte>)
    requires !AllFinite(e.value)
    requires Valid(MemberText(CanonMember(e)) + tail) && EndsNumber(tail)
    ensures ParseMember(MemberText(CanonMember(e)) + tail).Failed?
    decreases e
  {
    var m := CanonMember(e);
    var bs := MemberText(m) + tail;
    var text := SyntaxText(Canon(e.value)) + tail;
    CanonPiecesRfc(e.key);
    PlainMember(e, tail);
    assert SkipWs(bs) == bs;
    ParsesQuoted(m.key, [COLON] + text);
    ParseStringBoundary(bs);
    assert ([COLON] + text)[1..] == text;
    ExpectBoundary([COLON] + text, COLON);
    NonFiniteFails(e.value, tail);
  }

  // Round trips

  /** Printing then parsing gives a value back exactly when it is finite and repeats no key. */
  lemma RoundTripExactly(v: Value)
    ensures Parse(Print(v)) == Ok(v) <==> AllFinite(v) && DistinctThroughout(v)
  {
    PrintedIsCanon(v);
    DecodeEncode(Print(v));
    var text := SyntaxText(Canon(v));
    assert text + [] == text;
    if AllFinite(v) && DistinctThroughout(v) {
      CanonMeaning(v);
      ItemTextPlain(v);
      ParsesDocument(CanonItem(v));
    } else if !AllFinite(v) {
      NonFiniteFails(v, []);
      CanonStart(v);
      assert SkipWs(text) == text;
    } else if Parse(Print(v)).Ok? {
      ParsedIsDistinct(Print(v));
    }
  }

  /** Started on a printed value, `parse_value` stops exactly at its end. */
  lemma StopsAtTheEnd(v: Value, tail: seq<byte>)
    requires AllFinite(v) && DistinctThroughout(v)
    requires Valid(tail) && (tail == [] || IsSpace(tail[0]) || tail[0] in {COMMA, RBRACE, RBRACKET})
    ensures ParseValue(Encode(Print(v)) + tail) == Parsed(v, tail)
  {
    PrintedIsCanon(v);
    CanonMeaning(v);
    DecodeEncode(Print(v));
    ValidConcat(Encode(Print(v)), tail);
    ParsesValue(Canon(v), tail);
  }

  /** Parsing, printing and parsing again changes nothing, unless a numeral overflowed. */
  lemma ParsePrintParse(input: string)
    requires Parse(input).Ok?
    ensures Parse(Print(Parse(input).value)) == Parse(input) <==> AllFinite(Parse(input).value)
  {
    ParsedIsDistinct(input);
    RoundTripExactly(Parse(input).value);
  }

  // How far the parser goes beyond RFC 8259

  /** An accepted text is RFC 8259 exactly when every tree that spells it is: any one of them tells. */
  lemma AcceptedBeyondRfc(input: string)
    requires Parse(input).Ok?
    ensures IsRfcText(Encode(input))
       <==> forall d: Item :: ItemOk(d) && ItemText(d) == Encode(input) ==> RfcItem(d)
  {
    DecodeEncode(input);
    var d := DocumentOf(Encode(input));
    forall e: Item | ItemOk(e) && ItemText(e) == Encode(input)
      ensures IsRfcText(Encode(input)) <==> RfcItem(e)
    {
      RfcTextExactly(e);
    }
    assert ItemOk(d) && ItemText(d) == Encode(input);
  }

  /** A tree that is not RFC 8259 spells an accepted text that is not. */
  lemma BeyondRfc(input: string, d: Item)
    requires ItemOk(d) && !RfcItem(d) && ItemText(d) == Encode(input)
    ensures Parse(input) == Ok(Meaning(d.value)) && !IsRfcText(Encode(input))
  {
    DecodeEncode(input);
    RfcTextExactly(d);
    AcceptsExactlyTheGrammar(input, Meaning(d.value));
  }

  lemma {:induction false} EncodeLiteral(s: string, bs: seq<byte>)
    requires |s| == |bs| && forall i :: 0 <= i < |s| ==> s[i] as int == bs[i] < 0x80
    ensures Encode(s) == bs
  {
    if s != [] {
      EncodeLiteral(s[1..], bs[1..]);
      assert bs == [bs[0]] + bs[1..];
    }
  }

  lemma LeadingZeroAccepted()
    ensures Parse("01") == Ok(Num(Finite(RawDecimal(1, 0)))) && !IsRfcText(Encode("01"))
  {
    var lit: ShapedLiteral := Literal(false, [0x30, 0x31], None, None);
    EncodeLiteral("01", [0x30, 0x31]);
    LeadingZeroValue(lit);
    BeyondRfc("01", Item([], Numeral(lit), []));
  }

  lemma LeadingZeroValue(lit: ShapedLiteral)
    requires lit == Literal(false, [0x30, 0x31], None, None)
    ensures NumberOf(lit) == Some(Finite(RawDecimal(1, 0)))
    ensures ItemText(Item([], Numeral(lit), [])) == [0x30, 0x31]
  {
    assert [0x30, 0x31][..1] == [0x30] && [0x30][..0] == [];
    assert Mantissa(lit) == [0x30, 0x31];
    assert Digits.Value([0x30]) == 0 && Digits.Value(Mantissa(lit)) == 1;
    assert Digits.Pow10(0) == 1;
  }

  /** `from_str_radix` allows a sign, so the string `\u+041` is `A`. */
  lemma SignedEscapeAccepted()
    ensures Parse("\"\\u+041\"") == Ok(Str("A")) && !IsRfcText(Encode("\"\\u+041\""))
  {
    var hex := [PLUS, 0x30, 0x34, 0x31];
    var v := Quoted([Code(hex)]);
    SignedEscapeValue(hex);
    OnePiece(Code(hex));
    EncodeLiteral("\"\\u+041\"", [QUOTE, BACKSLASH, LOWER_U, PLUS, 0x30, 0x34, 0x31, QUOTE]);
    assert SyntaxText(v) == [QUOTE, BACKSLASH, LOWER_U, PLUS, 0x30, 0x34, 0x31, QUOTE];
    BareItem(v);
    BeyondRfc("\"\\u+041\"", Item([], v, []));
  }

  lemma OnePiece(p: Piece)
    requires PieceOk(p)
    ensures PiecesOk([p]) && PiecesText([p]) == PieceText(p) && Chars([p]) == [PieceChar(p)]
    ensures RfcPieces([p]) <==> RfcPiece(p)
  {
    assert [p][1..] == [];
    assert PieceText(p) + [] == PieceText(p);
    assert RfcPieces([p]) ==> RfcPiece([p][0]);
  }

  lemma BareItem(v: Syntax)
    ensures ItemText(Item([], v, [])) == SyntaxText(v)
  {
    assert SyntaxText(v) + [] == SyntaxText(v);
    assert [] + SyntaxText(v) == SyntaxText(v);
  }

  lemma SignedEscapeValue(hex: seq<byte>)
    requires hex == [PLUS, 0x30, 0x34, 0x31]
    ensures IsHex4(hex) && Hex4Value(hex) == 0x41 && !RfcHex4(hex)
    ensures PieceOk(Code(hex)) && PieceChar(Code(hex)) == 'A'
  {
    assert HexValue(hex[1]) == 0 && HexValue(hex[2]) == 4 && HexValue(hex[3]) == 1;
    assert !IsHex(hex[0]);
  }
}
