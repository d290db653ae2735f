/** Trees with one text agree on whether they are RFC 8259, so for an accepted text any of its
    trees tells whether the text is. */
module JsonUnambiguous {
  import opened Wrappers
  import opened Sequences
  import opened Utf8
  import opened JsonLiteral
  import opened JsonValue
  import opened JsonSpec
  import opened JsonBoundaries
  import opened JsonSyntax
  import opened JsonAccepts
  import Digits

  /** Some RFC 8259 tree spells the bytes. */
  ghost predicate IsRfcText(bs: seq<byte>) {
    exists d: Item :: RfcItem(d) && ItemText(d) == bs
  }

  // Strings: the pieces are determined

  lemma SameRaw(c: char, q: Piece, x: seq<byte>, y: seq<byte>)
    requires PieceOk(Raw(c)) && PieceOk(q)
    requires EncodeChar(c) + x == PieceText(q) + y
    ensures q == Raw(c)
  {
    DecodeFirstOfEncoding(c, x);
    if q.Raw? {
      DecodeFirstOfEncoding(q.c, y);
    } else {
      EscapeStart(q, y);
    }
  }

  lemma EscapeStart(q: Piece, y: seq<byte>)
    requires PieceOk(q) && !q.Raw?
    ensures DecodeFirst(PieceText(q) + y) == Some('\\')
  {
    assert (PieceText(q) + y)[0] == BACKSLASH;
  }

  lemma CodeHex(hex: seq<byte>, more: seq<byte>)
    requires |hex| == 4
    ensures ([BACKSLASH, LOWER_U] + (hex + more))[2..6] == hex
    ensures ([BACKSLASH, LOWER_U] + (hex + more))[1] == LOWER_U
  {
  }

  /** The four digits of an escape, and what follows them. */
  function Digits4(p: Piece): seq<byte>
    requires p.Code? || p.Pair?
  {
    if p.Code? then p.hex else p.high
  }

  function AfterDigits4(p: Piece): seq<byte>
    requires p.Code? || p.Pair?
  {
    if p.Code? then [] else [BACKSLASH, LOWER_U] + p.low
  }

  lemma EscapeText(p: Piece, x: seq<byte>)
    requires PieceOk(p) && (p.Code? || p.Pair?)
    ensures PieceText(p) + x == [BACKSLASH, LOWER_U] + (Digits4(p) + (AfterDigits4(p) + x))
  {
    Assoc([BACKSLASH, LOWER_U], Digits4(p) + AfterDigits4(p), x);
    Assoc(Digits4(p), AfterDigits4(p), x);
    assert Digits4(p) + [] == Digits4(p);
  }

  lemma SameUnicode(p: Piece, x: seq<byte>, q: Piece, y: seq<byte>)
    requires PieceOk(p) && (p.Code? || p.Pair?)
    requires PieceOk(q) && (q.Code? || q.Pair?)
    requires PieceText(p) + x == PieceText(q) + y
    ensures p == q
  {
    EscapeText(p, x);
    EscapeText(q, y);
    CodeHex(Digits4(p), AfterDigits4(p) + x);
    CodeHex(Digits4(q), AfterDigits4(q) + y);
    assert Digits4(p) == Digits4(q);
    if p.Pair? && q.Pair? {
      SameLow(p.high, p.low, x, q.low, y);
    }
  }

  lemma SameLow(high: seq<byte>, low: seq<byte>, x: seq<byte>, other: seq<byte>, y: seq<byte>)
    requires |high| == 4 && |low| == 4 && |other| == 4
    requires PieceText(Pair(high, low)) + x == PieceText(Pair(high, other)) + y
    ensures low == other
  {
    var s, t := PieceText(Pair(high, low)) + x, PieceText(Pair(high, other)) + y;
    assert s[8..12] == low && t[8..12] == other;
  }

  lemma SamePiece(p: Piece, x: seq<byte>, q: Piece, y: seq<byte>)
    requires PieceOk(p) && PieceOk(q) && PieceText(p) + x == PieceText(q) + y
    ensures p == q && x == y
  {
    if p.Raw? {
      SameRaw(p.c, q, x, y);
    } else if q.Raw? {
      SameRaw(q.c, p, y, x);
    } else if p.Short? || q.Short? {
      SecondByte(p, x);
      SecondByte(q, y);
    } else {
      SameUnicode(p, x, q, y);
    }
    SameSuffix(PieceText(p), x, y);
  }

  lemma SecondByte(p: Piece, x: seq<byte>)
    requires PieceOk(p) && !p.Raw?
    ensures |PieceText(p) + x| >= 2 && (PieceText(p) + x)[1] == if p.Short? then p.letter else LOWER_U
  {
  }

  lemma {:induction false} SamePieces(ps: seq<Piece>, x: seq<byte>, qs: seq<Piece>, y: seq<byte>)
    requires PiecesOk(ps) && PiecesOk(qs)
    requires PiecesText(ps) + ([QUOTE] + x) == PiecesText(qs) + ([QUOTE] + y)
    ensures ps == qs && x == y
  {
    StartOfPieces(ps, x);
    StartOfPieces(qs, y);
    if ps == [] {
      SameSuffix([QUOTE], x, y);
    } else {
      PiecesStep(ps, x);
      PiecesStep(qs, y);
      SamePiece(ps[0], PiecesText(ps[1..]) + ([QUOTE] + x), qs[0], PiecesText(qs[1..]) + ([QUOTE] + y));
      SamePieces(ps[1..], x, qs[1..], y);
      assert ps == [ps[0]] + ps[1..] && qs == [qs[0]] + qs[1..];
    }
  }

  lemma PiecesStep(ps: seq<Piece>, x: seq<byte>)
    requires ps != []
    ensures PiecesText(ps) + ([QUOTE] + x) == PieceText(ps[0]) + (PiecesText(ps[1..]) + ([QUOTE] + x))
  {
    Assoc(PieceText(ps[0]), PiecesText(ps[1..]), [QUOTE] + x);
  }

  lemma StartOfPieces(ps: seq<Piece>, x: seq<byte>)
    requires PiecesOk(ps)
    ensures var bs := PiecesText(ps) + ([QUOTE] + x);
            (ps == [] ==> bs == [QUOTE] + x) && (bs[0] == QUOTE <==> ps == [])
  {
    if ps == [] {
      assert [] + ([QUOTE] + x) == [QUOTE] + x;
    } else {
      StartOfPiece(ps[0]);
      assert (PiecesText(ps) + ([QUOTE] + x))[0] == PieceText(ps[0])[0];
    }
  }

  lemma StartOfPiece(p: Piece)
    requires PieceOk(p)
    ensures PieceText(p) != [] && PieceText(p)[0] != QUOTE
  {
    if p.Raw? {
      DecodeFirstOfEncoding(p.c, []);
      assert EncodeChar(p.c) + [] == EncodeChar(p.c);
    }
  }

  // Values

  /** The first byte of a value tells its kind. */
  function Kind(v: Syntax): nat {
    match v
    case NullWord => 0
    case BoolWord(_) => 0
    case Bare(_) => 1
    case Numeral(_) => 2
    case Quoted(_) => 3
    case List(_, _) => 4
    case Braces(_, _) => 5
  }

  function KindOf(b: byte): nat {
    if b == LOWER_N || b == LOWER_T || b == LOWER_F then 0
    else if b == QUOTE then 3
    else if b == LBRACKET then 4
    else if b == LBRACE then 5
    else 2
  }

  lemma Lead(v: Syntax, tail: seq<byte>)
    requires SyntaxOk(v)
    ensures var bs := SyntaxText(v) + tail; bs != [] && !IsSpace(bs[0]) && KindOf(bs[0]) == Kind(v)
  {
    match v
    case Numeral(lit) =>
      assert Text(lit)[0] == if lit.negative then MINUS else lit.whole[0];
    case _ =>
  }

  lemma SkipToValue(gap: seq<byte>, v: Syntax, tail: seq<byte>)
    requires IsGap(gap) && SyntaxOk(v)
    ensures SkipWs(gap + (SyntaxText(v) + tail)) == SyntaxText(v) + tail
  {
    SkipGap(gap, SyntaxText(v) + tail);
    Lead(v, tail);
  }

  /** Where two trees spell one text up to what ends them, both or neither is RFC 8259. */
  lemma {:induction false} SameSyntax(v: Syntax, x: seq<byte>, u: Syntax, y: seq<byte>)
    requires SyntaxOk(v) && SyntaxOk(u) && EndsNumber(x) && EndsNumber(y)
    requires SyntaxText(v) + x == SyntaxText(u) + y && Valid(SyntaxText(v) + x)
    ensures RfcSyntax(v) <==> RfcSyntax(u)
    decreases v, 1
  {
    Lead(v, x);
    Lead(u, y);
    match v
    case NullWord =>
    case BoolWord(_) =>
    case Numeral(lit) =>
      ReadText(lit, x);
      ReadText(u.lit, y);
    case Quoted(pieces) =>
      SameStrings(pieces, x, u.pieces, y);
    case List(_, _) => SameList(v, x, u, y);
    case Braces(_, _) => SameBraces(v, x, u, y);
  }

  lemma {:induction false} SameList(v: Syntax, x: seq<byte>, u: Syntax, y: seq<byte>)
    requires SyntaxOk(v) && SyntaxOk(u) && EndsNumber(x) && EndsNumber(y) && v.List? && u.List?
    requires SyntaxText(v) + x == SyntaxText(u) + y && Valid(SyntaxText(v) + x)
    ensures RfcSyntax(v) <==> RfcSyntax(u)
    decreases v, 0
  {
    SameMeaning(v, x, u, y);
    SameLength(v.items, u.items);
    if v.items != [] {
      ListInside(v.gap, v.items, x);
      ListInside(u.gap, u.items, y);
      DropAscii(SyntaxText(v) + x, 1);
      SameItems(v.items, x, u.items, y);
    }
  }

  lemma {:induction false} SameBraces(v: Syntax, x: seq<byte>, u: Syntax, y: seq<byte>)
    requires SyntaxOk(v) && SyntaxOk(u) && EndsNumber(x) && EndsNumber(y) && v.Braces? && u.Braces?
    requires SyntaxText(v) + x == SyntaxText(u) + y && Valid(SyntaxText(v) + x)
    ensures RfcSyntax(v) <==> RfcSyntax(u)
    decreases v, 0
  {
    SameMeaning(v, x, u, y);
    SameEmptiness(v.members, u.members);
    if v.members != [] {
      BracesInside(v.gap, v.members, x);
      BracesInside(u.gap, u.members, y);
      DropAscii(SyntaxText(v) + x, 1);
      SameMembers(v.members, x, u.members, y);
    }
  }

  lemma SameStrings(ps: seq<Piece>, x: seq<byte>, qs: seq<Piece>, y: seq<byte>)
    requires PiecesOk(ps) && PiecesOk(qs) && QuotedText(ps) + x == QuotedText(qs) + y
    ensures ps == qs && x == y
  {
    Regroup([QUOTE], PiecesText(ps), [QUOTE], x);
    Regroup([QUOTE], PiecesText(qs), [QUOTE], y);
    SameSuffix([QUOTE], PiecesText(ps) + ([QUOTE] + x), PiecesText(qs) + ([QUOTE] + y));
    SamePieces(ps, x, qs, y);
  }

  lemma SameMeaning(v: Syntax, x: seq<byte>, u: Syntax, y: seq<byte>)
    requires SyntaxOk(v) && SyntaxOk(u) && EndsNumber(x) && EndsNumber(y)
    requires SyntaxText(v) + x == SyntaxText(u) + y && Valid(SyntaxText(v) + x)
    ensures Meaning(v) == Meaning(u) && x == y
  {
    ParsesValue(v, x);
    ParsesValue(u, y);
  }

  lemma {:induction false} SameLength(items: seq<Item>, others: seq<Item>)
    requires ItemsOk(items) && ItemsOk(others) && Meanings(items) == Meanings(others)
    ensures items == [] <==> others == []
  {
  }

  lemma SameEmptiness(members: seq<Member>, others: seq<Member>)
    requires MembersOk(members) && MembersOk(others) && Collect(Pairs(members)) == Collect(Pairs(others))
    ensures members == [] <==> others == []
  {
    Recorded(Pairs(members));
    Recorded(Pairs(others));
  }

  lemma Recorded(pairs: seq<Entry>)
    ensures Collect(pairs) == [] <==> pairs == []
  {
  }

  /** An item up to the separator after it, or the bracket. */
  lemma {:induction false} SameItem(i: Item, b: byte, x: seq<byte>, j: Item, c: byte, y: seq<byte>, close: byte)
    requires ItemOk(i) && ItemOk(j) && (close == RBRACE || close == RBRACKET)
    requires (b == COMMA || b == close) && (c == COMMA || c == close)
    requires ItemText(i) + ([b] + x) == ItemText(j) + ([c] + y) && Valid(ItemText(i) + ([b] + x))
    ensures b == c && x == y && Valid(x) && (RfcItem(i) <==> RfcItem(j))
    decreases i
  {
    var bs := ItemText(i) + ([b] + x);
    ParsesItem(i, b, x, close);
    ParsesItem(j, c, y, close);
    var p, q := i.after + ([b] + x), j.after + ([c] + y);
    ItemAt(i, [b] + x);
    ItemAt(j, [c] + y);
    SkipWsBoundary(bs);
    SeparatorAfterGap(i.after, b, x, close);
    SeparatorAfterGap(j.after, c, y, close);
    SameSyntax(i.value, p, j.value, q);
  }

  lemma ItemAt(i: Item, tail: seq<byte>)
    requires ItemOk(i)
    ensures SkipWs(ItemText(i) + tail) == SyntaxText(i.value) + (i.after + tail)
  {
    Regroup(i.before, SyntaxText(i.value), i.after, tail);
    SkipToValue(i.before, i.value, i.after + tail);
  }

  lemma {:induction false} SameItems(items: seq<Item>, x: seq<byte>, others: seq<Item>, y: seq<byte>)
    requires items != [] && others != [] && ItemsOk(items) && ItemsOk(others)
    requires ItemsText(items) + ([RBRACKET] + x) == ItemsText(others) + ([RBRACKET] + y)
    requires Valid(ItemsText(items) + ([RBRACKET] + x))
    ensures RfcItems(items) <==> RfcItems(others)
    decreases items
  {
    var b := if |items| > 1 then COMMA else RBRACKET;
    var c := if |others| > 1 then COMMA else RBRACKET;
    var p := if |items| > 1 then ItemsText(items[1..]) + ([RBRACKET] + x) else x;
    var q := if |others| > 1 then ItemsText(others[1..]) + ([RBRACKET] + y) else y;
    ItemsTextSplit(items, x);
    ItemsTextSplit(others, y);
    SameItem(items[0], b, p, others[0], c, q, RBRACKET);
    if |items| > 1 {
      SameItems(items[1..], x, others[1..], y);
    } else {
      assert items[1..] == [] && others[1..] == [];
    }
  }

  lemma {:induction false} SameMember(m: Member, b: byte, x: seq<byte>, n: Member, c: byte, y: seq<byte>)
    requires MemberOk(m) && MemberOk(n) && (b == COMMA || b == RBRACE) && (c == COMMA || c == RBRACE)
    requires MemberText(m) + ([b] + x) == MemberText(n) + ([c] + y) && Valid(MemberText(m) + ([b] + x))
    ensures b == c && x == y && Valid(x) && (RfcMember(m) <==> RfcMember(n))
    decreases m
  {
    MemberAt(m, [b] + x);
    MemberAt(n, [c] + y);
    MemberRest(m, b, x);
    SameStrings(m.key, AfterKey(m, [b] + x), n.key, AfterKey(n, [c] + y));
    SameItem(m.item, b, x, n.item, c, y, RBRACE);
  }

  lemma {:induction false} SameMembers(members: seq<Member>, x: seq<byte>, others: seq<Member>, y: seq<byte>)
    requires members != [] && others != [] && MembersOk(members) && MembersOk(others)
    requires MembersText(members) + ([RBRACE] + x) == MembersText(others) + ([RBRACE] + y)
    requires Valid(MembersText(members) + ([RBRACE] + x))
    ensures RfcMembers(members) <==> RfcMembers(others)
    decreases members
  {
    var b := if |members| > 1 then COMMA else RBRACE;
    var c := if |others| > 1 then COMMA else RBRACE;
    var p := if |members| > 1 then MembersText(members[1..]) + ([RBRACE] + x) else x;
    var q := if |others| > 1 then MembersText(others[1..]) + ([RBRACE] + y) else y;
    MembersTextSplit(members, x);
    MembersTextSplit(others, y);
    SameMember(members[0], b, p, others[0], c, q);
    if |members| > 1 {
      SameMembers(members[1..], x, others[1..], y);
    } else {
      assert members[1..] == [] && others[1..] == [];
    }
  }

  /** The trees of one document are all RFC 8259 or none is. */
  lemma SameDocument(d: Item, e: Item)
    requires ItemOk(d) && ItemOk(e) && ItemText(d) == ItemText(e) && Valid(ItemText(d))
    ensures RfcItem(d) <==> RfcItem(e)
  {
    ItemAt(d, []);
    ItemAt(e, []);
    assert ItemText(d) + [] == ItemText(d) && ItemText(e) + [] == ItemText(e);
    assert d.after + [] == d.after && e.after + [] == e.after;
    SkipWsBoundary(ItemText(d));
    GapEndsNumber(d.after);
    GapEndsNumber(e.after);
    SameSyntax(d.value, d.after, e.value, e.after);
  }

  lemma GapEndsNumber(gap: seq<byte>)
    requires IsGap(gap)
    ensures EndsNumber(gap)
  {
  }

  /** A text the parser's grammar spells by the tree `d` is an RFC 8259 text exactly when `d` is an
      RFC 8259 tree, whichever of its trees `d` may be. */
  lemma RfcTextExactly(d: Item)
    requires ItemOk(d) && Valid(ItemText(d))
    ensures IsRfcText(ItemText(d)) <==> RfcItem(d)
  {
    forall e: Item | RfcItem(e) && ItemText(e) == ItemText(d) ensures RfcItem(d) {
      RfcIsOk(e.value);
      SameDocument(d, e);
    }
  }

  // What makes a tree of the parser's grammar fall short of RFC 8259

  /** A character left raw that section 7 wants escaped, or a sign among the digits of an escape;
      surrogates never have one, for they take all four digits. */
  lemma LaxPiece(p: Piece)
    requires PieceOk(p)
    ensures !RfcPiece(p) <==> (p.Raw? && p.c as int < 0x20) || (p.Code? && p.hex[0] == PLUS)
  {
    match p
    case Raw(_) =>
    case Short(_) =>
    case Code(hex) => SignedDigits(hex);
    case Pair(high, low) =>
      SignedDigits(high);
      SignedDigits(low);
  }

  lemma SignedDigits(hex: seq<byte>)
    requires IsHex4(hex)
    ensures RfcHex4(hex) <==> hex[0] != PLUS
    ensures hex[0] == PLUS ==> Hex4Value(hex) < 0x1000
  {
  }

  /** No digit before the point or after it, or a leading zero. */
  lemma LaxNumeral(lit: ShapedLiteral)
    requires NumeralOk(lit)
    ensures !RfcNumeral(lit)
       <==> lit.whole == [] || (|lit.whole| > 1 && lit.whole[0] == Digits.ZERO) || lit.fraction == Some([])
  {
  }
}
