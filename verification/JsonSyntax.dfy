/** The texts the parser accepts, as a grammar of concrete syntax trees that is independent of
    the parser: every token, escape and gap is a choice recorded in the tree. */
module JsonSyntax {
  import opened Wrappers
  import opened Utf8
  import opened JsonLiteral
  import opened JsonNumber
  import opened JsonValue
  import opened JsonSpec
  import Digits

  /** One character of a string, in one of the ways it can be written. */
  datatype Piece =
    | Raw(c: char)
    | Short(letter: byte)
    | Code(hex: seq<byte>)
    | Pair(high: seq<byte>, low: seq<byte>)

  /** `Bare` stands for the words printed for NaN and the infinities; no legal tree has one. */
  datatype Syntax =
    | NullWord
    | BoolWord(b: bool)
    | Bare(word: seq<byte>)
    | Numeral(lit: ShapedLiteral)
    | Quoted(pieces: seq<Piece>)
    | List(gap: seq<byte>, items: seq<Item>)
    | Braces(gap: seq<byte>, members: seq<Member>)

  /** A value with the insignificant whitespace around it. */
  datatype Item = Item(before: seq<byte>, value: Syntax, after: seq<byte>)

  datatype Member = Member(before: seq<byte>, key: seq<Piece>, afterKey: seq<byte>, item: Item)

  // Texts

  function PieceText(p: Piece): seq<byte> {
    match p
    case Raw(c) => EncodeChar(c)
    case Short(letter) => [BACKSLASH, letter]
    case Code(hex) => [BACKSLASH, LOWER_U] + hex
    case Pair(high, low) => [BACKSLASH, LOWER_U] + (high + ([BACKSLASH, LOWER_U] + low))
  }

  function PiecesText(ps: seq<Piece>): seq<byte> {
    if ps == [] then [] else PieceText(ps[0]) + PiecesText(ps[1..])
  }

  function QuotedText(ps: seq<Piece>): seq<byte> {
    [QUOTE] + (PiecesText(ps) + [QUOTE])
  }

  function WordText(b: bool): seq<byte> {
    if b then TRUE_TEXT else FALSE_TEXT
  }

  function SyntaxText(v: Syntax): seq<byte>
    decreases v
  {
    match v
    case NullWord => NULL_TEXT
    case BoolWord(b) => WordText(b)
    case Bare(word) => word
    case Numeral(lit) => Text(lit)
    case Quoted(pieces) => QuotedText(pieces)
    case List(gap, items) => [LBRACKET] + ((if items == [] then gap else ItemsText(items)) + [RBRACKET])
    case Braces(gap, members) => [LBRACE] + ((if members == [] then gap else MembersText(members)) + [RBRACE])
  }

  function ItemText(i: Item): seq<byte>
    decreases i
  {
    i.before + (SyntaxText(i.value) + i.after)
  }

  function ItemsText(items: seq<Item>): seq<byte>
    requires items != []
    decreases items
  {
    ItemText(items[0]) + (if |items| > 1 then [COMMA] + ItemsText(items[1..]) else [])
  }

  function MemberText(m: Member): seq<byte>
    decreases m
  {
    m.before + (QuotedText(m.key) + (m.afterKey + ([COLON] + ItemText(m.item))))
  }

  function MembersText(members: seq<Member>): seq<byte>
    requires members != []
    decreases members
  {
    MemberText(members[0]) + (if |members| > 1 then [COMMA] + MembersText(members[1..]) else [])
  }

  // What is legal for this parser

  predicate IsGap(ws: seq<byte>) {
    forall i :: 0 <= i < |ws| ==> IsSpace(ws[i])
  }

  predicate PieceOk(p: Piece) {
    match p
    case Raw(c) => c != '"' && c != '\\'
    case Short(letter) => ShortEscape(letter).Some?
    case Code(hex) => IsHex4(hex) && IsScalar(Hex4Value(hex))
    case Pair(high, low) =>
      IsHex4(high) && IsHighSurrogate(Hex4Value(high)) && IsHex4(low) && IsLowSurrogate(Hex4Value(low))
  }

  predicate PiecesOk(ps: seq<Piece>) {
    forall i :: 0 <= i < |ps| ==> PieceOk(ps[i])
  }

  predicate NumeralOk(lit: ShapedLiteral) {
    (lit.negative || lit.whole != []) && NumberOf(lit).Some?
  }

  predicate SyntaxOk(v: Syntax)
    decreases v
  {
    match v
    case NullWord => true
    case BoolWord(_) => true
    case Bare(_) => false
    case Numeral(lit) => NumeralOk(lit)
    case Quoted(pieces) => PiecesOk(pieces)
    case List(gap, items) => IsGap(gap) && ItemsOk(items)
    case Braces(gap, members) => IsGap(gap) && MembersOk(members)
  }

  predicate ItemOk(i: Item)
    decreases i
  {
    IsGap(i.before) && SyntaxOk(i.value) && IsGap(i.after)
  }

  predicate ItemsOk(items: seq<Item>)
    decreases items
  {
    items == [] || (ItemOk(items[0]) && ItemsOk(items[1..]))
  }

  predicate MemberOk(m: Member)
    decreases m
  {
    IsGap(m.before) && PiecesOk(m.key) && IsGap(m.afterKey) && ItemOk(m.item)
  }

  predicate MembersOk(members: seq<Member>)
    decreases members
  {
    members == [] || (MemberOk(members[0]) && MembersOk(members[1..]))
  }

  // Meanings

  function PieceChar(p: Piece): char
    requires PieceOk(p)
  {
    match p
    case Raw(c) => c
    case Short(letter) => ShortEscape(letter).value
    case Code(hex) => Hex4Value(hex) as char
    case Pair(high, low) => Combine(Hex4Value(high), Hex4Value(low)) as char
  }

  function Chars(ps: seq<Piece>): string
    requires PiecesOk(ps)
  {
    if ps == [] then [] else [PieceChar(ps[0])] + Chars(ps[1..])
  }

  function Meaning(v: Syntax): Value
    requires SyntaxOk(v)
    decreases v
  {
    match v
    case NullWord => Null
    case BoolWord(b) => Bool(b)
    case Numeral(lit) => Num(NumberOf(lit).value)
    case Quoted(pieces) => Str(Chars(pieces))
    case List(_, items) => Array(Meanings(items))
    case Braces(_, members) => Object(Collect(Pairs(members)))
  }

  function Meanings(items: seq<Item>): seq<Value>
    requires ItemsOk(items)
    decreases items
  {
    if items == [] then
      []
    else
      assert ItemOk(items[0]);
      [Meaning(items[0].value)] + Meanings(items[1..])
  }

  function PairOf(m: Member): Entry
    requires MemberOk(m)
    decreases m
  {
    assert ItemOk(m.item);
    Entry(Chars(m.key), Meaning(m.item.value))
  }

  /** The members of an object in source order, repeated names included. */
  function Pairs(members: seq<Member>): (pairs: seq<Entry>)
    requires MembersOk(members)
    decreases members
  {
    if members == [] then [] else [PairOf(members[0])] + Pairs(members[1..])
  }

  // RFC 8259, which is stricter

  predicate RfcPiece(p: Piece) {
    match p
    case Raw(c) => c != '"' && c != '\\' && c as int >= 0x20
    case Short(letter) => ShortEscape(letter).Some?
    case Code(hex) => RfcHex4(hex) && IsScalar(Hex4Value(hex))
    case Pair(high, low) =>
      RfcHex4(high) && IsHighSurrogate(Hex4Value(high)) && RfcHex4(low) && IsLowSurrogate(Hex4Value(low))
  }

  predicate RfcHex4(hex: seq<byte>) {
    |hex| == 4 && forall i :: 0 <= i < 4 ==> IsHex(hex[i])
  }

  predicate RfcPieces(ps: seq<Piece>) {
    forall i :: 0 <= i < |ps| ==> RfcPiece(ps[i])
  }

  predicate RfcNumeral(lit: ShapedLiteral) {
    && lit.whole != [] && (lit.whole[0] == Digits.ZERO ==> |lit.whole| == 1)
    && lit.fraction != Some([])
    && (lit.exponent.Some? ==> lit.exponent.value.digits != [])
  }

  predicate RfcSyntax(v: Syntax)
    decreases v
  {
    match v
    case NullWord => true
    case BoolWord(_) => true
    case Bare(_) => false
    case Numeral(lit) => RfcNumeral(lit)
    case Quoted(pieces) => RfcPieces(pieces)
    case List(gap, items) => IsGap(gap) && RfcItems(items)
    case Braces(gap, members) => IsGap(gap) && RfcMembers(members)
  }

  predicate RfcItem(i: Item)
    decreases i
  {
    IsGap(i.before) && RfcSyntax(i.value) && IsGap(i.after)
  }

  predicate RfcItems(items: seq<Item>)
    decreases items
  {
    items == [] || (RfcItem(items[0]) && RfcItems(items[1..]))
  }

  predicate RfcMember(m: Member)
    decreases m
  {
    IsGap(m.before) && RfcPieces(m.key) && IsGap(m.afterKey) && RfcItem(m.item)
  }

  predicate RfcMembers(members: seq<Member>)
    decreases members
  {
    members == [] || (RfcMember(members[0]) && RfcMembers(members[1..]))
  }

  lemma RfcPiecesOk(ps: seq<Piece>)
    requires RfcPieces(ps)
    ensures PiecesOk(ps)
  {
    forall i | 0 <= i < |ps| ensures PieceOk(ps[i]) {
      assert RfcPiece(ps[i]);
    }
  }

  lemma RfcNumeralOk(lit: ShapedLiteral)
    requires RfcNumeral(lit)
    ensures NumeralOk(lit)
  {
    assert Mantissa(lit)[0] == lit.whole[0];
  }

  /** Everything RFC 8259 allows, the parser's grammar allows. */
  lemma {:induction false} RfcIsOk(v: Syntax)
    requires RfcSyntax(v)
    ensures SyntaxOk(v)
    decreases v
  {
    match v
    case NullWord =>
    case BoolWord(_) =>
    case Bare(_) =>
    case Numeral(lit) => RfcNumeralOk(lit);
    case Quoted(pieces) => RfcPiecesOk(pieces);
    case List(_, items) => RfcItemsOk(items);
    case Braces(_, members) => RfcMembersOk(members);
  }

  lemma {:induction false} RfcItemsOk(items: seq<Item>)
    requires RfcItems(items)
    ensures ItemsOk(items)
    decreases items
  {
    if items != [] {
      RfcIsOk(items[0].value);
      RfcItemsOk(items[1..]);
    }
  }

  lemma {:induction false} RfcMembersOk(members: seq<Member>)
    requires RfcMembers(members)
    ensures MembersOk(members)
    decreases members
  {
    if members != [] {
      var m := members[0];
      assert RfcMember(m) && RfcItem(m.item);
      RfcPiecesOk(m.key);
      RfcIsOk(m.item.value);
      RfcMembersOk(members[1..]);
      assert ItemOk(m.item) && MemberOk(m);
    }
  }
}
