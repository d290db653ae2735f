/** The compact serializer: what it prints, and the loops that append it to a buffer. */
module JsonWriter {
  import opened Sequences
  import opened Utf8
  import opened JsonLiteral
  import opened JsonNumber
  import opened JsonValue
  import Digits

  /** `{:04x}` of a control character. */
  function Hex4(n: nat): seq<byte>
    requires n < 0x100
  {
    [0x30, 0x30, Digits.HexDigit(n / 16), Digits.HexDigit(n % 16)]
  }

  function PrintChar(c: char): string {
    match c
    case '"' => "\\\""
    case '\\' => "\\\\"
    case '\n' => "\\n"
    case '\r' => "\\r"
    case '\t' => "\\t"
    case _ => if c as int < 0x20 then "\\u" + FromAscii(Hex4(c as int)) else [c]
  }

  function PrintChars(s: string): string {
    if s == [] then [] else PrintChar(s[0]) + PrintChars(s[1..])
  }

  function PrintString(s: string): string {
    "\"" + PrintChars(s) + "\""
  }

  lemma LiteralAscii(lit: ShapedLiteral)
    ensures Ascii(Text(lit))
  {
    AsciiConcat(FractionText(lit.fraction), ExponentText(lit.exponent));
    AsciiConcat(lit.whole, FractionText(lit.fraction) + ExponentText(lit.exponent));
    AsciiConcat(SignText(lit.negative), UnsignedText(lit));
  }

  lemma AsciiConcat(a: seq<byte>, b: seq<byte>)
    requires Ascii(a) && Ascii(b)
    ensures Ascii(a + b)
  {
  }

  lemma PrintedAscii(n: Number)
    ensures Ascii(PrintedText(n))
  {
    if n.Finite? {
      PrintedReadsBack(n.decimal);
      LiteralAscii(LiteralOf(n.decimal));
    }
  }

  function PrintNumber(n: Number): string {
    PrintedAscii(n);
    FromAscii(PrintedText(n))
  }

  function Print(v: Value): string
    decreases v, 0
  {
    match v
    case Null => "null"
    case Bool(b) => if b then "true" else "false"
    case Num(n) => PrintNumber(n)
    case Str(s) => PrintString(s)
    case Array(items) => "[" + PrintItems(items) + "]"
    case Object(entries) => "{" + PrintEntries(entries) + "}"
  }

  function PrintItems(items: seq<Value>): string
    decreases items
  {
    if items == [] then
      []
    else
      Print(items[0]) + (if |items| > 1 then "," + PrintItems(items[1..]) else [])
  }

  function PrintEntry(e: Entry): string
    decreases e, 0
  {
    PrintString(e.key) + ":" + Print(e.value)
  }

  function PrintEntries(entries: seq<Entry>): string
    decreases entries
  {
    if entries == [] then
      []
    else
      PrintEntry(entries[0]) + (if |entries| > 1 then "," + PrintEntries(entries[1..]) else [])
  }

  function Comma(i: nat): string {
    if i > 0 then "," else []
  }

  /** What is left to print of an array once `i` of its items are out. */
  function ItemsFrom(items: seq<Value>, i: nat): string
    requires i <= |items|
  {
    if i < |items| then Comma(i) + PrintItems(items[i..]) else []
  }

  lemma ItemsStep(items: seq<Value>, i: nat)
    requires i < |items|
    ensures ItemsFrom(items, i) == Comma(i) + (Print(items[i]) + ItemsFrom(items, i + 1))
  {
    assert items[i..][1..] == items[i + 1..];
  }

  function EntriesFrom(entries: seq<Entry>, i: nat): string
    requires i <= |entries|
  {
    if i < |entries| then Comma(i) + PrintEntries(entries[i..]) else []
  }

  lemma EntriesStep(entries: seq<Entry>, i: nat)
    requires i < |entries|
    ensures EntriesFrom(entries, i) == Comma(i) + (PrintEntry(entries[i]) + EntriesFrom(entries, i + 1))
  {
    assert entries[i..][1..] == entries[i + 1..];
  }

  lemma ItemsAll(items: seq<Value>)
    ensures ItemsFrom(items, 0) == PrintItems(items)
  {
    assert items[0..] == items;
    assert [] + PrintItems(items) == PrintItems(items);
  }

  lemma EntriesAll(entries: seq<Entry>)
    ensures EntriesFrom(entries, 0) == PrintEntries(entries)
  {
    assert entries[0..] == entries;
    assert [] + PrintEntries(entries) == PrintEntries(entries);
  }

  lemma CharsStep(s: string, i: nat)
    requires i < |s|
    ensures PrintChars(s[i..]) == PrintChar(s[i]) + PrintChars(s[i + 1..])
  {
    assert s[i..][1..] == s[i + 1..];
  }

  /** The `&mut String` every printing function appends to. */
  class Writer {
    var out: string

    constructor ()
      ensures out == []
    {
      out := [];
    }

    method WriteString(s: string)
      modifies this
      ensures out == old(out) + PrintString(s)
    {
      ghost var before := out;
      out := out + "\"";
      ghost var start := out;
      for i := 0 to |s|
        invariant out + PrintChars(s[i..]) == start + PrintChars(s)
      {
        CharsStep(s, i);
        Assoc(out, PrintChar(s[i]), PrintChars(s[i + 1..]));
        WriteChar(s[i]);
      }
      assert start + PrintChars(s) == out;
      out := out + "\"";
      LeftToRight(before, "\"", PrintChars(s), "\"");
      Assoc("\"", PrintChars(s), "\"");
    }

    /** The body of the string loop. */
    method WriteChar(c: char)
      modifies this
      ensures out == old(out) + PrintChar(c)
    {
      match c {
        case '"' => out := out + "\\\"";
        case '\\' => out := out + "\\\\";
        case '\n' => out := out + "\\n";
        case '\r' => out := out + "\\r";
        case '\t' => out := out + "\\t";
        case _ =>
          if c as int < 0x20 {
            out := out + ("\\u" + FromAscii(Hex4(c as int)));
          } else {
            out := out + [c];
          }
      }
    }

    method WriteJson(v: Value)
      modifies this
      ensures out == old(out) + Print(v)
      decreases v, 0
    {
      ghost var start := out;
      match v {
        case Null => out := out + "null";
        case Bool(b) => out := out + (if b then "true" else "false");
        case Num(n) => out := out + PrintNumber(n);
        case Str(s) => WriteString(s);
        case Array(items) =>
          out := out + "[";
          WriteItems(items);
          out := out + "]";
          LeftToRight(start, "[", PrintItems(items), "]");
          Assoc("[", PrintItems(items), "]");
        case Object(entries) =>
          out := out + "{";
          WriteEntries(entries);
          out := out + "}";
          LeftToRight(start, "{", PrintEntries(entries), "}");
          Assoc("{", PrintEntries(entries), "}");
      }
    }

    /** The loop of the array arm. */
    method WriteItems(items: seq<Value>)
      modifies this
      ensures out == old(out) + PrintItems(items)
      decreases items
    {
      ghost var start := out;
      for i := 0 to |items|
        invariant out + ItemsFrom(items, i) == start + ItemsFrom(items, 0)
      {
        ghost var before := out;
        if i > 0 {
          out := out + ",";
        }
        assert out == before + Comma(i);
        WriteJson(items[i]);
        ItemsStep(items, i);
        LeftToRight(before, Comma(i), Print(items[i]), ItemsFrom(items, i + 1));
      }
      ItemsAll(items);
      assert out + [] == out;
    }

    method WriteEntry(e: Entry)
      modifies this
      ensures out == old(out) + PrintEntry(e)
      decreases e, 0
    {
      ghost var start := out;
      WriteString(e.key);
      out := out + ":";
      WriteJson(e.value);
      LeftToRight(start, PrintString(e.key), ":", Print(e.value));
      Assoc(PrintString(e.key), ":", Print(e.value));
    }

    /** The loop of the object arm. */
    method WriteEntries(entries: seq<Entry>)
      modifies this
      ensures out == old(out) + PrintEntries(entries)
      decreases entries
    {
      ghost var start := out;
      for i := 0 to |entries|
        invariant out + EntriesFrom(entries, i) == start + EntriesFrom(entries, 0)
      {
        ghost var before := out;
        if i > 0 {
          out := out + ",";
        }
        assert out == before + Comma(i);
        WriteEntry(entries[i]);
        EntriesStep(entries, i);
        LeftToRight(before, Comma(i), PrintEntry(entries[i]), EntriesFrom(entries, i + 1));
      }
      EntriesAll(entries);
      assert out + [] == out;
    }
  }

  /** `Value::to_json_string`. */
  method ToJsonString(v: Value) returns (s: string)
    ensures s == Print(v)
  {
    var w := new Writer();
    w.WriteJson(v);
    s := w.out;
    assert [] + Print(v) == Print(v);
  }
}
