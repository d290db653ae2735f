/** The multipart format as text, literal by literal (section 5.1 of RFC 2046, section 4.2 of RFC 7578). */
module MultipartText {
  import opened Sequences
  import opened Wrappers
  import opened Utf8
  import opened TextLaws
  import opened Multipart

  lemma BytesAreText(s: string)
    requires forall c :: c in s ==> c as int < 0x80
    ensures Bytes(s) == Encode(s)
  {
    forall i | 0 <= i < |s| ensures s[i] as int < 0x80 {
      assert s[i] in s;
    }
    EncodeCodes(s);
  }

  function QuotedName(s: string): string {
    QuoteEscape(s) + "\""
  }

  function FilenameText(filename: Option<string>): string {
    if filename.Some? then "; filename=\"" + QuotedName(filename.value) else ""
  }

  function TypeText(contentType: Option<string>): string {
    if contentType.Some? then "\r\n" + ("Content-Type: " + contentType.value) else ""
  }

  /** What stands between a part's dash-boundary and its value. */
  function HeaderText(p: Part): string {
    "\r\n" +
    ("Content-Disposition: form-data; name=\"" +
     (QuotedName(p.name) + (FilenameText(p.filename) + (TypeText(p.contentType) + "\r\n\r\n"))))
  }

  lemma QuoteText()
    ensures Encode("\"") == [QUOTE]
  {
    EncodeCodes("\"");
  }

  lemma LineEndText()
    ensures Encode("\r\n") == CRLF && Encode("\r\n\r\n") == CRLF + CRLF
  {
    EncodeCodes("\r\n");
    EncodeCodes("\r\n\r\n");
  }

  lemma QuotedText(s: string)
    ensures Encode(QuotedName(s)) == Quoted(s)
  {
    QuoteText();
    EncodeConcat(QuoteEscape(s), "\"");
  }

  lemma FilenameBytes(filename: Option<string>)
    ensures Encode(FilenameText(filename)) == if filename.Some? then FILENAME + Quoted(filename.value) else []
  {
    if filename.Some? {
      BytesAreText("; filename=\"");
      EncodeConcat("; filename=\"", QuotedName(filename.value));
      QuotedText(filename.value);
    }
  }

  /** A line begun by an ASCII literal. */
  lemma LineBytes(literal: string, rest: string)
    requires forall c :: c in literal ==> c as int < 0x80
    ensures Encode("\r\n" + (literal + rest)) == CRLF + (Bytes(literal) + Encode(rest))
  {
    BytesAreText(literal);
    LineEndText();
    EncodeConcat("\r\n", literal + rest);
    EncodeConcat(literal, rest);
  }

  lemma TypeBytes(contentType: Option<string>)
    ensures Encode(TypeText(contentType)) == if contentType.Some? then CRLF + TypeLine(contentType.value) else []
  {
    if contentType.Some? {
      LineBytes("Content-Type: ", contentType.value);
    }
  }

  /** A part is its header text, then its value. */
  lemma ContentText(p: Part)
    ensures Content(p) == Encode(HeaderText(p)) + p.value
  {
    var file, kind := FilenameText(p.filename), TypeText(p.contentType);
    LineBytes("Content-Disposition: form-data; name=\"", QuotedName(p.name) + (file + (kind + "\r\n\r\n")));
    EncodeConcat(QuotedName(p.name), file + (kind + "\r\n\r\n"));
    EncodeConcat(file, kind + "\r\n\r\n");
    EncodeConcat(kind, "\r\n\r\n");
    QuotedText(p.name);
    FilenameBytes(p.filename);
    TypeBytes(p.contentType);
    LineEndText();
    Regrouped(CRLF, DISPOSITION, Quoted(p.name), Encode(file), Encode(kind), CRLF, p.value);
  }

  lemma Regrouped(
      n: seq<byte>, d: seq<byte>, name: seq<byte>, file: seq<byte>, kind: seq<byte>, e: seq<byte>, value: seq<byte>)
    ensures n + ((d + (name + file)) + (kind + (e + (e + value))))
         == (n + (d + (name + (file + (kind + (e + e)))))) + value
  {
    var tail := kind + (e + e);
    Assoc(n, d + (name + (file + tail)), value);
    Assoc(d, name + (file + tail), value);
    Assoc(name, file + tail, value);
    Assoc(file, tail, value);
    Assoc(kind, e + e, value);
    Assoc(e, e, value);
    Assoc(d, name + file, kind + (e + (e + value)));
    Assoc(name, file, kind + (e + (e + value)));
  }

  /** The body, part by part: each behind its dash-boundary and ended by a line end, then the
      closing dash-boundary. */
  lemma BodyText(parts: seq<Part>, boundary: seq<byte>)
    ensures parts == [] ==> Body(parts, boundary) == (Encode("--") + boundary) + Encode("--\r\n")
    ensures parts != [] ==>
              Body(parts, boundary)
              == (Encode("--") + boundary) +
                 ((Encode(HeaderText(parts[0])) + parts[0].value) + (Encode("\r\n") + Body(parts[1..], boundary)))
  {
    EncodeCodes("--");
    EncodeCodes("--\r\n");
    LineEndText();
    assert Encode("--") == DASHES;
    assert Encode("--\r\n") == DASHES + CRLF;
    if parts != [] {
      ContentText(parts[0]);
    }
  }

  /** The boundary is the word RustyRequestBoundary and 32 digits. */
  lemma BoundaryText(r1: nat, r2: nat)
    ensures Boundary(r1, r2) == Encode("RustyRequestBoundary") + (Hex(r1, 16) + Hex(r2, 16))
  {
    BytesAreText("RustyRequestBoundary");
  }

  /** Small hexadecimal digits, last digit last. */
  lemma HexSpells(n: nat, width: nat)
    requires width > 0
    ensures var ds := Hex(n, width);
            ds[width - 1] as char == "0123456789abcdef"[n % 16] && ds[..width - 1] == Hex(n / 16, width - 1)
  {
  }
}
