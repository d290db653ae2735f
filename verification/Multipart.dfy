/** `multipart/form-data` encoding (RFC 7578) against a strict reference decoder. */
module Multipart {
  import opened Sequences
  import opened Wrappers
  import opened Utf8
  import Digits

  datatype Part = Part(name: string, filename: Option<string>, contentType: Option<string>, value: seq<byte>)

  const CR: byte := 0x0D
  const LF: byte := 0x0A
  const QUOTE: byte := 0x22
  const BACKSLASH: byte := 0x5C
  const DASH: byte := 0x2D
  const CRLF: seq<byte> := [CR, LF]
  const DASHES: seq<byte> := [DASH, DASH]

  function ByteOf(c: char): byte
    requires c as int < 0x80
  {
    c as int
  }

  /** The bytes of an ASCII literal. */
  function Bytes(s: string): (bs: seq<byte>)
    requires forall c :: c in s ==> c as int < 0x80
    ensures |bs| == |s|
  {
    seq(|s|, i requires 0 <= i < |s| => assert s[i] in s; ByteOf(s[i]))
  }

  const DISPOSITION: seq<byte> := Bytes("Content-Disposition: form-data; name=\"")
  const FILENAME: seq<byte> := Bytes("; filename=\"")
  const CONTENT_TYPE: seq<byte> := Bytes("Content-Type: ")

  // Encoding

  function QuoteEscape(s: string): string {
    if s == [] then [] else EscapeChar(s[0]) + QuoteEscape(s[1..])
  }

  function EscapeChar(c: char): string {
    if c == '"' || c == '\\' then ['\\', c] else [c]
  }

  lemma QuoteEscapeStep(s: string, i: nat)
    requires i < |s|
    ensures QuoteEscape(s[i..]) == EscapeChar(s[i]) + QuoteEscape(s[i + 1..])
  {
    assert s[i..][1..] == s[i + 1..];
  }

  function Quoted(s: string): seq<byte> {
    Encode(QuoteEscape(s)) + [QUOTE]
  }

  function DispositionLine(p: Part): seq<byte> {
    DISPOSITION + (Quoted(p.name) + (if p.filename.Some? then FILENAME + Quoted(p.filename.value) else []))
  }

  function TypeLine(contentType: string): seq<byte> {
    CONTENT_TYPE + Encode(contentType)
  }

  /** The rest of a part after its disposition line. */
  function AfterLine(p: Part): seq<byte> {
    (if p.contentType.Some? then CRLF + TypeLine(p.contentType.value) else []) + (CRLF + (CRLF + p.value))
  }

  /** A part, from the end of its delimiter to the start of the next. */
  function Content(p: Part): seq<byte> {
    CRLF + (DispositionLine(p) + AfterLine(p))
  }

  function DashBoundary(boundary: seq<byte>): seq<byte> {
    DASHES + boundary
  }

  function Closing(): seq<byte> {
    DASHES + CRLF
  }

  /** Every part behind its dash-boundary, then the closing one. */
  function Body(parts: seq<Part>, boundary: seq<byte>): seq<byte> {
    if parts == [] then
      DashBoundary(boundary) + Closing()
    else
      DashBoundary(boundary) + (Content(parts[0]) + (CRLF + Body(parts[1..], boundary)))
  }

  method QuoteEscapeLoop(s: string) returns (out: string)
    ensures out == QuoteEscape(s)
  {
    out := [];
    for i := 0 to |s|
      invariant out + QuoteEscape(s[i..]) == QuoteEscape(s)
    {
      ghost var before := out;
      var c := s[i];
      if c == '"' || c == '\\' {
        out := out + ['\\'];
      }
      out := out + [c];
      QuoteEscapeStep(s, i);
      assert out == before + EscapeChar(c) by {
        if EscapeChar(c) == ['\\', c] {
          assert ['\\'] + [c] == ['\\', c];
          Assoc(before, ['\\'], [c]);
        }
      }
      Assoc(before, EscapeChar(c), QuoteEscape(s[i + 1..]));
    }
    assert out + [] == out;
  }

  /** The header lines of a part, from the end of its dash-boundary up to its blank line. */
  function Head(p: Part): seq<byte> {
    CRLF + DispositionLine(p) + CRLF +
    (if p.contentType.Some? then TypeLine(p.contentType.value) + CRLF else [])
  }

  method EncodeDisposition(part: Part) returns (line: seq<byte>)
    ensures line == DispositionLine(part)
  {
    line := DISPOSITION;
    var name := QuoteEscapeLoop(part.name);
    line := line + Encode(name);
    line := line + [QUOTE];
    Assoc(DISPOSITION, Encode(name), [QUOTE]);
    ghost var named := line;
    if part.filename.Some? {
      line := line + FILENAME;
      var filename := QuoteEscapeLoop(part.filename.value);
      line := line + Encode(filename);
      line := line + [QUOTE];
      LeftToRight(named, FILENAME, Encode(filename), [QUOTE]);
      Assoc(DISPOSITION, Quoted(part.name), FILENAME + Quoted(part.filename.value));
    } else {
      assert Quoted(part.name) + [] == Quoted(part.name);
    }
  }

  method EncodeHead(part: Part) returns (head: seq<byte>)
    ensures head == Head(part)
  {
    var line := EncodeDisposition(part);
    head := CRLF + line;
    head := head + CRLF;
    ghost var before := head;
    if part.contentType.Some? {
      head := head + CONTENT_TYPE;
      head := head + Encode(part.contentType.value);
      head := head + CRLF;
      MiddleFirst(before, CONTENT_TYPE, Encode(part.contentType.value), CRLF);
    }
  }

  lemma HeadContent(p: Part)
    ensures Head(p) + CRLF + p.value == Content(p)
  {
    if p.contentType.Some? {
      WithType(CRLF, DispositionLine(p), TypeLine(p.contentType.value), p.value);
    } else {
      WithoutType(CRLF, DispositionLine(p), p.value);
    }
  }

  lemma WithType(n: seq<byte>, line: seq<byte>, kind: seq<byte>, value: seq<byte>)
    ensures n + line + n + (kind + n) + n + value == n + (line + ((n + kind) + (n + (n + value))))
  {
    var rest := n + (n + value);
    LeftToRight(n + line + n, kind + n, n, value);
    Assoc(kind, n, n + value);
    LeftToRight(n, line, n, kind + rest);
    Assoc(n, kind, rest);
  }

  lemma WithoutType(n: seq<byte>, line: seq<byte>, value: seq<byte>)
    ensures n + line + n + [] + n + value == n + (line + ([] + (n + (n + value))))
  {
    assert n + line + n + [] == n + line + n;
    LeftToRight(n + line, n, n, value);
    Assoc(n, line, n + (n + value));
    assert [] + (n + (n + value)) == n + (n + value);
  }

  /** A part with its dash-boundary and the CRLF that ends it. */
  function PartText(p: Part, boundary: seq<byte>): seq<byte> {
    DashBoundary(boundary) + (Content(p) + CRLF)
  }

  /** One turn of the loop of `Multipart::encode`. */
  method AppendPart(sofar: seq<byte>, part: Part, boundary: seq<byte>) returns (body: seq<byte>)
    ensures body == sofar + PartText(part, boundary)
  {
    var head := EncodeHead(part);
    body := sofar + DASHES;
    body := body + boundary;
    body := body + head;
    body := body + CRLF;
    body := body + part.value;
    body := body + CRLF;
    HeadContent(part);
    MiddleFirst(sofar + DASHES + boundary, head, CRLF, part.value);
    MiddleFirst(sofar, DASHES, boundary, Content(part));
    MiddleFirst(sofar, DashBoundary(boundary), Content(part), CRLF);
    assert DashBoundary(boundary) + Content(part) + CRLF == PartText(part, boundary);
  }

  /** The loop of `Multipart::encode` for a drawn boundary; also the header value it goes with. */
  method EncodeParts(parts: seq<Part>, boundary: seq<byte>) returns (body: seq<byte>, contentType: seq<byte>)
    ensures body == Body(parts, boundary)
    ensures contentType == Bytes("multipart/form-data; boundary=") + boundary
  {
    body := [];
    for i := 0 to |parts|
      invariant body + Body(parts[i..], boundary) == Body(parts, boundary)
    {
      ghost var before := body;
      body := AppendPart(body, parts[i], boundary);
      BodyStep(parts, i, boundary);
      Assoc(before, PartText(parts[i], boundary), Body(parts[i + 1..], boundary));
    }
    body := body + (DashBoundary(boundary) + Closing());
    contentType := Bytes("multipart/form-data; boundary=") + boundary;
  }

  lemma BodyStep(parts: seq<Part>, i: nat, boundary: seq<byte>)
    requires i < |parts|
    ensures Body(parts[i..], boundary) == PartText(parts[i], boundary) + Body(parts[i + 1..], boundary)
  {
    var rest := Body(parts[i + 1..], boundary);
    assert parts[i..][1..] == parts[i + 1..];
    Assoc(Content(parts[i]), CRLF, rest);
    Assoc(DashBoundary(boundary), Content(parts[i]) + CRLF, rest);
  }

  // The boundary

  /** The `width` low-order hexadecimal digits of `n`. */
  function Hex(n: nat, width: nat): (ds: seq<byte>)
    ensures |ds| == width
    ensures forall i :: 0 <= i < width ==> 0x30 <= ds[i] <= 0x39 || 0x61 <= ds[i] <= 0x66
  {
    if width == 0 then [] else Hex(n / 16, width - 1) + [Digits.HexDigit(n % 16)]
  }

  function Pow16(k: nat): (p: nat)
    ensures p >= 1
  {
    if k == 0 then 1 else 16 * Pow16(k - 1)
  }

  lemma {:induction false} HexInjective(m: nat, n: nat, width: nat)
    requires m < Pow16(width) && n < Pow16(width)
    requires Hex(m, width) == Hex(n, width)
    ensures m == n
  {
    if width > 0 {
      var a, b := Hex(m, width), Hex(n, width);
      assert a[..width - 1] == Hex(m / 16, width - 1) && b[..width - 1] == Hex(n / 16, width - 1);
      assert a[width - 1] == Digits.HexDigit(m % 16) && b[width - 1] == Digits.HexDigit(n % 16);
      HexInjective(m / 16, n / 16, width - 1);
    }
  }

  const PREFIX: seq<byte> := Bytes("RustyRequestBoundary")

  /** `generate_boundary` for two draws from the random source. */
  function Boundary(r1: nat, r2: nat): seq<byte> {
    PREFIX + (Hex(r1, 16) + Hex(r2, 16))
  }

  lemma BytesMember(s: string, b: byte)
    requires forall c :: c in s ==> c as int < 0x80
    requires b < 0x80 && b as char !in s
    ensures b !in Bytes(s)
  {
    forall i | 0 <= i < |Bytes(s)| ensures Bytes(s)[i] != b {
      assert s[i] in s;
    }
  }

  /** A drawn boundary is within the 70 characters of section 5.1.1 of RFC 2046, has no CR to
      confuse a delimiter with, and tells different draws apart. */
  lemma BoundaryFit(r1: nat, r2: nat, q1: nat, q2: nat)
    requires r1 < Pow16(16) && r2 < Pow16(16) && q1 < Pow16(16) && q2 < Pow16(16)
    ensures |Boundary(r1, r2)| == 52 && CR !in Boundary(r1, r2)
    ensures Boundary(r1, r2) == Boundary(q1, q2) ==> r1 == q1 && r2 == q2
  {
    BytesMember("RustyRequestBoundary", CR);
    var a, b := Boundary(r1, r2), Boundary(q1, q2);
    assert a[20..36] == Hex(r1, 16) && a[36..] == Hex(r2, 16);
    assert b[20..36] == Hex(q1, 16) && b[36..] == Hex(q2, 16);
    if a == b {
      HexInjective(r1, q1, 16);
      HexInjective(r2, q2, 16);
    }
  }
}
