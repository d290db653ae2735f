/** A strict decoder (section 5.1.1 of RFC 2046, section 4 of RFC 7578) and the exact condition
    under which it gives back the parts that were encoded. */
module MultipartDecoder {
  import opened Wrappers
  import opened Sequences
  import opened Utf8
  import opened Splitting
  import opened Multipart

  function Delimiter(boundary: seq<byte>): seq<byte> {
    CRLF + DashBoundary(boundary)
  }

  /** What follows `prefix` in `t`. */
  function Strip(prefix: seq<byte>, t: seq<byte>): Option<seq<byte>> {
    if prefix <= t then Some(t[|prefix|..]) else None
  }

  lemma StripPrefix(prefix: seq<byte>, tail: seq<byte>)
    ensures Strip(prefix, prefix + tail) == Some(tail)
  {
    assert (prefix + tail)[..|prefix|] == prefix;
  }

  lemma StripInverse(prefix: seq<byte>, t: seq<byte>)
    requires Strip(prefix, t).Some?
    ensures t == prefix + Strip(prefix, t).value
  {
  }

  // Quoted strings

  predicate Special(b: byte) {
    b == QUOTE || b == BACKSLASH
  }

  /** What `quote_escape` does to the bytes of its argument. */
  function EscapeBytes(bs: seq<byte>): seq<byte> {
    if bs == [] then
      []
    else
      (if Special(bs[0]) then [BACKSLASH, bs[0]] else [bs[0]]) + EscapeBytes(bs[1..])
  }

  /** The bytes up to the closing quote, unescaped, and what follows it. */
  function Unquote(bs: seq<byte>): Option<(seq<byte>, seq<byte>)>
    decreases |bs|
  {
    if bs == [] then
      None
    else if bs[0] == QUOTE then
      Some(([], bs[1..]))
    else if bs[0] == BACKSLASH then
      if |bs| >= 2 && Special(bs[1]) then
        var (text, rest) :- Unquote(bs[2..]);
        Some(([bs[1]] + text, rest))
      else
        None
    else
      var (text, rest) :- Unquote(bs[1..]);
      Some(([bs[0]] + text, rest))
  }

  lemma {:induction false} UnquoteEscaped(bs: seq<byte>, tail: seq<byte>)
    ensures Unquote(EscapeBytes(bs) + ([QUOTE] + tail)) == Some((bs, tail))
    decreases |bs|
  {
    var t := EscapeBytes(bs) + ([QUOTE] + tail);
    if bs == [] {
      assert t == [QUOTE] + tail;
    } else {
      UnquoteEscaped(bs[1..], tail);
      var rest := EscapeBytes(bs[1..]) + ([QUOTE] + tail);
      if Special(bs[0]) {
        assert t == [BACKSLASH, bs[0]] + rest;
        assert t[2..] == rest;
      } else {
        assert t == [bs[0]] + rest;
        assert t[1..] == rest;
      }
      assert [bs[0]] + bs[1..] == bs;
    }
  }

  lemma {:induction false} EscapedUnquote(bs: seq<byte>)
    requires Unquote(bs).Some?
    ensures var (text, rest) := Unquote(bs).value; bs == EscapeBytes(text) + ([QUOTE] + rest)
    decreases |bs|
  {
    var (text, rest) := Unquote(bs).value;
    if bs[0] != QUOTE {
      var k := if bs[0] == BACKSLASH then 2 else 1;
      EscapedUnquote(bs[k..]);
      assert text[1..] == Unquote(bs[k..]).value.0;
      assert bs == bs[..k] + (EscapeBytes(text[1..]) + ([QUOTE] + rest));
      assert bs[..k] == if Special(text[0]) then [BACKSLASH, text[0]] else [text[0]];
    }
  }

  lemma {:induction false} EscapeBytesConcat(a: seq<byte>, b: seq<byte>)
    ensures EscapeBytes(a + b) == EscapeBytes(a) + EscapeBytes(b)
  {
    if a == [] {
      assert a + b == b;
    } else {
      EscapeBytesConcat(a[1..], b);
      assert (a + b)[1..] == a[1..] + b;
      Assoc(if Special(a[0]) then [BACKSLASH, a[0]] else [a[0]], EscapeBytes(a[1..]), EscapeBytes(b));
    }
  }

  lemma {:induction false} EscapePlain(bs: seq<byte>)
    requires forall i :: 0 <= i < |bs| ==> !Special(bs[i])
    ensures EscapeBytes(bs) == bs
  {
    if bs != [] {
      EscapePlain(bs[1..]);
      assert bs == [bs[0]] + bs[1..];
    }
  }

  lemma EscapeOne(c: char)
    ensures Encode(EscapeChar(c)) == EscapeBytes(EncodeChar(c))
  {
    EncodeSingle(c);
    if c == '"' || c == '\\' {
      EncodeSingle('\\');
      EncodeConcat(['\\'], [c]);
      assert ['\\', c] == ['\\'] + [c];
      assert EscapeBytes([c as int]) == [BACKSLASH, c as int] + EscapeBytes([]);
    } else {
      NotSpecial(c);
      EscapePlain(EncodeChar(c));
    }
  }

  /** Escaping characters and encoding them is encoding them and escaping bytes. */
  lemma {:induction false} EscapeCommutes(s: string)
    ensures Encode(QuoteEscape(s)) == EscapeBytes(Encode(s))
  {
    if s != [] {
      EscapeCommutes(s[1..]);
      EscapeOne(s[0]);
      EscapeBytesConcat(EncodeChar(s[0]), Encode(s[1..]));
      EncodeConcat(EscapeChar(s[0]), QuoteEscape(s[1..]));
    }
  }

  lemma EncodeSingle(c: char)
    ensures Encode([c]) == EncodeChar(c)
  {
    assert [c][1..] == [];
    assert Encode([]) == [];
  }

  lemma NotSpecial(c: char)
    requires c != '"' && c != '\\'
    ensures forall i :: 0 <= i < |EncodeChar(c)| ==> !Special(EncodeChar(c)[i])
  {
    assert c as int as char == c;
  }

  function ReadQuoted(bs: seq<byte>): Option<(string, seq<byte>)> {
    var (text, rest) :- Unquote(bs);
    var s :- Utf8.Decode(text);
    Some((s, rest))
  }

  lemma ReadQuotedText(s: string, tail: seq<byte>)
    ensures ReadQuoted(Quoted(s) + tail) == Some((s, tail))
  {
    EscapeCommutes(s);
    UnquoteEscaped(Encode(s), tail);
    assert Quoted(s) + tail == EscapeBytes(Encode(s)) + ([QUOTE] + tail);
    DecodeEncode(s);
  }

  lemma QuotedRead(bs: seq<byte>)
    requires ReadQuoted(bs).Some?
    ensures var (s, rest) := ReadQuoted(bs).value; bs == Quoted(s) + rest
  {
    var (text, rest) := Unquote(bs).value;
    EscapedUnquote(bs);
    EncodeDecode(text);
    EscapeCommutes(Utf8.Decode(text).value);
    assert EscapeBytes(text) + ([QUOTE] + rest) == (EscapeBytes(text) + [QUOTE]) + rest;
  }

  // Lines

  /** The line at the front of `t`, and what follows its CRLF. */
  function TakeLine(t: seq<byte>): Option<(seq<byte>, seq<byte>)> {
    var i :- Find(CRLF, t);
    Some((t[..i], t[i + 2..]))
  }

  lemma TakeLineText(line: seq<byte>, rest: seq<byte>)
    requires Absent(CRLF, line)
    ensures TakeLine(line + (CRLF + rest)) == Some((line, rest))
  {
    FindAfter(CRLF, line, rest);
    CutAt(CRLF, line, rest);
  }

  lemma LineTaken(t: seq<byte>)
    requires TakeLine(t).Some?
    ensures var (line, rest) := TakeLine(t).value; t == line + (CRLF + rest) && Absent(CRLF, line)
  {
    var i := Find(CRLF, t).value;
    AbsentBefore(CRLF, t, i);
    assert t == t[..i] + (t[i..i + 2] + t[i + 2..]);
  }

  function ReadDisposition(line: seq<byte>): Option<(string, Option<string>)> {
    var afterPrefix :- Strip(DISPOSITION, line);
    var (name, afterName) :- ReadQuoted(afterPrefix);
    if afterName == [] then
      Some((name, None))
    else
      var afterFilename :- Strip(FILENAME, afterName);
      var (filename, rest) :- ReadQuoted(afterFilename);
      if rest == [] then Some((name, Some(filename))) else None
  }

  lemma ReadDispositionLine(p: Part)
    ensures ReadDisposition(DispositionLine(p)) == Some((p.name, p.filename))
  {
    var tail := if p.filename.Some? then FILENAME + Quoted(p.filename.value) else [];
    StripPrefix(DISPOSITION, Quoted(p.name) + tail);
    ReadQuotedText(p.name, tail);
    if p.filename.Some? {
      StripPrefix(FILENAME, Quoted(p.filename.value));
      ReadQuotedText(p.filename.value, []);
      assert Quoted(p.filename.value) + [] == Quoted(p.filename.value);
    }
  }

  lemma DispositionRead(line: seq<byte>, p: Part)
    requires ReadDisposition(line) == Some((p.name, p.filename))
    ensures line == DispositionLine(p)
  {
    StripInverse(DISPOSITION, line);
    var afterPrefix := Strip(DISPOSITION, line).value;
    QuotedRead(afterPrefix);
    var afterName := ReadQuoted(afterPrefix).value.1;
    if afterName != [] {
      StripInverse(FILENAME, afterName);
      QuotedRead(Strip(FILENAME, afterName).value);
      assert Quoted(p.filename.value) + [] == Quoted(p.filename.value);
    }
  }

  /** What follows the disposition line: perhaps a type line, then a blank line and the value. */
  function ReadAfterLine(name: string, filename: Option<string>, t: seq<byte>): Option<Part> {
    var (second, afterSecond) :- TakeLine(t);
    if second == [] then
      Some(Part(name, filename, None, afterSecond))
    else
      var kind :- Strip(CONTENT_TYPE, second);
      var contentType :- Utf8.Decode(kind);
      var (blank, value) :- TakeLine(afterSecond);
      if blank == [] then Some(Part(name, filename, Some(contentType), value)) else None
  }

  /** A piece between two delimiters. */
  function ReadContent(piece: seq<byte>): Option<Part> {
    var afterDelimiter :- Strip(CRLF, piece);
    var (line, afterLine) :- TakeLine(afterDelimiter);
    var (name, filename) :- ReadDisposition(line);
    ReadAfterLine(name, filename, afterLine)
  }

  ghost predicate TypeLineOk(p: Part) {
    p.contentType.Some? ==> Absent(CRLF, TypeLine(p.contentType.value))
  }

  ghost predicate LinesOk(p: Part) {
    Absent(CRLF, DispositionLine(p)) && TypeLineOk(p)
  }

  lemma EmptyLine(rest: seq<byte>)
    ensures TakeLine(CRLF + rest) == Some(([], rest))
  {
    TakeLineText([], rest);
    assert [] + (CRLF + rest) == CRLF + rest;
  }

  /** `AfterLine` without the CRLF that ends the disposition line. */
  function SecondLines(p: Part): seq<byte> {
    if p.contentType.Some? then TypeLine(p.contentType.value) + (CRLF + (CRLF + p.value)) else CRLF + p.value
  }

  lemma AfterLineSplit(p: Part)
    ensures AfterLine(p) == CRLF + SecondLines(p)
  {
    if p.contentType.Some? {
      var kind, rest := TypeLine(p.contentType.value), CRLF + (CRLF + p.value);
      assert (CRLF + kind) + rest == CRLF + (kind + rest);
    } else {
      assert [] + (CRLF + (CRLF + p.value)) == CRLF + (CRLF + p.value);
    }
  }

  lemma ReadSecondLines(p: Part)
    requires TypeLineOk(p)
    ensures ReadAfterLine(p.name, p.filename, SecondLines(p)) == Some(p)
  {
    EmptyLine(p.value);
    if p.contentType.Some? {
      var kind := TypeLine(p.contentType.value);
      TakeLineText(kind, CRLF + p.value);
      StripPrefix(CONTENT_TYPE, Encode(p.contentType.value));
      DecodeEncode(p.contentType.value);
    }
  }

  lemma SecondLinesRead(name: string, filename: Option<string>, t: seq<byte>)
    requires ReadAfterLine(name, filename, t).Some?
    ensures var p := ReadAfterLine(name, filename, t).value;
            t == SecondLines(p) && TypeLineOk(p) && p.name == name && p.filename == filename
  {
    LineTaken(t);
    var (second, afterSecond) := TakeLine(t).value;
    if second == [] {
      assert [] + (CRLF + afterSecond) == CRLF + afterSecond;
    } else {
      StripInverse(CONTENT_TYPE, second);
      EncodeDecode(Strip(CONTENT_TYPE, second).value);
      LineTaken(afterSecond);
      var value := TakeLine(afterSecond).value.1;
      assert [] + (CRLF + value) == CRLF + value;
    }
  }

  lemma ReadContentText(p: Part)
    requires LinesOk(p)
    ensures ReadContent(Content(p)) == Some(p)
  {
    AfterLineSplit(p);
    StripPrefix(CRLF, DispositionLine(p) + AfterLine(p));
    TakeLineText(DispositionLine(p), SecondLines(p));
    ReadDispositionLine(p);
    ReadSecondLines(p);
  }

  lemma ContentRead(piece: seq<byte>)
    requires ReadContent(piece).Some?
    ensures var p := ReadContent(piece).value; piece == Content(p) && LinesOk(p)
  {
    var p := ReadContent(piece).value;
    StripInverse(CRLF, piece);
    var afterDelimiter := Strip(CRLF, piece).value;
    LineTaken(afterDelimiter);
    var (line, afterLine) := TakeLine(afterDelimiter).value;
    var (name, filename) := ReadDisposition(line).value;
    SecondLinesRead(name, filename, afterLine);
    DispositionRead(line, p);
    AfterLineSplit(p);
  }

  // Bodies

  function ReadContents(pieces: seq<seq<byte>>): Option<seq<Part>> {
    if pieces == [] then
      Some([])
    else
      var p :- ReadContent(pieces[0]);
      var rest :- ReadContents(pieces[1..]);
      Some([p] + rest)
  }

  /** Nothing before the first delimiter, the parts, and the closing piece. */
  function ReadPieces(pieces: seq<seq<byte>>): Option<seq<Part>> {
    if |pieces| >= 2 && pieces[0] == [] && pieces[|pieces| - 1] == Closing() then
      ReadContents(pieces[1..|pieces| - 1])
    else
      None
  }

  /** Split at the delimiter, and read the pieces. */
  function DecodeBody(body: seq<byte>, boundary: seq<byte>): Option<seq<Part>> {
    ReadPieces(Split(Delimiter(boundary), CRLF + body))
  }

  function Contents(parts: seq<Part>): (r: seq<seq<byte>>)
    ensures |r| == |parts|
    ensures forall i :: 0 <= i < |parts| ==> r[i] == Content(parts[i])
  {
    if parts == [] then [] else [Content(parts[0])] + Contents(parts[1..])
  }

  /** The pieces of a body: nothing, the contents, the closing piece. */
  function Pieces(contents: seq<seq<byte>>): (pieces: seq<seq<byte>>)
    ensures |pieces| == |contents| + 2
    ensures pieces[0] == [] && pieces[|pieces| - 1] == Closing() && pieces[1..|pieces| - 1] == contents
  {
    [[]] + (contents + [Closing()])
  }

  lemma {:induction false} BodyJoins(parts: seq<Part>, boundary: seq<byte>)
    ensures CRLF + Body(parts, boundary)
         == Delimiter(boundary) + Join(Delimiter(boundary), Contents(parts) + [Closing()])
  {
    var d, pieces := Delimiter(boundary), Contents(parts) + [Closing()];
    if parts == [] {
      assert pieces == [Closing()];
      Assoc(CRLF, DashBoundary(boundary), Closing());
    } else {
      BodyJoins(parts[1..], boundary);
      assert pieces[1..] == Contents(parts[1..]) + [Closing()];
      var rest := CRLF + Body(parts[1..], boundary);
      Assoc(CRLF, DashBoundary(boundary), Content(parts[0]) + rest);
    }
  }

  lemma BodyPieces(parts: seq<Part>, boundary: seq<byte>)
    ensures CRLF + Body(parts, boundary) == Join(Delimiter(boundary), Pieces(Contents(parts)))
  {
    var d, pieces := Delimiter(boundary), Contents(parts) + [Closing()];
    BodyJoins(parts, boundary);
    assert ([[]] + pieces)[1..] == pieces;
    assert [] + (d + Join(d, pieces)) == d + Join(d, pieces);
  }

  lemma {:induction false} ReadContentsText(parts: seq<Part>)
    requires forall i :: 0 <= i < |parts| ==> LinesOk(parts[i])
    ensures ReadContents(Contents(parts)) == Some(parts)
  {
    if parts != [] {
      ReadContentText(parts[0]);
      ReadContentsText(parts[1..]);
      assert Contents(parts)[1..] == Contents(parts[1..]);
      assert [parts[0]] + parts[1..] == parts;
    }
  }

  lemma {:induction false} ContentsRead(pieces: seq<seq<byte>>, parts: seq<Part>)
    requires ReadContents(pieces) == Some(parts)
    ensures pieces == Contents(parts)
    ensures forall i :: 0 <= i < |parts| ==> LinesOk(parts[i])
  {
    if pieces != [] {
      ContentRead(pieces[0]);
      ContentsRead(pieces[1..], ReadContents(pieces[1..]).value);
    }
  }

  // When no delimiter is hidden in the data

  lemma AbsentSuffix(d: seq<byte>, a: seq<byte>, b: seq<byte>)
    requires Absent(d, a + b)
    ensures Absent(d, b)
  {
    forall i: nat | i <= |b| ensures !OccursAt(d, b, i) {
      assert !OccursAt(d, a + b, |a| + i);
      if i + |d| <= |b| {
        WindowOfRight(a, b, i, |d|);
      }
    }
  }

  lemma AbsentPrefix(d: seq<byte>, a: seq<byte>, b: seq<byte>)
    requires Absent(d, a + b)
    ensures Absent(d, a)
  {
    forall i: nat | i <= |a| ensures !OccursAt(d, a, i) {
      assert !OccursAt(d, a + b, i);
      if i + |d| <= |a| {
        WindowOfLeft(a, b, i, |d|);
      }
    }
  }

  lemma AbsentWithoutCr(d: seq<byte>, bs: seq<byte>)
    requires d != [] && d[0] == CR && CR !in bs
    ensures Absent(d, bs)
  {
    forall i: nat | i <= |bs| ensures !OccursAt(d, bs, i) {
      if i + |d| <= |bs| {
        assert bs[i] != CR;
        assert bs[i..i + |d|][0] == bs[i];
      }
    }
  }

  lemma CrlfAt(t: seq<byte>, i: nat)
    ensures OccursAt(CRLF, t, i) <==> i + 1 < |t| && t[i] == CR && t[i + 1] == LF
  {
    if i + 2 <= |t| {
      assert t[i..i + 2] == [t[i], t[i + 1]];
    }
  }

  /** No CRLF in a concatenation: none in either half, and none across the seam. */
  lemma CrlfConcat(a: seq<byte>, b: seq<byte>)
    ensures Absent(CRLF, a + b)
       <==> Absent(CRLF, a) && Absent(CRLF, b) && !(a != [] && b != [] && a[|a| - 1] == CR && b[0] == LF)
  {
    if Absent(CRLF, a + b) {
      AbsentPrefix(CRLF, a, b);
      AbsentSuffix(CRLF, a, b);
      if a != [] && b != [] {
        CrlfAt(a + b, |a| - 1);
        assert !OccursAt(CRLF, a + b, |a| - 1);
      }
    }
    if Absent(CRLF, a) && Absent(CRLF, b) && !(a != [] && b != [] && a[|a| - 1] == CR && b[0] == LF) {
      forall i: nat | i <= |a + b| ensures !OccursAt(CRLF, a + b, i) {
        CrlfAt(a + b, i);
        if i < |a| {
          CrlfAt(a, i);
          assert !OccursAt(CRLF, a, i);
        } else {
          CrlfAt(b, i - |a|);
          assert !OccursAt(CRLF, b, i - |a|);
        }
      }
    }
  }

  lemma {:induction false} EscapeKeepsCrlf(bs: seq<byte>)
    ensures Absent(CRLF, EscapeBytes(bs)) <==> Absent(CRLF, bs)
  {
    if bs != [] {
      var head := if Special(bs[0]) then [BACKSLASH, bs[0]] else [bs[0]];
      var tail := EscapeBytes(bs[1..]);
      EscapeKeepsCrlf(bs[1..]);
      CrlfConcat(head, tail);
      CrlfConcat([bs[0]], bs[1..]);
      assert bs == [bs[0]] + bs[1..];
      if Special(bs[0]) {
        AbsentWithoutCr(CRLF, head);
      }
      SingleAbsent(bs[0]);
      assert bs[1..] == [] <==> tail == [];
    }
  }

  lemma SingleAbsent(b: byte)
    ensures Absent(CRLF, [b])
  {
  }

  /** Caller-side condition: no CRLF in the name, file name or content type. */
  ghost predicate FieldsOk(p: Part) {
    && Absent(CRLF, Encode(p.name))
    && (p.filename.Some? ==> Absent(CRLF, Encode(p.filename.value)))
    && (p.contentType.Some? ==> Absent(CRLF, Encode(p.contentType.value)))
  }

  lemma QuotedCrlf(s: string, tail: seq<byte>)
    requires tail == [] || tail[0] != LF
    ensures Absent(CRLF, Quoted(s) + tail) <==> Absent(CRLF, Encode(s)) && Absent(CRLF, tail)
  {
    EscapeCommutes(s);
    EscapeKeepsCrlf(Encode(s));
    SingleAbsent(QUOTE);
    CrlfConcat(EscapeBytes(Encode(s)), [QUOTE]);
    CrlfConcat(Quoted(s), tail);
  }

  lemma LiteralsWithoutCr()
    ensures CR !in DISPOSITION && CR !in FILENAME && CR !in CONTENT_TYPE
  {
    BytesMember("Content-Disposition: form-data; name=\"", CR);
    BytesMember("; filename=\"", CR);
    BytesMember("Content-Type: ", CR);
  }

  lemma PrefixCrlf(prefix: seq<byte>, tail: seq<byte>)
    requires prefix != [] && CR !in prefix
    ensures Absent(CRLF, prefix + tail) <==> Absent(CRLF, tail)
  {
    AbsentWithoutCr(CRLF, prefix);
    assert prefix[|prefix| - 1] in prefix;
    CrlfConcat(prefix, tail);
  }

  lemma FieldsAreLines(p: Part)
    ensures LinesOk(p) <==> FieldsOk(p)
  {
    LiteralsWithoutCr();
    var tail := if p.filename.Some? then FILENAME + Quoted(p.filename.value) else [];
    if p.filename.Some? {
      PrefixCrlf(FILENAME, Quoted(p.filename.value));
      QuotedCrlf(p.filename.value, []);
      assert Quoted(p.filename.value) + [] == Quoted(p.filename.value);
      assert tail[0] == FILENAME[0] == ByteOf(';');
    }
    QuotedCrlf(p.name, tail);
    PrefixCrlf(DISPOSITION, Quoted(p.name) + tail);
    if p.contentType.Some? {
      PrefixCrlf(CONTENT_TYPE, Encode(p.contentType.value));
    }
  }

  /** Nothing in the part reads as a delimiter. */
  ghost predicate Encodable(p: Part, boundary: seq<byte>) {
    FieldsOk(p) && Absent(Delimiter(boundary), CRLF + p.value)
  }

  /** A line that does not start with a dash hides no delimiter from the text behind it. */
  lemma LineHidesNothing(boundary: seq<byte>, line: seq<byte>, t: seq<byte>)
    requires Absent(CRLF, line) && Absent(Delimiter(boundary), t)
    requires t != [] && t[0] == CR && (line + t)[0] != DASH
    ensures Absent(Delimiter(boundary), CRLF + (line + t))
  {
    var d, all := Delimiter(boundary), CRLF + (line + t);
    assert d[0] == CR && d[1] == LF && d[2] == DASH;
    forall i: nat | i <= |all| ensures !OccursAt(d, all, i) {
      if i + |d| <= |all| {
        var window := all[i..i + |d|];
        assert window[0] == all[i] && window[1] == all[i + 1] && window[2] == all[i + 2];
        if i >= 2 + |line| {
          var j := i - 2 - |line|;
          assert !OccursAt(d, t, j);
          assert window == t[j..j + |d|];
        } else if i >= 2 {
          CrlfAt(line, i - 2);
          assert !OccursAt(CRLF, line, i - 2);
        }
      }
    }
  }

  lemma HiddenInValue(p: Part, boundary: seq<byte>)
    requires Absent(Delimiter(boundary), Content(p))
    ensures Absent(Delimiter(boundary), CRLF + p.value)
  {
    var d, data := Delimiter(boundary), CRLF + p.value;
    var kind := if p.contentType.Some? then CRLF + TypeLine(p.contentType.value) else [];
    assert Content(p) == (CRLF + DispositionLine(p)) + AfterLine(p);
    AbsentSuffix(d, CRLF + DispositionLine(p), AfterLine(p));
    assert AfterLine(p) == (kind + CRLF) + data;
    AbsentSuffix(d, kind + CRLF, data);
  }

  lemma HiddenOnlyInValue(p: Part, boundary: seq<byte>)
    requires LinesOk(p) && Absent(Delimiter(boundary), CRLF + p.value)
    ensures Absent(Delimiter(boundary), Content(p))
  {
    var data := CRLF + p.value;
    AfterLineSplit(p);
    LineHidesNothing(boundary, [], data);
    assert CRLF + ([] + data) == CRLF + data;
    if p.contentType.Some? {
      assert TypeLine(p.contentType.value)[0] == CONTENT_TYPE[0] == ByteOf('C');
      LineHidesNothing(boundary, TypeLine(p.contentType.value), CRLF + data);
    }
    assert DispositionLine(p)[0] == DISPOSITION[0] == ByteOf('C');
    LineHidesNothing(boundary, DispositionLine(p), AfterLine(p));
  }

  lemma EncodableExactly(p: Part, boundary: seq<byte>)
    ensures Encodable(p, boundary) <==> LinesOk(p) && Absent(Delimiter(boundary), Content(p))
  {
    FieldsAreLines(p);
    if Absent(Delimiter(boundary), Content(p)) {
      HiddenInValue(p, boundary);
    } else if Encodable(p, boundary) {
      HiddenOnlyInValue(p, boundary);
    }
  }

  lemma DelimiterFit(boundary: seq<byte>)
    requires CR !in boundary
    ensures NoOverlap(Delimiter(boundary))
    ensures Absent(Delimiter(boundary), []) && Absent(Delimiter(boundary), Closing())
  {
    var d := Delimiter(boundary);
    assert d[1..] == [LF] + (DASHES + boundary);
    assert |d| >= 4 && d[0] == CR;
    forall i: nat | i <= |Closing()| ensures !OccursAt(d, Closing(), i) {
      if i + |d| <= |Closing()| {
        assert Closing()[i..i + |d|][0] == DASH;
      }
    }
  }

  lemma PiecesAbsent(contents: seq<seq<byte>>, boundary: seq<byte>)
    requires CR !in boundary && AllAbsent(Delimiter(boundary), contents)
    ensures AllAbsent(Delimiter(boundary), Pieces(contents))
  {
    var pieces := Pieces(contents);
    DelimiterFit(boundary);
    forall k | 0 <= k < |pieces| ensures Absent(Delimiter(boundary), pieces[k]) {
      if 0 < k <= |contents| {
        assert pieces[k] == contents[k - 1];
      }
    }
  }

  lemma EncodedDecodes(boundary: seq<byte>, parts: seq<Part>)
    requires CR !in boundary
    requires forall i :: 0 <= i < |parts| ==> Encodable(parts[i], boundary)
    ensures DecodeBody(Body(parts, boundary), boundary) == Some(parts)
  {
    var contents := Contents(parts);
    forall i | 0 <= i < |parts| ensures LinesOk(parts[i]) && Absent(Delimiter(boundary), contents[i]) {
      EncodableExactly(parts[i], boundary);
    }
    PiecesAbsent(contents, boundary);
    DelimiterFit(boundary);
    SplitJoin(Delimiter(boundary), Pieces(contents));
    BodyPieces(parts, boundary);
    ReadContentsText(parts);
  }

  lemma DecodedWasEncoded(body: seq<byte>, boundary: seq<byte>, parts: seq<Part>)
    requires DecodeBody(body, boundary) == Some(parts)
    ensures body == Body(parts, boundary)
    ensures forall i :: 0 <= i < |parts| ==> Encodable(parts[i], boundary)
  {
    var d := Delimiter(boundary);
    JoinSplit(d, CRLF + body);
    PiecesDecoded(Split(d, CRLF + body), parts);
    BodyPieces(parts, boundary);
    SameSuffix(CRLF, body, Body(parts, boundary));
    PiecesHideNothing(d, Contents(parts));
    forall i | 0 <= i < |parts| ensures Encodable(parts[i], boundary) {
      EncodableAt(boundary, parts, i);
    }
  }

  lemma PiecesDecoded(found: seq<seq<byte>>, parts: seq<Part>)
    requires ReadPieces(found) == Some(parts)
    ensures found == Pieces(Contents(parts))
    ensures forall i :: 0 <= i < |parts| ==> LinesOk(parts[i])
  {
    var middle := found[1..|found| - 1];
    assert ReadContents(middle) == Some(parts);
    PiecesAround(found);
    ContentsRead(middle, parts);
  }

  lemma PiecesAround(found: seq<seq<byte>>)
    requires |found| >= 2 && found[0] == [] && found[|found| - 1] == Closing()
    ensures found == Pieces(found[1..|found| - 1])
  {
  }

  lemma PiecesHideNothing(d: seq<byte>, contents: seq<seq<byte>>)
    requires AllAbsent(d, Pieces(contents))
    ensures AllAbsent(d, contents)
  {
    var pieces := Pieces(contents);
    forall i | 0 <= i < |contents| ensures Absent(d, contents[i]) {
      assert pieces[i + 1] == contents[i];
    }
  }

  lemma EncodableAt(boundary: seq<byte>, parts: seq<Part>, i: nat)
    requires i < |parts| && LinesOk(parts[i])
    requires AllAbsent(Delimiter(boundary), Contents(parts))
    ensures Encodable(parts[i], boundary)
  {
    PartEncodable(boundary, parts[i], Contents(parts)[i]);
  }

  lemma PartEncodable(boundary: seq<byte>, p: Part, content: seq<byte>)
    requires LinesOk(p) && content == Content(p) && Absent(Delimiter(boundary), content)
    ensures Encodable(p, boundary)
  {
    EncodableExactly(p, boundary);
  }

  /** The decoder reads `parts` out of `body` exactly when `body` is their encoding and no part
      hides a line end in its fields or a delimiter in its value. */
  lemma DecodesExactly(body: seq<byte>, boundary: seq<byte>, parts: seq<Part>)
    requires CR !in boundary
    ensures DecodeBody(body, boundary) == Some(parts)
       <==> body == Body(parts, boundary) && forall i :: 0 <= i < |parts| ==> Encodable(parts[i], boundary)
  {
    if DecodeBody(body, boundary) == Some(parts) {
      DecodedWasEncoded(body, boundary, parts);
    } else if forall i :: 0 <= i < |parts| ==> Encodable(parts[i], boundary) {
      EncodedDecodes(boundary, parts);
    }
  }

  lemma BlankLines()
    ensures Encode("a\r\n\r\nb") == Encode("a") + ((CRLF + CRLF) + Encode("b"))
    ensures Encode("b\r\n\r\n") == Encode("b") + (CRLF + CRLF)
  {
    LineEnd();
    EncodeConcat("a", "\r\n\r\nb");
    EncodeConcat("\r\n\r\n", "b");
    EncodeConcat("b", "\r\n\r\n");
    EncodeConcat("\r\n", "\r\n");
    assert "a" + "\r\n\r\nb" == "a\r\n\r\nb";
    assert "\r\n\r\n" + "b" == "\r\n\r\nb";
    assert "b" + "\r\n\r\n" == "b\r\n\r\n";
    assert "\r\n" + "\r\n" == "\r\n\r\n";
  }

  lemma LineEnd()
    ensures Encode("\r\n") == CRLF
  {
    EncodeSingle('\r');
    EncodeSingle('\n');
    EncodeConcat(['\r'], ['\n']);
    assert ['\r'] + ['\n'] == "\r\n";
  }

  /** Two forms with the same bytes, so the condition cannot be dropped: a content type holding
      a blank line moves bytes into the value. */
  lemma BlankLineInContentType(name: string, boundary: seq<byte>)
    ensures var p := Part(name, None, Some("a\r\n\r\nb"), []);
            var q := Part(name, None, Some("a"), Encode("b\r\n\r\n"));
            p != q && Body([p], boundary) == Body([q], boundary) && !FieldsOk(p)
  {
    var p := Part(name, None, Some("a\r\n\r\nb"), []);
    var q := Part(name, None, Some("a"), Encode("b\r\n\r\n"));
    BlankLines();
    var a, b := Encode("a"), Encode("b");
    assert Encode(p.contentType.value) == a + ((CRLF + CRLF) + b);
    assert q.value == b + (CRLF + CRLF);
    assert AfterLine(p) == AfterLine(q);
    EncodeSingle('b');
    assert q.value != [];
    CrlfAt(Encode(p.contentType.value), |a|);
    assert OccursAt(CRLF, Encode(p.contentType.value), |a|);
  }
}
