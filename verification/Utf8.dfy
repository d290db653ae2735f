/** UTF-8 as Rust's `str` guarantees it (RFC 3629): every `char` is a Unicode scalar value,
    and decoding rejects overlong forms, surrogates and truncated sequences. */
module Utf8 {
  import opened Wrappers

  type byte = b: int | 0 <= b < 256

  function EncodeChar(c: char): (bs: seq<byte>)
    ensures 1 <= |bs| <= 4
  {
    var n := c as int;
    if n < 0x80 then
      [n]
    else if n < 0x800 then
      [0xC0 + n / 0x40, 0x80 + n % 0x40]
    else if n < 0x1_0000 then
      [0xE0 + n / 0x1000, 0x80 + n / 0x40 % 0x40, 0x80 + n % 0x40]
    else
      [0xF0 + n / 0x4_0000, 0x80 + n / 0x1000 % 0x40, 0x80 + n / 0x40 % 0x40, 0x80 + n % 0x40]
  }

  function Encode(s: string): seq<byte> {
    if s == [] then [] else EncodeChar(s[0]) + Encode(s[1..])
  }

  predicate IsScalar(n: int) {
    0 <= n < 0xD800 || 0xE000 <= n < 0x11_0000
  }

  predicate IsTail(b: byte) {
    0x80 <= b < 0xC0
  }

  /** The code points that two, three and four bytes spell. */
  function Two(b0: int, b1: int): int {
    (b0 - 0xC0) * 0x40 + (b1 - 0x80)
  }

  function Three(b0: int, b1: int, b2: int): int {
    (b0 - 0xE0) * 0x1000 + (b1 - 0x80) * 0x40 + (b2 - 0x80)
  }

  function Four(b0: int, b1: int, b2: int, b3: int): int {
    (b0 - 0xF0) * 0x4_0000 + (b1 - 0x80) * 0x1000 + (b2 - 0x80) * 0x40 + (b3 - 0x80)
  }

  /** The first character of `bs`, when a well-formed one starts there. */
  function DecodeFirst(bs: seq<byte>): Option<char> {
    if bs == [] then
      None
    else if bs[0] < 0x80 then
      Some(bs[0] as char)
    else if 0xC2 <= bs[0] < 0xE0 && |bs| >= 2 && IsTail(bs[1]) then
      Some(Two(bs[0], bs[1]) as char)
    else if 0xE0 <= bs[0] < 0xF0 && |bs| >= 3 && IsTail(bs[1]) && IsTail(bs[2]) then
      var n := Three(bs[0], bs[1], bs[2]);
      if 0x800 <= n && IsScalar(n) then Some(n as char) else None
    else if 0xF0 <= bs[0] < 0xF5 && |bs| >= 4 && IsTail(bs[1]) && IsTail(bs[2]) && IsTail(bs[3]) then
      var n := Four(bs[0], bs[1], bs[2], bs[3]);
      if 0x1_0000 <= n && IsScalar(n) then Some(n as char) else None
    else
      None
  }

  /** Base-64 digits determine, and are determined by, the number they spell. */
  lemma SixBitDigits(n: int, a: int, b: int)
    requires 0 <= b < 0x40
    ensures n == a * 0x40 + b <==> n / 0x40 == a && n % 0x40 == b
  {
  }

  lemma DecodeFirstOfEncoding(c: char, tail: seq<byte>)
    ensures DecodeFirst(EncodeChar(c) + tail) == Some(c)
  {
    var n := c as int;
    var bs := EncodeChar(c) + tail;
    assert n as char == c;
    assert bs[..|EncodeChar(c)|] == EncodeChar(c);
    if n >= 0x80 {
      var q := n / 0x40;
      SixBitDigits(n, q, n % 0x40);
      if n >= 0x800 {
        SixBitDigits(q, q / 0x40, q % 0x40);
        if n >= 0x1_0000 {
          assert n / 0x1000 == q / 0x40 && n / 0x4_0000 == q / 0x40 / 0x40;
          SixBitDigits(q / 0x40, q / 0x40 / 0x40, q / 0x40 % 0x40);
          assert bs[0] == 0xF0 + q / 0x40 / 0x40 && bs[1] == 0x80 + q / 0x40 % 0x40;
          assert bs[2] == 0x80 + q % 0x40 && bs[3] == 0x80 + n % 0x40;
          assert Four(bs[0], bs[1], bs[2], bs[3]) == n;
        } else {
          assert n / 0x1000 == q / 0x40;
          assert bs[0] == 0xE0 + q / 0x40 && bs[1] == 0x80 + q % 0x40 && bs[2] == 0x80 + n % 0x40;
          assert Three(bs[0], bs[1], bs[2]) == n;
        }
      } else {
        assert bs[0] == 0xC0 + q && bs[1] == 0x80 + n % 0x40;
        assert Two(bs[0], bs[1]) == n;
      }
    }
  }

  lemma EncodingOfDecodeFirst(bs: seq<byte>)
    requires DecodeFirst(bs).Some?
    ensures EncodeChar(DecodeFirst(bs).value) <= bs
  {
    var n := DecodeFirst(bs).value as int;
    if bs[0] >= 0xE0 {
      var b0: int, b1: int, b2: int := bs[0], bs[1], bs[2];
      var lead := if b0 >= 0xF0 then 0xF0 else 0xE0;
      var q := (b0 - lead) * 0x40 + (b1 - 0x80);
      SixBitDigits(q, b0 - lead, b1 - 0x80);
      var p := q * 0x40 + (b2 - 0x80);
      SixBitDigits(p, q, b2 - 0x80);
      if b0 >= 0xF0 {
        SixBitDigits(n, p, bs[3] - 0x80);
        assert n / 0x1000 == q && n / 0x4_0000 == b0 - lead;
      } else {
        assert n == p && n / 0x1000 == b0 - lead;
      }
    } else if bs[0] >= 0x80 {
      SixBitDigits(n, bs[0] - 0xC0, bs[1] - 0x80);
    }
  }

  /** `str::from_utf8`: the whole sequence, or nothing. */
  function Decode(bs: seq<byte>): Option<string>
    decreases |bs|
  {
    if bs == [] then
      Some([])
    else
      var c :- DecodeFirst(bs);
      if |EncodeChar(c)| > |bs| then
        None
      else
        var rest :- Decode(bs[|EncodeChar(c)|..]);
        Some([c] + rest)
  }

  predicate Valid(bs: seq<byte>) {
    Decode(bs).Some?
  }

  lemma {:induction false} DecodeEncode(s: string)
    ensures Decode(Encode(s)) == Some(s)
  {
    if s != [] {
      DecodeFirstOfEncoding(s[0], Encode(s[1..]));
      DecodeEncode(s[1..]);
      var bs := Encode(s);
      assert bs == EncodeChar(s[0]) + Encode(s[1..]);
      assert bs[|EncodeChar(s[0])|..] == Encode(s[1..]);
      assert [s[0]] + s[1..] == s;
    }
  }

  lemma {:induction false} EncodeDecode(bs: seq<byte>)
    requires Valid(bs)
    ensures Encode(Decode(bs).value) == bs
    decreases |bs|
  {
    if bs != [] {
      EncodingOfDecodeFirst(bs);
      var c := DecodeFirst(bs).value;
      EncodeDecode(bs[|EncodeChar(c)|..]);
      assert bs == EncodeChar(c) + bs[|EncodeChar(c)|..];
    }
  }

  lemma EncodeInjective(s: string, t: string)
    requires Encode(s) == Encode(t)
    ensures s == t
  {
    DecodeEncode(s);
    DecodeEncode(t);
  }

  lemma {:induction false} EncodeConcat(s: string, t: string)
    ensures Encode(s + t) == Encode(s) + Encode(t)
  {
    if s == [] {
      assert s + t == t;
    } else {
      EncodeConcat(s[1..], t);
      assert (s + t)[1..] == s[1..] + t;
      var head, body, tail := EncodeChar(s[0]), Encode(s[1..]), Encode(t);
      assert head + (body + tail) == (head + body) + tail;
    }
  }

  lemma ValidConcat(a: seq<byte>, b: seq<byte>)
    requires Valid(a) && Valid(b)
    ensures Valid(a + b)
  {
    EncodeDecode(a);
    EncodeDecode(b);
    EncodeConcat(Decode(a).value, Decode(b).value);
    DecodeEncode(Decode(a).value + Decode(b).value);
  }

  /** Dropping a leading character keeps the rest well formed: the cursor stays on a boundary. */
  lemma ValidAfterFirst(bs: seq<byte>)
    requires Valid(bs) && bs != []
    ensures DecodeFirst(bs).Some?
    ensures var k := |EncodeChar(DecodeFirst(bs).value)|; k <= |bs| && Valid(bs[k..])
  {
  }

  predicate Ascii(bs: seq<byte>) {
    forall i :: 0 <= i < |bs| ==> bs[i] < 0x80
  }

  lemma {:induction false} ValidAfterAscii(a: seq<byte>, b: seq<byte>)
    requires Ascii(a)
    ensures Valid(a + b) <==> Valid(b)
  {
    if a == [] {
      assert a + b == b;
    } else {
      ValidAfterAscii(a[1..], b);
      assert (a + b)[1..] == a[1..] + b;
    }
  }

  function FromAscii(bs: seq<byte>): (s: string)
    requires Ascii(bs)
    ensures |s| == |bs|
  {
    if bs == [] then [] else [bs[0] as char] + FromAscii(bs[1..])
  }

  lemma {:induction false} EncodeFromAscii(bs: seq<byte>)
    requires Ascii(bs)
    ensures Encode(FromAscii(bs)) == bs
  {
    if bs != [] {
      EncodeFromAscii(bs[1..]);
    }
  }
}
