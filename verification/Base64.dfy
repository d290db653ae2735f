/** The base64 encoder (section 4 of RFC 4648) against a strict reference decoder. */
module Base64 {
  import opened Wrappers
  import opened Sequences
  import opened Utf8

  /** `n` consecutive characters. */
  function From(first: char, n: nat): (s: string)
    requires first as int + n < 0x80
    ensures |s| == n
  {
    seq(n, i requires 0 <= i < n => (first as int + i) as char)
  }

  /** A-Z, a-z, 0-9, `+` and `/`: the 64 characters of table 1 of RFC 4648, in order. */
  const ALPHABET: string := From('A', 26) + From('a', 26) + From('0', 10) + "+/"
  const PAD: char := '='

  type sextet = n: int | 0 <= n < 64

  // The bit fields of a chunk (b0 >> 2, ((b0 & 3) << 4) | (b1 >> 4), ...) as arithmetic

  function First(b0: byte): sextet {
    b0 / 4
  }

  function Second(b0: byte, b1: byte): sextet {
    var high: int := b0 % 4;
    high * 16 + b1 / 16
  }

  function Third(b1: byte, b2: byte): sextet {
    var high: int := b1 % 16;
    high * 4 + b2 / 64
  }

  function Fourth(b2: byte): sextet {
    b2 % 64
  }

  /** The four characters for one, two or three bytes. */
  function EncodeChunk(chunk: seq<byte>): (s: string)
    requires 1 <= |chunk| <= 3
    ensures |s| == 4
  {
    var b0 := chunk[0];
    var b1: byte := if |chunk| > 1 then chunk[1] else 0;
    var b2: byte := if |chunk| > 2 then chunk[2] else 0;
    [ ALPHABET[First(b0)],
      ALPHABET[Second(b0, b1)],
      if |chunk| > 1 then ALPHABET[Third(b1, b2)] else PAD,
      if |chunk| > 2 then ALPHABET[Fourth(b2)] else PAD ]
  }

  function ChunkLength(n: nat): nat {
    if n < 3 then n else 3
  }

  /** The text of `input`, chunk by chunk. */
  function Encoded(input: seq<byte>): string {
    if input == [] then
      []
    else
      var k := ChunkLength(|input|);
      EncodeChunk(input[..k]) + Encoded(input[k..])
  }

  lemma EncodedStep(input: seq<byte>, i: nat)
    requires i < |input|
    ensures var k := ChunkLength(|input| - i);
            Encoded(input[i..]) == EncodeChunk(input[i..i + k]) + Encoded(input[i + k..])
  {
    var k := ChunkLength(|input| - i);
    assert input[i..][..k] == input[i..i + k] && input[i..][k..] == input[i + k..];
  }

  lemma QuadOfChunk(chunk: seq<byte>, b0: byte, b1: byte, b2: byte)
    requires 1 <= |chunk| <= 3 && b0 == chunk[0]
    requires b1 == (if |chunk| > 1 then chunk[1] else 0) && b2 == (if |chunk| > 2 then chunk[2] else 0)
    ensures EncodeChunk(chunk)
         == [ ALPHABET[First(b0)],
              ALPHABET[Second(b0, b1)],
              if |chunk| > 1 then ALPHABET[Third(b1, b2)] else PAD,
              if |chunk| > 2 then ALPHABET[Fourth(b2)] else PAD ]
  {
  }

  method Encode(input: seq<byte>) returns (out: string)
    ensures out == Encoded(input)
  {
    out := [];
    var i := 0;
    while i < |input|
      invariant 0 <= i <= |input|
      invariant out + Encoded(input[i..]) == Encoded(input)
    {
      var k := ChunkLength(|input| - i);
      var chunk := input[i..i + k];
      EncodedStep(input, i);
      var b0 := chunk[0];
      var b1: byte := if k > 1 then chunk[1] else 0;
      var b2: byte := if k > 2 then chunk[2] else 0;
      var third := if k > 1 then ALPHABET[Third(b1, b2)] else PAD;
      var fourth := if k > 2 then ALPHABET[Fourth(b2)] else PAD;
      ghost var before := out;
      var quad := [ALPHABET[First(b0)], ALPHABET[Second(b0, b1)], third, fourth];
      QuadOfChunk(chunk, b0, b1, b2);
      out := out + quad;
      Assoc(before, EncodeChunk(chunk), Encoded(input[i + k..]));
      i := i + k;
    }
  }

  // Reference decoder

  /** The value of an alphabet character, by the ranges of table 1 of RFC 4648. */
  function Index(c: char): Option<sextet> {
    if 'A' <= c <= 'Z' then Some(c as int - 'A' as int)
    else if 'a' <= c <= 'z' then Some(c as int - 'a' as int + 26)
    else if '0' <= c <= '9' then Some(c as int - '0' as int + 52)
    else if c == '+' then Some(62)
    else if c == '/' then Some(63)
    else None
  }

  lemma AlphabetIndex(k: sextet)
    ensures Index(ALPHABET[k]) == Some(k)
  {
  }

  lemma IndexAlphabet(c: char)
    requires Index(c).Some?
    ensures ALPHABET[Index(c).value] == c
  {
  }

  predicate IsSymbol(c: char) {
    Index(c).Some?
  }

  function Bits(c: char): sextet
    requires IsSymbol(c)
  {
    Index(c).value
  }

  /** Four characters with no padding, one pad with two zero bits, or two pads with four. */
  function DecodeQuad(q: string): Option<seq<byte>>
    requires |q| == 4
  {
    if !IsSymbol(q[0]) || !IsSymbol(q[1]) then
      None
    else
      var b0: int := Bits(q[0]) as int * 4 + Bits(q[1]) / 16;
      var low1: int := Bits(q[1]) % 16;
      if q[2] == PAD then
        if q[3] == PAD && low1 == 0 then Some([b0]) else None
      else if !IsSymbol(q[2]) then
        None
      else
        var b1: int := low1 * 16 + Bits(q[2]) / 4;
        var low2: int := Bits(q[2]) % 4;
        if q[3] == PAD then
          if low2 == 0 then Some([b0, b1]) else None
        else if IsSymbol(q[3]) then
          Some([b0, b1, low2 * 64 + Bits(q[3])])
        else
          None
  }

  /** Padding is allowed in the last group only. */
  function Decode(s: string): Option<seq<byte>> {
    if s == [] then
      Some([])
    else if |s| < 4 then
      None
    else
      var bytes :- DecodeQuad(s[..4]);
      if |bytes| < 3 && |s| > 4 then
        None
      else
        var rest :- Decode(s[4..]);
        Some(bytes + rest)
  }

  /** The four bit fields put the three bytes back together. */
  lemma Fields(b0: byte, b1: byte, b2: byte)
    ensures First(b0) as int * 4 + Second(b0, b1) as int / 16 == b0
    ensures Second(b0, b1) as int % 16 * 16 + Third(b1, b2) as int / 4 == b1
    ensures Third(b1, b2) as int % 4 * 64 + Fourth(b2) as int == b2
    ensures b1 == 0 ==> Second(b0, b1) as int % 16 == 0
    ensures b2 == 0 ==> Third(b1, b2) as int % 4 == 0
  {
  }

  /** Three bytes put the four bit fields back together. */
  lemma Sextets(s0: sextet, s1: sextet, s2: sextet, s3: sextet)
    ensures var b0: int, b1: int, b2: int :=
              s0 as int * 4 + s1 / 16, s1 as int % 16 * 16 + s2 / 4, s2 as int % 4 * 64 + s3;
            && 0 <= b0 < 256 && 0 <= b1 < 256 && 0 <= b2 < 256
            && First(b0) == s0 && Second(b0, b1) == s1 && Third(b1, b2) == s2 && Fourth(b2) == s3
  {
  }

  /** The four characters stand for the bytes' bit fields, padded where a byte is missing. */
  predicate Spells(q: string, chunk: seq<byte>)
    requires |q| == 4 && 1 <= |chunk| <= 3
  {
    var b1: byte := if |chunk| > 1 then chunk[1] else 0;
    var b2: byte := if |chunk| > 2 then chunk[2] else 0;
    && Index(q[0]) == Some(First(chunk[0])) && Index(q[1]) == Some(Second(chunk[0], b1))
    && (if |chunk| > 1 then Index(q[2]) == Some(Third(b1, b2)) else q[2] == PAD)
    && (if |chunk| > 2 then Index(q[3]) == Some(Fourth(b2)) else q[3] == PAD)
  }

  lemma SpelledDecodes(q: string, chunk: seq<byte>)
    requires |q| == 4 && 1 <= |chunk| <= 3 && Spells(q, chunk)
    ensures DecodeQuad(q) == Some(chunk)
  {
    var b1: byte := if |chunk| > 1 then chunk[1] else 0;
    var b2: byte := if |chunk| > 2 then chunk[2] else 0;
    Fields(chunk[0], b1, b2);
    assert Index(PAD).None?;
    if |chunk| == 1 {
      assert chunk == [chunk[0]];
    } else if |chunk| == 2 {
      assert chunk == [chunk[0], b1];
    } else {
      assert chunk == [chunk[0], b1, b2];
    }
  }

  lemma ChunkSpells(chunk: seq<byte>)
    requires 1 <= |chunk| <= 3
    ensures Spells(EncodeChunk(chunk), chunk)
  {
    var b1: byte := if |chunk| > 1 then chunk[1] else 0;
    var b2: byte := if |chunk| > 2 then chunk[2] else 0;
    AlphabetIndex(First(chunk[0]));
    AlphabetIndex(Second(chunk[0], b1));
    AlphabetIndex(Third(b1, b2));
    AlphabetIndex(Fourth(b2));
  }

  lemma DecodeChunk(chunk: seq<byte>)
    requires 1 <= |chunk| <= 3
    ensures DecodeQuad(EncodeChunk(chunk)) == Some(chunk)
  {
    ChunkSpells(chunk);
    SpelledDecodes(EncodeChunk(chunk), chunk);
  }

  /** One byte from two sextets, and two from three, where the bits left over are zero. */
  lemma OneByte(s0: sextet, s1: sextet)
    requires s1 as int % 16 == 0
    ensures var b0: int := s0 as int * 4 + s1 / 16;
            0 <= b0 < 256 && First(b0) == s0 && Second(b0, 0) == s1
  {
    Sextets(s0, s1, 0, 0);
  }

  lemma TwoBytes(s0: sextet, s1: sextet, s2: sextet)
    requires s2 as int % 4 == 0
    ensures var b0: int, b1: int := s0 as int * 4 + s1 / 16, s1 as int % 16 * 16 + s2 / 4;
            && 0 <= b0 < 256 && 0 <= b1 < 256
            && First(b0) == s0 && Second(b0, b1) == s1 && Third(b1, 0) == s2
  {
    Sextets(s0, s1, s2, 0);
  }

  lemma OneByteSpells(q: string)
    requires |q| == 4 && DecodeQuad(q).Some? && q[2] == PAD
    ensures |DecodeQuad(q).value| == 1 && Spells(q, DecodeQuad(q).value)
  {
    OneByte(Bits(q[0]), Bits(q[1]));
    SpellsOne(q, DecodeQuad(q).value[0]);
  }

  lemma SpellsOne(q: string, b0: byte)
    requires |q| == 4 && IsSymbol(q[0]) && IsSymbol(q[1]) && q[2] == PAD && q[3] == PAD
    requires First(b0) == Bits(q[0]) && Second(b0, 0) == Bits(q[1])
    ensures Spells(q, [b0])
  {
  }

  lemma TwoBytesSpell(q: string)
    requires |q| == 4 && DecodeQuad(q).Some? && q[2] != PAD && q[3] == PAD
    ensures |DecodeQuad(q).value| == 2 && Spells(q, DecodeQuad(q).value)
  {
    TwoBytes(Bits(q[0]), Bits(q[1]), Bits(q[2]));
    SpellsTwo(q, DecodeQuad(q).value[0], DecodeQuad(q).value[1]);
  }

  lemma SpellsTwo(q: string, b0: byte, b1: byte)
    requires |q| == 4 && IsSymbol(q[0]) && IsSymbol(q[1]) && IsSymbol(q[2]) && q[3] == PAD
    requires First(b0) == Bits(q[0]) && Second(b0, b1) == Bits(q[1]) && Third(b1, 0) == Bits(q[2])
    ensures Spells(q, [b0, b1])
  {
  }

  lemma ThreeBytesSpell(q: string)
    requires |q| == 4 && DecodeQuad(q).Some? && q[2] != PAD && q[3] != PAD
    ensures |DecodeQuad(q).value| == 3 && Spells(q, DecodeQuad(q).value)
  {
    Sextets(Bits(q[0]), Bits(q[1]), Bits(q[2]), Bits(q[3]));
    var bytes := DecodeQuad(q).value;
    SpellsThree(q, bytes[0], bytes[1], bytes[2]);
  }

  lemma SpellsThree(q: string, b0: byte, b1: byte, b2: byte)
    requires |q| == 4 && IsSymbol(q[0]) && IsSymbol(q[1]) && IsSymbol(q[2]) && IsSymbol(q[3])
    requires First(b0) == Bits(q[0]) && Second(b0, b1) == Bits(q[1]) && Third(b1, b2) == Bits(q[2]) && Fourth(b2) == Bits(q[3])
    ensures Spells(q, [b0, b1, b2])
  {
  }

  lemma DecodedSpells(q: string)
    requires |q| == 4 && DecodeQuad(q).Some?
    ensures 1 <= |DecodeQuad(q).value| <= 3 && Spells(q, DecodeQuad(q).value)
  {
    if q[2] == PAD {
      OneByteSpells(q);
    } else if q[3] == PAD {
      TwoBytesSpell(q);
    } else {
      ThreeBytesSpell(q);
    }
  }

  lemma EncodeQuad(q: string)
    requires |q| == 4 && DecodeQuad(q).Some?
    ensures 1 <= |DecodeQuad(q).value| <= 3 && EncodeChunk(DecodeQuad(q).value) == q
  {
    DecodedSpells(q);
    var bytes := DecodeQuad(q).value;
    IndexAlphabet(q[0]);
    IndexAlphabet(q[1]);
    if |bytes| > 1 {
      IndexAlphabet(q[2]);
    }
    if |bytes| > 2 {
      IndexAlphabet(q[3]);
    }
  }

  lemma {:induction false} DecodeEncoded(input: seq<byte>)
    ensures Decode(Encoded(input)) == Some(input)
    decreases |input|
  {
    if input != [] {
      var k := ChunkLength(|input|);
      var chunk, rest := input[..k], input[k..];
      DecodeChunk(chunk);
      DecodeEncoded(rest);
      var s := Encoded(input);
      assert s[..4] == EncodeChunk(chunk) && s[4..] == Encoded(rest);
      assert chunk + rest == input;
    }
  }

  lemma {:induction false} EncodedDecode(s: string)
    requires Decode(s).Some?
    ensures Encoded(Decode(s).value) == s
    decreases |s|
  {
    if s != [] {
      var bytes := DecodeQuad(s[..4]).value;
      var rest := Decode(s[4..]).value;
      EncodeQuad(s[..4]);
      EncodedDecode(s[4..]);
      var all := bytes + rest;
      if |bytes| < 3 {
        assert s[4..] == [] && rest == [] && all == bytes;
        assert Encoded(bytes[|bytes|..]) == [];
      }
      assert all[..|bytes|] == bytes && all[|bytes|..] == rest;
      assert ChunkLength(|all|) == |bytes|;
      assert s[..4] + s[4..] == s;
    }
  }

  /** The encoder's texts are exactly the strictly decodable ones, and each means its input. */
  lemma DecodesExactly(s: string, input: seq<byte>)
    ensures Decode(s) == Some(input) <==> s == Encoded(input)
  {
    DecodeEncoded(input);
    if Decode(s) == Some(input) {
      EncodedDecode(s);
    }
  }

  lemma EncodedInjective(a: seq<byte>, b: seq<byte>)
    requires Encoded(a) == Encoded(b)
    ensures a == b
  {
    DecodeEncoded(a);
    DecodeEncoded(b);
  }

  /** 4 * ceil(n / 3) characters, of which the last n mod 3 say are padding and no other. */
  lemma {:induction false} EncodedShape(input: seq<byte>)
    ensures var s, n := Encoded(input), |input|;
            && |s| == (n + 2) / 3 * 4
            && forall i :: 0 <= i < |s| ==> (s[i] == '=' <==> i >= |s| - Pads(n)) && (s[i] == '=' || IsSymbol(s[i]))
    decreases |input|
  {
    if input != [] {
      var k := ChunkLength(|input|);
      var chunk, rest := input[..k], input[k..];
      EncodedShape(rest);
      ChunkShape(chunk);
      var s := Encoded(input);
      var head, tail := EncodeChunk(chunk), Encoded(rest);
      ChunkCount(|input|);
      assert |s| == 4 + |tail|;
      assert k < 3 ==> tail == [];
      forall i | 0 <= i < |s|
        ensures (s[i] == PAD <==> i >= |s| - Pads(|input|)) && (s[i] == PAD || IsSymbol(s[i]))
      {
        assert s[i] == if i < 4 then head[i] else tail[i - 4];
      }
    }
  }

  /** Padding characters for `n` bytes. */
  function Pads(n: nat): nat {
    if n % 3 == 0 then 0 else 3 - n % 3
  }

  lemma ChunkCount(n: nat)
    requires n > 0
    ensures var k := ChunkLength(n);
            && (n + 2) / 3 == (n - k + 2) / 3 + 1
            && if k == 3 then Pads(n) == Pads(n - 3) else Pads(n) == 3 - k
  {
  }

  lemma ChunkShape(chunk: seq<byte>)
    requires 1 <= |chunk| <= 3
    ensures forall i :: 0 <= i < 4 ==>
      && (EncodeChunk(chunk)[i] == PAD <==> i > |chunk|)
      && (EncodeChunk(chunk)[i] == PAD || IsSymbol(EncodeChunk(chunk)[i]))
  {
    ChunkSpells(chunk);
    assert Index(PAD).None?;
  }

  // The `Authorization` value built on it

  /** `basic_auth_header`. */
  function BasicAuth(username: string, password: string): string {
    "Basic " + Encoded(Utf8.Encode(username + ":" + password))
  }

  /** The value is the word Basic, a space, and base64 text for the user name, a colon and the
      password. */
  lemma BasicAuthReads(username: string, password: string)
    ensures var value := BasicAuth(username, password);
            value[..6] == "Basic " && Decode(value[6..]) == Some(Utf8.Encode(username + ":" + password))
  {
    var input := Utf8.Encode(username + ":" + password);
    DecodeEncoded(input);
    assert BasicAuth(username, password)[6..] == Encoded(input);
  }

  /** A server reads back the credentials sent, provided the user name has no colon
      (section 2 of RFC 7617). */
  lemma BasicAuthInjective(u: string, p: string, v: string, q: string)
    requires ':' !in u && ':' !in v
    ensures BasicAuth(u, p) == BasicAuth(v, q) ==> u == v && p == q
  {
    if BasicAuth(u, p) == BasicAuth(v, q) {
      SameCredentials(u, p, v, q);
    }
  }

  lemma SameCredentials(u: string, p: string, v: string, q: string)
    requires ':' !in u && ':' !in v && BasicAuth(u, p) == BasicAuth(v, q)
    ensures u == v && p == q
  {
    var a, b := u + ":" + p, v + ":" + q;
    assert BasicAuth(u, p)[6..] == Encoded(Utf8.Encode(a));
    assert BasicAuth(v, q)[6..] == Encoded(Utf8.Encode(b));
    EncodedInjective(Utf8.Encode(a), Utf8.Encode(b));
    EncodeInjective(a, b);
    assert a[|u|] == ':' && b[|v|] == ':';
    assert |u| == |v|;
    assert a[..|u|] == u && b[..|v|] == v;
    assert a[|u| + 1..] == p && b[|v| + 1..] == q;
  }
}
