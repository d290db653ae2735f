/** What the string functions come to, spelled out: letters, white space, trimming, decimal text. */
module TextLaws {
  import opened Sequences
  import opened Splitting
  import opened Text
  import Utf8
  import Digits

  const CAPITALS: string := "ABCDEFGHIJKLMNOPQRSTUVWXYZ"
  const SMALLS: string := "abcdefghijklmnopqrstuvwxyz"

  /** The 26 capitals become the 26 small letters; no other character changes. */
  lemma LowerLetters(c: char)
    ensures forall i :: 0 <= i < 26 ==> LowerChar(CAPITALS[i]) == SMALLS[i]
    ensures c !in CAPITALS ==> LowerChar(c) == c
  {
    if 'A' <= c <= 'Z' {
      assert CAPITALS[c as int - 'A' as int] == c;
    }
  }

  /** Equality up to the case of ASCII letters, character by character. */
  lemma SameIgnoringCaseExactly(a: string, b: string)
    ensures SameIgnoringCase(a, b)
       <==> |a| == |b| && forall i :: 0 <= i < |a| ==> LowerChar(a[i]) == LowerChar(b[i])
  {
    if SameIgnoringCase(a, b) {
      assert |Lower(a)| == |Lower(b)|;
      forall i | 0 <= i < |a| ensures LowerChar(a[i]) == LowerChar(b[i]) {
        assert Lower(a)[i] == Lower(b)[i];
      }
    }
  }

  /** The 25 characters of Unicode's White_Space property. */
  lemma WhiteSpaceExactly(c: char)
    ensures IsWhite(c)
       <==> c as int in {
              0x0009, 0x000A, 0x000B, 0x000C, 0x000D, 0x0020, 0x0085, 0x00A0, 0x1680, 0x2000, 0x2001, 0x2002, 0x2003,
              0x2004, 0x2005, 0x2006, 0x2007, 0x2008, 0x2009, 0x200A, 0x2028, 0x2029, 0x202F, 0x205F, 0x3000 }
  {
  }

  /** Trimming takes white space off both ends and leaves none there. */
  lemma TrimExactly(s: string) returns (before: string, after: string)
    ensures s == before + Trim(s) + after && AllWhite(before) && AllWhite(after)
    ensures Trim(s) != [] ==> !IsWhite(Trim(s)[0]) && !IsWhite(Trim(s)[|Trim(s)| - 1])
  {
    before := TrimStartExactly(s);
    after := TrimEndExactly(TrimStart(s));
    Assoc(before, Trim(s), after);
    if Trim(s) != [] {
      assert Trim(s)[0] == TrimStart(s)[0];
    }
  }

  lemma {:induction false} TrimStartExactly(s: string) returns (before: string)
    ensures s == before + TrimStart(s) && AllWhite(before)
    ensures TrimStart(s) != [] ==> !IsWhite(TrimStart(s)[0])
  {
    if s != [] && IsWhite(s[0]) {
      var rest := TrimStartExactly(s[1..]);
      before := [s[0]] + rest;
      Assoc([s[0]], rest, TrimStart(s));
      assert s == [s[0]] + s[1..];
    } else {
      before := [];
    }
  }

  lemma {:induction false} TrimEndExactly(s: string) returns (after: string)
    ensures s == TrimEnd(s) + after && AllWhite(after)
    ensures TrimEnd(s) != [] ==> !IsWhite(TrimEnd(s)[|TrimEnd(s)| - 1])
  {
    if s != [] && IsWhite(s[|s| - 1]) {
      var rest := TrimEndExactly(s[..|s| - 1]);
      after := rest + [s[|s| - 1]];
      Assoc(TrimEnd(s), rest, [s[|s| - 1]]);
      assert s == s[..|s| - 1] + [s[|s| - 1]];
    } else {
      after := [];
    }
  }

  /** Leading dots go, and nothing else. */
  lemma {:induction false} TrimDotsExactly(s: string) returns (dots: string)
    ensures s == dots + TrimDots(s) && forall i :: 0 <= i < |dots| ==> dots[i] == '.'
    ensures TrimDots(s) != [] ==> TrimDots(s)[0] != '.'
  {
    if s != [] && s[0] == '.' {
      var rest := TrimDotsExactly(s[1..]);
      dots := ['.'] + rest;
      Assoc(['.'], rest, TrimDots(s));
      assert s == ['.'] + s[1..];
    } else {
      dots := [];
    }
  }

  /** Text without a comma is one field; `FieldsConcat` says the rest. */
  lemma OneField(s: string)
    requires ',' !in s
    ensures Fields(s) == [s]
  {
    var d := [','];
    forall i: nat | i <= |s| ensures !OccursAt(d, s, i) {
      if i + |d| <= |s| {
        assert s[i..i + 1][0] == s[i];
      }
    }
    SplitJoin(d, [s]);
    assert Join(d, [s]) == s;
  }

  // Decimal text

  predicate DigitChars(s: string) {
    forall i :: 0 <= i < |s| ==> '0' <= s[i] <= '9'
  }

  /** The number a string of decimal digits spells. */
  function NatOf(s: string): nat
    requires DigitChars(s)
  {
    if s == [] then 0 else NatOf(s[..|s| - 1]) * 10 + (s[|s| - 1] as int - '0' as int)
  }

  /** The bytes of ASCII text. */
  function Codes(s: string): (bs: seq<Utf8.byte>)
    requires forall i :: 0 <= i < |s| ==> s[i] as int < 0x80
    ensures |bs| == |s| && forall i :: 0 <= i < |s| ==> bs[i] == s[i] as int
  {
    seq(|s|, i requires 0 <= i < |s| => s[i] as int)
  }

  lemma {:induction false} EncodeCodes(s: string)
    requires forall i :: 0 <= i < |s| ==> s[i] as int < 0x80
    ensures Utf8.Encode(s) == Codes(s)
  {
    if s != [] {
      EncodeCodes(s[1..]);
      assert Codes(s) == [s[0] as int] + Codes(s[1..]);
    }
  }

  lemma {:induction false} NatOfCodes(s: string)
    requires DigitChars(s)
    ensures Digits.AllDigits(Codes(s)) && Digits.Value(Codes(s)) == NatOf(s)
  {
    if s != [] {
      var init := s[..|s| - 1];
      NatOfCodes(init);
      assert Codes(s)[..|s| - 1] == Codes(init);
    }
  }

  lemma {:induction false} FromAsciiAt(bs: seq<Utf8.byte>, i: nat)
    requires Utf8.Ascii(bs) && i < |bs|
    ensures Utf8.FromAscii(bs)[i] == bs[i] as char
  {
    if i > 0 {
      FromAsciiAt(bs[1..], i - 1);
    }
  }

  /** The text of a number spells it, without leading zeros. */
  lemma DecimalTextSpells(n: nat)
    ensures DigitChars(DecimalText(n)) && NatOf(DecimalText(n)) == n
    ensures |DecimalText(n)| >= 1 && (DecimalText(n)[0] == '0' ==> n == 0)
  {
    var ds := Digits.Decimal(n);
    DecimalIsAscii(n);
    forall i | 0 <= i < |ds| ensures DecimalText(n)[i] == ds[i] as char {
      FromAsciiAt(ds, i);
    }
    assert Codes(DecimalText(n)) == ds;
    NatOfCodes(DecimalText(n));
  }
}
