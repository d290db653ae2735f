/** ASCII case, trimming and decimal text on `str`, as the standard library defines them. */
module Text {
  import opened Splitting
  import Utf8
  import Digits

  function LowerChar(c: char): char {
    if 'A' <= c <= 'Z' then c + 32 as char else c
  }

  /** `to_ascii_lowercase`. */
  function Lower(s: string): (r: string)
    ensures |r| == |s|
    ensures forall i :: 0 <= i < |s| ==> r[i] == LowerChar(s[i])
  {
    seq(|s|, i requires 0 <= i < |s| => LowerChar(s[i]))
  }

  /** `eq_ignore_ascii_case`. */
  predicate SameIgnoringCase(a: string, b: string) {
    Lower(a) == Lower(b)
  }

  lemma LowerConcat(a: string, b: string)
    ensures Lower(a + b) == Lower(a) + Lower(b)
  {
  }

  lemma LowerTwice(s: string)
    ensures Lower(Lower(s)) == Lower(s)
  {
  }

  /** `char::is_whitespace`: the White_Space property. */
  predicate IsWhite(c: char) {
    var n := c as int;
    || 0x09 <= n <= 0x0D || n == 0x20 || n == 0x85 || n == 0xA0 || n == 0x1680
    || 0x2000 <= n <= 0x200A || n == 0x2028 || n == 0x2029 || n == 0x202F || n == 0x205F || n == 0x3000
  }

  function TrimStart(s: string): string {
    if s != [] && IsWhite(s[0]) then TrimStart(s[1..]) else s
  }

  function TrimEnd(s: string): string {
    if s != [] && IsWhite(s[|s| - 1]) then TrimEnd(s[..|s| - 1]) else s
  }

  /** `str::trim`. */
  function Trim(s: string): string {
    TrimEnd(TrimStart(s))
  }

  /** `trim_start_matches('.')`. */
  function TrimDots(s: string): string {
    if s != [] && s[0] == '.' then TrimDots(s[1..]) else s
  }

  predicate AllWhite(s: string) {
    forall i :: 0 <= i < |s| ==> IsWhite(s[i])
  }

  lemma {:induction false} TrimStartPadded(before: string, s: string)
    requires AllWhite(before)
    ensures TrimStart(before + s) == TrimStart(s)
  {
    if before == [] {
      assert before + s == s;
    } else {
      TrimStartPadded(before[1..], s);
      assert (before + s)[1..] == before[1..] + s;
    }
  }

  lemma {:induction false} TrimEndPadded(s: string, after: string)
    requires AllWhite(after)
    ensures TrimEnd(s + after) == TrimEnd(s)
  {
    if after == [] {
      assert s + after == s;
    } else {
      var init := after[..|after| - 1];
      TrimEndPadded(s, init);
      assert (s + after)[..|s + after| - 1] == s + init;
    }
  }

  lemma {:induction false} TrimStartOfConcat(s: string, after: string)
    requires AllWhite(after)
    ensures TrimStart(s + after) == if AllWhite(s) then [] else TrimStart(s) + after
    ensures AllWhite(s) ==> TrimStart(s) == []
  {
    if s == [] {
      assert s + after == after;
      TrimStartPadded(after, []);
      assert after + [] == after;
    } else if IsWhite(s[0]) {
      TrimStartOfConcat(s[1..], after);
      assert (s + after)[1..] == s[1..] + after;
      assert s == [s[0]] + s[1..];
    }
  }

  lemma TrimPadded(before: string, s: string, after: string)
    requires AllWhite(before) && AllWhite(after)
    ensures Trim(before + (s + after)) == Trim(s)
  {
    TrimStartPadded(before, s + after);
    TrimStartOfConcat(s, after);
    TrimEndPadded(TrimStart(s), after);
  }

  lemma {:induction false} TrimEndKeeps(c: char, s: string)
    requires !IsWhite(c)
    ensures TrimEnd([c] + s) == [c] + TrimEnd(s)
  {
    var all := [c] + s;
    if s == [] {
      assert all == [c];
    } else {
      assert all[|all| - 1] == s[|s| - 1];
      if IsWhite(s[|s| - 1]) {
        TrimEndKeeps(c, s[..|s| - 1]);
        assert all[..|all| - 1] == [c] + s[..|s| - 1];
      }
    }
  }

  /** Trimming the end does not reach what stands before a character that is not white. */
  lemma {:induction false} TrimEndBeforeInk(c: char, s: string)
    requires !AllWhite(s)
    ensures TrimEnd([c] + s) == [c] + TrimEnd(s)
  {
    var all := [c] + s;
    assert all[|all| - 1] == s[|s| - 1];
    if IsWhite(s[|s| - 1]) {
      var init := s[..|s| - 1];
      assert s == init + [s[|s| - 1]];
      assert !AllWhite(init);
      TrimEndBeforeInk(c, init);
      assert all[..|all| - 1] == [c] + init;
    }
  }

  lemma {:induction false} TrimShorter(s: string)
    ensures |Trim(s)| <= |TrimEnd(s)|
  {
    if s != [] && IsWhite(s[0]) {
      if AllWhite(s) {
        TrimStartOfConcat(s, []);
      } else {
        assert s == [s[0]] + s[1..];
        assert !AllWhite(s[1..]);
        TrimEndBeforeInk(s[0], s[1..]);
        TrimShorter(s[1..]);
      }
    }
  }

  lemma {:induction false} DotsShorter(s: string)
    ensures |TrimDots(s)| <= |s|
  {
    if s != [] && s[0] == '.' {
      DotsShorter(s[1..]);
    }
  }

  lemma {:induction false} TrimStartLower(s: string)
    ensures TrimStart(Lower(s)) == Lower(TrimStart(s))
  {
    if s != [] && IsWhite(s[0]) {
      TrimStartLower(s[1..]);
      assert Lower(s)[1..] == Lower(s[1..]);
    }
  }

  lemma {:induction false} TrimEndLower(s: string)
    ensures TrimEnd(Lower(s)) == Lower(TrimEnd(s))
  {
    if s != [] && IsWhite(s[|s| - 1]) {
      TrimEndLower(s[..|s| - 1]);
      assert Lower(s)[..|s| - 1] == Lower(s[..|s| - 1]);
    }
  }

  lemma {:induction false} TrimDotsLower(s: string)
    ensures TrimDots(Lower(s)) == Lower(TrimDots(s))
  {
    if s != [] && s[0] == '.' {
      TrimDotsLower(s[1..]);
      assert Lower(s)[1..] == Lower(s[1..]);
    }
  }

  /** `split(',')`. */
  function Fields(s: string): seq<string> {
    Split([','], s)
  }

  lemma {:induction false} JoinConcat<T>(d: seq<T>, a: seq<seq<T>>, b: seq<seq<T>>)
    requires a != [] && b != []
    ensures Join(d, a + b) == Join(d, a) + (d + Join(d, b))
  {
    if |a| == 1 {
      assert (a + b)[1..] == b;
    } else {
      JoinConcat(d, a[1..], b);
      assert (a + b)[1..] == a[1..] + b;
      var tail := d + Join(d, b);
      assert a[0] + (d + (Join(d, a[1..]) + tail)) == (a[0] + (d + Join(d, a[1..]))) + tail;
    }
  }

  /** The fields of two comma-separated lists put together. */
  lemma FieldsConcat(a: string, b: string)
    ensures Fields(a + "," + b) == Fields(a) + Fields(b)
  {
    var d := [','];
    JoinSplit(d, a);
    JoinSplit(d, b);
    var both := Split(d, a) + Split(d, b);
    forall i | 0 <= i < |both| ensures Absent(d, both[i]) {
      if i >= |Split(d, a)| {
        assert both[i] == Split(d, b)[i - |Split(d, a)|];
      }
    }
    JoinConcat(d, Split(d, a), Split(d, b));
    assert a + "," + b == a + (d + b);
    SplitJoin(d, both);
  }

  /** `{}` of a port. */
  function DecimalText(n: nat): string {
    DecimalIsAscii(n);
    Utf8.FromAscii(Digits.Decimal(n))
  }

  lemma DecimalIsAscii(n: nat)
    ensures Utf8.Ascii(Digits.Decimal(n))
  {
  }

  lemma DecimalTextInjective(m: nat, n: nat)
    requires DecimalText(m) == DecimalText(n)
    ensures m == n
  {
    DecimalIsAscii(m);
    DecimalIsAscii(n);
    Utf8.EncodeFromAscii(Digits.Decimal(m));
    Utf8.EncodeFromAscii(Digits.Decimal(n));
    Digits.DecimalInjective(m, n);
  }

  lemma {:induction false} AsciiDigitsOnly(ds: seq<Utf8.byte>)
    requires Digits.AllDigits(ds) && Utf8.Ascii(ds)
    ensures forall c :: c in Utf8.FromAscii(ds) ==> '0' <= c <= '9'
  {
    if ds != [] {
      AsciiDigitsOnly(ds[1..]);
    }
  }

  lemma DecimalTextDigits(n: nat)
    ensures forall c :: c in DecimalText(n) ==> '0' <= c <= '9'
  {
    DecimalIsAscii(n);
    AsciiDigitsOnly(Digits.Decimal(n));
  }
}
