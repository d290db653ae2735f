/** Decimal digit strings: how `{}` prints an integer and how the digits read back. */
module Digits {
  import opened Utf8

  const ZERO: byte := 0x30

  predicate IsDigit(b: byte) {
    ZERO <= b <= ZERO + 9
  }

  /** A digit of `{:x}`. */
  function HexDigit(n: nat): byte
    requires n < 16
  {
    if n < 10 then 0x30 + n else 0x61 + (n - 10)
  }

  predicate AllDigits(ds: seq<byte>) {
    forall i :: 0 <= i < |ds| ==> IsDigit(ds[i])
  }

  function Pow10(k: nat): (p: nat)
    ensures p >= 1
  {
    if k == 0 then 1 else 10 * Pow10(k - 1)
  }

  /** The number a digit string spells (the empty string spells zero). */
  function Value(ds: seq<byte>): nat
    requires AllDigits(ds)
  {
    if ds == [] then 0 else Value(ds[..|ds| - 1]) * 10 + (ds[|ds| - 1] as int - 0x30)
  }

  /** Canonical decimal digits, without leading zeros. */
  function Decimal(n: nat): (ds: seq<byte>)
    ensures AllDigits(ds) && ds != [] && Value(ds) == n
    ensures n > 0 ==> ds[0] != ZERO
  {
    var low: byte := 0x30 + n % 10;
    if n < 10 then
      assert Value([]) == 0;
      [low]
    else
      var ds := Decimal(n / 10) + [low];
      assert ds[..|ds| - 1] == Decimal(n / 10);
      ds
  }

  /** The `width` low-order digits of `n`, zero padded. */
  function Padded(n: nat, width: nat): (ds: seq<byte>)
    ensures AllDigits(ds) && |ds| == width
    ensures n < Pow10(width) ==> Value(ds) == n
  {
    if width == 0 then
      []
    else
      var low: byte := 0x30 + n % 10;
      var ds := Padded(n / 10, width - 1) + [low];
      assert ds[..|ds| - 1] == Padded(n / 10, width - 1);
      ds
  }

  lemma {:induction false} ValueConcat(a: seq<byte>, b: seq<byte>)
    requires AllDigits(a) && AllDigits(b)
    ensures Value(a + b) == Value(a) * Pow10(|b|) + Value(b)
  {
    if b == [] {
      assert a + b == a;
    } else {
      var init := b[..|b| - 1];
      assert (a + b)[..|a + b| - 1] == a + init;
      ValueConcat(a, init);
      assert Value(a) * (10 * Pow10(|init|)) == Value(a) * Pow10(|init|) * 10;
    }
  }

  lemma DecimalInjective(m: nat, n: nat)
    requires Decimal(m) == Decimal(n)
    ensures m == n
  {
    assert Value(Decimal(m)) == m;
  }

  /** The longest prefix of `bs` made of digits. */
  function Run(bs: seq<byte>): (ds: seq<byte>)
    ensures AllDigits(ds) && ds <= bs
    ensures |ds| < |bs| ==> !IsDigit(bs[|ds|])
  {
    if bs != [] && IsDigit(bs[0]) then [bs[0]] + Run(bs[1..]) else []
  }

  lemma {:induction false} RunOfConcat(ds: seq<byte>, tail: seq<byte>)
    requires AllDigits(ds)
    requires tail == [] || !IsDigit(tail[0])
    ensures Run(ds + tail) == ds
  {
    if ds == [] {
      assert ds + tail == tail;
    } else {
      assert (ds + tail)[1..] == ds[1..] + tail;
      RunOfConcat(ds[1..], tail);
    }
  }
}
