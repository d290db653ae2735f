/** Backoff arithmetic and the retry policy. Durations are nanoseconds. */
module Retry {
  import opened Wrappers

  const U64: nat := 0x1_0000_0000_0000_0000
  const SECOND: nat := 1_000_000_000

  /** `Duration::MAX` is u64::MAX seconds and 999 999 999 nanoseconds. */
  type Duration = d: nat | d < U64 * SECOND

  type u64 = n: nat | n < U64

  datatype Backoff =
    | Fixed(delay: Duration)
    | Exponential(base: Duration, max: Duration, jitter: bool)

  function Min(a: nat, b: nat): nat {
    if a < b then a else b
  }

  function Pow2(k: nat): (p: nat)
    ensures p >= 1
  {
    if k == 0 then 1 else 2 * Pow2(k - 1)
  }

  lemma {:induction false} Pow2Monotone(a: nat, b: nat)
    requires a <= b
    ensures Pow2(a) <= Pow2(b)
    decreases b - a
  {
    if a < b {
      Pow2Monotone(a + 1, b);
    }
  }

  /** `checked_mul`: nothing when the product does not fit a `Duration`. */
  function CheckedMul(d: Duration, factor: nat): Option<Duration> {
    if d * factor < U64 * SECOND then Some(d * factor) else None
  }

  /** `1u32 << attempt.min(20)`. */
  function Factor(attempt: nat): nat {
    Pow2(Min(attempt, 20))
  }

  /** The delay before jitter, branch by branch. */
  function Capped(base: Duration, max: Duration, attempt: nat): Duration {
    var product := CheckedMul(base, Factor(attempt));
    Min(if product.Some? then product.value else max, max)
  }

  lemma FactorFits(attempt: nat)
    ensures Factor(attempt) < 0x1_0000_0000
  {
    Pow2Monotone(Min(attempt, 20), 20);
    assert Pow2(20) == 1024 * 1024 by {
      assert Pow2(5) == 32 && Pow2(10) == 32 * Pow2(5) && Pow2(15) == 32 * Pow2(10) && Pow2(20) == 32 * Pow2(15);
    }
  }

  /** The overflow branch changes nothing: the delay is the smaller of base * 2^min(attempt, 20)
      and max. */
  lemma CappedIsMin(base: Duration, max: Duration, attempt: nat)
    ensures var doubled := base * Pow2(if attempt < 20 then attempt else 20);
            Capped(base, max, attempt) == if doubled < max then doubled else max
  {
  }

  lemma CappedMonotone(base: Duration, max: Duration, a: nat, b: nat)
    requires a <= b
    ensures Capped(base, max, a) <= Capped(base, max, b)
  {
    Pow2Monotone(Min(a, 20), Min(b, 20));
    Times(base, Factor(a), Factor(b));
  }

  lemma Times(k: nat, a: nat, b: nat)
    requires a <= b
    ensures k * a <= k * b
  {
  }

  /** `jittered`: the high 64 bits of a 128-bit product with the random draw. */
  function Jittered(max: Duration, r: u64): Duration {
    if max == 0 then
      max
    else
      var nanos := Min(max, U64 - 1);
      ProductBelow(r, nanos);
      r * nanos / U64
  }

  /** No overflow of u128, and the scaled draw is below the limit. */
  lemma ProductBelow(r: u64, nanos: nat)
    requires nanos < U64
    ensures 0 <= r * nanos < U64 * U64
    ensures nanos > 0 ==> 0 <= r * nanos / U64 < nanos
    ensures 0 <= r * nanos / U64 < U64
  {
    Times(nanos, r, U64 - 1);
    assert nanos * (U64 - 1) == nanos * U64 - nanos;
    if nanos > 0 {
      assert r * nanos < nanos * U64;
    }
  }

  lemma JitterBelow(max: Duration, r: u64)
    ensures max > 0 ==> Jittered(max, r) < max
    ensures max == 0 ==> Jittered(max, r) == 0
  {
    if max > 0 {
      ProductBelow(r, Min(max, U64 - 1));
    }
  }

  lemma SmallerFactor(a: nat, b: nat, k: nat)
    requires a * k < k * b
    ensures a < b
  {
    if b <= a {
      Times(k, b, a);
    }
  }

  /** Full jitter: some draw gives each nanosecond below a delay that fits 64 bits. */
  lemma JitterCovers(max: Duration, target: nat) returns (r: u64)
    requires target < max < U64
    ensures Jittered(max, r) == target
  {
    var wanted := target * U64;
    var draw := (wanted + max - 1) / max;
    var product := draw * max;
    assert wanted <= product < wanted + max;
    assert product < (target + 1) * U64;
    Times(U64, target + 1, max);
    assert (target + 1) * U64 <= max * U64;
    SmallerFactor(draw, U64, max);
    r := draw;
    assert product / U64 == target;
  }

  function DelayAfter(backoff: Backoff, attempt: nat, r: u64): Duration {
    match backoff
    case Fixed(d) => d
    case Exponential(base, max, jitter) =>
      var capped := Capped(base, max, attempt);
      if jitter then Jittered(capped, r) else capped
  }

  lemma DelayWithinCap(backoff: Backoff, attempt: nat, r: u64)
    ensures DelayAfter(backoff, attempt, r) <= if backoff.Fixed? then backoff.delay else backoff.max
    ensures backoff.Exponential? ==> DelayAfter(backoff, attempt, r) <= backoff.base * Pow2(attempt)
  {
    if backoff.Exponential? {
      JitterBelow(Capped(backoff.base, backoff.max, attempt), r);
      Pow2Monotone(Min(attempt, 20), attempt);
      Times(backoff.base, Factor(attempt), Pow2(attempt));
    }
  }

  // Policy

  datatype Method = Get | Head | Post | Put | Patch | Delete | Options | Connect | Other(name: string)

  datatype Policy = Policy(
    maxRetries: nat,
    backoff: Backoff,
    retryStatuses: seq<nat>,
    retryIoErrors: bool,
    retryNonIdempotent: bool,
    respectRetryAfter: bool,
    maxRetryAfter: Duration)

  predicate AllowsMethod(p: Policy, m: Method) {
    p.retryNonIdempotent || m == Get || m == Head || m == Put || m == Delete || m == Options
  }

  predicate RetriesStatus(p: Policy, status: nat) {
    status in p.retryStatuses
  }

  /** `retry_after`, given what the header parsed to. */
  function RetryAfter(p: Policy, parsed: Option<Duration>): Option<Duration> {
    if !p.respectRetryAfter || parsed.None? then None else Some(Min(parsed.value, p.maxRetryAfter))
  }

  function Delay(p: Policy, attempt: nat, retryAfter: Option<Duration>, r: u64): Duration {
    if retryAfter.Some? then retryAfter.value else DelayAfter(p.backoff, attempt, r)
  }
}
