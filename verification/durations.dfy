/**
 Instants and durations in whole nanoseconds, and the one place where the program rounds:
 `Duration::from_secs_f64`, which takes the nearest nanosecond and breaks ties towards even.
 */
module Durations {
  type pos = x: int | 0 < x witness 1

  const NANOS_PER_SEC: pos := 1_000_000_000
  const U32_MAX := 0xFFFF_FFFF
  const U64_MAX := 0xFFFF_FFFF_FFFF_FFFF
  /** The longest `Duration`: u64::MAX seconds and 999,999,999 nanoseconds. */
  const DURATION_MAX := U64_MAX * NANOS_PER_SEC + 999_999_999

  function Min(a: int, b: int): int {
    if a <= b then a else b
  }

  function Max(a: int, b: int): int {
    if a <= b then b else a
  }

  lemma Distributes(x: int, y: int, z: int)
    ensures x * (y + z) == x * y + x * z
  {
  }

  lemma TimesAssociates(x: int, y: int, z: int)
    ensures x * (y * z) == (x * y) * z
  {
  }

  lemma TimesInOrder(x: nat, y: int, z: int)
    requires y <= z
    ensures x * y <= x * z
  {
    assert x * (z - y) >= 0;
    Distributes(x, y, z - y);
  }

  /** `Instant::saturating_duration_since`. */
  function Since(earlier: nat, now: nat): nat {
    if now <= earlier then 0 else now - earlier
  }

  /** The least k with k * d >= n. */
  function CeilDiv(n: nat, d: pos): (k: nat)
    ensures n <= k * d < n + d
  {
    if n % d == 0 then n / d else n / d + 1
  }

  /** n / d lies strictly nearer to, or ties towards, the integer below it. */
  predicate RoundsDown(n: nat, d: pos) {
    var r := n % d;
    r != 0 && (2 * r < d || (2 * r == d && n / d % 2 == 0))
  }

  /** The integer nearest to n / d, ties to even. */
  function Nearest(n: nat, d: pos): nat {
    var r := n % d;
    if 2 * r < d then n / d
    else if 2 * r > d then n / d + 1
    else if n / d % 2 == 0 then n / d else n / d + 1
  }

  /** Rounding loses strictly less than one unit, and only when it rounds down. */
  lemma NearestIsCeilUnlessRoundedDown(n: nat, d: pos)
    ensures Nearest(n, d) == if RoundsDown(n, d) then CeilDiv(n, d) - 1 else CeilDiv(n, d)
    ensures RoundsDown(n, d) <==> Nearest(n, d) * d < n
    ensures 2 * (n - Nearest(n, d) * d) <= d && 2 * (Nearest(n, d) * d - n) <= d
  {
    var f, r := n / d, n % d;
    assert n == f * d + r;
    assert (f + 1) * d == f * d + d;
  }

  /** The only integer within half a unit, and of two the even one. */
  lemma NearestIs(n: nat, d: pos, k: nat)
    ensures k == Nearest(n, d)
       <==>
         && 2 * (n - k * d) <= d && 2 * (k * d - n) <= d
         && (2 * (n - k * d) == d || 2 * (k * d - n) == d ==> k % 2 == 0)
  {
    var f, r := n / d, n % d;
    assert n == f * d + r;
    assert (f + 1) * d == f * d + d;
    if k <= f - 1 {
      TimesInOrder(d, k, f - 1);
      Distributes(d, f, -1);
    } else if k >= f + 2 {
      TimesInOrder(d, f + 2, k);
      Distributes(d, f, 2);
    }
  }

  /** `Duration::from_secs_f64` on an exact number of seconds. */
  function FromSecs(secs: real): nat
    requires 0.0 <= secs
  {
    var nanos := secs * NANOS_PER_SEC as real;
    var below := nanos.Floor;
    var frac := nanos - below as real;
    if frac < 0.5 then below
    else if frac > 0.5 then below + 1
    else if below % 2 == 0 then below else below + 1
  }

  /** Comparing x with k/2 is comparing 2n with k * d, when x = n / d. */
  lemma ComparesWithHalves(x: real, n: nat, d: pos, k: nat)
    requires x * d as real == n as real
    ensures 2.0 * x < k as real <==> 2 * n < k * d
    ensures 2.0 * x == k as real <==> 2 * n == k * d
  {
    var gap, e := k as real - 2.0 * x, d as real;
    assert gap * e == (k * d - 2 * n) as real by {
      assert k as real * e == (k * d) as real;
      assert 2.0 * x * e == (2 * n) as real;
    }
    if gap > 0.0 {
      assert gap * e > 0.0;
    } else if gap < 0.0 {
      assert gap * e < 0.0;
    }
  }

  /** Rounding seconds given as a fraction of nanoseconds is `Nearest`. */
  lemma FromSecsIsNearest(secs: real, n: nat, d: pos)
    requires 0.0 <= secs
    requires secs * NANOS_PER_SEC as real * d as real == n as real
    ensures FromSecs(secs) == Nearest(n, d)
  {
    var x, f, r := secs * NANOS_PER_SEC as real, n / d, n % d;
    ComparesWithHalves(x, n, d, 2 * f);
    ComparesWithHalves(x, n, d, 2 * f + 1);
    ComparesWithHalves(x, n, d, 2 * f + 2);
    assert n == f * d + r;
    assert 2 * f * d == 2 * (f * d) && (2 * f + 1) * d == 2 * (f * d) + d && (2 * f + 2) * d == 2 * (f * d) + 2 * d;
    assert x.Floor == f;
  }
}
