/** Facts about Euclidean division and remainder used for ring and block
    indexing. */
module Modular {
  /** A positive multiple of d is at least d. */
  lemma {:induction false} MulAtLeast(d: nat, k: nat)
    requires k >= 1
    ensures d * k >= d
    decreases k
  {
    if k > 1 {
      assert d * k == d * (k - 1) + d;
      MulAtLeast(d, k - 1);
    }
  }

  /** A nonzero multiple of d is at least d away from zero. */
  lemma MulFarFromZero(d: int, k: int)
    requires d >= 0
    ensures k >= 1 ==> d * k >= d
    ensures k <= -1 ==> d * k <= -d
  {
    if k >= 1 {
      MulAtLeast(d, k);
    } else if k <= -1 {
      MulAtLeast(d, -k);
      assert d * k == -(d * -k);
    }
  }

  /** Two Euclidean decompositions by the same divisor are the same decomposition. */
  lemma QuotientsAgree(d: nat, q1: nat, r1: nat, q2: nat, r2: nat)
    requires d > 0 && r1 < d && r2 < d && d * q1 + r1 == d * q2 + r2
    ensures q1 == q2 && r1 == r2
  {
    MulFarFromZero(d, q1 - q2);
    assert d * (q1 - q2) == r2 - r1;
  }

  /** Division and remainder are determined by any decomposition a == d * q + r with 0 <= r < d. */
  lemma ModUnique(a: nat, d: nat, q: nat, r: nat)
    requires d > 0 && r < d && a == d * q + r
    ensures a % d == r && a / d == q
  {
    QuotientsAgree(d, a / d, a % d, q, r);
  }

  /** The remainder modulo 2m is built from the half's remainder modulo m and the lowest bit. */
  lemma HalfMod(a: nat, m: nat)
    requires m > 0
    ensures a % (2 * m) == 2 * ((a / 2) % m) + a % 2
  {
    var q, r := (a / 2) / m, (a / 2) % m;
    assert a / 2 == m * q + r;
    assert a == (2 * m) * q + (2 * r + a % 2);
    ModUnique(a, 2 * m, q, 2 * r + a % 2);
  }

  /** Two different positions within n consecutive ones have different remainders modulo n. */
  lemma DistinctSlots(p: nat, q: nat, low: nat, n: nat)
    requires low <= p < low + n && low <= q < low + n && p != q
    ensures p % n != q % n
  {
    MulFarFromZero(n, p / n - q / n);
    assert p - q == n * (p / n - q / n) + (p % n - q % n);
  }

  /** Adding n keeps the remainder modulo n. */
  lemma NextLapSameSlot(p: nat, n: nat)
    requires n > 0
    ensures (p + n) % n == p % n
  {
    ModUnique(p + n, n, p / n + 1, p % n);
  }
}
