/**
 * Facts about Euclidean remainder (Rust's `rem_euclid`, which agrees with Dafny's `%`
 * for a positive modulus) used by the lane geometry of a ring-shaped road.
 */
module Arith {
  function Min(a: int, b: int): int { if a <= b then a else b }
  function Max(a: int, b: int): int { if a >= b then a else b }

  /** A nonzero multiple of `n` is at least `n` away from zero. */
  lemma MulAwayFromZero(n: int, k: int)
    requires n > 0
    ensures k >= 1 ==> n * k >= n
    ensures k <= -1 ==> n * k <= -n
  {
    if k >= 1 {
      assert n * k == n * (k - 1) + n;
      assert n * (k - 1) >= 0;
    } else if k <= -1 {
      assert n * k == n * (k + 1) - n;
      assert n * (k + 1) <= 0;
    }
  }

  /** The remainder and quotient are the unique pair with `x == n * q + r` and `0 <= r < n`. */
  lemma ModUnique(x: int, n: int, q: int, r: int)
    requires n > 0 && 0 <= r < n && x == n * q + r
    ensures x % n == r && x / n == q
  {
    var q0, r0 := x / n, x % n;
    assert x == n * q0 + r0;
    assert n * (q0 - q) == r - r0;
    MulAwayFromZero(n, q0 - q);
  }

  lemma ModAddMultiple(x: int, k: int, n: int)
    requires n > 0
    ensures (x + n * k) % n == x % n
  {
    var q, r := x / n, x % n;
    assert x + n * k == n * (q + k) + r;
    ModUnique(x + n * k, n, q + k, r);
  }

  lemma ModOfMod(x: int, y: int, n: int)
    requires n > 0
    ensures (x % n + y) % n == (x + y) % n
  {
    var q := x / n;
    assert x % n + y + n * q == x + y;
    ModAddMultiple(x % n + y, q, n);
  }

  lemma ModShiftCancel(a: int, b: int, s: int, n: int)
    requires n > 0
    ensures (a + s) % n == (b + s) % n <==> a % n == b % n
  {
    if a % n == b % n {
      ModOfMod(a, s, n);
      ModOfMod(b, s, n);
    }
    if (a + s) % n == (b + s) % n {
      ModOfMod(a + s, -s, n);
      ModOfMod(b + s, -s, n);
      assert a + s + -s == a && b + s + -s == b;
    }
  }

  /** Two numbers with equal remainders that are less than `n` apart are equal. */
  lemma ModSmallDiff(a: int, b: int, n: int)
    requires n > 0 && a % n == b % n && 0 <= a - b < n
    ensures a == b
  {
    var qa, qb := a / n, b / n;
    assert a - b == n * (qa - qb);
    MulAwayFromZero(n, qa - qb);
  }

  /** A multiple of `n` leaves no remainder. */
  /** `x` reduced into `[0, n)`: it differs from `x` by a multiple of `n`. */
  function Wrap(x: int, n: int): (r: int)
    requires n > 0
    ensures 0 <= r < n && (x - r) % n == 0
  {
    ModDifference(x, n);
    x % n
  }

  lemma ModDifference(x: int, n: int)
    requires n > 0
    ensures (x - x % n) % n == 0
  {
    assert x - x % n == n * (x / n);
    ModUnique(x - x % n, n, x / n, 0);
  }

  /** The remainder of a non-negative number does not exceed it. */
  lemma ModAtMost(x: int, n: int)
    requires n > 0 && x >= 0
    ensures x % n <= x
  {
    var q := x / n;
    assert x == n * q + x % n;
    assert n * q >= 0 by {
      MulAwayFromZero(n, q);
    }
  }
}
