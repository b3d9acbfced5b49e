/** Facts about Python's `%` with a positive divisor, which agrees with
    Dafny's Euclidean `%` there. The solver does not reason about products
    of two variables unaided, so each step is spelled out. */
module Modular {

  lemma MulDistributes(a: int, b: int, n: int)
    ensures a * n - b * n == (a - b) * n && a * n + b * n == (a + b) * n
  {
  }

  lemma MulAtLeast(k: int, n: int)
    requires n > 0
    ensures k >= 1 ==> k * n >= n
    ensures k <= -1 ==> k * n <= -n
  {
  }

  /** The remainder is the unique `r` in `[0, n)` with `x == q * n + r`. */
  lemma ModUnique(x: int, n: int, q: int, r: int)
    requires n > 0 && 0 <= r < n && x == q * n + r
    ensures x % n == r
  {
    var q0 := x / n;
    assert x == q0 * n + x % n;
    MulDistributes(q, q0, n);
    MulAtLeast(q - q0, n);
  }

  /** Adding a multiple of the divisor does not change the remainder. */
  lemma ModAddMultiple(x: int, q: int, n: int)
    requires n > 0
    ensures (x + q * n) % n == x % n
  {
    var a := x / n;
    assert x == a * n + x % n;
    MulDistributes(a, q, n);
    ModUnique(x + q * n, n, a + q, x % n);
  }

  /** Reducing before adding gives the same remainder. */
  lemma ModOfSum(a: int, j: int, n: int)
    requires n > 0
    ensures (a % n + j) % n == (a + j) % n
  {
    var q := a / n;
    assert a == q * n + a % n;
    ModAddMultiple(a % n + j, q, n);
  }

  /** Numbers less than `n` apart have different remainders. */
  lemma DistinctResidues(x: int, d: int, n: int)
    requires n > 0 && 0 < d < n
    ensures x % n != (x + d) % n
  {
    var q1 := x / n;
    var q2 := (x + d) / n;
    assert x == q1 * n + x % n;
    assert x + d == q2 * n + (x + d) % n;
    MulDistributes(q2, q1, n);
    MulAtLeast(q2 - q1, n);
  }

  /** Every residue is reached from `x` within `n` steps. */
  lemma ResidueReached(x: int, i: int, n: int)
    requires n > 0 && 0 <= i < n
    ensures 0 <= (i - x) % n < n && (x + (i - x) % n) % n == i
  {
    var j := (i - x) % n;
    var q := (i - x) / n;
    assert i - x == q * n + j;
    assert x + j == i + (-q) * n;
    ModAddMultiple(i, -q, n);
    ModUnique(i, n, 0, i);
  }

  /** `x - x % n` is the largest multiple of `n` not above `x`. */
  lemma RoundDown(x: int, n: int)
    requires n > 0
    ensures (x - x % n) % n == 0
    ensures x - n < x - x % n <= x
  {
    var q := x / n;
    assert x == q * n + x % n;
    ModUnique(x - x % n, n, q, 0);
  }

  /** Rounding down to a multiple of `n` keeps the order. */
  lemma RoundDownMonotone(a: int, b: int, n: int)
    requires n > 0 && a <= b
    ensures a - a % n <= b - b % n
  {
    var qa, qb := a / n, b / n;
    assert a == qa * n + a % n;
    assert b == qb * n + b % n;
    MulDistributes(qa, qb, n);
    MulAtLeast(qa - qb, n);
  }

  /** Multiples of `n` differ by a multiple of `n`. */
  lemma MultiplesApart(a: int, b: int, n: int)
    requires n > 0 && a % n == 0 && b % n == 0
    ensures (b - a) % n == 0
  {
    var qa, qb := a / n, b / n;
    assert a == qa * n + a % n;
    assert b == qb * n + b % n;
    MulDistributes(qb, qa, n);
    ModUnique(b - a, n, qb - qa, 0);
  }

  /** A positive multiple of `n` is at least `n`. */
  lemma PositiveMultiple(x: int, n: int)
    requires n > 0 && x > 0 && x % n == 0
    ensures x >= n && (x - n) % n == 0
  {
    var q := x / n;
    assert x == q * n + x % n;
    MulAtLeast(q, n);
    ModAddMultiple(x, -1, n);
  }
}
