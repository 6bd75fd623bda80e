/** Facts about products and floor divisions, each small enough for the solver. */
module Rounding {

  lemma Distribute(f: int, x: int, y: int)
    ensures f * (x + y) == f * x + f * y
  {
  }

  lemma FloorBounds(x: int, n: int)
    requires 0 < n
    ensures n * (x / n) <= x <= n * (x / n) + (n - 1)
  {
  }

  /** A floor division is at least any whole number whose product fits. */
  lemma FloorAtLeast(x: int, n: int, q: int)
    requires 0 < n && n * q <= x
    ensures q <= x / n
  {
    FloorBounds(x, n);
    if x / n < q {
      ProductMonotone(n, x / n + 1, q);
      Distribute(n, x / n, 1);
      assert false;
    }
  }

  /** A floor division is at most any whole number whose next product exceeds it. */
  lemma FloorAtMost(x: int, n: int, q: int)
    requires 0 < n && x < n * q + n
    ensures x / n <= q
  {
    FloorBounds(x, n);
    if q < x / n {
      ProductMonotone(n, q + 1, x / n);
      Distribute(n, q, 1);
      assert false;
    }
  }

  lemma ProductNonNegative(x: int, y: int)
    requires 0 <= x && 0 <= y
    ensures 0 <= x * y
  {
  }

  lemma ProductMonotone(f: int, x: int, y: int)
    requires 0 <= f && x <= y
    ensures f * x <= f * y
  {
  }

  lemma FloorMonotone(x: int, y: int, n: int)
    requires 0 < n && x <= y
    ensures x / n <= y / n
  {
    FloorBounds(x, n);
    FloorBounds(y, n);
    FloorAtLeast(y, n, x / n);
  }
}
