/** Arithmetic facts the solver does not find by itself. */
module Arith {
  lemma Product(a: int, b: int)
    requires a >= 0 && b >= 0
    ensures a * b >= 0
  {
  }

  lemma Distribute(d: int, x: int, y: int)
    ensures d * (x + y) == d * x + d * y
  {
  }

  lemma MulGap(d: int, x: int, y: int)
    requires d > 0
    ensures x < y ==> d * x + d <= d * y
  {
    if x < y {
      var k := y - x - 1;
      Product(d, k);
      Distribute(d, x + 1, k);
      Distribute(d, x, 1);
    }
  }

  lemma DivModUnique(a: int, d: int, q: int, r: int)
    requires d > 0 && a == d * q + r && 0 <= r < d
    ensures a / d == q && a % d == r
  {
    MulGap(d, a / d, q);
    MulGap(d, q, a / d);
  }

  /** The remainder of something within `n` above a multiple of `n`. */
  lemma RemainderAbove(base: int, x: int, n: int)
    requires n > 0 && base % n == 0 && base <= x < base + n
    ensures x % n == x - base
  {
    assert base == n * (base / n);
    DivModUnique(x, n, base / n, x - base);
  }

  lemma RoundDown(x: int, n: int)
    requires n > 0
    ensures (x - x % n) % n == 0 && 0 <= x % n < n
  {
    assert x == n * (x / n) + x % n;
    DivModUnique(x - x % n, n, x / n, 0);
  }

  lemma SameRemainder(base: int, base': int, d: int)
    requires base % 4096 == 0 && base' % 4096 == 0
    ensures (base + d) % 4096 == (base' + d) % 4096
  {
  }
}
