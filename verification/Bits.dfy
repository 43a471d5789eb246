/** Unsigned machine words as natural numbers: wrapping arithmetic and the bitwise operators,
    bit by bit, with what they mean on powers of two. */
module Bits {
  import opened Arith

  const W32: int := 0x1_0000_0000
  const W64: int := 0x1_0000_0000_0000_0000

  type U32 = x: int | 0 <= x < 0x1_0000_0000
  type U64 = x: int | 0 <= x < 0x1_0000_0000_0000_0000

  /** Sums and differences wrap around at 2^64. */
  function Add64(a: U64, b: U64): U64 {
    if a + b < W64 then a + b else a + b - W64
  }

  function Sub64(a: U64, b: U64): U64 {
    if a >= b then a - b else a - b + W64
  }

  function Low32(x: int): U32 { x % 0x1_0000_0000 }

  function High32(x: U64): U32 { x / 0x1_0000_0000 }

  /** `(uint64_t) hi << 32 + lo` */
  function Combine(hi: U32, lo: U32): U64 { hi * 0x1_0000_0000 + lo }

  lemma CombineHalves(x: U64, hi: U32, lo: U32)
    ensures Combine(High32(x), Low32(x)) == x
    ensures High32(Combine(hi, lo)) == hi && Low32(Combine(hi, lo)) == lo
    ensures Low32(lo) == lo
    ensures x == 0x1_0000_0000 * High32(x) + Low32(x)
    ensures Combine(hi, lo) / 0x1_0000_0000 == hi && Combine(hi, lo) % 0x1_0000_0000 == lo
  {
  }

  /** The wrapped sums and differences are the ones modulo 2^64 and 2^32. */
  lemma WrapsModulo(a: U64, b: U64, c: U32, d: U32)
    ensures Add64(a, b) == (a + b) % 0x1_0000_0000_0000_0000
    ensures Sub64(a, b) == (a - b) % 0x1_0000_0000_0000_0000
    ensures Add32(c, d) == (c + d) % 0x1_0000_0000
  {
  }

  lemma AddPlain(a: U64, b: U64)
    requires a + b < W64
    ensures Add64(a, b) == a + b
  {
  }

  function Add32(a: U32, b: U32): U32 {
    if a + b < W32 then a + b else a + b - W32
  }

  function Not64(a: U64): U64 { 0xFFFF_FFFF_FFFF_FFFF - a }

  function And(x: nat, y: nat): (r: nat)
    ensures r <= x && r <= y
  {
    if x == 0 || y == 0 then 0 else (if x % 2 == 1 && y % 2 == 1 then 1 else 0) + 2 * And(x / 2, y / 2)
  }

  function Or(x: nat, y: nat): nat {
    if x == 0 && y == 0 then 0 else (if x % 2 == 1 || y % 2 == 1 then 1 else 0) + 2 * Or(x / 2, y / 2)
  }

  function Pow2(k: nat): (p: nat)
    ensures p >= 1
  {
    if k == 0 then 1 else 2 * Pow2(k - 1)
  }

  predicate IsPow2(n: nat) {
    n == 1 || (n > 1 && n % 2 == 0 && IsPow2(n / 2))
  }

  /** Bit `k` of a number. */
  function Bit(x: nat, k: nat): nat {
    if k == 0 then x % 2 else Bit(x / 2, k - 1)
  }

  lemma DigitAndRest(d: nat, rest: nat)
    requires d < 2
    ensures (d + 2 * rest) % 2 == d && (d + 2 * rest) / 2 == rest
  {
  }

  lemma LowestBits(x: nat, y: nat)
    ensures And(x, y) % 2 == (if x % 2 == 1 && y % 2 == 1 then 1 else 0) && And(x, y) / 2 == And(x / 2, y / 2)
    ensures Or(x, y) % 2 == (if x % 2 == 1 || y % 2 == 1 then 1 else 0) && Or(x, y) / 2 == Or(x / 2, y / 2)
  {
    AndHalve(x, y);
    OrHalve(x, y);
    hide And, Or;
    DigitAndRest(if x % 2 == 1 && y % 2 == 1 then 1 else 0, And(x / 2, y / 2));
    DigitAndRest(if x % 2 == 1 || y % 2 == 1 then 1 else 0, Or(x / 2, y / 2));
  }

  /** `And` and `Or` work on each bit by itself. */
  lemma {:induction false} AndOrBits(x: nat, y: nat, k: nat)
    ensures Bit(And(x, y), k) == if Bit(x, k) == 1 && Bit(y, k) == 1 then 1 else 0
    ensures Bit(Or(x, y), k) == if Bit(x, k) == 1 || Bit(y, k) == 1 then 1 else 0
    decreases k
  {
    LowestBits(x, y);
    hide And, Or;
    if k > 0 {
      AndOrBits(x / 2, y / 2, k - 1);
    }
  }

  /** Bit `k` is the binary digit of that weight. */
  lemma {:induction false} BitIsBinaryDigit(x: nat, k: nat)
    ensures Bit(x, k) == x / Pow2(k) % 2
    decreases k
  {
    if k > 0 {
      BitIsBinaryDigit(x / 2, k - 1);
      HalfOfQuotient(x, Pow2(k - 1));
    } else {
      DivModUnique(x, 1, x, 0);
    }
  }

  lemma HalfOfQuotient(x: nat, p: nat)
    requires p > 0
    ensures x / 2 / p == x / (2 * p)
  {
    var q, r := x / 2 / p, x / 2 % p;
    assert x / 2 == p * q + r;
    assert x == 2 * p * q + (2 * r + x % 2);
    DivModUnique(x, 2 * p, q, 2 * r + x % 2);
  }

  /** Halving and remainders by a power of two. */
  lemma ModTwice(x: nat, p: nat)
    requires p > 0
    ensures x % (2 * p) == x % 2 + 2 * (x / 2 % p)
  {
    var h := x / 2;
    assert h == p * (h / p) + h % p;
    assert x == 2 * p * (h / p) + (x % 2 + 2 * (h % p)) by {
      assert 2 * (p * (h / p)) == 2 * p * (h / p);
    }
    DivModUnique(x, 2 * p, h / p, x % 2 + 2 * (h % p));
  }

  lemma OrHalve(x: nat, y: nat)
    ensures Or(x, y) == (if x % 2 == 1 || y % 2 == 1 then 1 else 0) + 2 * Or(x / 2, y / 2)
  {
  }

  /** The definition of `And`, without its base case. */
  lemma AndHalve(x: nat, y: nat)
    ensures And(x, y) == (if x % 2 == 1 && y % 2 == 1 then 1 else 0) + 2 * And(x / 2, y / 2)
  {
  }

  lemma AndLowBit(x: nat, p: nat)
    requires p > 0
    ensures And(x, 2 * p - 1) == x % 2 + 2 * And(x / 2, p - 1)
  {
    AndHalve(x, 2 * p - 1);
    hide And;
    assert (2 * p - 1) / 2 == p - 1 && (2 * p - 1) % 2 == 1;
  }

  /** Masking with 2^k - 1 is the remainder by 2^k. */
  lemma {:induction false} AndLowMask(x: nat, k: nat)
    ensures And(x, Pow2(k) - 1) == x % Pow2(k)
    decreases k
  {
    hide And;
    if k == 0 {
      assert Pow2(0) == 1;
    } else {
      var p := Pow2(k - 1);
      assert Pow2(k) == 2 * p;
      hide Pow2;
      AndLowBit(x, p);
      AndLowMask(x / 2, k - 1);
      ModTwice(x, p);
    }
  }

  lemma AndEven(x: nat, half: nat)
    ensures And(x, 2 * half) == 2 * And(x / 2, half)
  {
    hide And;
    assert 2 * half / 2 == half && 2 * half % 2 == 0;
    AndHalve(x, 2 * half);
  }

  /** Masking with the complement of 2^k - 1 drops the remainder by 2^k. */
  lemma {:induction false} AndHighMask(x: nat, k: nat, n: nat, mask: nat)
    requires k <= n && x < Pow2(n) && mask == Pow2(n) - Pow2(k)
    ensures And(x, mask) == x - x % Pow2(k)
    decreases k
  {
    hide And;
    if k == 0 {
      AndLowMask(x, n);
      DivModUnique(x, Pow2(n), 0, x);
      assert Pow2(0) == 1;
    } else {
      var half := Pow2(n - 1) - Pow2(k - 1);
      Pow2Monotone(k - 1, n - 1);
      assert mask == 2 * half && x / 2 < Pow2(n - 1);
      AndHighMask(x / 2, k - 1, n - 1, half);
      AndEven(x, half);
      ModTwice(x, Pow2(k - 1));
    }
  }

  /** OR of a multiple of 2^k with something below 2^k is their sum. */
  lemma {:induction false} OrIsSum(hi: nat, lo: nat, k: nat)
    requires hi % Pow2(k) == 0 && lo < Pow2(k)
    ensures Or(hi, lo) == hi + lo
    decreases k
  {
    if k == 0 {
      OrZero(hi);
    } else {
      ModTwice(hi, Pow2(k - 1));
      OrIsSum(hi / 2, lo / 2, k - 1);
    }
  }

  lemma {:induction false} OrZero(x: nat)
    ensures Or(x, 0) == x
    decreases x
  {
    if x > 0 {
      OrZero(x / 2);
    }
  }

  lemma {:induction false} Pow2Monotone(a: nat, b: nat)
    requires a <= b
    ensures Pow2(a) <= Pow2(b)
    decreases b - a
  {
    if a < b {
      Pow2Monotone(a, b - 1);
    }
  }

  lemma {:induction false} Exponent(n: nat) returns (k: nat)
    requires IsPow2(n)
    ensures n == Pow2(k)
    decreases n
  {
    if n == 1 {
      k := 0;
    } else {
      k := Exponent(n / 2);
      k := k + 1;
    }
  }

  lemma {:induction false} PowerIsPow2(k: nat)
    ensures IsPow2(Pow2(k))
    decreases k
  {
    if k > 0 {
      PowerIsPow2(k - 1);
      assert 2 * Pow2(k - 1) / 2 == Pow2(k - 1);
    }
  }

  /** The smaller of two powers of two divides the larger. */
  lemma {:induction false} Pow2Divides(a: nat, b: nat)
    requires a <= b
    ensures Pow2(b) % Pow2(a) == 0
    decreases b - a
  {
    if a < b {
      Pow2Divides(a, b - 1);
      var q := Pow2(b - 1) / Pow2(a);
      assert Pow2(b) == Pow2(a) * (2 * q);
      DivModUnique(Pow2(b), Pow2(a), 2 * q, 0);
    } else {
      DivModUnique(Pow2(b), Pow2(a), 1, 0);
    }
  }

  lemma {:induction false} Pow2Add(a: nat, b: nat)
    ensures Pow2(a + b) == Pow2(a) * Pow2(b)
    decreases b
  {
    if b > 0 {
      Pow2Add(a, b - 1);
    }
  }

  lemma Pow2Twice(k: nat, p: nat)
    requires Pow2(k) == p
    ensures Pow2(2 * k) == p * p
  {
    Pow2Add(k, k);
  }

  lemma PowersOfWords()
    ensures Pow2(32) == W32 && Pow2(64) == W64
  {
    assert Pow2(8) == 256;
    hide Pow2;
    Pow2Twice(8, 256);
    Pow2Twice(16, 0x1_0000);
    Pow2Twice(32, W32);
  }

  lemma ExponentBelow(n: nat) returns (k: nat)
    requires IsPow2(n) && n < W64
    ensures n == Pow2(k) && k < 64
  {
    k := Exponent(n);
    PowersOfWords();
    if k >= 64 {
      Pow2Monotone(64, k);
    }
  }

  /** `x & (n - 1)` for a power of two. */
  lemma LowBits(x: nat, n: nat)
    requires IsPow2(n)
    ensures And(x, n - 1) == x % n
  {
    var k := Exponent(n);
    AndLowMask(x, k);
  }

  /** `x & ~(n - 1)` for a power of two, in 64 bits. */
  lemma HighBits(x: U64, n: nat)
    requires IsPow2(n) && n < W64
    ensures And(x, Not64(n - 1)) == x - x % n
  {
    var k := ExponentBelow(n);
    PowersOfWords();
    AndHighMask(x, k, 64, Not64(n - 1));
  }

  /** `hi | lo` for an aligned `hi` and a `lo` below the alignment. */
  lemma OrAligned(hi: nat, lo: nat, n: nat)
    requires IsPow2(n) && hi % n == 0 && lo < n
    ensures Or(hi, lo) == hi + lo
  {
    var k := Exponent(n);
    OrIsSum(hi, lo, k);
  }

  lemma LargerIsMultiple(n: nat, m: nat)
    requires IsPow2(n) && IsPow2(m) && n <= m
    ensures m % n == 0
  {
    var a := Exponent(n);
    var b := Exponent(m);
    if a > b {
      Pow2Monotone(b + 1, a);
    }
    Pow2Divides(a, b);
  }

  lemma ModOfMultiple(x: nat, n: nat, m: nat)
    requires n > 0 && m > 0 && m % n == 0
    ensures x % m % n == x % n
  {
    var q, r := x / m, x % m;
    assert m == n * (m / n);
    assert x == n * (m / n * q + r / n) + r % n by {
      assert m * q == n * (m / n * q);
      Distribute(n, m / n * q, r / n);
    }
    DivModUnique(x, n, m / n * q + r / n, r % n);
  }
}
