/** Natural-number models of the bit-level arithmetic the aligned allocator
    performs on `uintptr_t` values: powers of two, and bitwise AND. */
module Bits {

  function Pow2(k: nat): (r: nat)
    ensures r >= 1
  {
    if k == 0 then 1 else 2 * Pow2(k - 1)
  }

  lemma {:induction false} Pow2Monotone(j: nat, k: nat)
    requires j <= k
    ensures Pow2(j) <= Pow2(k)
    decreases k
  {
    if j < k {
      Pow2Monotone(j, k - 1);
    }
  }

  lemma Pow2StrictlyMonotone(j: nat, k: nat)
    requires j < k
    ensures Pow2(j) < Pow2(k)
  {
    Pow2Monotone(j, k - 1);
  }

  /** A power of two is 1, or an even number whose half is a power of two. */
  predicate IsPowerOfTwo(n: nat)
    decreases n
  {
    n == 1 || (n >= 2 && n % 2 == 0 && IsPowerOfTwo(n / 2))
  }

  /** The exponent of a power of two. */
  function Log2(n: nat): (k: nat)
    requires IsPowerOfTwo(n)
    ensures Pow2(k) == n
    decreases n
  {
    if n == 1 then 0 else 1 + Log2(n / 2)
  }

  /** Bitwise AND of two naturals, one bit at a time from the least
      significant end. */
  function BitAnd(a: nat, b: nat): nat
    decreases a
  {
    if a == 0 || b == 0 then 0
    else 2 * BitAnd(a / 2, b / 2) + (if a % 2 == 1 && b % 2 == 1 then 1 else 0)
  }

  lemma MulMonotone(d: nat, a: nat, b: nat)
    requires a <= b
    ensures d * a <= d * b
  {
    var t: nat := b - a;
    assert d * b == d * a + d * t;
  }

  /** Division with remainder is unique. */
  lemma DivModUnique(x: nat, d: nat, q: nat, m: nat)
    requires m < d && x == d * q + m
    ensures x / d == q && x % d == m
  {
    var q', m' := x / d, x % d;
    assert x == d * q' + m' && m' < d;
    if q' > q {
      MulMonotone(d, q + 1, q');
      assert false;
    } else if q' < q {
      MulMonotone(d, q' + 1, q);
      assert false;
    }
  }

  /** Adding the divisor adds one to the quotient. */
  lemma DivAddDivisor(m: nat, d: nat)
    requires d > 0
    ensures (m + d) / d == m / d + 1
  {
    var q, r := m / d, m % d;
    assert m == d * q + r;
    assert d * (q + 1) == d * q + d;
    DivModUnique(m + d, d, q + 1, r);
  }

  /** A power of two of at least 8 is a multiple of 8. */
  lemma PowerOfTwoMultipleOf8(p: nat)
    requires IsPowerOfTwo(p) && p >= 8
    ensures p % 8 == 0
  {
    assert IsPowerOfTwo(p / 2) && p / 2 >= 4;
    assert IsPowerOfTwo(p / 4) && p / 4 >= 2;
  }

  /** Divisibility is transitive. */
  lemma MultipleOfMultiple(a: nat, b: nat, c: nat)
    requires b > 0 && c > 0 && a % b == 0 && b % c == 0
    ensures a % c == 0
  {
    var i, j := a / b, b / c;
    assert a == b * i;
    assert b == c * j;
    assert a == c * (j * i);
    DivModUnique(a, c, j * i, 0);
  }

  /** Rounding down to a multiple of `p` by subtracting the remainder. */
  lemma RoundDown(x: nat, p: nat)
    requires p > 0
    ensures (x - x % p) % p == 0
    ensures x - p < x - x % p <= x
  {
    assert x - x % p == p * (x / p);
    DivModUnique(x - x % p, p, x / p, 0);
  }

  /** Splitting off the lowest bit of a remainder modulo an even number. */
  lemma ModDoubleSplit(x: nat, p: nat)
    requires p > 0
    ensures x % (2 * p) == 2 * ((x / 2) % p) + x % 2
  {
    var q := x / 2;
    var a, c := q / p, q % p;
    assert q == p * a + c;
    assert x == 2 * q + x % 2;
    assert 2 * (p * a) == (2 * p) * a;
    DivModUnique(x, 2 * p, a, 2 * c + x % 2);
  }

  /** Splitting off the lowest bit of a remainder modulo 2^k. */
  lemma ModPow2Split(x: nat, k: nat)
    requires k >= 1
    ensures x % Pow2(k) == 2 * ((x / 2) % Pow2(k - 1)) + x % 2
  {
    ModDoubleSplit(x, Pow2(k - 1));
  }

  /** ANDing with a mask of n low one-bits keeps an n-bit value unchanged. */
  lemma {:induction false} AndLowOnes(x: nat, n: nat)
    requires x < Pow2(n)
    ensures BitAnd(x, Pow2(n) - 1) == x
    decreases n
  {
    if x != 0 {
      assert n > 0;
      assert (Pow2(n) - 1) / 2 == Pow2(n - 1) - 1;
      assert (Pow2(n) - 1) % 2 == 1;
      AndLowOnes(x / 2, n - 1);
    }
  }

  /** One step of `AndClearsLowBits`: the lowest bit of the mask is clear, so
      the AND is twice the AND of the halves. */
  lemma AndClearsLowBitsStep(x: nat, n: nat, k: nat)
    requires 1 <= k < n && 0 < x < Pow2(n)
    requires Pow2(k - 1) <= Pow2(n - 1)
    requires BitAnd(x / 2, Pow2(n - 1) - Pow2(k - 1)) == x / 2 - (x / 2) % Pow2(k - 1)
    ensures Pow2(k) < Pow2(n)
    ensures BitAnd(x, Pow2(n) - Pow2(k)) == x - x % Pow2(k)
  {
    Pow2StrictlyMonotone(k, n);
    var mask := Pow2(n) - Pow2(k);
    var half, low := Pow2(n - 1) - Pow2(k - 1), Pow2(k - 1);
    assert mask == 2 * half;
    assert mask % 2 == 0 && mask / 2 == half;
    assert BitAnd(x, mask) == 2 * BitAnd(x / 2, half);
    ModPow2Split(x, k);
  }

  /** ANDing an n-bit value with the mask that has bits k..n-1 set (the
      n-bit complement of 2^k - 1) clears its k low bits, which rounds it
      down to a multiple of 2^k. */
  lemma {:induction false} AndClearsLowBits(x: nat, n: nat, k: nat)
    requires k <= n && x < Pow2(n)
    ensures Pow2(k) <= Pow2(n)
    ensures BitAnd(x, Pow2(n) - Pow2(k)) == x - x % Pow2(k)
    decreases k
  {
    Pow2Monotone(k, n);
    if k == 0 {
      assert Pow2(k) == 1;
      DivModUnique(x, 1, x, 0);
      AndLowOnes(x, n);
    } else if x == 0 {
      DivModUnique(0, Pow2(k), 0, 0);
    } else if k == n {
      assert Pow2(n) - Pow2(k) == 0;
      DivModUnique(x, Pow2(n), 0, x);
    } else {
      assert Pow2(n) == 2 * Pow2(n - 1);
      assert x / 2 < Pow2(n - 1);
      AndClearsLowBits(x / 2, n - 1, k - 1);
      AndClearsLowBitsStep(x, n, k);
    }
  }

  lemma {:induction false} Pow2Add(a: nat, b: nat)
    ensures Pow2(a + b) == Pow2(a) * Pow2(b)
    decreases b
  {
    if b > 0 {
      Pow2Add(a, b - 1);
      var p, q := Pow2(a), Pow2(b - 1);
      assert Pow2(a + b) == 2 * (p * q);
      assert p * (2 * q) == 2 * (p * q);
    }
  }

  /** 2^1, 2^2, 2^4, ..., 2^32 by repeated squaring. */
  lemma Pow2Doublings()
    ensures Pow2(1) == 2 && Pow2(2) == 4 && Pow2(4) == 16 && Pow2(8) == 256
    ensures Pow2(16) == 0x1_0000 && Pow2(32) == 0x1_0000_0000
  {
    assert Pow2(1) == 2 * Pow2(0);
    Pow2Add(1, 1);
    Pow2Add(2, 2);
    Pow2Add(4, 4);
    Pow2Add(8, 8);
    Pow2Add(16, 16);
  }

  /** Every power of two is some 2^k. */
  lemma {:induction false} Pow2IsPowerOfTwo(k: nat)
    ensures IsPowerOfTwo(Pow2(k))
  {
    if k > 0 {
      Pow2IsPowerOfTwo(k - 1);
      assert Pow2(k) / 2 == Pow2(k - 1);
    }
  }

  /** ANDing an n-bit value with the n-bit complement of `p - 1`, for a
      power of two `p` that fits in n bits, rounds it down to a multiple of
      `p`. */
  lemma MaskRoundsDown(x: nat, n: nat, p: nat)
    requires IsPowerOfTwo(p) && p <= Pow2(n) && x < Pow2(n)
    ensures BitAnd(x, Pow2(n) - p) == x - x % p
  {
    var k := Log2(p);
    if k > n {
      Pow2StrictlyMonotone(n, k);
      assert false;
    }
    AndClearsLowBits(x, n, k);
  }
}
