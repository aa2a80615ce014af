/**
 * Java `int` arithmetic needed by the cache: the 32-bit range, powers of two,
 * and bitwise AND written out on the binary representation of naturals.
 */
module Bits {

  /** `Integer.MIN_VALUE` and `Integer.MAX_VALUE`. */
  const IntMin: int := -0x8000_0000
  const IntMax: int := 0x7FFF_FFFF

  /** Number of distinct 32-bit patterns. */
  const Two32: int := 0x1_0000_0000

  /** A Java `int`. */
  type Int32 = x: int | IntMin <= x <= IntMax

  /** n is 2^k for some k >= 0. */
  predicate IsPowerOfTwo(n: int)
    decreases if n < 0 then 0 else n
  {
    n == 1 || (n >= 2 && n % 2 == 0 && IsPowerOfTwo(n / 2))
  }

  /** 2^k. */
  function Pow2(k: nat): (r: int)
    ensures r >= 1
  {
    if k == 0 then 1 else 2 * Pow2(k - 1)
  }

  /** Every 2^k passes the power-of-two test. */
  lemma {:induction false} Pow2IsPowerOfTwo(k: nat)
    ensures IsPowerOfTwo(Pow2(k))
  {
    if k > 0 {
      Pow2IsPowerOfTwo(k - 1);
    }
  }

  /**
   * Bitwise AND of the binary representations of a and b, bit by bit from
   * the least significant one.
   */
  function And(a: nat, b: nat): (r: nat)
    ensures r <= a && r <= b
    decreases a
  {
    if a == 0 || b == 0 then 0
    else 2 * And(a / 2, b / 2) + (if a % 2 == 1 && b % 2 == 1 then 1 else 0)
  }

  /** The 32-bit pattern of a Java `int`, read as an unsigned number (two's complement). */
  function Unsigned(x: Int32): (u: nat)
    ensures u < Two32
    ensures x >= 0 ==> u == x
    ensures x < 0 ==> u == x + Two32
  {
    x % Two32
  }

  /** Java `x & m` for a non-negative mask m: bit 31 of the result is clear, so it is the unsigned AND. */
  function AndInt(x: Int32, m: Int32): (r: Int32)
    requires m >= 0
    ensures 0 <= r <= m
  {
    And(Unsigned(x), m)
  }

  /** Two distinct powers of two are at least a factor of two apart. */
  lemma {:induction false} PowersApart(p: int, q: int)
    requires IsPowerOfTwo(p) && IsPowerOfTwo(q) && p < q
    ensures 2 * p <= q
    decreases p
  {
    if p != 1 {
      PowersApart(p / 2, q / 2);
    }
  }

  /** A power of two divides every larger power of two. */
  lemma {:induction false} PowerDividesPower(p: int, q: int)
    requires IsPowerOfTwo(p) && IsPowerOfTwo(q) && p <= q
    ensures q % p == 0
    decreases p
  {
    if p != 1 {
      PowerDividesPower(p / 2, q / 2);
      var k := (q / 2) / (p / 2);
      DivModUnique(q / 2, p / 2, k, 0);
      Twice(k, p / 2);
      DivModUnique(q, p, k, 0);
    }
  }

  /** Testing the single bit p of x: `p & x` is zero exactly when that bit of x is clear. */
  lemma {:induction false} AndSingleBit(p: int, x: nat)
    requires IsPowerOfTwo(p)
    ensures And(p, x) == 0 <==> (x / p) % 2 == 0
    decreases p
  {
    if p != 1 && x != 0 {
      AndSingleBit(p / 2, x / 2);
      DivHalves(x, p);
    }
  }

  /** Dividing by an even number halves both sides first. */
  lemma DivHalves(x: nat, p: int)
    requires p >= 2 && p % 2 == 0
    ensures x / p == (x / 2) / (p / 2)
  {
    var h := p / 2;
    var q := (x / 2) / h;
    var s := (x / 2) % h;
    Twice(q, h);
    assert x == q * p + (2 * s + x % 2);
    DivModUnique(x, p, q, 2 * s + x % 2);
  }

  /** Quotient and remainder are determined by any decomposition with a remainder in range. */
  lemma DivModUnique(x: int, p: int, q: int, s: int)
    requires p > 0 && 0 <= s < p && x == q * p + s
    ensures x / p == q && x % p == s
  {
    var q' := x / p;
    if q' < q {
      MulDiff(q, q', p);
    } else if q' > q {
      MulDiff(q', q, p);
    }
  }

  /** A positive multiple of p is at least p away from a smaller one. */
  lemma MulDiff(a: int, b: int, p: int)
    requires a > b && p > 0
    ensures a * p - b * p >= p
  {
    MulDistributes(a, b, p);
    MulAtLeast(a - b, p);
  }

  /** Multiplication distributes over subtraction. */
  lemma MulDistributes(a: int, b: int, p: int)
    ensures (a - b) * p == a * p - b * p
  {
  }

  /** A positive multiple of p is at least p. */
  lemma MulAtLeast(d: int, p: int)
    requires d >= 1 && p >= 1
    ensures d * p >= p
  {
  }

  /** Doubling one factor doubles the product. */
  lemma Twice(k: int, h: int)
    ensures 2 * (k * h) == k * (2 * h)
  {
  }

  /** Masking with p - 1 keeps the low bits of x, which is x modulo the power of two p. */
  lemma {:induction false} AndLowMask(x: nat, p: int)
    requires IsPowerOfTwo(p)
    ensures And(x, p - 1) == x % p
    decreases p
  {
    if p != 1 && x != 0 {
      var h := p / 2;
      var s := (x / 2) % h;
      assert And(x, p - 1) == 2 * s + x % 2 by {
        AndLowMask(x / 2, h);
        AndOddMask(x, p - 1);
      }
      assert x % p == 2 * s + x % 2 by {
        SplitByHalves(x, p);
        DivModUnique(x, p, (x / 2) / h, 2 * s + x % 2);
      }
    }
  }

  /** With an odd mask, bit 0 of x survives and the remaining bits are masked by m / 2. */
  lemma AndOddMask(x: nat, m: nat)
    requires m % 2 == 1
    ensures And(x, m) == 2 * And(x / 2, m / 2) + x % 2
  {
  }

  /** x split at an even divisor p through its halves: quotient, doubled remainder, low bit. */
  lemma SplitByHalves(x: nat, p: int)
    requires p >= 2 && p % 2 == 0
    ensures x == ((x / 2) / (p / 2)) * p + (2 * ((x / 2) % (p / 2)) + x % 2)
  {
    var h := p / 2;
    var q := (x / 2) / h;
    Twice(q, h);
  }

  /** An even mask clears bit 0, so the AND is even. */
  lemma AndEvenMask(x: nat, m: nat)
    requires m % 2 == 0
    ensures And(x, m) % 2 == 0
  {
  }

  /** Reducing modulo a multiple of p first does not change the remainder modulo p. */
  lemma ModOfMod(x: int, m: int, p: int)
    requires p > 0 && m > 0 && m % p == 0
    ensures (x % m) % p == x % p
  {
    var k := m / p;
    var a := x / m;
    var b := x % m;
    var c := b / p;
    var d := b % p;
    assert m == k * p;
    assert a * m == (a * k) * p;
    assert x == (a * k + c) * p + d by {
      assert x == a * m + b;
      assert b == c * p + d;
      assert (a * k) * p + c * p == (a * k + c) * p;
    }
    DivModUnique(x, p, a * k + c, d);
  }
}
