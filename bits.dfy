/**
 * Bitwise operators on two's-complement integers of unbounded width, and the fact
 * that masking with `~(m - 1)` rounds down to a multiple of a power of two `m`.
 * On values that fit 32 bits these are exactly C++'s `&` and `~` on `int`.
 */
module Bits {

  const INT32_MIN: int := -0x8000_0000
  const INT32_MAX: int := 0x7fff_ffff

  predicate IsInt32(x: int) {
    INT32_MIN <= x <= INT32_MAX
  }

  predicate IsPowerOfTwo(m: int)
    decreases if m < 1 then 0 else m
  {
    m == 1 || (m >= 2 && m % 2 == 0 && IsPowerOfTwo(m / 2))
  }

  /** `~a`: flips every bit. */
  function BitNot(a: int): (r: int)
    ensures a >= 0 <==> r < 0
  {
    -a - 1
  }

  function Abs(a: int): nat {
    if a < 0 then -a else a
  }

  /**
   * `a & b`, bit by bit from the least significant one.  Floor division by 2 drops
   * the lowest bit of a negative number as an arithmetic shift does; 0 and -1 are
   * the all-zero and all-one bit strings.
   */
  function BitAnd(a: int, b: int): int
    decreases Abs(a) + Abs(b)
  {
    if a == 0 || b == 0 then 0
    else if a == -1 then b
    else if b == -1 then a
    else 2 * BitAnd(a / 2, b / 2) + (if a % 2 == 1 && b % 2 == 1 then 1 else 0)
  }

  /** A multiple of a positive number strictly between its negation and itself is zero. */
  lemma MulBetween(d: int, k: int)
    requires d > 0 && -d < d * k < d
    ensures k == 0
  {
  }

  /** Euclidean quotients are unique. */
  lemma DivUnique(x: int, d: int, q: int, r: int)
    requires d > 0 && x == d * q + r && 0 <= r < d
    ensures x / d == q && x % d == r
  {
    var k := q - x / d;
    assert d * k == x % d - r;
    MulBetween(d, k);
  }

  lemma DivDiv(x: int, h: int)
    requires h >= 1
    ensures (x / 2) / h == x / (2 * h)
  {
    var q := x / 2;
    var s := q / h;
    assert x == 2 * q + x % 2;
    assert q == h * s + q % h;
    assert x == (2 * h) * s + (2 * (q % h) + x % 2);
    DivUnique(x, 2 * h, s, 2 * (q % h) + x % 2);
  }

  /** Against an even mask, the lowest bit of the result is 0 and the rest is the AND of the halves. */
  lemma BitAndEvenMask(x: int, b: int)
    requires x != 0 && x != -1 && b != 0 && b % 2 == 0
    ensures BitAnd(x, b) == 2 * BitAnd(x / 2, b / 2)
  {
  }

  /** Masking with `~(m - 1)` clears the low bits: it rounds down to a multiple of `m`. */
  lemma {:induction false} MaskRoundsDown(x: int, m: int)
    requires IsPowerOfTwo(m)
    ensures BitAnd(x, BitNot(m - 1)) == m * (x / m)
    decreases if m < 1 then 0 else m
  {
    if m == 1 {
    } else if x == 0 {
    } else if x == -1 {
      DivUnique(-1, m, -1, m - 1);
    } else {
      MaskRoundsDown(x / 2, m / 2);
      MaskStep(x, m / 2);
    }
  }

  /** The inductive step of MaskRoundsDown: one more low bit, twice the cell. */
  lemma MaskStep(x: int, h: int)
    requires h >= 1 && x != 0 && x != -1
    requires BitAnd(x / 2, BitNot(h - 1)) == h * ((x / 2) / h)
    ensures BitAnd(x, BitNot(2 * h - 1)) == (2 * h) * (x / (2 * h))
  {
    MaskHalves(x, h);
    DoubleCell(x, h);
  }

  lemma MaskHalves(x: int, h: int)
    requires h >= 1 && x != 0 && x != -1
    ensures BitAnd(x, BitNot(2 * h - 1)) == 2 * BitAnd(x / 2, BitNot(h - 1))
  {
    var mask := -(2 * h);
    assert BitNot(2 * h - 1) == mask && BitNot(h - 1) == -h;
    DivUnique(mask, 2, -h, 0);
    BitAndEvenMask(x, mask);
  }

  lemma DoubleCell(x: int, h: int)
    requires h >= 1
    ensures 2 * (h * ((x / 2) / h)) == (2 * h) * (x / (2 * h))
  {
    DivDiv(x, h);
    var q := x / (2 * h);
    assert 2 * (h * q) == (2 * h) * q;
  }

  /** A power of two is at least 1. */
  lemma {:induction false} PowerOfTwoPositive(m: int)
    requires IsPowerOfTwo(m)
    ensures m >= 1
  {
  }

  /** Of two different powers of two, the smaller is at most half the larger. */
  lemma {:induction false} PowerOfTwoAtMostHalf(m: int, n: int)
    requires IsPowerOfTwo(m) && IsPowerOfTwo(n) && m < n
    ensures n % 2 == 0 && m <= n / 2
    decreases n
  {
    if m != 1 {
      PowerOfTwoAtMostHalf(m / 2, n / 2);
    }
  }

  /** A power of two divides every larger power of two. */
  lemma {:induction false} PowerOfTwoDivides(m: int, n: int)
    requires IsPowerOfTwo(m) && IsPowerOfTwo(n) && m <= n
    ensures n % m == 0
    decreases n
  {
    if m == n {
      DivUnique(n, m, 1, 0);
    } else {
      PowerOfTwoAtMostHalf(m, n);
      var half := n / 2;
      assert n == 2 * half;
      PowerOfTwoDivides(m, half);
      var k := half / m;
      assert half == m * k + half % m;
      assert half == m * k;
      assert n == m * (2 * k);
      DivUnique(n, m, 2 * k, 0);
    }
  }

  /** 2 to the power k. */
  function Pow2(k: nat): (r: int)
    ensures r >= 1
  {
    if k == 0 then 1 else 2 * Pow2(k - 1)
  }

  lemma {:induction false} Pow2IsPowerOfTwo(k: nat)
    ensures IsPowerOfTwo(Pow2(k))
  {
    if k > 0 {
      Pow2IsPowerOfTwo(k - 1);
      assert Pow2(k) / 2 == Pow2(k - 1);
    }
  }

  lemma {:induction false} Pow2Add(a: nat, b: nat)
    ensures Pow2(a + b) == Pow2(a) * Pow2(b)
    decreases b
  {
    if b > 0 {
      Pow2Add(a, b - 1);
      assert Pow2(a + b) == 2 * (Pow2(a) * Pow2(b - 1));
    }
  }

  /** 2^31, the size of each half of the 32-bit range, is a power of two. */
  lemma PowerOfTwo31()
    ensures IsPowerOfTwo(0x8000_0000)
  {
    assert Pow2(7) == 0x80;
    assert Pow2(8) == 0x100;
    Pow2Add(8, 8);
    Pow2Add(8, 7);
    Pow2Add(16, 15);
    assert Pow2(31) == 0x8000_0000;
    Pow2IsPowerOfTwo(31);
  }
}
