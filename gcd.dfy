/**
 * The Euclidean greatest common divisor of sim/prog3/main.c.
 *
 * `gcd_u32` returns `b` when `a` is zero and `a` when `b` is zero, and
 * otherwise repeats `a, b := b, a % b` until `b` is zero. The program reads
 * its two operands from the words `div1` and `div2` and stores the result in
 * the word `_test_start`. Every value is a C `uint32_t`; on the non-negative
 * operands that occur here C's `%` and Dafny's `%` agree.
 */
module Prog3Gcd {

  /** `uint32_t`. */
  type u32 = x: nat | x < 0x1_0000_0000

  /** `d` divides `n`: only 0 is a multiple of 0. */
  predicate Divides(d: nat, n: nat) {
    if d == 0 then n == 0 else n % d == 0
  }

  predicate IsCommonDivisor(d: nat, a: nat, b: nat) {
    Divides(d, a) && Divides(d, b)
  }

  /**
   * `g` is the greatest common divisor of `a` and `b` in the sense of the
   * divisibility order: a common divisor that every common divisor divides.
   */
  ghost predicate IsGcd(g: nat, a: nat, b: nat) {
    IsCommonDivisor(g, a, b) && forall d: nat :: IsCommonDivisor(d, a, b) ==> Divides(d, g)
  }

  function Max(a: nat, b: nat): nat {
    if a >= b then a else b
  }

  // ---------------------------------------------------------------------------
  // Arithmetic
  // ---------------------------------------------------------------------------

  lemma MulAtLeast(d: int, k: int)
    requires d > 0 && k >= 1
    ensures d * k >= d
  {
  }

  /** Division with remainder is unique: `x == d * q + r` with `0 <= r < d` fixes `x % d`. */
  lemma ModUnique(x: int, d: int, q: int, r: int)
    requires d > 0 && x == d * q + r && 0 <= r < d
    ensures x % d == r
  {
    var q', r' := x / d, x % d;
    assert d * (q - q') == r' - r;
    if q > q' {
      MulAtLeast(d, q - q');
    } else if q < q' {
      MulAtLeast(d, q' - q);
    }
  }

  /** A common divisor of `x` and `y` divides `x % y`. */
  lemma RemainderOfMultiples(x: nat, y: nat, d: nat)
    requires y > 0 && d > 0 && x % d == 0 && y % d == 0
    ensures (x % y) % d == 0
  {
    var p, q, k := x / d, y / d, x / y;
    assert x == d * p && y == d * q;
    assert x % y == x - k * y == d * (p - k * q);
    ModUnique(x % y, d, p - k * q, 0);
  }

  /** A common divisor of `y` and `x % y` divides `x`. */
  lemma SumOfMultiples(x: nat, y: nat, d: nat)
    requires y > 0 && d > 0 && y % d == 0 && (x % y) % d == 0
    ensures x % d == 0
  {
    var q, r, k := y / d, (x % y) / d, x / y;
    assert y == d * q && x % y == d * r;
    assert x == k * y + x % y == d * (k * q + r);
    ModUnique(x, d, k * q + r, 0);
  }

  /** A divisor of a positive number is at most that number. */
  lemma DivisorAtMost(d: nat, n: nat)
    requires n > 0 && Divides(d, n)
    ensures d <= n
  {
  }

  // ---------------------------------------------------------------------------
  // The Euclidean step
  // ---------------------------------------------------------------------------

  /** One step `a, b := b, a % b` keeps the set of common divisors when `b` is non-zero. */
  lemma StepKeepsDivisors(x: nat, y: nat, d: nat)
    requires y > 0
    ensures IsCommonDivisor(d, x, y) <==> IsCommonDivisor(d, y, x % y)
  {
    if d > 0 {
      if IsCommonDivisor(d, x, y) {
        RemainderOfMultiples(x, y, d);
      }
      if IsCommonDivisor(d, y, x % y) {
        SumOfMultiples(x, y, d);
      }
    }
  }

  /** `gcd(x, 0) == x`: the common divisors of `x` and 0 are the divisors of `x`. */
  lemma DivisorsWithZero(x: nat)
    ensures IsGcd(x, x, 0)
  {
    if x > 0 {
      assert x % x == 0;
    }
  }

  /** The divisibility order pins the greatest common divisor down: there is only one. */
  lemma GcdUnique(g1: nat, g2: nat, a: nat, b: nat)
    requires IsGcd(g1, a, b) && IsGcd(g2, a, b)
    ensures g1 == g2
  {
    assert Divides(g1, g2) && Divides(g2, g1);
    if g1 > 0 && g2 > 0 {
      DivisorAtMost(g1, g2);
      DivisorAtMost(g2, g1);
    }
  }

  /** A positive greatest common divisor is also the largest common divisor. */
  lemma GcdIsLargest(g: nat, a: nat, b: nat, d: nat)
    requires IsGcd(g, a, b) && g > 0 && IsCommonDivisor(d, a, b)
    ensures d <= g
  {
    DivisorAtMost(d, g);
  }

  // ---------------------------------------------------------------------------
  // The C functions
  // ---------------------------------------------------------------------------

  /**
   * `gcd_u32`: returns `b` for `a == 0`, `a` for `b == 0`, and otherwise the
   * last non-zero value of the sequence of remainders.
   */
  method GcdU32(a: u32, b: u32) returns (g: u32)
    ensures a == 0 ==> g == b
    ensures b == 0 ==> g == a
    ensures IsCommonDivisor(g, a, b)
    ensures forall d: nat :: IsCommonDivisor(d, a, b) ==> Divides(d, g)
    ensures g <= Max(a, b)
  {
    if a == 0 {
      DivisorsWithZero(b);
      assert forall d: nat :: IsCommonDivisor(d, 0, b) == IsCommonDivisor(d, b, 0);
      return b;
    }
    if b == 0 {
      DivisorsWithZero(a);
      return a;
    }
    var x: u32, y: u32 := a, b;
    while y != 0
      invariant forall d: nat :: IsCommonDivisor(d, x, y) <==> IsCommonDivisor(d, a, b)
      invariant x <= Max(a, b) && y <= Max(a, b)
      decreases y
    {
      var r: u32 := x % y;
      forall d: nat ensures IsCommonDivisor(d, x, y) <==> IsCommonDivisor(d, y, r) {
        StepKeepsDivisors(x, y, d);
      }
      x, y := y, r;
    }
    DivisorsWithZero(x);
    g := x;
  }

  /**
   * The program: read `div1` and `div2`, store their greatest common divisor
   * in the word `_test_start` (cell 0 of `testStart`), and nothing else.
   */
  method StoreGcd(div1: u32, div2: u32, testStart: array<u32>)
    requires testStart.Length >= 1
    modifies testStart
    ensures IsGcd(testStart[0], div1, div2)
    ensures testStart[1..] == old(testStart[1..])
  {
    var g := GcdU32(div1, div2);
    testStart[0] := g;
  }
}
