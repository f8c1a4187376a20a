/*
 * The two interchangeable GCF libraries: lib1 computes the greatest common
 * factor with Euclid's algorithm, lib2 by counting down from the smaller
 * argument. Both take C ints; abs() of the most negative int is undefined
 * in C, so that one value is excluded from both.
 */
module Gcf {

  const INT_MIN: int := -0x8000_0000
  const INT_MAX: int := 0x7fff_ffff

  /** An int whose abs() is defined. */
  predicate AbsDefined(x: int) {
    INT_MIN < x <= INT_MAX
  }

  function Abs(x: int): (r: nat)
    ensures r == x || r == -x
  {
    if x < 0 then -x else x
  }

  /** d is a positive common divisor of a and b. */
  predicate CommonDivisor(d: int, a: nat, b: nat) {
    d > 0 && a % d == 0 && b % d == 0
  }

  /** The recursive Euclid specification of the greatest common divisor. */
  function Gcd(a: nat, b: nat): nat
    decreases b
  {
    if b == 0 then a else Gcd(b, a % b)
  }

  /** What both libraries compute for GCF(A, B). */
  function GcfOf(A: int, B: int): nat {
    Gcd(Abs(A), Abs(B))
  }

  // ---------------------------------------------------------------------
  // Divisibility facts

  /** A common divisor of a and b (b > 0) also divides a % b. */
  lemma DividesRemainder(d: nat, a: nat, b: nat)
    requires CommonDivisor(d, a, b) && b > 0
    ensures (a % b) % d == 0
  {
    var x, y := a / d, b / d;
    assert a == d * x && b == d * y;
    var q := a / b;
    assert a % b == a - q * b;
    assert a % b == d * (x - q * y) by {
      assert q * b == q * (d * y) == d * (q * y);
    }
    MultipleMod(d, x - q * y);
  }

  /** A non-negative multiple of d leaves no remainder. */
  lemma MultipleMod(d: nat, z: int)
    requires d > 0 && d * z >= 0
    ensures (d * z) % d == 0
  {
    assert z >= 0;
    var n := d * z;
    assert n / d == z && n % d == 0 by {
      assert n == d * z + 0;
    }
  }

  /** A common divisor of b and a % b also divides a. */
  lemma DividesFromRemainder(d: nat, a: nat, b: nat)
    requires b > 0 && CommonDivisor(d, b, a % b)
    ensures a % d == 0
  {
    var y, z := b / d, (a % b) / d;
    assert b == d * y && a % b == d * z;
    var q := a / b;
    assert a == q * b + a % b;
    assert a == d * (q * y + z) by {
      assert q * b == q * (d * y) == d * (q * y);
    }
    MultipleMod(d, q * y + z);
  }

  /** A positive multiple of x is at least x. */
  lemma DivisorAtMost(x: nat, y: nat)
    requires x > 0 && y > 0 && y % x == 0
    ensures x <= y
  {
    var q := y / x;
    assert y == x * q;
    NonPositiveProduct(x, q);
    assert x * q == x + x * (q - 1);
  }

  lemma NonPositiveProduct(x: nat, q: int)
    ensures q <= 0 ==> x * q <= 0
  {
  }

  // ---------------------------------------------------------------------
  // What Gcd is

  /** Gcd(a, b) divides both arguments, and is 0 only when both are 0. */
  lemma {:induction false} GcdDivides(a: nat, b: nat)
    ensures Gcd(a, b) == 0 <==> a == 0 && b == 0
    ensures a != 0 || b != 0 ==> CommonDivisor(Gcd(a, b), a, b)
    decreases b
  {
    if b != 0 {
      GcdDivides(b, a % b);
      DividesFromRemainder(Gcd(a, b), a, b);
    }
  }

  /** Every common divisor of a and b divides Gcd(a, b). */
  lemma {:induction false} GcdGreatest(a: nat, b: nat, d: nat)
    requires CommonDivisor(d, a, b)
    ensures Gcd(a, b) % d == 0
    decreases b
  {
    if b != 0 {
      DividesRemainder(d, a, b);
      GcdGreatest(b, a % b, d);
    }
  }

  /** Gcd(a, b) is the largest common divisor when a or b is non-zero. */
  lemma GcdLargest(a: nat, b: nat, d: nat)
    requires a != 0 || b != 0
    requires CommonDivisor(d, a, b)
    ensures Gcd(a, b) >= d
  {
    GcdDivides(a, b);
    GcdGreatest(a, b, d);
    DivisorAtMost(d, Gcd(a, b));
  }

  /** A common divisor with no larger common divisor below a bound that
      Gcd respects is Gcd itself. */
  lemma LargestIsGcd(a: nat, b: nat, g: nat, bound: nat)
    requires a > 0 && b > 0 && g <= bound && (bound == a || bound == b)
    requires CommonDivisor(g, a, b)
    requires forall d :: g < d <= bound ==> !CommonDivisor(d, a, b)
    ensures g == Gcd(a, b)
  {
    GcdDivides(a, b);
    GcdLargest(a, b, g);
    DivisorAtMost(Gcd(a, b), bound);
  }

  /** Gcd(0, b) == b: Euclid's first step swaps the arguments. */
  lemma GcdZeroLeft(b: nat)
    ensures Gcd(0, b) == b
  {
    if b != 0 {
      assert 0 % b == 0;
    }
  }

  /** GCF(A, 0) == |A| and GCF(0, B) == |B|, and the result does not
      depend on the signs of the arguments. */
  lemma GcfEdges(A: int, B: int)
    ensures GcfOf(A, 0) == Abs(A) && GcfOf(0, B) == Abs(B)
    ensures GcfOf(-A, B) == GcfOf(A, B) == GcfOf(A, -B)
  {
    GcdZeroLeft(Abs(B));
  }

  /** GCF(A, B) == GCF(B, A). */
  lemma GcfCommutes(A: int, B: int)
    ensures GcfOf(A, B) == GcfOf(B, A)
  {
    var a, b := Abs(A), Abs(B);
    if a != 0 || b != 0 {
      GcdDivides(a, b);
      GcdDivides(b, a);
      GcdGreatest(b, a, Gcd(a, b));
      GcdGreatest(a, b, Gcd(b, a));
      DivisorAtMost(Gcd(a, b), Gcd(b, a));
      DivisorAtMost(Gcd(b, a), Gcd(a, b));
    }
  }

  /** The result is 0 only for GCF(0, 0); otherwise it divides |A| and |B|
      and every common divisor of them divides it. */
  lemma GcfIsGreatestCommonDivisor(A: int, B: int)
    ensures GcfOf(A, B) == 0 <==> A == 0 && B == 0
    ensures A != 0 || B != 0 ==> CommonDivisor(GcfOf(A, B), Abs(A), Abs(B))
    ensures forall d :: CommonDivisor(d, Abs(A), Abs(B)) ==> GcfOf(A, B) % d == 0
  {
    var a, b := Abs(A), Abs(B);
    GcdDivides(a, b);
    forall d | CommonDivisor(d, a, b)
      ensures Gcd(a, b) % d == 0
    {
      GcdGreatest(a, b, d);
    }
  }

  // ---------------------------------------------------------------------
  // The two implementations

  /** lib1 GCF: zero arguments short-circuit, then Euclid's loop. */
  method EuclidGcf(A: int, B: int) returns (g: int)
    requires AbsDefined(A) && AbsDefined(B)
    ensures g == GcfOf(A, B)
  {
    var a := Abs(A);
    var b := Abs(B);
    if a == 0 {
      GcdZeroLeft(b);
      return b;
    }
    if b == 0 {
      return a;
    }
    while b != 0
      invariant a >= 0 && b >= 0
      invariant Gcd(a, b) == GcfOf(A, B)
      decreases b
    {
      var temp := b;
      b := a % b;
      a := temp;
    }
    return a;
  }

  /** lib2 GCF: zero arguments short-circuit, then the candidates from
      min(|A|, |B|) down to 2 are tried; 1 when none divides both. For
      non-zero arguments the result is the largest common divisor not
      above min(|A|, |B|), and on every input it equals lib1's result. */
  method CountdownGcf(A: int, B: int) returns (g: int)
    requires AbsDefined(A) && AbsDefined(B)
    ensures A != 0 && B != 0 ==>
      1 <= g <= Abs(A) && g <= Abs(B) && CommonDivisor(g, Abs(A), Abs(B)) &&
      forall d :: g < d <= Abs(A) ==> !CommonDivisor(d, Abs(A), Abs(B))
    ensures g == GcfOf(A, B)
  {
    var a := Abs(A);
    var b := Abs(B);
    if a == 0 {
      GcdZeroLeft(b);
      return b;
    }
    if b == 0 {
      return a;
    }
    var bound := if a < b then a else b;
    var divisor := bound;
    while divisor > 1
      invariant 1 <= divisor <= bound
      invariant forall d :: divisor < d <= bound ==> !CommonDivisor(d, a, b)
    {
      if a % divisor == 0 && b % divisor == 0 {
        NoneAboveBound(a, b, divisor, bound);
        LargestIsGcd(a, b, divisor, bound);
        return divisor;
      }
      divisor := divisor - 1;
    }
    NoneAboveBound(a, b, 1, bound);
    LargestIsGcd(a, b, 1, bound);
    return 1;
  }

  /** No common divisor exceeds the smaller argument. */
  lemma NoneAboveBound(a: nat, b: nat, g: nat, bound: nat)
    requires a > 0 && b > 0 && bound == (if a < b then a else b)
    requires forall d :: g < d <= bound ==> !CommonDivisor(d, a, b)
    ensures forall d :: g < d <= a ==> !CommonDivisor(d, a, b)
  {
    forall d | g < d <= a && CommonDivisor(d, a, b)
      ensures false
    {
      DivisorAtMost(d, b);
    }
  }
}
