/** The power-sum accumulator of the accumulator crate: arithmetic modulo the
  * prime 4294967029 with u64 intermediates, modular division by a gcd
  * reduction and extended Euclid, power sums of a list, their difference,
  * and the polynomial coefficients obtained from Newton's identities. */
module LegacyPowerSum {
  import opened Common
  import opened ModArith
  import opened PowerSumMath
  import opened PowerSumMod

  /** The field modulus, prime and just below 2^32. */
  const LARGE_PRIME: int := 4294967029

  /** The 31-bit mask applied to element hashes. */
  const DJB_MASK: int := 0x7FFF_FFFF

  // ---------------------------------------------------------------------
  // Field arithmetic

  /** add_and_mod(a, b): the sum reduced modulo P in 64 bits and cast back to
    * u32; the cast loses nothing because the residue is below P. */
  function AddAndMod(a: U32, b: U32): (r: U32)
    ensures r < LARGE_PRIME && r == (a + b) % LARGE_PRIME
  {
    WrapU32((a + b) % LARGE_PRIME)
  }

  /** mul_and_mod(a, b): the product reduced modulo P in 64 bits and cast
    * back to u32, again without loss. */
  function MulAndMod(a: U32, b: U32): (r: U32)
    ensures r < LARGE_PRIME && r == (a * b) % LARGE_PRIME
  {
    WrapU32((a * b) % LARGE_PRIME)
  }

  /** The library's test vectors for mul_and_mod, without and with a
    * product beyond 2^32. */
  lemma MulAndModExamples()
    ensures MulAndMod(429496702, 4) == 1717986808
    ensures MulAndMod(429496702, 12) == 858993395
  {
  }

  // ---------------------------------------------------------------------
  // Modular division

  /** The gcd loop at the head of div_and_mod, started from the smaller
    * argument x: the remainder y - x * (y / x) becomes the new divisor until
    * it is 0. Every round divides by x, so x must be positive. */
  function GcdLoop(x: nat, y: nat): (g: nat)
    requires x > 0
    ensures g > 0
    decreases x
  {
    var rem := Rem(y, x);
    if rem == 0 then x else GcdLoop(rem, x)
  }

  /** y - x * (y / x) on non-negative i64 values: the remainder. */
  function Rem(y: nat, x: nat): (r: nat)
    requires x > 0
    ensures r < x && r == y % x
  {
    y - x * (y / x)
  }

  /** y / x on non-negative values, no larger than y. */
  function Quo(y: nat, x: nat): (q: nat)
    requires x > 0
    ensures q <= y && y == x * q + Rem(y, x)
  {
    DivBound(y, x);
    y / x
  }

  lemma DivBound(y: nat, x: nat)
    requires x > 0
    ensures 0 <= y / x <= y
  {
    var q, r := y / x, y % x;
    assert y == x * q + r && 0 <= r < x;
    MulBounds(x, q + 1);
    if q > 0 {
      MulBounds(q, x);
      assert q * x == x * q;
    }
  }

  /** The loop computes Euclid's greatest common divisor. */
  lemma {:induction false} GcdLoopIsGcd(x: nat, y: nat)
    requires x > 0
    ensures GcdLoop(x, y) == Gcd(y, x)
    decreases x
  {
    var rem := Rem(y, x);
    if rem != 0 {
      GcdLoopIsGcd(rem, x);
    }
  }

  /** The extended-Euclid loop of div_and_mod on (old_r, r) with Bezout
    * coefficients (old_x, x) and (old_y, y): it returns old_r, old_x and
    * old_y when r reaches 0. */
  function EuclidLoop(oldR: nat, r: nat, oldX: int, x: int, oldY: int, y: int): (res: (nat, int, int))
    decreases r
  {
    if r == 0 then (oldR, oldX, oldY)
    else
      var q := Quo(oldR, r);
      EuclidLoop(r, Rem(oldR, r), x, oldX - q * x, y, oldY - q * y)
  }

  /** When both pairs satisfy Bezout's identity for b and m, the loop ends
    * with the gcd and Bezout coefficients for it. */
  lemma {:induction false} EuclidLoopBezout(b: int, m: int, oldR: nat, r: nat, oldX: int, x: int, oldY: int, y: int)
    requires b * oldX + m * oldY == oldR && b * x + m * y == r
    ensures var res := EuclidLoop(oldR, r, oldX, x, oldY, y);
      res.0 == Gcd(oldR, r) && b * res.1 + m * res.2 == res.0
    decreases r
  {
    if r != 0 {
      var q := Quo(oldR, r);
      BezoutCombination(b, m, oldX, oldY, x, y, q, oldR, r);
      EuclidLoopBezout(b, m, r, Rem(oldR, r), x, oldX - q * x, y, oldY - q * y);
    }
  }

  /** Subtracting q times one Bezout pair from another keeps the identity. */
  lemma BezoutCombination(b: int, m: int, oldX: int, oldY: int, x: int, y: int, q: int, oldR: int, r: int)
    requires b * oldX + m * oldY == oldR && b * x + m * y == r
    ensures b * (oldX - q * x) + m * (oldY - q * y) == oldR - q * r
  {
    assert b * (oldX - q * x) == b * oldX - q * (b * x);
    assert m * (oldY - q * y) == m * oldY - q * (m * y);
  }

  /** The loop `while mmi < 0 { mmi += P }`. */
  function RaiseNonneg(v: int): (r: int)
    ensures r >= 0 && r % LARGE_PRIME == v % LARGE_PRIME
    decreases if v < 0 then -v else 0
  {
    if v < 0 then
      var r := RaiseNonneg(v + LARGE_PRIME);
      ModAddMultiple(1, v, LARGE_PRIME);
      r
    else v
  }

  /** The gcd the first loop of div_and_mod finds, started from the
    * smaller argument. */
  function GcdOf(a: nat, b: nat): (g: nat)
    requires a > 0 && b > 0
    ensures g > 0
  {
    if a < b then GcdLoop(a, b) else GcdLoop(b, a)
  }

  /** The value div_and_mod(a, b) computes: a and b divided by their gcd,
    * a reduced modulo P, then multiplied by the inverse of the reduced b
    * that extended Euclid on (b, P) finds. */
  function Quotient(a: U32, b: U32): (r: U32)
    requires a > 0 && b > 0
    ensures r < LARGE_PRIME
  {
    var g := GcdOf(a, b);
    var a1 := Quo(a, g) % LARGE_PRIME;
    var b1 := Quo(b, g);
    if b1 == 1 then a1
    else
      var mmi := RaiseNonneg(EuclidLoop(b1, LARGE_PRIME, 1, 0, 0, 1).1) % LARGE_PRIME;
      MulAndMod(a1, mmi)
  }

  /** div_and_mod(a, b). A zero argument makes the gcd loop divide by zero,
    * so both must be positive. */
  method DivAndMod(a: U32, b: U32) returns (r: U32)
    requires a > 0 && b > 0
    ensures r == Quotient(a, b)
  {
    var x: nat, y: nat;
    if a < b {
      x, y := a, b;
    } else {
      x, y := b, a;
    }
    ghost var g0 := GcdLoop(x, y);
    var rem := y - x * (y / x);
    while rem != 0
      invariant 0 < x && rem == y - x * (y / x) && GcdLoop(x, y) == g0
      decreases x
    {
      assert rem == y % x;
      y := x;
      x := rem;
      rem := y - x * (y / x);
    }
    var gcd := x;
    var a1 := a / gcd;
    var b1 := b / gcd;
    a1 := a1 % LARGE_PRIME;
    if b1 == 1 {
      return a1;
    }
    var oldR: nat, rr: nat := b1, LARGE_PRIME;
    var oldX, xx := 1, 0;
    var oldY, yy := 0, 1;
    while rr != 0
      invariant EuclidLoop(oldR, rr, oldX, xx, oldY, yy) == EuclidLoop(b1, LARGE_PRIME, 1, 0, 0, 1)
      decreases rr
    {
      var quotient := oldR / rr;
      assert oldR - quotient * rr == oldR % rr;
      oldR, rr := rr, oldR - quotient * rr;
      oldX, xx := xx, oldX - quotient * xx;
      oldY, yy := yy, oldY - quotient * yy;
    }
    var mmi := oldX;
    while mmi < 0
      invariant RaiseNonneg(mmi) == RaiseNonneg(oldX)
      decreases -mmi
    {
      mmi := mmi + LARGE_PRIME;
    }
    mmi := mmi % LARGE_PRIME;
    r := MulAndMod(a1, mmi);
  }

  /** Division is exact: whenever b is coprime to P (every b in 1..P-1,
    * since P is prime), the quotient times b is a modulo P. */
  lemma QuotientTimesDivisor(a: U32, b: U32)
    requires a > 0 && b > 0 && Gcd(b, LARGE_PRIME) == 1
    ensures (Quotient(a, b) * b) % LARGE_PRIME == a % LARGE_PRIME
  {
    if Quo(b, GcdOf(a, b)) == 1 {
      QuotientExact(a, b);
    } else {
      QuotientByInverse(a, b);
    }
  }

  /** The gcd of a and b divides both exactly. */
  lemma GcdOfDivides(a: nat, b: nat)
    requires a > 0 && b > 0
    ensures var g := GcdOf(a, b);
      a == g * Quo(a, g) && b == g * Quo(b, g) && Quo(b, g) > 0
  {
    var g := GcdOf(a, b);
    if a < b {
      GcdLoopIsGcd(a, b);
      GcdDivides(b, a);
    } else {
      GcdLoopIsGcd(b, a);
      GcdDivides(a, b);
    }
    DivideOut(a, g);
    DivideOut(b, g);
  }

  /** When the gcd is b itself, the quotient is a / b reduced. */
  lemma QuotientExact(a: U32, b: U32)
    requires a > 0 && b > 0 && Quo(b, GcdOf(a, b)) == 1
    ensures (Quotient(a, b) * b) % LARGE_PRIME == a % LARGE_PRIME
  {
    var g := GcdOf(a, b);
    GcdOfDivides(a, b);
    ScaleResidue(Quo(a, g), g, a, LARGE_PRIME);
  }

  /** Otherwise the quotient multiplies by the inverse of b / g. */
  lemma QuotientByInverse(a: U32, b: U32)
    requires a > 0 && b > 0 && Quo(b, GcdOf(a, b)) != 1 && Gcd(b, LARGE_PRIME) == 1
    ensures (Quotient(a, b) * b) % LARGE_PRIME == a % LARGE_PRIME
  {
    var g := GcdOf(a, b);
    var a0, b1 := Quo(a, g), Quo(b, g);
    GcdOfDivides(a, b);
    CoprimeQuotient(b, g, b1, LARGE_PRIME);
    InverseBranch(a0, g, b1);
  }

  /** The branch of div_and_mod that multiplies by the inverse of the
    * reduced divisor b1, which is coprime to P. */
  lemma InverseBranch(a0: nat, g: nat, b1: nat)
    requires Gcd(b1, LARGE_PRIME) == 1
    ensures var mmi := RaiseNonneg(EuclidLoop(b1, LARGE_PRIME, 1, 0, 0, 1).1) % LARGE_PRIME;
      (((a0 % LARGE_PRIME) * mmi) % LARGE_PRIME * (g * b1)) % LARGE_PRIME == (g * a0) % LARGE_PRIME
  {
    EuclidLoopBezout(b1, LARGE_PRIME, b1, LARGE_PRIME, 1, 0, 0, 1);
    var res := EuclidLoop(b1, LARGE_PRIME, 1, 0, 0, 1);
    var mmi := RaiseNonneg(res.1) % LARGE_PRIME;
    ModMod(res.1, LARGE_PRIME);
    InverseFromBezout(b1, res.1, res.2, mmi);
    var a1 := a0 % LARGE_PRIME;
    DivisionStep(a0, g, b1, a1, mmi, (a1 * mmi) % LARGE_PRIME);
  }

  /** A Bezout pair for b1 and P with gcd 1 gives an inverse of b1; so does
    * any residue congruent to its first coefficient. */
  lemma InverseFromBezout(b1: int, s: int, t: int, mmi: int)
    requires b1 * s + LARGE_PRIME * t == 1 && mmi % LARGE_PRIME == s % LARGE_PRIME
    ensures (b1 * mmi) % LARGE_PRIME == 1
  {
    assert b1 * s == LARGE_PRIME * (-t) + 1;
    ModAddMultiple(-t, 1, LARGE_PRIME);
    CongMul(b1, mmi, b1, s, LARGE_PRIME);
  }

  /** The ring step of division: with a == g * a0, b == g * b1 and mmi the
    * inverse of b1, q == a0 * mmi gives q * b == a modulo P. */
  lemma DivisionStep(a0: int, g: int, b1: int, a1: int, mmi: int, q: int)
    requires a1 == a0 % LARGE_PRIME && (b1 * mmi) % LARGE_PRIME == 1
    requires q == (a1 * mmi) % LARGE_PRIME
    ensures (q * (g * b1)) % LARGE_PRIME == (g * a0) % LARGE_PRIME
  {
    var m := LARGE_PRIME;
    ModMod(a0, m);
    ModMod(a1 * mmi, m);
    CongMul(q, g * b1, a1 * mmi, g * b1, m);
    assert (a1 * mmi) * (g * b1) == (a1 * g) * (b1 * mmi);
    ModSmall(1, m);
    CongMul(a1 * g, b1 * mmi, a1 * g, 1, m);
    CongMul(a1, g, a0, g, m);
    assert a0 * g == g * a0;
  }

  /** A factor of a number coprime to m is coprime to m. */
  lemma CoprimeQuotient(b: nat, g: nat, b1: nat, m: nat)
    requires b == g * b1 && b1 > 0 && Gcd(b, m) == 1
    ensures Gcd(b1, m) == 1
  {
    ExtGcdBezout(b, m);
    var s, t := ExtGcd(b, m).1, ExtGcd(b, m).2;
    GcdDivides(b1, m);
    var d := Gcd(b1, m);
    DividesMultiple(b1, g, d);
    assert b == b1 * g;
    DividesMultiple(m, t, d);
    DividesMultiple(b, s, d);
    DividesCombination(1, b * s, 1, m * t, d);
    if d > 1 {
      ModSmall(1, d);
    }
  }

  /** A multiple of a multiple of d is a multiple of d. */
  lemma DividesMultiple(x: int, c: int, d: int)
    requires d > 0 && x % d == 0
    ensures (x * c) % d == 0
  {
    var k := x / d;
    assert x == d * k;
    assert x * c == d * (k * c);
    MultipleMod(k * c, d);
  }

  /** Scaling the residue of a0 by g gives the residue of g * a0. */
  lemma ScaleResidue(a0: int, g: int, a: int, m: int)
    requires m > 0 && a == g * a0
    ensures ((a0 % m) * g) % m == a % m
  {
    ModMod(a0, m);
    CongMul(a0 % m, g, a0, g, m);
    assert a0 * g == a;
  }

  /** Dividing out an exact divisor. */
  lemma DivideOut(y: nat, g: nat)
    requires g > 0 && y % g == 0
    ensures y == g * Quo(y, g) && (y > 0 ==> Quo(y, g) > 0)
  {
  }

  // ---------------------------------------------------------------------
  // Power sums of a list and their difference

  /** calculate_power_sums(elems, n), read sequentially: every element adds
    * its powers 1..n, built by repeated mul_and_mod, to the running sums.
    * The threads of the source each sum a slice and the partial sums are
    * added modulo P, which gives the same residues. */
  method CalculatePowerSums(elems: seq<U32>, numPsums: nat) returns (r: seq<U32>)
    ensures r == PowerSumsMod(elems, numPsums, LARGE_PRIME)
  {
    r := seq(numPsums, _ => 0);
    assert r == PowerSumsMod([], numPsums, LARGE_PRIME);
    var i := 0;
    while i < |elems|
      invariant 0 <= i <= |elems|
      invariant r == PowerSumsMod(elems[..i], numPsums, LARGE_PRIME)
    {
      var x := elems[i];
      r := AddElementPowers(r, x);
      AddPowersSums(elems[..i], x, numPsums, LARGE_PRIME);
      assert elems[..i + 1] == elems[..i] + [x];
      i := i + 1;
    }
    assert elems[..i] == elems;
  }

  /** The loop shared by calculate_power_sums and process: value runs
    * through x^1, x^2, ... by mul_and_mod and entry j gains x^(j+1). */
  method AddElementPowers(sums: seq<U32>, x: U32) returns (r: seq<U32>)
    ensures r == AddPowers(sums, x, LARGE_PRIME)
  {
    r := sums;
    var value: U32 := 1;
    var j := 0;
    assert Pow(x, 0) == 1;
    while j < |r|
      invariant 0 <= j <= |r| == |sums|
      invariant value == Pow(x, j) % LARGE_PRIME
      invariant forall k :: 0 <= k < j ==> r[k] == AddPowers(sums, x, LARGE_PRIME)[k]
      invariant forall k :: j <= k < |sums| ==> r[k] == sums[k]
    {
      PowerStepMod(value, x % LARGE_PRIME, x, j, LARGE_PRIME);
      ModMod(x, LARGE_PRIME);
      CongMul(value, x % LARGE_PRIME, value, x, LARGE_PRIME);
      value := MulAndMod(value, x);
      AddPowerMod(r[j], value, x, j + 1, LARGE_PRIME);
      r := r[j := AddAndMod(r[j], value)];
      j := j + 1;
    }
  }

  /** The library's test vectors for calculate_power_sums. */
  lemma PowerSumsExamples()
    ensures PowerSumsMod([2, 3, 5], 3, LARGE_PRIME) == [10, 38, 160]
  {
    assert Pow(2, 3) == 8 && Pow(3, 3) == 27 && Pow(5, 3) == 125;
  }

  /** The library's test vector for calculate_power_sums whose powers
    * exceed the prime. */
  lemma PowerSumsLargeExample()
    ensures PowerSumsMod([294967295], 3, LARGE_PRIME) == [294967295, 2507781770, 2201765005]
  {
    var X := [294967295];
    assert Pow(294967295, 2) == 87005705119617025;
    assert Pow(294967295, 3) == 25663837488701085300197375;
    assert PowerSum(X, 2) == 87005705119617025 by { assert X[1..] == []; }
    assert PowerSum(X, 3) == 25663837488701085300197375 by { assert X[1..] == []; }
    assert PowerSum(X, 1) == 294967295 by { assert X[1..] == []; }
  }

  /** calculate_difference(lhs, rhs): over the common prefix, lhs[i] plus
    * P - rhs[i], reduced. The u32 subtraction P - rhs[i] underflows, and
    * panics, when rhs[i] exceeds P. */
  function CalculateDifference(lhs: seq<U32>, rhs: seq<U32>): (d: seq<U32>)
    requires forall i :: 0 <= i < |lhs| && i < |rhs| ==> rhs[i] <= LARGE_PRIME
    ensures d == SubSums(lhs, rhs, LARGE_PRIME)
  {
    var n := if |lhs| <= |rhs| then |lhs| else |rhs|;
    seq(n, i requires 0 <= i < n => DifferenceEntry(lhs[i], rhs[i]))
  }

  /** One entry of the difference: adding P - b is subtracting b. */
  function DifferenceEntry(a: U32, b: U32): (r: U32)
    requires b <= LARGE_PRIME
    ensures r == (a - b) % LARGE_PRIME
  {
    ModAddMultiple(1, a - b, LARGE_PRIME);
    AddAndMod(a, LARGE_PRIME - b)
  }

  /** The library's test vectors for calculate_difference. */
  lemma DifferenceExamples()
    ensures CalculateDifference([2, 3, 4], [1, 2, 3]) == [1, 1, 1]
    ensures CalculateDifference([2, 3, 4], [1, 2, 3, 4]) == [1, 1, 1]
    ensures CalculateDifference([1], [2]) == [4294967028]
  {
  }

  /** The difference between the power sums of a list and of the elements
    * processed from it is the power sums of the missing elements. */
  lemma DifferenceOfLists(A: seq<U32>, B: seq<U32>, D: seq<U32>, n: nat)
    requires multiset(A) == multiset(B) + multiset(D)
    ensures CalculateDifference(PowerSumsMod(A, n, LARGE_PRIME), PowerSumsMod(B, n, LARGE_PRIME))
         == PowerSumsMod(D, n, LARGE_PRIME)
  {
    SubSumsDifference(A, B, D, n, n, LARGE_PRIME);
  }

  // ---------------------------------------------------------------------
  // Newton's identities: compute_polynomial_coefficients

  /** (-1)^j, the sign the inner loop gives term j. */
  function Sign(j: nat): int
  {
    if j % 2 == 0 then 1 else -1
  }

  /** The inner loop's sum after j terms while computing e[i + 1]:
    * alternately adding and subtracting mul_and_mod(e[i - l], p[l]). */
  function SignedSum(e: seq<U32>, p: seq<U32>, i: nat, j: nat): int
    requires j <= i + 1 && i < |e| && j <= |p|
  {
    if j == 0 then 0
    else SignedSum(e, p, i, j - 1) + Sign(j - 1) * MulAndMod(e[i - (j - 1)], p[j - 1])
  }

  /** The residue the source hands to div_and_mod for e[i + 1]: the signed
    * sum raised above zero by adding P, then reduced. */
  function SumResidue(e: seq<U32>, p: seq<U32>, i: nat): (a: U32)
    requires i < |e| && i < |p|
    ensures a < LARGE_PRIME
  {
    RaiseNonneg(SignedSum(e, p, i, i + 1)) % LARGE_PRIME
  }

  /** e[i + 1] as the source computes it: div_and_mod(residue, i + 1), which
    * needs a nonzero residue. */
  function NextEAsWritten(e: seq<U32>, p: seq<U32>, i: nat): (r: U32)
    requires i < |e| && i < |p| && i + 1 <= U32_MAX
    requires SumResidue(e, p, i) > 0
    ensures r < LARGE_PRIME
  {
    Quotient(SumResidue(e, p, i), i + 1)
  }

  /** e[i + 1] with a zero residue mapped to the zero quotient: the residue
    * is (i + 1) e[i + 1] modulo P, so e[i + 1] is then 0. */
  function NextE(e: seq<U32>, p: seq<U32>, i: nat): (r: U32)
    requires i < |e| && i < |p| && i + 1 <= U32_MAX
    ensures r < LARGE_PRIME
  {
    var a := SumResidue(e, p, i);
    if a == 0 then 0 else Quotient(a, i + 1)
  }

  /** The vector e after n rounds of the outer loop: e[0] = 1, then one
    * NextE per round. */
  function LegacyEs(p: seq<U32>, n: nat): (e: seq<U32>)
    requires n <= |p| && n <= U32_MAX
    ensures |e| == n + 1 && e[0] == 1
    ensures forall k :: 0 <= k <= n ==> e[k] < LARGE_PRIME
    decreases n
  {
    if n == 0 then [1]
    else
      var e := LegacyEs(p, n - 1);
      e + [NextE(e, p, n - 1)]
  }

  /** Entry k of the coefficients: e[k], negated modulo P at odd k. */
  function Signed(ek: U32, k: nat): U32
    requires ek < LARGE_PRIME
  {
    if k % 2 == 1 then (LARGE_PRIME - ek) % LARGE_PRIME else ek
  }

  /** The coefficients compute_polynomial_coefficients(p) returns, led by 1. */
  function LegacyCoeffs(p: seq<U32>): (c: seq<U32>)
    requires |p| <= U32_MAX
    ensures |c| == (if |p| == 0 then 0 else |p| + 1)
    ensures |p| > 0 ==> c[0] == 1
    ensures forall k :: 0 <= k < |c| ==> c[k] < LARGE_PRIME
  {
    if |p| == 0 then []
    else
      var e := LegacyEs(p, |p|);
      seq(|p| + 1, k requires 0 <= k <= |p| => Signed(e[k], k))
  }

  /** One round of the outer loop of compute_polynomial_coefficients: the
    * signed sum, raised above zero, reduced and divided by i + 1. */
  method NextEntry(e: seq<U32>, p: seq<U32>, i: nat) returns (next: U32)
    requires i < |e| && i < |p| && i + 1 <= U32_MAX
    ensures next == NextE(e, p, i)
  {
    var sum := 0;
    var j := 0;
    while j < i + 1
      invariant 0 <= j <= i + 1 && sum == SignedSum(e, p, i, j)
    {
      if j % 2 == 0 {
        sum := sum + MulAndMod(e[i - j], p[j]);
      } else {
        sum := sum - MulAndMod(e[i - j], p[j]);
      }
      j := j + 1;
    }
    ghost var total := sum;
    while sum < 0
      invariant RaiseNonneg(sum) == RaiseNonneg(total)
      decreases -sum
    {
      sum := sum + LARGE_PRIME;
    }
    var a := sum % LARGE_PRIME;
    if a == 0 {
      next := 0;
    } else {
      next := DivAndMod(a, i + 1);
    }
  }

  /** The last loop of compute_polynomial_coefficients: entries at odd
    * indices become P minus themselves, reduced. */
  method NegateOdd(es: seq<U32>) returns (e: seq<U32>)
    requires forall l :: 0 <= l < |es| ==> es[l] < LARGE_PRIME
    ensures |e| == |es| && forall l :: 0 <= l < |es| ==> e[l] == Signed(es[l], l)
  {
    e := es;
    var k := 0;
    while k < |e|
      invariant 0 <= k <= |e| == |es|
      invariant forall l :: 0 <= l < k ==> e[l] == Signed(es[l], l)
      invariant forall l :: k <= l < |es| ==> e[l] == es[l]
    {
      if k % 2 == 1 {
        e := e[k := (LARGE_PRIME - e[k]) % LARGE_PRIME];
      }
      k := k + 1;
    }
  }

  /** compute_polynomial_coefficients(p), with a zero residue giving a zero
    * entry instead of the division by zero of the source. Indices are u32,
    * so p has at most 2^32 - 1 entries. */
  method ComputePolynomialCoefficients(p: seq<U32>) returns (r: seq<U32>)
    requires |p| <= U32_MAX
    ensures r == LegacyCoeffs(p)
  {
    var n := |p|;
    if n == 0 {
      return [];
    }
    var e: seq<U32> := [1];
    var i := 0;
    while i < n
      invariant 0 <= i <= n && e == LegacyEs(p, i)
    {
      var next := NextEntry(e, p, i);
      e := e + [next];
      i := i + 1;
    }
    r := NegateOdd(e);
  }

  // ---------------------------------------------------------------------
  // What the coefficients mean

  /** Sign(j) Sign(i - j) == Sign(i). */
  lemma SignProduct(i: nat, j: nat)
    requires j <= i
    ensures Sign(j) * Sign(i - j) == Sign(i)
  {
  }

  /** One term of the signed sum, modulo P: with e[l] congruent to
    * Sign(l) Elementary(X, l) and p[j] to the power sum, Sign(j) times the
    * reduced product is Sign(i) Elementary(X, l) PowerSum(X, j + 1). */
  lemma TermCong(sj: int, sl: int, si: int, el: int, pj: int, E: int, S: int)
    requires sj * sl == si
    requires el % LARGE_PRIME == (sl * E) % LARGE_PRIME && pj % LARGE_PRIME == S % LARGE_PRIME
    ensures (sj * ((el * pj) % LARGE_PRIME)) % LARGE_PRIME == (si * (E * S)) % LARGE_PRIME
  {
    var m := LARGE_PRIME;
    ModMod(el * pj, m);
    CongMul(el, pj, sl * E, S, m);
    CongMul(sj, (el * pj) % m, sj, (sl * E) * S, m);
    assert sj * ((sl * E) * S) == si * (E * S);
  }

  /** The signed sum after j terms is Sign(i) times the Newton sum of X for
    * index i + 1 over its first j terms, modulo P. */
  lemma {:induction false} SignedSumCong(X: seq<int>, e: seq<U32>, p: seq<U32>, i: nat, j: nat)
    requires j <= i + 1 && i < |e| && j <= |p| && SumsOf(p, X, LARGE_PRIME, j)
    requires forall l :: 0 <= l <= i ==> e[l] % LARGE_PRIME == (Sign(l) * Elementary(X, l)) % LARGE_PRIME
    ensures SignedSum(e, p, i, j) % LARGE_PRIME == (Sign(i) * NewtonSum(X, i + 1, j)) % LARGE_PRIME
    decreases j
  {
    if j > 0 {
      var l := j - 1;
      SignedSumCong(X, e, p, i, l);
      SignProduct(i, l);
      var E, S := Elementary(X, i - l), PowerSum(X, j);
      TermCong(Sign(l), Sign(i - l), Sign(i), e[i - l], p[l], E, S);
      CongAdd(SignedSum(e, p, i, l), Sign(l) * MulAndMod(e[i - l], p[l]),
              Sign(i) * NewtonSum(X, i + 1, l), Sign(i) * (E * S), LARGE_PRIME);
      assert Sign(i) * NewtonSum(X, i + 1, j) == Sign(i) * NewtonSum(X, i + 1, l) + Sign(i) * (E * S);
    }
  }

  /** A factor coprime to m cancels from a congruence. */
  lemma CancelFactor(k: nat, q: int, t: int, m: int)
    requires m > 1 && Gcd(k, m) == 1 && (q * k) % m == (k * t) % m
    ensures q % m == t % m
  {
    var u, v := q * k, k * t;
    ModSub(u, v, m);
    ModSmall(0, m);
    assert k * (q - t) == u - v;
    CoprimeCancel(k, q - t, m);
    ModSub(q, t, m);
    ResidueZero(q % m - t % m, m);
  }

  /** The only value strictly between -m and m that m divides is 0. */
  lemma ResidueZero(d: int, m: int)
    requires m > 0 && -m < d < m && d % m == 0
    ensures d == 0
  {
    if d > 0 {
      ModSmall(d, m);
    } else if d < 0 {
      ModAddMultiple(1, d, m);
      ModSmall(m + d, m);
    }
  }

  /** Sign(i) times the Newton sum for k = i + 1 is k times Sign(k) E. */
  lemma SignNewton(si: int, sk: int, k: int, E: int, N: int)
    requires sk == -si && N == -k * E
    ensures si * N == k * (sk * E)
  {
  }

  /** The residue handed to div_and_mod for entry k = i + 1 is k times
    * Sign(k) Elementary(X, k), modulo P. */
  lemma SumResidueCong(X: seq<int>, e: seq<U32>, p: seq<U32>, i: nat)
    requires i < |e| && i < |p| && SumsOf(p, X, LARGE_PRIME, i + 1)
    requires forall l :: 0 <= l <= i ==> e[l] % LARGE_PRIME == (Sign(l) * Elementary(X, l)) % LARGE_PRIME
    ensures SumResidue(e, p, i) % LARGE_PRIME
         == ((i + 1) * (Sign(i + 1) * Elementary(X, i + 1))) % LARGE_PRIME
  {
    var k := i + 1;
    var S, ns, E, r := SignedSum(e, p, i, k), NewtonSum(X, k, k), Elementary(X, k), SumResidue(e, p, i);
    assert S % LARGE_PRIME == (Sign(i) * ns) % LARGE_PRIME by {
      SignedSumCong(X, e, p, i, k);
    }
    assert ns == -k * E by {
      Newton(X, k);
    }
    assert r % LARGE_PRIME == S % LARGE_PRIME by {
      ModMod(RaiseNonneg(S), LARGE_PRIME);
    }
    ResidueStep(S, r, ns, Sign(i), Sign(k), k, E);
  }

  /** The ring step of SumResidueCong, on plain integers. */
  lemma ResidueStep(s: int, r: int, ns: int, si: int, sk: int, k: int, E: int)
    requires s % LARGE_PRIME == (si * ns) % LARGE_PRIME && r % LARGE_PRIME == s % LARGE_PRIME
    requires ns == -k * E && sk == -si
    ensures r % LARGE_PRIME == (k * (sk * E)) % LARGE_PRIME
  {
    SignNewton(si, sk, k, E, ns);
  }

  /** div_and_mod solves k q == a modulo the prime P: a residue congruent to
    * k t gives t reduced. */
  lemma QuotientSolves(a: U32, k: U32, t: int)
    requires IsPrime(LARGE_PRIME) && 0 < a < LARGE_PRIME && 0 < k < LARGE_PRIME
    requires a % LARGE_PRIME == (k * t) % LARGE_PRIME
    ensures Quotient(a, k) == t % LARGE_PRIME
  {
    var m := LARGE_PRIME;
    var q := Quotient(a, k);
    PrimeCoprime(k, m);
    QuotientTimesDivisor(a, k);
    CancelFactor(k, q, t, m);
    ModSmall(q, m);
  }

  /** Each new entry is Sign(i + 1) Elementary(X, i + 1) reduced, when the
    * earlier ones are right and P is prime. */
  lemma NextECorrect(X: seq<int>, e: seq<U32>, p: seq<U32>, i: nat)
    requires IsPrime(LARGE_PRIME) && i < |e| && i < |p| && i + 1 < LARGE_PRIME
    requires SumsOf(p, X, LARGE_PRIME, i + 1)
    requires forall l :: 0 <= l <= i ==> e[l] % LARGE_PRIME == (Sign(l) * Elementary(X, l)) % LARGE_PRIME
    ensures NextE(e, p, i) == (Sign(i + 1) * Elementary(X, i + 1)) % LARGE_PRIME
  {
    var k := i + 1;
    var T := Sign(k) * Elementary(X, k);
    var a := SumResidue(e, p, i);
    SumResidueCong(X, e, p, i);
    if a == 0 {
      ModSmall(0, LARGE_PRIME);
      PrimeCoprime(k, LARGE_PRIME);
      CoprimeCancel(k, T, LARGE_PRIME);
    } else {
      ModSmall(a, LARGE_PRIME);
      QuotientSolves(a, k, T);
    }
  }

  /** Every entry of e is Sign(k) Elementary(X, k) reduced, when p holds the
    * power sums of X modulo the prime P. */
  lemma {:induction false} LegacyEsCorrect(X: seq<int>, p: seq<U32>, n: nat)
    requires IsPrime(LARGE_PRIME) && n <= |p| && n < LARGE_PRIME && SumsOf(p, X, LARGE_PRIME, n)
    ensures forall k :: 0 <= k <= n ==> LegacyEs(p, n)[k] == (Sign(k) * Elementary(X, k)) % LARGE_PRIME
    decreases n
  {
    if n == 0 {
      ModSmall(1, LARGE_PRIME);
    } else {
      var e := LegacyEs(p, n - 1);
      LegacyEsCorrect(X, p, n - 1);
      forall l | 0 <= l <= n - 1
        ensures e[l] % LARGE_PRIME == (Sign(l) * Elementary(X, l)) % LARGE_PRIME
      {
        ModMod(Sign(l) * Elementary(X, l), LARGE_PRIME);
      }
      NextECorrect(X, e, p, n - 1);
    }
  }

  /** Negating the residue of -E modulo m gives the residue of E. */
  lemma NegateResidue(E: int, m: int)
    requires m > 0
    ensures (m - (-E) % m) % m == E % m
  {
    var r := (-E) % m;
    ModAddMultiple(1, -r, m);
    ModMod(-E, m);
    CongSub(0, r, 0, -E, m);
  }

  /** compute_polynomial_coefficients is Newton's identities: entry k is the
    * signed elementary symmetric polynomial Elementary(X, k) modulo P, the
    * coefficient of x^(n-k) in the product of (x - a) over X. */
  lemma LegacyCoeffsCorrect(X: seq<int>, p: seq<U32>)
    requires IsPrime(LARGE_PRIME) && 0 < |p| < LARGE_PRIME && SumsOf(p, X, LARGE_PRIME, |p|)
    ensures forall k :: 0 <= k <= |p| ==> LegacyCoeffs(p)[k] == Elementary(X, k) % LARGE_PRIME
  {
    var e := LegacyEs(p, |p|);
    LegacyEsCorrect(X, p, |p|);
    forall k | 0 <= k <= |p|
      ensures LegacyCoeffs(p)[k] == Elementary(X, k) % LARGE_PRIME
    {
      if k % 2 == 1 {
        NegateResidue(Elementary(X, k), LARGE_PRIME);
      }
    }
  }

  /** The polynomial the coefficients describe, as handed to the root finder
    * (leading 1 included), vanishes modulo P exactly at the elements of X,
    * when X has as many elements as there are power sums. */
  lemma LegacyRoots(X: seq<int>, p: seq<U32>, x: int)
    requires IsPrime(LARGE_PRIME) && 0 < |p| < LARGE_PRIME && |X| == |p| && SumsOf(p, X, LARGE_PRIME, |p|)
    ensures MonicValue(LegacyCoeffs(p)[1..], x) % LARGE_PRIME == 0
        <==> exists i :: 0 <= i < |X| && (x - X[i]) % LARGE_PRIME == 0
  {
    var c := LegacyCoeffs(p)[1..];
    LegacyCoeffsCorrect(X, p);
    forall i | 0 <= i < |c|
      ensures c[i] % LARGE_PRIME == Elementary(X, i + 1) % LARGE_PRIME
    {
      ModMod(Elementary(X, i + 1), LARGE_PRIME);
    }
    DecodeExact(X, c, LARGE_PRIME, x);
  }

  /** The division by zero of the source: two missing 31-bit elements that
    * add up to P leave a first power sum of 0, so the first round hands a
    * zero residue to div_and_mod, whose gcd loop then divides by zero. */
  lemma MissingPairDividesByZero()
    ensures PowerSumsMod([2147483647, 2147483382], 2, LARGE_PRIME) == [0, 2147518627]
    ensures SumResidue([1], [0, 2147518627], 0) == 0
  {
  }
}
