/** The fixed-size C++ PowerSumAccumulator<T_NARROW, T_WIDE, MODULUS, SIZE>
  * and the two free functions beside it, count_trailing_zeros and
  * evaluate_monic_polynomial.
  *
  * The std::array member becomes an array allocated once by the
  * constructor; the template parameters become constant fields. */
module FixedAccumulator {
  import opened ModArith
  import opened PowerSumMath
  import opened PowerSumMod
  import opened ModularInteger

  /** The template parameters: the modulus m, the size w of the narrow type's
    * range and SIZE. The narrow range stays below twice the modulus, so the
    * constructor ModularInteger(n) reduces every narrow value, and SIZE stays
    * below the modulus, so every i + 1 <= SIZE has an inverse. */
  predicate Params(m: int, w: int, size: int)
  {
    1 < m < w <= 2 * m && 0 < size < m
  }

  class PowerSumAccumulator {
    const m: int
    const w: int
    const size: nat
    const powerSums: array<ModInt>

    ghost predicate Valid()
      reads this, powerSums
    {
      Params(m, w, size) && powerSums.Length == size && AllValid(powerSums[..], m)
    }

    /** The power sums, as integers. */
    function Sums(): seq<int>
      reads this, powerSums
    {
      Values(powerSums[..])
    }

    /** The default constructor: SIZE power sums, all zero. */
    constructor(m: int, w: int, size: nat)
      requires Params(m, w, size)
      ensures Valid() && this.m == m && this.w == w && this.size == size
      ensures Sums() == Zeros(size)
      ensures fresh(powerSums)
    {
      this.m, this.w, this.size := m, w, size;
      var a := new ModInt[size];
      var i := 0;
      while i < size
        invariant 0 <= i <= size
        invariant forall k :: 0 <= k < i ==> a[k] == Zero()
      {
        a[i] := Zero();
        i := i + 1;
      }
      powerSums := a;
    }

    /** insert(value): adds value^(i+1) to power sum i, for every i < SIZE. */
    method Insert(value: int)
      requires Valid() && 0 <= value < w
      modifies powerSums
      ensures Valid()
      ensures Sums() == AddPowers(old(Sums()), value, m)
    {
      var x := FromNarrow(value, m);
      var y := x;
      assert Pow(value, 1) == value;
      var i := 0;
      while i < size - 1
        invariant 0 <= i <= size - 1
        invariant y.value == Pow(value, i + 1) % m
        invariant AllValid(powerSums[..], m)
        invariant forall k :: 0 <= k < i ==>
          powerSums[k].value == (old(powerSums[k]).value + Pow(value, k + 1)) % m
        invariant forall k :: i <= k < size ==> powerSums[k] == old(powerSums[k])
      {
        AddPowerMod(powerSums[i].value, y.value, value, i + 1, m);
        powerSums[i] := Add(powerSums[i], y, m);
        PowerStepMod(y.value, x.value, value, i + 1, m);
        y := Mul(y, x, m);
        i := i + 1;
      }
      AddPowerMod(powerSums[size - 1].value, y.value, value, size, m);
      powerSums[size - 1] := Add(powerSums[size - 1], y, m);
    }

    /** clear(): every power sum back to zero. */
    method Clear()
      requires Valid()
      modifies powerSums
      ensures Valid() && Sums() == Zeros(size)
    {
      var i := 0;
      while i < size
        invariant 0 <= i <= size
        invariant forall k :: 0 <= k < i ==> powerSums[k] == Zero()
        invariant forall k :: i <= k < size ==> ModularInteger.Valid(powerSums[k], m)
      {
        powerSums[i] := Zero();
        i := i + 1;
      }
    }

    /** operator-=: subtracts the other accumulator's sums element-wise. The
      * other accumulator may be this one. */
    method SubAssign(other: PowerSumAccumulator)
      requires Valid() && other.Valid() && other.m == m && other.size == size
      modifies powerSums
      ensures Valid()
      ensures Sums() == SubSums(old(Sums()), old(other.Sums()), m)
    {
      var i := 0;
      while i < size
        invariant 0 <= i <= size
        invariant AllValid(powerSums[..], m) && AllValid(other.powerSums[..], m)
        invariant forall k :: 0 <= k < i ==>
          powerSums[k].value == (old(powerSums[k]).value - old(other.powerSums[k]).value) % m
        invariant forall k :: i <= k < size ==>
          powerSums[k] == old(powerSums[k]) && other.powerSums[k] == old(other.powerSums[k])
      {
        powerSums[i] := Sub(powerSums[i], other.powerSums[i], m);
        i := i + 1;
      }
    }

    /** to_polynomial_coefficients(): Newton's identities on a fresh array of
      * zeros, inverting i + 1 by Fermat. */
    method ToPolynomialCoefficients() returns (coeffs: seq<ModInt>)
      requires Valid()
      ensures |coeffs| == size && AllValid(coeffs, m)
      ensures Values(coeffs) == NewtonCoeffs(Zeros(size), Sums(), FermatInverses(size, m), m)
    {
      coeffs := NewtonIdentities(powerSums[..], m);
    }
  }

  /** The body of to_polynomial_coefficients, over the power sums. */
  method NewtonIdentities(ps: seq<ModInt>, m: int) returns (coeffs: seq<ModInt>)
    requires 0 < |ps| < m && AllValid(ps, m)
    ensures |coeffs| == |ps| && AllValid(coeffs, m)
    ensures Values(coeffs) == NewtonCoeffs(Zeros(|ps|), Values(ps), FermatInverses(|ps|, m), m)
  {
    var size := |ps|;
    ghost var S := Values(ps);
    ghost var inv := FermatInverses(size, m);
    var c := new ModInt[size](_ => Zero());
    c[0] := Neg(ps[0], m);
    NewtonFirst(S, inv, m);
    NewtonRemaining(c, ps, m, S, inv);
    coeffs := c[..];
    assert Values(coeffs) == NewtonCoeffs(Zeros(size), S, inv, m);
    assert Residues(NewtonCoeffs(Zeros(size), S, inv, m), m);
  }

  /** The outer loop of to_polynomial_coefficients, from entry 1 on. */
  method NewtonRemaining(c: array<ModInt>, ps: seq<ModInt>, m: int,
                         ghost S: seq<int>, ghost inv: seq<int>)
    requires 1 < m && 0 < c.Length == |ps| < m
    requires AllValid(ps, m) && S == Values(ps)
    requires inv == FermatInverses(c.Length, m)
    requires [c[0].value] == NewtonCoeffs(Zeros(1), S, inv, m)
    requires forall k :: 1 <= k < c.Length ==> c[k] == Zero()
    modifies c
    ensures forall k :: 0 <= k < c.Length ==> c[k].value == NewtonCoeffs(Zeros(c.Length), S, inv, m)[k]
  {
    ghost var N := NewtonCoeffs(Zeros(c.Length), S, inv, m);
    NewtonZerosPrefix(S, inv, m, c.Length, 1);
    var i := 1;
    while i < c.Length
      invariant 1 <= i <= c.Length
      invariant forall k :: 0 <= k < i ==> c[k].value == N[k]
      invariant forall k :: i <= k < c.Length ==> c[k] == Zero()
    {
      NewtonEntry(c, ps, i, m, S, inv, N);
      i := i + 1;
    }
  }

  /** One pass of the outer loop of to_polynomial_coefficients: entry i
    * becomes (-(sum over j < i of power_sums[j] * coeffs[i - j - 1])
    * - power_sums[i]) * (i + 1).inv(). */
  method NewtonEntry(c: array<ModInt>, ps: seq<ModInt>, i: nat, m: int,
                     ghost S: seq<int>, ghost inv: seq<int>, ghost N: seq<int>)
    requires m > 1 && 1 <= i < c.Length && c.Length == |ps| < m
    requires AllValid(ps, m) && S == Values(ps)
    requires |inv| == c.Length && inv[i] == Inv(FromNarrow(i + 1, m), m).value
    requires N == NewtonCoeffs(Zeros(c.Length), S, inv, m)
    requires forall k :: 0 <= k < i ==> c[k].value == N[k]
    requires forall k :: i <= k < c.Length ==> c[k] == Zero()
    modifies c
    ensures forall k :: 0 <= k < c.Length && k != i ==> c[k] == old(c[k])
    ensures c[i].value == N[i]
  {
    ghost var prev := N[..i];
    assert Residues(prev, m);
    SubtractConvolution(c, ps, i, m, S, prev);
    ghost var acc := c[i].value;
    var a := Sub(c[i], ps[i], m);
    var b := Inv(FromNarrow(i + 1, m), m);
    c[i] := Mul(a, b, m);
    NewtonEntryAt(S, inv, m, c.Length, i, N, acc, a.value, b.value, c[i].value);
  }

  /** The inner loop of to_polynomial_coefficients: subtracts
    * power_sums[j] * coeffs[i - j - 1] from coeffs[i] for every j < i. */
  method SubtractConvolution(c: array<ModInt>, ps: seq<ModInt>, i: nat, m: int,
                             ghost S: seq<int>, ghost prev: seq<int>)
    requires m > 0 && i < c.Length && i < |ps|
    requires AllValid(ps, m) && S == Values(ps)
    requires |prev| == i && Residues(prev, m)
    requires forall k :: 0 <= k < i ==> c[k].value == prev[k]
    requires ModularInteger.Valid(c[i], m)
    modifies c
    ensures ModularInteger.Valid(c[i], m)
    ensures forall k :: 0 <= k < c.Length && k != i ==> c[k] == old(c[k])
    ensures c[i].value == (old(c[i].value) - Convolution(S, prev, i)) % m
  {
    ghost var init := c[i].value;
    ModSmall(init, m);
    var j := 0;
    while j < i
      invariant 0 <= j <= i
      invariant ModularInteger.Valid(c[i], m)
      invariant forall k :: 0 <= k < c.Length && k != i ==> c[k] == old(c[k])
      invariant c[i].value == (init - Convolution(S, prev, j)) % m
    {
      ConvolutionStepMod(init, c[i].value, S, prev, j, m, ps[j].value, c[i - j - 1].value);
      assert ModularInteger.Valid(c[i - j - 1], m) by {
        assert c[i - j - 1].value == prev[i - j - 1];
      }
      c[i] := Sub(c[i], Mul(ps[j], c[i - j - 1], m), m);
      j := j + 1;
    }
  }

  /** count_trailing_zeros(coeffs): the index runs down from SIZE - 1; when it
    * passes 0 the unsigned index wraps past SIZE, which ends the loop. An
    * empty vector starts from the wrapped index and has no trailing zeros. */
  method CountTrailingZeros(coeffs: seq<ModInt>) returns (r: int)
    ensures ZeroRun(Values(coeffs), r)
  {
    var size := |coeffs|;
    r := 0;
    var i := size - 1;
    while 0 <= i && coeffs[i].value == 0
      invariant -1 <= i < size && r == size - 1 - i
      invariant forall k :: i < k < size ==> coeffs[k].value == 0
    {
      r := r + 1;
      i := i - 1;
    }
  }

  /** evaluate_monic_polynomial(coeffs, x): Horner's rule, starting from x
    * for the leading coefficient 1. */
  method EvaluateMonicPolynomial(coeffs: seq<ModInt>, x: int, m: int, w: int) returns (r: ModInt)
    requires Params(m, w, |coeffs|) && AllValid(coeffs, m) && 0 <= x < w
    ensures ModularInteger.Valid(r, m)
    ensures r.value == MonicValue(Values(coeffs), x) % m
  {
    var size := |coeffs|;
    ghost var c := Values(coeffs);
    var xMod := FromNarrow(x, m);
    var result := xMod;
    assert MonicValue(c[..0], x) == 1;
    var i := 0;
    while i < size - 1
      invariant 0 <= i <= size - 1
      invariant ModularInteger.Valid(result, m)
      invariant result.value == (MonicValue(c[..i], x) * x) % m
    {
      ghost var v := MonicValue(c[..i], x);
      assert MonicValue(c[..i + 1], x) == v * x + c[i] by {
        assert c[..i + 1][..i] == c[..i];
      }
      HornerStepMod(result.value, c[i], v, x, xMod.value, m);
      result := Mul(Add(result, coeffs[i], m), xMod, m);
      i := i + 1;
    }
    assert c[..size] == c;
    assert MonicValue(c, x) == MonicValue(c[..size - 1], x) * x + c[size - 1];
    HornerLastMod(result.value, c[size - 1], MonicValue(c[..size - 1], x), x, m);
    r := Add(result, coeffs[size - 1], m);
  }

  /** One Horner step, modulo m: from the residue of v * x, adding c and
    * multiplying by x gives the residue of (v * x + c) * x. */
  lemma HornerStepMod(res: int, c: int, v: int, x: int, xm: int, m: int)
    requires m > 0 && res == (v * x) % m && xm == x % m
    ensures (((res + c) % m) * xm) % m == ((v * x + c) * x) % m
  {
    ModMod(v * x, m);
    CongAdd(res, c, v * x, c, m);
    ModMod(res + c, m);
    ModMod(x, m);
    CongMul((res + c) % m, xm, v * x + c, x, m);
  }

  /** The last Horner step adds the constant coefficient. */
  lemma HornerLastMod(res: int, c: int, v: int, x: int, m: int)
    requires m > 0 && res == (v * x) % m
    ensures (res + c) % m == (v * x + c) % m
  {
    ModMod(v * x, m);
    CongAdd(res, c, v * x, c, m);
  }

  /** The coefficients computed from the difference of two accumulators hold
    * every dropped packet as a root, when the modulus is prime and at most
    * SIZE packets were dropped. */
  lemma DroppedPacketsAreRoots(A: seq<int>, B: seq<int>, D: seq<int>, m: int, size: nat, x: int)
    requires IsPrime(m) && 0 < size < m
    requires multiset(A) == multiset(B) + multiset(D) && |D| <= size && x in D
    ensures
      var diff := SubSums(PowerSumsMod(A, size, m), PowerSumsMod(B, size, m), m);
      MonicValue(NewtonCoeffs(Zeros(size), diff, FermatInverses(size, m), m), x) % m == 0
  {
    var c := CoefficientsOfDifference(A, B, D, m, size);
    DecodeRoot(D, c, m, x);
  }

  /** The same coefficients are exactly those of the dropped multiset D. */
  lemma CoefficientsOfDifference(A: seq<int>, B: seq<int>, D: seq<int>, m: int, size: nat)
    returns (c: seq<int>)
    requires IsPrime(m) && 0 < size < m
    requires multiset(A) == multiset(B) + multiset(D)
    ensures c == NewtonCoeffs(Zeros(size), SubSums(PowerSumsMod(A, size, m), PowerSumsMod(B, size, m), m),
                              FermatInverses(size, m), m)
    ensures |c| == size && Residues(c, m) && CoeffsOf(c, D, m)
  {
    FermatInversesTable(size, m);
    c := CoefficientsOfDifferenceWith(A, B, D, m, size, FermatInverses(size, m));
  }

  /** The same, for any table of inverses of 1 .. size. */
  lemma CoefficientsOfDifferenceWith(A: seq<int>, B: seq<int>, D: seq<int>, m: int, size: nat, inv: seq<int>)
    returns (c: seq<int>)
    requires m > 1 && size <= |inv| && InverseTable(inv, m, size)
    requires multiset(A) == multiset(B) + multiset(D)
    ensures c == NewtonCoeffs(Zeros(size), SubSums(PowerSumsMod(A, size, m), PowerSumsMod(B, size, m), m), inv, m)
    ensures |c| == size && Residues(c, m) && CoeffsOf(c, D, m)
  {
    var diff := SubSums(PowerSumsMod(A, size, m), PowerSumsMod(B, size, m), m);
    assert SumsOf(diff, D, m, size) by {
      SubSumsDifference(A, B, D, size, size, m);
      ReducedSumsOf(D, size, m);
    }
    c := NewtonCoeffs(Zeros(size), diff, inv, m);
    NewtonCoeffsOfZeros(D, size, diff, inv, m);
  }

  /** SIZE minus the trailing zeros of those coefficients never exceeds the
    * number of dropped packets: the lower bound the sender checks its re-send
    * queue against. */
  lemma TrailingZerosBoundDropped(A: seq<int>, B: seq<int>, D: seq<int>, m: int, size: nat, r: int)
    requires IsPrime(m) && 0 < size < m
    requires multiset(A) == multiset(B) + multiset(D) && |D| <= size
    requires ZeroRun(NewtonCoeffs(Zeros(size), SubSums(PowerSumsMod(A, size, m), PowerSumsMod(B, size, m), m),
                                  FermatInverses(size, m), m), r)
    ensures size - r <= |D|
  {
    var c := CoefficientsOfDifference(A, B, D, m, size);
    CoeffsTrailingZeros(D, c, m, r);
  }
}
