/** The std::vector PowerSumAccumulator<T_NARROW, T_WIDE, MODULUS> and
  * modular_inverse_table.
  *
  * The number of power sums is chosen at construction; both vectors are
  * fields the methods reassign. The caller of to_polynomial_coefficients
  * supplies the coefficient buffer, and the loops add into it. */
module VectorAccumulator {
  import opened ModArith
  import opened PowerSumMath
  import opened PowerSumMod
  import opened ModularInteger
  import opened FixedAccumulator
  import opened FixedEvaluator
  import opened VectorEvaluator

  /** The modulus m and the size w of the narrow type's range, below twice the
    * modulus so that ModularInteger(n) reduces every narrow value. */
  predicate Moduli(m: int, w: int)
  {
    1 < m < w <= 2 * m
  }

  /** modular_inverse_table(size): entry i is ModularInteger(i + 1).inv(). */
  method ModularInverseTable(size: nat, m: int, w: int) returns (table: seq<ModInt>)
    requires Moduli(m, w) && size < m
    ensures AllValid(table, m) && Values(table) == FermatInverses(size, m)
  {
    table := [];
    var i := 0;
    while i < size
      invariant 0 <= i <= size && |table| == i
      invariant AllValid(table, m)
      invariant forall k :: 0 <= k < i ==> table[k].value == FermatInverses(size, m)[k]
    {
      table := table + [Inv(FromNarrow(i + 1, m), m)];
      i := i + 1;
    }
  }

  /** With a prime modulus, the table inverts every i + 1 it covers. */
  lemma InverseTableInverts(table: seq<ModInt>, m: int)
    requires IsPrime(m) && |table| < m && Values(table) == FermatInverses(|table|, m)
    ensures forall i :: 0 <= i < |table| ==> (table[i].value * (i + 1)) % m == 1
  {
    forall i | 0 <= i < |table|
      ensures (table[i].value * (i + 1)) % m == 1
    {
      var a := FromNarrow(i + 1, m);
      assert table[i].value == Inv(a, m).value == Values(table)[i];
      ModSmall(i + 1, m);
      InvIsInverse(a, m);
    }
  }

  class PowerSumAccumulator {
    const m: int
    const w: int
    var inverseTable: seq<ModInt>
    var powerSums: seq<ModInt>

    ghost predicate Valid()
      reads this
    {
      Moduli(m, w) && |powerSums| < m && |inverseTable| == |powerSums|
      && AllValid(powerSums, m) && AllValid(inverseTable, m)
      && Values(inverseTable) == FermatInverses(|powerSums|, m)
    }

    /** The power sums, as integers. */
    function Sums(): seq<int>
      reads this
    {
      Values(powerSums)
    }

    /** PowerSumAccumulator(size): the inverse table and size zero power sums. */
    constructor(size: nat, m: int, w: int)
      requires Moduli(m, w) && size < m
      ensures Valid() && this.m == m && this.w == w
      ensures |powerSums| == size && Sums() == Zeros(size)
    {
      this.m, this.w := m, w;
      var table := ModularInverseTable(size, m, w);
      var sums := [];
      var i := 0;
      while i < size
        invariant 0 <= i <= size && |sums| == i
        invariant forall k :: 0 <= k < i ==> sums[k] == Zero()
      {
        sums := sums + [Zero()];
        i := i + 1;
      }
      inverseTable, powerSums := table, sums;
    }

    /** insert(value): adds value^(i+1) to power sum i; at least one power sum
      * is needed, because the loop bound size - 1 is unsigned. */
    method Insert(value: int)
      requires Valid() && |powerSums| >= 1 && 0 <= value < w
      modifies this
      ensures Valid() && inverseTable == old(inverseTable)
      ensures Sums() == AddPowers(old(Sums()), value, m)
    {
      var size := |powerSums|;
      var x := FromNarrow(value, m);
      var y := x;
      assert Pow(value, 1) == value;
      var i := 0;
      while i < size - 1
        invariant 0 <= i <= size - 1 && |powerSums| == size
        invariant inverseTable == old(inverseTable)
        invariant y.value == Pow(value, i + 1) % m
        invariant AllValid(powerSums, m)
        invariant forall k :: 0 <= k < i ==>
          powerSums[k].value == (old(powerSums[k]).value + Pow(value, k + 1)) % m
        invariant forall k :: i <= k < size ==> powerSums[k] == old(powerSums[k])
      {
        AddPowerMod(powerSums[i].value, y.value, value, i + 1, m);
        powerSums := powerSums[i := Add(powerSums[i], y, m)];
        PowerStepMod(y.value, x.value, value, i + 1, m);
        y := Mul(y, x, m);
        i := i + 1;
      }
      AddPowerMod(powerSums[size - 1].value, y.value, value, size, m);
      powerSums := powerSums[size - 1 := Add(powerSums[size - 1], y, m)];
    }

    /** insert(power_tables, table_size, value): adds entry i of value's power
      * table to power sum i. With tables of at least size powers it has the
      * same effect as Insert. */
    method InsertFromTables(tables: seq<ModInt>, ts: nat, value: int)
      requires Valid() && FlatPowerTables(tables, ts, TABLE_COUNT, m) && |powerSums| <= ts
      requires 0 <= value < TABLE_COUNT
      modifies this
      ensures Valid() && inverseTable == old(inverseTable)
      ensures Sums() == AddPowers(old(Sums()), value, m)
    {
      var size := |powerSums|;
      var base := ts * value;
      var i := 0;
      while i < size
        invariant 0 <= i <= size && |powerSums| == size
        invariant inverseTable == old(inverseTable)
        invariant AllValid(powerSums, m)
        invariant forall k :: 0 <= k < i ==>
          powerSums[k].value == (old(powerSums[k]).value + Pow(value, k + 1)) % m
        invariant forall k :: i <= k < size ==> powerSums[k] == old(powerSums[k])
      {
        FlatEntry(tables, ts, TABLE_COUNT, m, value, i);
        AddPowerMod(powerSums[i].value, tables[base + i].value, value, i + 1, m);
        powerSums := powerSums[i := Add(powerSums[i], tables[base + i], m)];
        i := i + 1;
      }
    }

    /** clear(): every power sum back to zero. */
    method Clear()
      requires Valid()
      modifies this
      ensures Valid() && inverseTable == old(inverseTable)
      ensures Sums() == Zeros(|old(powerSums)|)
    {
      var size := |powerSums|;
      var i := 0;
      while i < size
        invariant 0 <= i <= size && |powerSums| == size
        invariant inverseTable == old(inverseTable)
        invariant forall k :: 0 <= k < i ==> powerSums[k] == Zero()
        invariant forall k :: i <= k < size ==> ModularInteger.Valid(powerSums[k], m)
      {
        powerSums := powerSums[i := Zero()];
        i := i + 1;
      }
    }

    /** operator-=: subtracts the other accumulator's sums element-wise, over
      * this accumulator's size. The other accumulator may be this one. */
    method SubAssign(other: PowerSumAccumulator)
      requires Valid() && other.Valid() && other.m == m && |other.powerSums| >= |powerSums|
      modifies this
      ensures Valid() && inverseTable == old(inverseTable)
      ensures Sums() == SubSums(old(Sums()), old(other.Sums()), m)
    {
      var size := |powerSums|;
      var i := 0;
      while i < size
        invariant 0 <= i <= size && |powerSums| == size
        invariant inverseTable == old(inverseTable)
        invariant other == this || other.powerSums == old(other.powerSums)
        invariant AllValid(powerSums, m) && AllValid(other.powerSums, m)
        invariant |other.powerSums| >= size
        invariant forall k :: 0 <= k < i ==>
          powerSums[k].value == (old(powerSums[k]).value - old(other.powerSums[k]).value) % m
        invariant forall k :: i <= k < size ==>
          powerSums[k] == old(powerSums[k]) && other.powerSums[k] == old(other.powerSums[k])
      {
        powerSums := powerSums[i := Sub(powerSums[i], other.powerSums[i], m)];
        i := i + 1;
      }
    }

    /** to_polynomial_coefficients(coeffs): Newton's identities into the
      * caller's buffer, with the stored inverse table. Entry 0 is overwritten;
      * every later entry starts from what the caller left in it, so only a
      * buffer of zeros yields the coefficients of the reconciled multiset. */
    method ToPolynomialCoefficients(coeffs: array<ModInt>)
      requires Valid() && 1 <= coeffs.Length <= |powerSums| && AllValid(coeffs[..], m)
      modifies coeffs
      ensures AllValid(coeffs[..], m)
      ensures Values(coeffs[..]) == NewtonCoeffs(old(Values(coeffs[..])), Sums(), Values(inverseTable), m)
    {
      NewtonInto(coeffs, powerSums, inverseTable, m);
    }
  }

  /** The loops of to_polynomial_coefficients over a caller's buffer of at
    * least one entry, with power sums ps and the inverse table inverses. */
  method NewtonInto(coeffs: array<ModInt>, ps: seq<ModInt>, inverses: seq<ModInt>, m: int)
    requires m > 1 && 1 <= coeffs.Length <= |ps| && coeffs.Length <= |inverses|
    requires AllValid(ps, m) && AllValid(inverses, m) && AllValid(coeffs[..], m)
    modifies coeffs
    ensures AllValid(coeffs[..], m)
    ensures Values(coeffs[..]) == NewtonCoeffs(old(Values(coeffs[..])), Values(ps), Values(inverses), m)
  {
    ghost var init := Values(coeffs[..]);
    ghost var S := Values(ps);
    ghost var inv := Values(inverses);
    ghost var N := NewtonCoeffs(init, S, inv, m);
    NewtonInitFirst(init, S, inv, m, N);
    coeffs[0] := Neg(ps[0], m);
    var i := 1;
    while i < coeffs.Length
      invariant 1 <= i <= coeffs.Length
      invariant forall k :: 0 <= k < i ==> coeffs[k].value == N[k]
      invariant forall k :: i <= k < coeffs.Length ==> coeffs[k] == old(coeffs[k])
    {
      NewtonEntryFrom(coeffs, ps, inverses[i], i, m, S, inv, init, N);
      i := i + 1;
    }
    assert Values(coeffs[..]) == N;
    assert Residues(N, m);
  }

  /** One pass of the outer loop of to_polynomial_coefficients, starting from
    * the caller's entry i. */
  method NewtonEntryFrom(c: array<ModInt>, ps: seq<ModInt>, invI: ModInt, i: nat, m: int,
                         ghost S: seq<int>, ghost inv: seq<int>, ghost init: seq<int>, ghost N: seq<int>)
    requires m > 1 && 1 <= i < c.Length <= |ps| && c.Length <= |inv|
    requires AllValid(ps, m) && S == Values(ps) && ModularInteger.Valid(invI, m) && inv[i] == invI.value
    requires |init| == c.Length && N == NewtonCoeffs(init, S, inv, m)
    requires forall k :: 0 <= k < i ==> c[k].value == N[k]
    requires ModularInteger.Valid(c[i], m) && c[i].value == init[i]
    modifies c
    ensures forall k :: 0 <= k < c.Length && k != i ==> c[k] == old(c[k])
    ensures c[i].value == N[i]
  {
    ghost var prev := N[..i];
    assert Residues(prev, m);
    SubtractConvolution(c, ps, i, m, S, prev);
    ghost var acc := c[i].value;
    var a := Sub(c[i], ps[i], m);
    c[i] := Mul(a, invI, m);
    NewtonInitEntry(init, S, inv, m, i, N, acc, a.value, c[i].value);
  }

  /** Entry 0 of the coefficients is -p[0], whatever the caller's entries. */
  lemma NewtonInitFirst(init: seq<int>, p: seq<int>, inv: seq<int>, m: int, N: seq<int>)
    requires m > 0 && 1 <= |init| <= |p| && |init| <= |inv| && N == NewtonCoeffs(init, p, inv, m)
    ensures N[0] == (-p[0]) % m
  {
    NewtonCoeffsPrefix(init, p, inv, m, 1);
    assert init[..1][..0] == [];
    assert N[0] == N[..1][0];
  }

  /** Entry i of the coefficients, computed from the caller's entry i and the
    * entries before it as the outer loop does. */
  lemma NewtonInitEntry(init: seq<int>, p: seq<int>, inv: seq<int>, m: int, i: nat, N: seq<int>,
                        acc: int, a: int, c: int)
    requires m > 0 && 1 <= i < |init| <= |p| && |init| <= |inv|
    requires N == NewtonCoeffs(init, p, inv, m)
    requires acc == (init[i] - Convolution(p, N[..i], i)) % m
    requires a == (acc - p[i]) % m && c == (a * inv[i]) % m
    ensures c == N[i]
  {
    NewtonInitLast(init, p, inv, m, i, N);
    ModMod(init[i] - Convolution(p, N[..i], i), m);
    NewtonFinishMod(init[i], acc, Convolution(p, N[..i], i), p[i], inv[i], m);
  }

  /** Entry i >= 1 of the coefficients, in terms of the entries before it. */
  lemma NewtonInitLast(init: seq<int>, p: seq<int>, inv: seq<int>, m: int, i: nat, N: seq<int>)
    requires m > 0 && 1 <= i < |init| <= |p| && |init| <= |inv|
    requires N == NewtonCoeffs(init, p, inv, m)
    ensures N[i] == ((init[i] - Convolution(p, N[..i], i) - p[i]) * inv[i]) % m
  {
    NewtonCoeffsPrefix(init, p, inv, m, i + 1);
    NewtonCoeffsPrefix(init, p, inv, m, i);
    assert init[..i + 1][..i] == init[..i];
    assert N[i] == N[..i + 1][i];
  }

  /** The decode in the test program: with a prime modulus, a zeroed buffer of
    * as many coefficients as packets were dropped, and the difference of the
    * sender's and receiver's sums, a value is a root exactly when it is
    * congruent to a dropped packet. */
  lemma DroppedPacketsDecode(A: seq<int>, B: seq<int>, D: seq<int>, m: int, size: nat, x: int)
    requires IsPrime(m) && size < m && |D| <= size
    requires multiset(A) == multiset(B) + multiset(D)
    ensures
      var diff := SubSums(PowerSumsMod(A, size, m), PowerSumsMod(B, size, m), m);
      var c := NewtonCoeffs(Zeros(|D|), diff, FermatInverses(size, m), m);
      MonicValue(c, x) % m == 0 <==> exists i :: 0 <= i < |D| && (x - D[i]) % m == 0
  {
    FermatInversesTable(size, m);
    DifferenceDecodes(A, B, D, m, size, FermatInverses(size, m), x);
  }
}
