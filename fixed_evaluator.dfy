/** The fixed-size MonicPolynomialEvaluator header: power_table,
  * power_tables_16 and the evaluator specialised for 16-bit values, which
  * reads powers of x from a precomputed table and sums in 64 bits.
  *
  * The std::array results become sequences; SIZE is the parameter size. */
module FixedEvaluator {
  import opened Common
  import opened ModArith
  import opened PowerSumMath
  import opened PowerSumMod
  import opened ModularInteger
  import opened FixedAccumulator

  /** The number of values of a 16-bit packet identifier. */
  const TABLE_COUNT: int := 65536

  /** t is power_table(x): entry i holds x^(SIZE-1-i) for i <= SIZE - 2, so the
    * entries run from x^(SIZE-1) down to x^1, and the last entry holds x^SIZE. */
  predicate IsPowerTable(t: seq<ModInt>, x: int, m: int)
    requires m > 0
  {
    |t| >= 2
    && (forall i :: 0 <= i <= |t| - 2 ==> t[i].value == Pow(x, |t| - 1 - i) % m)
    && t[|t| - 1].value == Pow(x, |t|) % m
  }

  /** power_table(x): entry SIZE - 2 is x, each entry below it is the one above
    * times x, and the last entry is entry 0 times x. */
  method PowerTable(x: int, m: int, w: int, size: nat) returns (t: seq<ModInt>)
    requires Params(m, w, size) && size >= 2 && 0 <= x < w
    ensures |t| == size && AllValid(t, m) && IsPowerTable(t, x, m)
  {
    var result := new ModInt[size](_ => Zero());
    var xMod := FromNarrow(x, m);
    assert Pow(x, 1) == x;
    result[size - 2] := xMod;
    var i := size - 2;
    while i > 0
      invariant 0 <= i <= size - 2
      invariant forall k :: 0 <= k < size ==> ModularInteger.Valid(result[k], m)
      invariant forall k :: i <= k <= size - 2 ==> result[k].value == Pow(x, size - 1 - k) % m
    {
      PowerStepMod(result[i].value, xMod.value, x, size - 1 - i, m);
      result[i - 1] := Mul(result[i], xMod, m);
      i := i - 1;
    }
    PowerStepMod(result[0].value, xMod.value, x, size - 1, m);
    result[size - 1] := Mul(result[0], xMod, m);
    t := result[..];
  }

  /** power_tables_16(): the power table of every 16-bit value, indexed by it. */
  method PowerTables16(m: int, size: nat) returns (tables: seq<seq<ModInt>>)
    requires Params(m, TABLE_COUNT, size) && size >= 2
    ensures |tables| == TABLE_COUNT
    ensures forall x :: 0 <= x < TABLE_COUNT ==>
      |tables[x]| == size && AllValid(tables[x], m) && IsPowerTable(tables[x], x, m)
  {
    tables := [];
    var i := 0;
    while i < TABLE_COUNT
      invariant 0 <= i <= TABLE_COUNT && |tables| == i
      invariant forall x :: 0 <= x < i ==>
        |tables[x]| == size && AllValid(tables[x], m) && IsPowerTable(tables[x], x, m)
    {
      var t := PowerTable(i, m, TABLE_COUNT, size);
      tables := tables + [t];
      i := i + 1;
    }
  }

  /** The 16-bit eval(coeffs, x): the lower terms coeffs[i] * x^(SIZE-1-i) and
    * the constant coefficient summed in an unsigned 64-bit integer, then x^SIZE,
    * reduced once at the end. The sum never reaches 2^64, and the result is the
    * value of the monic polynomial at x, as Horner's rule computes it. */
  method Eval16(tables: seq<seq<ModInt>>, coeffs: seq<ModInt>, x: int, m: int) returns (r: ModInt)
    requires Params(m, TABLE_COUNT, |coeffs|) && |coeffs| >= 2 && AllValid(coeffs, m)
    requires 0 <= x < TABLE_COUNT && |tables| == TABLE_COUNT
    requires |tables[x]| == |coeffs| && AllValid(tables[x], m) && IsPowerTable(tables[x], x, m)
    ensures ModularInteger.Valid(r, m)
    ensures r.value == MonicValue(Values(coeffs), x) % m
  {
    var size := |coeffs|;
    ghost var c := Values(coeffs);
    var table := tables[x];
    var result := 0;
    var i := 0;
    while i < size - 1
      invariant 0 <= i <= size - 1
      invariant 0 <= result <= i * 0x1_0000_0000
      invariant result % m == TermSum(c, x, i, size) % m
    {
      ProductBound(coeffs[i].value, table[i].value);
      TableTermMod(result, TermSum(c, x, i, size), c[i], table[i].value, Pow(x, size - 1 - i), m);
      result := result + coeffs[i].value * table[i].value;
      assert result < U64_LIMIT;
      i := i + 1;
    }
    result := result + coeffs[size - 1].value;
    assert result < U64_LIMIT;
    result := result + table[size - 1].value;
    assert result < U64_LIMIT;
    Eval16Last(result, coeffs[size - 1].value, table[size - 1].value, c, x, m);
    r := FromNarrow(result % m, m);
  }

  /** Two 16-bit values multiply to less than 2^32. */
  lemma ProductBound(a: int, b: int)
    requires 0 <= a < TABLE_COUNT && 0 <= b < TABLE_COUNT
    ensures 0 <= a * b < 0x1_0000_0000
  {
    var d := 65535 - b;
    assert 0 <= a * d;
    assert a * b == 65535 * a - a * d;
  }

  /** Adding one table-driven term keeps the running sum congruent to TermSum. */
  lemma TableTermMod(res: int, ts: int, c: int, tv: int, p: int, m: int)
    requires m > 0 && res % m == ts % m && tv == p % m
    ensures (res + c * tv) % m == (ts + c * p) % m
  {
    ModMod(p, m);
    CongMul(c, tv, c, p, m);
    CongAdd(res, c * tv, ts, c * p, m);
  }

  /** The constant coefficient and x^SIZE complete the expanded polynomial. */
  lemma Eval16Last(res: int, cl: int, tl: int, c: seq<int>, x: int, m: int)
    requires m > 0 && |c| >= 1 && cl == c[|c| - 1] && tl == Pow(x, |c|) % m
    requires (res - cl - tl) % m == TermSum(c, x, |c| - 1, |c|) % m
    ensures res % m == MonicValue(c, x) % m
  {
    var n := |c|;
    MonicExpanded(c, x);
    assert Pow(x, 0) == 1;
    assert TermSum(c, x, n, n) == TermSum(c, x, n - 1, n) + cl;
    CongAdd(res - cl - tl, cl, TermSum(c, x, n - 1, n), cl, m);
    ModMod(Pow(x, n), m);
    CongAdd(res - tl, tl, TermSum(c, x, n - 1, n) + cl, Pow(x, n), m);
  }
}
