/** The std::vector MonicPolynomialEvaluator header: power_table,
  * power_tables_16 and the table-driven eval. (Its count_trailing_zeros and
  * its Horner eval are the loops FixedAccumulator.CountTrailingZeros and
  * FixedAccumulator.EvaluateMonicPolynomial model.)
  *
  * The power tables are one flat vector: the table of value v occupies the
  * table_size entries from table_size * v on, and entry k of it is v^(k+1). */
module VectorEvaluator {
  import opened Common
  import opened ModArith
  import opened PowerSumMath
  import opened PowerSumMod
  import opened ModularInteger
  import opened FixedAccumulator
  import opened FixedEvaluator

  /** tables holds the power tables of the values 0 .. n - 1, each of size ts:
    * the flat entry j belongs to the value j / ts and holds its power
    * j % ts + 1. */
  predicate FlatPowerTables(tables: seq<ModInt>, ts: nat, n: nat, m: int)
    requires m > 0
  {
    |tables| == ts * n && AllValid(tables, m)
    && (ts > 0 ==> forall j :: 0 <= j < |tables| ==> tables[j].value == Pow(j / ts, j % ts + 1) % m)
  }

  /** The table of value v lies inside the flat vector of n tables. */
  lemma FlatBound(ts: nat, v: nat, n: nat)
    requires v < n
    ensures ts * v + ts <= ts * n
  {
    var d := n - v - 1;
    assert 0 <= ts * d;
    assert ts * n == ts * v + ts + ts * d;
  }

  /** Entry k of the table of value v, in a flat vector of n tables. */
  lemma FlatEntry(tables: seq<ModInt>, ts: nat, n: nat, m: int, v: nat, k: nat)
    requires m > 0 && FlatPowerTables(tables, ts, n, m) && v < n && k < ts
    ensures 0 <= ts * v + k < |tables|
    ensures tables[ts * v + k].value == Pow(v, k + 1) % m
  {
    FlatBound(ts, v, n);
    assert 0 <= ts * v;
    DivModUnique(ts * v + k, ts, v, k);
  }

  /** power_table(result, x, size): appends x^1 .. x^size to result, each
    * power the previous one times x. */
  method PowerTable(result: seq<ModInt>, x: int, size: nat, m: int, w: int) returns (r: seq<ModInt>)
    requires 1 < m < w <= 2 * m && 0 <= x < w
    ensures |r| == |result| + size && r[..|result|] == result
    ensures forall j :: |result| <= j < |r| ==>
      ModularInteger.Valid(r[j], m) && r[j].value == Pow(x, j - |result| + 1) % m
  {
    r := result;
    if size > 0 {
      var xMod := FromNarrow(x, m);
      var acc := xMod;
      assert Pow(x, 1) == x;
      r := r + [xMod];
      var i := 1;
      while i < size
        invariant 1 <= i <= size && |r| == |result| + i && r[..|result|] == result
        invariant acc == r[|result| + i - 1]
        invariant forall j :: |result| <= j < |r| ==>
          ModularInteger.Valid(r[j], m) && r[j].value == Pow(x, j - |result| + 1) % m
      {
        PowerStepMod(acc.value, xMod.value, x, i, m);
        acc := Mul(acc, xMod, m);
        r := r + [acc];
        i := i + 1;
      }
    }
  }

  /** power_tables_16(size): the power tables of all 16-bit values, one after
    * the other. */
  method PowerTables16(size: nat, m: int) returns (tables: seq<ModInt>)
    requires 1 < m < TABLE_COUNT <= 2 * m
    ensures FlatPowerTables(tables, size, TABLE_COUNT, m)
  {
    tables := [];
    var i := 0;
    while i < TABLE_COUNT
      invariant 0 <= i <= TABLE_COUNT
      invariant FlatPowerTables(tables, size, i, m)
    {
      ghost var before := tables;
      tables := PowerTable(tables, i, size, m, TABLE_COUNT);
      assert size * (i + 1) == size * i + size;
      forall j | 0 <= j < |tables|
        ensures ModularInteger.Valid(tables[j], m)
        ensures size > 0 ==> tables[j].value == Pow(j / size, j % size + 1) % m
      {
        if j < |before| {
          assert tables[j] == before[j];
        } else {
          var k := j - |before|;
          DivModUnique(j, size, i, k);
        }
      }
      i := i + 1;
    }
  }

  /** The table-driven eval(power_tables, table_size, coeffs, x): x^n from the
    * table, plus coeffs[i] * x^(n-1-i) for i < n - 1 and the constant
    * coefficient, summed in an unsigned 64-bit integer and reduced once. When
    * every table holds at least n powers the sum never reaches 2^64 and the
    * result is the value of the monic polynomial at x. */
  method EvalWithTables(tables: seq<ModInt>, ts: nat, coeffs: seq<ModInt>, x: int, m: int)
    returns (r: ModInt)
    requires Params(m, TABLE_COUNT, |coeffs|) && AllValid(coeffs, m)
    requires FlatPowerTables(tables, ts, TABLE_COUNT, m) && |coeffs| <= ts
    requires 0 <= x < TABLE_COUNT
    ensures ModularInteger.Valid(r, m)
    ensures r.value == MonicValue(Values(coeffs), x) % m
  {
    var size := |coeffs|;
    ghost var c := Values(coeffs);
    FlatEntry(tables, ts, TABLE_COUNT, m, x, size - 1);
    var base := ts * x;
    var result := tables[base + size - 1].value;
    ghost var top := result;
    assert top == Pow(x, size) % m;
    var i := 0;
    while i < size - 1
      invariant 0 <= i <= size - 1
      invariant top <= result <= top + i * 0x1_0000_0000
      invariant (result - top) % m == TermSum(c, x, i, size) % m
    {
      FlatEntry(tables, ts, TABLE_COUNT, m, x, size - i - 2);
      ProductBound(coeffs[i].value, tables[base + size - i - 2].value);
      TableTermMod(result - top, TermSum(c, x, i, size), c[i], tables[base + size - i - 2].value,
                   Pow(x, size - 1 - i), m);
      result := result + coeffs[i].value * tables[base + size - i - 2].value;
      assert result < U64_LIMIT;
      i := i + 1;
    }
    result := result + coeffs[size - 1].value;
    assert result < U64_LIMIT;
    Eval16Last(result, coeffs[size - 1].value, top, c, x, m);
    r := FromNarrow(result % m, m);
  }
}
