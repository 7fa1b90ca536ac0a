// Counter-array arithmetic shared by the counting Bloom filter and the
// invertible Bloom lookup table (bloom-sd/src/cbf.rs, bloom-sd/src/iblt.rs):
// the cell positions of an item and the effect of adding one to each of them.

module BloomCounters {
  import opened Common
  import opened BloomHashing
  import ModArith

  /** The largest value a counter of the given width holds, (1 << bits) - 1. */
  function MaxValue(bits: nat): (r: nat)
    ensures r + 1 == ModArith.Pow(2, bits)
  {
    if bits == 0 then 0 else 2 * MaxValue(bits - 1) + 1
  }

  /** The cells of an item: each of the num_hashes values of its hash
    * sequence reduced modulo num_entries (the map in `indexes`). */
  function Positions(h1: U64, h2: U64, numHashes: nat, numEntries: nat): (r: seq<nat>)
    requires numEntries > 0
    ensures |r| == numHashes && InRange(r, numEntries)
  {
    Reduce(HashSeq(h1, h2, numHashes), numEntries)
  }

  /** Each hash value modulo the number of cells. */
  function Reduce(hs: seq<U64>, n: nat): (r: seq<nat>)
    requires n > 0
    ensures |r| == |hs| && forall k :: 0 <= k < |hs| ==> r[k] == hs[k] % n < n
  {
    seq(|hs|, k requires 0 <= k < |hs| => hs[k] % n)
  }

  /** Every position lies inside the table. */
  predicate InRange(I: seq<nat>, n: nat)
  {
    forall k :: 0 <= k < |I| ==> I[k] < n
  }

  /** The counters c after one increment per occurrence of a cell in I. */
  function Bumped(c: seq<int>, I: seq<nat>): (r: seq<int>)
    ensures |r| == |c|
  {
    seq(|c|, x requires 0 <= x < |c| => c[x] + multiset(I)[x])
  }

  /** Appending one cell to I adds one to that cell only. */
  lemma BumpedStep(c: seq<int>, I: seq<nat>, y: nat)
    requires y < |c|
    ensures Bumped(c, I + [y]) == Bumped(c, I)[y := Bumped(c, I)[y] + 1]
  {
    assert multiset(I + [y]) == multiset(I) + multiset{y};
  }

  /** Bumping by I then by J is bumping by I + J. */
  lemma BumpedTwice(c: seq<int>, I: seq<nat>, J: seq<nat>)
    ensures Bumped(Bumped(c, I), J) == Bumped(c, I + J)
  {
    assert multiset(I + J) == multiset(I) + multiset(J);
  }

  /** The sum of the counters. */
  function Sum(c: seq<int>): int
  {
    if |c| == 0 then 0 else Sum(c[..|c| - 1]) + c[|c| - 1]
  }

  /** Adding one to a single counter adds one to the sum. */
  lemma {:induction false} SumIncrement(c: seq<int>, y: nat)
    requires y < |c|
    ensures Sum(c[y := c[y] + 1]) == Sum(c) + 1
    decreases |c|
  {
    var n := |c| - 1;
    var d := c[y := c[y] + 1];
    assert d[..n] == if y < n then c[..n][y := c[y] + 1] else c[..n];
    if y < n {
      SumIncrement(c[..n], y);
    }
  }

  /** Each insert adds num_hashes to the sum of the counters, one per
    * position, when every position lies inside the table. */
  lemma {:induction false} SumBumped(c: seq<int>, I: seq<nat>)
    requires InRange(I, |c|)
    ensures Sum(Bumped(c, I)) == Sum(c) + |I|
    decreases |I|
  {
    if |I| == 0 {
      assert Bumped(c, I) == c;
    } else {
      var J, y := I[..|I| - 1], I[|I| - 1];
      assert I == J + [y];
      SumBumped(c, J);
      BumpedStep(c, J, y);
      SumIncrement(Bumped(c, J), y);
    }
  }

  /** After an insert every cell of the item is positive (no false
    * negatives), whatever the counters held. */
  lemma BumpedPositive(c: seq<int>, I: seq<nat>)
    requires InRange(I, |c|) && forall x :: 0 <= x < |c| ==> c[x] >= 0
    ensures forall k :: 0 <= k < |I| ==> Bumped(c, I)[I[k]] > 0
  {
    forall k | 0 <= k < |I|
      ensures Bumped(c, I)[I[k]] > 0
    {
      assert I[k] in multiset(I);
    }
  }

  /** n counters, all zero. */
  function Zeros(n: nat): (r: seq<int>)
    ensures |r| == n && forall x :: 0 <= x < n ==> r[x] == 0
  {
    seq(n, x => 0)
  }

  /** The sum of zero counters is zero. */
  lemma {:induction false} SumZeros(n: nat)
    ensures Sum(Zeros(n)) == 0
  {
    if n > 0 {
      assert Zeros(n)[..n - 1] == Zeros(n - 1);
      SumZeros(n - 1);
    }
  }

  /** No cell of I goes past max once the insert has added one per
    * occurrence. */
  predicate Fits(c: seq<int>, I: seq<nat>, max: int)
    requires InRange(I, |c|)
  {
    forall k :: 0 <= k < |I| ==> c[I[k]] + multiset(I)[I[k]] <= max
  }

  /** What an insert by the cells I demands of the counters c0: every cell
    * is in the table, no counter is negative and none will pass max. */
  predicate Ready(c0: seq<int>, I: seq<nat>, max: int)
  {
    InRange(I, |c0|) && (forall x :: 0 <= x < |c0| ==> c0[x] >= 0) && Fits(c0, I, max)
  }

  /** The first n cells of I were all positive in c, checked one cell at a
    * time as insert's running minimum does. */
  predicate AllPositive(c: seq<int>, I: seq<nat>, n: nat)
    requires n <= |I| && InRange(I, |c|)
  {
    n == 0 || (AllPositive(c, I, n - 1) && c[I[n - 1]] > 0)
  }

  /** AllPositive says that no cell among the first n is zero or less. */
  lemma {:induction false} AllPositiveMeans(c: seq<int>, I: seq<nat>, n: nat)
    requires n <= |I| && InRange(I, |c|)
    ensures AllPositive(c, I, n) <==> forall k :: 0 <= k < n ==> c[I[k]] > 0
  {
    if n > 0 {
      AllPositiveMeans(c, I, n - 1);
    }
  }

  /** How often y occurs among the first k cells of I. */
  function Count(I: seq<nat>, k: nat, y: int): nat
    requires k <= |I|
  {
    if k == 0 then 0 else Count(I, k - 1, y) + (if I[k - 1] == y then 1 else 0)
  }

  /** The count is the multiplicity of y in the prefix. */
  lemma {:induction false} CountMultiplicity(I: seq<nat>, k: nat, y: int)
    requires k <= |I|
    ensures Count(I, k, y) == multiset(I[..k])[y]
  {
    if k > 0 {
      CountMultiplicity(I, k - 1, y);
      assert I[..k] == I[..k - 1] + [I[k - 1]];
    }
  }

  /** The value insert reads at step j: the cell's old value plus one per
    * earlier occurrence of the same cell in I. */
  function Read(c0: seq<int>, I: seq<nat>, j: nat): int
    requires j < |I| && InRange(I, |c0|)
  {
    c0[I[j]] + Count(I, j, I[j])
  }

  /** One step of insert's loop: with the earlier cells positive, the k-th
    * read is positive exactly when the k-th cell was, since a cell read a
    * second time was already read positive the first time. */
  lemma ReadPositive(c0: seq<int>, I: seq<nat>, k: nat)
    requires k < |I| && InRange(I, |c0|) && forall x :: 0 <= x < |c0| ==> c0[x] >= 0
    ensures (AllPositive(c0, I, k) && Read(c0, I, k) > 0) <==> AllPositive(c0, I, k + 1)
  {
    var y := I[k];
    CountMultiplicity(I, k, y);
    if multiset(I[..k])[y] > 0 {
      assert y in multiset(I[..k]);
      var j :| 0 <= j < k && I[..k][j] == y;
      AllPositiveMeans(c0, I, k);
    }
  }

  /** Every read is below max: the cell still has its own occurrence (and
    * any later ones) to come. */
  lemma ReadFits(c0: seq<int>, I: seq<nat>, k: nat, max: int)
    requires k < |I| && Ready(c0, I, max)
    ensures Read(c0, I, k) < max
  {
    var y := I[k];
    CountMultiplicity(I, k, y);
    assert I == I[..k] + [y] + I[k + 1..];
    assert multiset(I) == multiset(I[..k]) + multiset{y} + multiset(I[k + 1..]);
  }

  /** The cells c after adding v once per occurrence of a cell in I, modulo
    * m: the counters of the invertible table (v = 1 on insert, -1 on
    * remove, modulo max_value + 1) and its data (v = the item or its
    * negation, modulo 2^32). */
  function Shifted(c: seq<int>, I: seq<nat>, v: int, m: nat): (r: seq<int>)
    requires m > 0
    ensures |r| == |c| && forall x :: 0 <= x < |c| ==> 0 <= r[x] < m
  {
    seq(|c|, x requires 0 <= x < |c| => (c[x] + v * multiset(I)[x]) % m)
  }

  /** c is c0 shifted by v along I modulo m. */
  predicate ShiftedBy(c: seq<int>, c0: seq<int>, I: seq<nat>, v: int, m: nat)
    requires m > 0
  {
    c == Shifted(c0, I, v, m)
  }

  /** c holds c0 shifted by v for the first k cells of I, modulo m. */
  predicate PartlyShifted(c: seq<int>, c0: seq<int>, I: seq<nat>, k: nat, v: int, m: nat)
    requires m > 0
  {
    k <= |I| && |c0| == |c|
    && forall x :: 0 <= x < |c| ==> c[x] == (c0[x] + v * Count(I, k, x)) % m
  }

  /** Before the first cell, reduced cells are shifted by nothing. */
  lemma ShiftStart(c: seq<int>, I: seq<nat>, v: int, m: nat)
    requires m > 0 && forall x :: 0 <= x < |c| ==> 0 <= c[x] < m
    ensures PartlyShifted(c, c, I, 0, v, m)
  {
    forall x | 0 <= x < |c|
      ensures c[x] == (c[x] + v * Count(I, 0, x)) % m
    {
      ModArith.ModSmall(c[x], m);
    }
  }

  /** Once all of I is counted, c is c0 shifted along I. */
  lemma FullyShifted(c: seq<int>, c0: seq<int>, I: seq<nat>, v: int, m: nat)
    requires m > 0 && PartlyShifted(c, c0, I, |I|, v, m)
    ensures ShiftedBy(c, c0, I, v, m)
  {
    forall x | 0 <= x < |c|
      ensures Count(I, |I|, x) == multiset(I)[x]
    {
      CountMultiplicity(I, |I|, x);
      assert I[..|I|] == I;
    }
  }

  /** Adding v to a cell that holds a + v * n modulo m gives a + v * (n + 1)
    * modulo m. */
  lemma ShiftStep(a: int, v: int, n: int, m: int)
    requires m > 0
    ensures ((a + v * n) % m + v) % m == (a + v * (n + 1)) % m
  {
    ModArith.ModAdd(a + v * n, v, m);
    ModArith.ModAdd((a + v * n) % m, v, m);
    ModArith.ModMod(a + v * n, m);
    assert a + v * (n + 1) == (a + v * n) + v;
  }

  /** One more cell of I counted: the k-th cell moves by v modulo m, the
    * others stay. */
  lemma PartlyShiftedStep(c: seq<int>, c0: seq<int>, I: seq<nat>, k: nat, v: int, m: nat)
    requires m > 0 && k < |I| && I[k] < |c| && PartlyShifted(c, c0, I, k, v, m)
    ensures PartlyShifted(c[I[k] := (c[I[k]] + v) % m], c0, I, k + 1, v, m)
  {
    var y := I[k];
    ShiftStep(c0[y], v, Count(I, k, y), m);
  }

  /** Shifting by v and then by -v along the same cells restores cells that
    * were already reduced modulo m: remove undoes insert, on the counters
    * and on the data alike. */
  lemma ShiftUndo(c: seq<int>, I: seq<nat>, v: int, m: nat)
    requires m > 0 && forall x :: 0 <= x < |c| ==> 0 <= c[x] < m
    ensures Shifted(Shifted(c, I, v, m), I, -v, m) == c
  {
    forall x | 0 <= x < |c|
      ensures Shifted(Shifted(c, I, v, m), I, -v, m)[x] == c[x]
    {
      UndoCell(c[x], v, multiset(I)[x], m);
    }
  }

  /** One cell of ShiftUndo: n shifts by v and then n by -v. */
  lemma UndoCell(a: int, v: int, n: nat, m: int)
    requires 0 <= a < m
    ensures ((a + v * n) % m + -v * n) % m == a
  {
    var w := v * n;
    assert -v * n == -w;
    UndoStep(a, w, m);
  }

  /** ((a + w) mod m - w) mod m == a for a already reduced. */
  lemma UndoStep(a: int, w: int, m: int)
    requires 0 <= a < m
    ensures ((a + w) % m + -w) % m == a
  {
    ModArith.ModAdd(a + w, -w, m);
    ModArith.ModAdd((a + w) % m, -w, m);
    ModArith.ModMod(a + w, m);
    ModArith.ModSmall(a, m);
  }

  /** What the invertible table's insert reads positive after k steps:
    * its reads are the counters modulo m. */
  predicate WrappedAllPositive(c0: seq<int>, I: seq<nat>, k: nat, m: nat)
    requires k <= |I| && InRange(I, |c0|) && m > 0
  {
    k == 0 || (WrappedAllPositive(c0, I, k - 1, m) && Read(c0, I, k - 1) % m > 0)
  }

  /** When no counter wraps, the invertible table's insert answers what the
    * counting filter's does: every cell of the item was positive. */
  lemma {:induction false} WrappedAllPositiveNoWrap(c0: seq<int>, I: seq<nat>, k: nat, max: nat)
    requires k <= |I| && Ready(c0, I, max)
    ensures WrappedAllPositive(c0, I, k, max + 1) <==> AllPositive(c0, I, k)
  {
    if k > 0 {
      WrappedAllPositiveNoWrap(c0, I, k - 1, max);
      ReadFits(c0, I, k - 1, max);
      ModArith.ModSmall(Read(c0, I, k - 1), max + 1);
      ReadPositive(c0, I, k - 1);
    }
  }
}
