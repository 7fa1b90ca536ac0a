/** The tables the IBLTAccumulator (accumulator/src/iblt.rs) compares: the
  * invertible Bloom lookup table of a list of elements, the cell-by-cell
  * difference of two such tables, and what that difference is for an
  * honest router. Each element enters the table through its u32 key
  * (elem_to_u32, an opaque hash given as a function). */
module IbltTable {
  import opened Common
  import opened BloomCounters
  import opened BloomIblt
  import ModArith
  import RibltSymbol

  // ---------------------------------------------------------------------
  // The table of a list

  /** Over the elements of s, the weight w of each element times the
    * number of times its cells hit x. With weight 1 this counts the hits
    * of cell x; with the key as weight it sums the keys stored in x. */
  function Weight(t: InvBloomLookupTable, key: U32 -> U32, w: U32 -> U32, s: seq<U32>, x: nat): int
    requires t.numEntries > 0
  {
    if |s| == 0 then 0
    else
      var e := s[|s| - 1];
      Weight(t, key, w, s[..|s| - 1], x) + w(e) * multiset(t.Indexes(key(e)))[x]
  }

  /** The weight that counts. */
  function One(e: U32): U32
  {
    1
  }

  /** The counters of t's shape after inserting every element of s into an
    * empty table: hits per cell, wrapping at max_value. */
  function CountersOf(t: InvBloomLookupTable, key: U32 -> U32, s: seq<U32>): (c: seq<int>)
    requires t.numEntries > 0
    ensures |c| == t.numEntries
  {
    seq(t.numEntries, x requires 0 <= x < t.numEntries => Weight(t, key, One, s, x) % (t.maxValue + 1))
  }

  /** The data of t's shape after inserting every element of s into an
    * empty table: the wrapping u32 sum of the keys hashed to each cell. */
  function DataOf(t: InvBloomLookupTable, key: U32 -> U32, s: seq<U32>): (d: seq<U32>)
    requires t.numEntries > 0
    ensures |d| == t.numEntries
  {
    seq(t.numEntries, x requires 0 <= x < t.numEntries => Weight(t, key, key, s, x) % U32_LIMIT)
  }

  /** Reducing a then adding b is adding then reducing. */
  lemma AddResidue(a: int, b: int, m: int)
    requires m > 0
    ensures (a % m + b) % m == (a + b) % m
  {
    ModArith.ModAdd(a % m, b, m);
    ModArith.ModMod(a, m);
    ModArith.ModAdd(a, b, m);
  }

  /** Inserting one more element shifts its cells: the counters by one
    * and the data by its key. */
  lemma TableAppend(t: InvBloomLookupTable, key: U32 -> U32, s: seq<U32>, e: U32)
    requires t.numEntries > 0
    ensures CountersOf(t, key, s + [e]) == Shifted(CountersOf(t, key, s), t.Indexes(key(e)), 1, t.maxValue + 1)
    ensures DataOf(t, key, s + [e]) == Shifted(DataOf(t, key, s), t.Indexes(key(e)), key(e), U32_LIMIT)
  {
    assert (s + [e])[..|s|] == s;
    var I: seq<nat> := t.Indexes(key(e));
    var M: multiset<nat> := multiset(I);
    forall x: nat | x < t.numEntries
      ensures CountersOf(t, key, s + [e])[x] == Shifted(CountersOf(t, key, s), I, 1, t.maxValue + 1)[x]
      ensures DataOf(t, key, s + [e])[x] == Shifted(DataOf(t, key, s), I, key(e), U32_LIMIT)[x]
    {
      var hits: nat := M[x];
      var C, W := Weight(t, key, One, s, x), Weight(t, key, key, s, x);
      assert Weight(t, key, One, s + [e], x) == C + 1 * hits;
      assert Weight(t, key, key, s + [e], x) == W + key(e) * hits;
      AddResidue(C, 1 * hits, t.maxValue + 1);
      AddResidue(W, key(e) * hits, U32_LIMIT);
      assert Shifted(DataOf(t, key, s), I, key(e), U32_LIMIT)[x] == (W % U32_LIMIT + key(e) * hits) % U32_LIMIT;
    }
  }

  /** The empty list leaves the table empty. */
  lemma TableEmpty(t: InvBloomLookupTable, key: U32 -> U32)
    requires t.numEntries > 0
    ensures CountersOf(t, key, []) == Zeros(t.numEntries) && DataOf(t, key, []) == Zeros(t.numEntries)
  {
    forall x: nat | x < t.numEntries
      ensures CountersOf(t, key, [])[x] == 0 && DataOf(t, key, [])[x] == 0
    {
      assert Weight(t, key, One, [], x) == 0 && Weight(t, key, key, [], x) == 0;
    }
  }

  lemma {:induction false} WeightConcat(t: InvBloomLookupTable, key: U32 -> U32, w: U32 -> U32, a: seq<U32>, b: seq<U32>, x: nat)
    requires t.numEntries > 0
    ensures Weight(t, key, w, a + b, x) == Weight(t, key, w, a, x) + Weight(t, key, w, b, x)
    decreases |b|
  {
    if |b| == 0 {
      assert a + b == a;
    } else {
      var b', y := b[..|b| - 1], b[|b| - 1];
      assert b == b' + [y];
      assert (a + b)[..|a + b| - 1] == a + b';
      WeightConcat(t, key, w, a, b', x);
    }
  }

  /** The weight of a list depends only on its multiset. */
  lemma {:induction false} WeightOrderFree(t: InvBloomLookupTable, key: U32 -> U32, w: U32 -> U32, a: seq<U32>, b: seq<U32>, x: nat)
    requires t.numEntries > 0 && multiset(a) == multiset(b)
    ensures Weight(t, key, w, a, x) == Weight(t, key, w, b, x)
    decreases |a|
  {
    if |a| > 0 {
      var n := |a| - 1;
      var e := a[n];
      var u, v := RibltSymbol.PickMatching(a, b);
      WeightOrderFree(t, key, w, a[..n], u + v, x);
      WeightConcat(t, key, w, u + [e], v, x);
      WeightConcat(t, key, w, u, [e], x);
      WeightConcat(t, key, w, u, v, x);
      assert [e][..0] == [];
    } else {
      RibltSymbol.EmptyMatching(a, b);
    }
  }

  /** A list made of the log and the dropped elements weighs as both. */
  lemma WeightSplit(t: InvBloomLookupTable, key: U32 -> U32, w: U32 -> U32, elems: seq<U32>, log: seq<U32>, dropped: seq<U32>, x: nat)
    requires t.numEntries > 0 && multiset(elems) == multiset(log) + multiset(dropped)
    ensures Weight(t, key, w, elems, x) == Weight(t, key, w, log, x) + Weight(t, key, w, dropped, x)
  {
    WeightOrderFree(t, key, w, elems, log + dropped, x);
    WeightConcat(t, key, w, log, dropped, x);
  }

  /** The table of a list depends only on the list's multiset. */
  lemma TableOrderFree(t: InvBloomLookupTable, key: U32 -> U32, a: seq<U32>, b: seq<U32>)
    requires t.numEntries > 0 && multiset(a) == multiset(b)
    ensures CountersOf(t, key, a) == CountersOf(t, key, b) && DataOf(t, key, a) == DataOf(t, key, b)
  {
    forall x: nat | x < t.numEntries
      ensures CountersOf(t, key, a)[x] == CountersOf(t, key, b)[x] && DataOf(t, key, a)[x] == DataOf(t, key, b)[x]
    {
      WeightOrderFree(t, key, One, a, b, x);
      WeightOrderFree(t, key, key, a, b, x);
    }
  }

  /** Two tables that place every item in the same cells weigh every list
    * alike. */
  lemma {:induction false} WeightAlike(t: InvBloomLookupTable, u: InvBloomLookupTable, key: U32 -> U32, w: U32 -> U32, s: seq<U32>, x: nat)
    requires t.numEntries == u.numEntries > 0
    requires forall item :: t.Indexes(item) == u.Indexes(item)
    ensures Weight(t, key, w, s, x) == Weight(u, key, w, s, x)
    decreases |s|
  {
    if |s| > 0 {
      WeightAlike(t, u, key, w, s[..|s| - 1], x);
    }
  }

  /** An empty clone has the same table of every list as the original. */
  lemma TableAlike(t: InvBloomLookupTable, u: InvBloomLookupTable, key: U32 -> U32, s: seq<U32>)
    requires t.numEntries == u.numEntries > 0 && t.maxValue == u.maxValue
    requires forall item :: t.Indexes(item) == u.Indexes(item)
    ensures CountersOf(t, key, s) == CountersOf(u, key, s) && DataOf(t, key, s) == DataOf(u, key, s)
  {
    forall x: nat | x < t.numEntries
      ensures CountersOf(t, key, s)[x] == CountersOf(u, key, s)[x] && DataOf(t, key, s)[x] == DataOf(u, key, s)[x]
    {
      WeightAlike(t, u, key, One, s, x);
      WeightAlike(t, u, key, key, s, x);
    }
  }

  /** No weight is negative, and a cell no element hits weighs nothing. */
  lemma {:induction false} WeightNonNegative(t: InvBloomLookupTable, key: U32 -> U32, s: seq<U32>, x: nat)
    requires t.numEntries > 0
    ensures 0 <= Weight(t, key, One, s, x) && 0 <= Weight(t, key, key, s, x)
    ensures Weight(t, key, One, s, x) == 0 ==> Weight(t, key, key, s, x) == 0
    decreases |s|
  {
    if |s| > 0 {
      var e := s[|s| - 1];
      var hits: nat := multiset(t.Indexes(key(e)))[x];
      WeightNonNegative(t, key, s[..|s| - 1], x);
      if key(e) > 0 { ModArith.MulBounds(key(e), hits); }
      assert Weight(t, key, One, s, x) == Weight(t, key, One, s[..|s| - 1], x) + 1 * hits;
      assert Weight(t, key, key, s, x) == Weight(t, key, key, s[..|s| - 1], x) + key(e) * hits;
      if hits == 0 {
        assert key(e) * hits == 0;
      }
    }
  }

  // ---------------------------------------------------------------------
  // The data difference

  /** processed - received on wrapping u32 data: the difference when
    * processed is not smaller, otherwise 2^32 - received + processed. */
  function DataDiff(processed: U32, received: U32): (d: U32)
  {
    if processed >= received then processed - received else (U32_LIMIT - received) + processed
  }

  /** The data difference as accumulator/src/iblt.rs:152-156 computes it:
    * u32::MAX - received + processed when processed is smaller. */
  function DataDiffAsWritten(processed: U32, received: U32): (d: U32)
  {
    if processed >= received then processed - received else (U32_MAX - received) + processed
  }

  /** The difference undoes the wrapping sum: adding it back to received
    * gives processed, and it is the residue of processed - received. */
  lemma DataDiffInverts(processed: U32, received: U32)
    ensures (received + DataDiff(processed, received)) % U32_LIMIT == processed
    ensures DataDiff(processed, received) == (processed - received) % U32_LIMIT
    ensures DataDiff(processed, received) == 0 <==> processed == received
  {
    if processed >= received {
      ModArith.ModSmall(processed, U32_LIMIT);
      ModArith.ModSmall(processed - received, U32_LIMIT);
    } else {
      ModArith.ModAddMultiple(1, processed, U32_LIMIT);
      ModArith.ModSmall(processed, U32_LIMIT);
      ModArith.ModAddMultiple(1, processed - received, U32_LIMIT);
      ModArith.ModSmall(U32_LIMIT + processed - received, U32_LIMIT);
    }
  }

  /** As written, the second branch is one below the wrapping difference,
    * so adding it back to received misses processed by one. */
  lemma DataDiffAsWrittenOffByOne(processed: U32, received: U32)
    requires processed < received
    ensures DataDiffAsWritten(processed, received) == DataDiff(processed, received) - 1
    ensures (received + DataDiffAsWritten(processed, received)) % U32_LIMIT != processed
  {
    if processed == 0 {
      ModArith.ModSmall(U32_MAX, U32_LIMIT);
    } else {
      ModArith.ModAddMultiple(1, processed - 1, U32_LIMIT);
      ModArith.ModSmall(processed - 1, U32_LIMIT);
    }
  }

  /** A table whose cell held 1 from the log and 0 after the received list
    * (a dropped key 0xFFFF_FFFF wrapped it): as written the difference
    * reports 0xFFFF_FFFE instead of the dropped key. */
  lemma DataDiffAsWrittenExample()
    ensures DataDiffAsWritten(0, 1) == 0xFFFF_FFFE
    ensures DataDiff(0, 1) == 0xFFFF_FFFF
    ensures (1 + 0xFFFF_FFFF) % U32_LIMIT == 0
  {
  }

  // ---------------------------------------------------------------------
  // The difference table

  /** The check of each cell in validate: the received counter is not
    * below the stored one, and where the counters agree the data agree. */
  predicate Passes(P: seq<int>, Q: seq<int>, PD: seq<U32>, QD: seq<U32>)
    requires |P| == |Q| == |PD| == |QD|
  {
    forall x :: 0 <= x < |P| ==> Q[x] <= P[x] && (P[x] == Q[x] ==> DataDiff(PD[x], QD[x]) == 0)
  }

  /** The counters of the difference table. */
  function CountDiff(P: seq<int>, Q: seq<int>): (r: seq<int>)
    requires |P| == |Q|
    ensures |r| == |P| && forall x :: 0 <= x < |P| ==> r[x] == P[x] - Q[x]
  {
    seq(|P|, x requires 0 <= x < |P| => P[x] - Q[x])
  }

  /** The data of the difference table. */
  function DataDiffs(PD: seq<U32>, QD: seq<U32>): (r: seq<U32>)
    requires |PD| == |QD|
    ensures |r| == |PD| && forall x :: 0 <= x < |PD| ==> r[x] == DataDiff(PD[x], QD[x])
  {
    seq(|PD|, x requires 0 <= x < |PD| => DataDiff(PD[x], QD[x]))
  }

  /** No cell of the received list's table wraps: every counter holds its
    * true number of hits. */
  ghost predicate NoWrap(t: InvBloomLookupTable, key: U32 -> U32, s: seq<U32>)
    requires t.numEntries > 0
  {
    forall x :: 0 <= x < t.numEntries ==> Weight(t, key, One, s, x) <= t.maxValue
  }

  /** Against an honest router, whose received list is the log plus the
    * dropped elements, and with no counter of the received table wrapped,
    * every cell passes and the difference table is the table of the
    * dropped elements. */
  lemma HonestDifference(t: InvBloomLookupTable, key: U32 -> U32, elems: seq<U32>, log: seq<U32>, dropped: seq<U32>)
    requires t.numEntries > 0 && multiset(elems) == multiset(log) + multiset(dropped)
    requires NoWrap(t, key, elems)
    ensures Passes(CountersOf(t, key, elems), CountersOf(t, key, log), DataOf(t, key, elems), DataOf(t, key, log))
    ensures CountDiff(CountersOf(t, key, elems), CountersOf(t, key, log)) == CountersOf(t, key, dropped)
    ensures DataDiffs(DataOf(t, key, elems), DataOf(t, key, log)) == DataOf(t, key, dropped)
  {
    var P, Q, R := CountersOf(t, key, elems), CountersOf(t, key, log), CountersOf(t, key, dropped);
    var PD, QD, RD := DataOf(t, key, elems), DataOf(t, key, log), DataOf(t, key, dropped);
    forall x: nat | x < t.numEntries
      ensures Q[x] <= P[x] && P[x] - Q[x] == R[x]
      ensures DataDiff(PD[x], QD[x]) == RD[x]
      ensures R[x] == 0 ==> RD[x] == 0
    {
      HonestCellCounters(t, key, elems, log, dropped, x);
      HonestCellData(t, key, elems, log, dropped, x);
      assert RD[x] == Weight(t, key, key, dropped, x) % U32_LIMIT;
    }
    CountDiffIs(P, Q, R);
    DataDiffsIs(PD, QD, RD);
  }

  lemma CountDiffIs(P: seq<int>, Q: seq<int>, R: seq<int>)
    requires |P| == |Q| == |R| && forall x :: 0 <= x < |P| ==> P[x] - Q[x] == R[x]
    ensures CountDiff(P, Q) == R
  {
  }

  lemma DataDiffsIs(PD: seq<U32>, QD: seq<U32>, RD: seq<U32>)
    requires |PD| == |QD| == |RD| && forall x :: 0 <= x < |PD| ==> DataDiff(PD[x], QD[x]) == RD[x]
    ensures DataDiffs(PD, QD) == RD
  {
  }

  /** Counts that add up without wrapping subtract without wrapping. */
  lemma HonestCounts(ce: int, cl: int, cd: int, m: int)
    requires ce == cl + cd && 0 <= cl && 0 <= cd && ce < m
    ensures cl % m <= ce % m && ce % m - cl % m == cd % m && cd % m == cd
  {
    ModArith.ModSmall(ce, m);
    ModArith.ModSmall(cl, m);
    ModArith.ModSmall(cd, m);
  }

  /** Wrapping sums that add up have the wrapping difference. */
  lemma HonestData(ke: int, kl: int, kd: int)
    requires ke == kl + kd
    ensures DataDiff(ke % U32_LIMIT, kl % U32_LIMIT) == kd % U32_LIMIT
  {
    DataDiffInverts(ke % U32_LIMIT, kl % U32_LIMIT);
    ModArith.ModSub(ke, kl, U32_LIMIT);
  }

  /** HonestDifference on the counters of one cell. */
  lemma HonestCellCounters(t: InvBloomLookupTable, key: U32 -> U32, elems: seq<U32>, log: seq<U32>, dropped: seq<U32>, x: nat)
    requires t.numEntries > 0 && multiset(elems) == multiset(log) + multiset(dropped)
    requires NoWrap(t, key, elems) && x < t.numEntries
    ensures CountersOf(t, key, log)[x] <= CountersOf(t, key, elems)[x]
    ensures CountersOf(t, key, elems)[x] - CountersOf(t, key, log)[x] == CountersOf(t, key, dropped)[x]
    ensures CountersOf(t, key, dropped)[x] == 0 ==> Weight(t, key, key, dropped, x) == 0
  {
    var m := t.maxValue + 1;
    var ce, cl, cd := Weight(t, key, One, elems, x), Weight(t, key, One, log, x), Weight(t, key, One, dropped, x);
    WeightSplit(t, key, One, elems, log, dropped, x);
    WeightNonNegative(t, key, log, x);
    WeightNonNegative(t, key, dropped, x);
    HonestCounts(ce, cl, cd, m);
    assert CountersOf(t, key, elems)[x] == ce % m;
    assert CountersOf(t, key, log)[x] == cl % m;
    assert CountersOf(t, key, dropped)[x] == cd % m;
  }

  /** HonestDifference on the data of one cell. */
  lemma HonestCellData(t: InvBloomLookupTable, key: U32 -> U32, elems: seq<U32>, log: seq<U32>, dropped: seq<U32>, x: nat)
    requires t.numEntries > 0 && multiset(elems) == multiset(log) + multiset(dropped)
    requires x < t.numEntries
    ensures DataDiff(DataOf(t, key, elems)[x], DataOf(t, key, log)[x]) == DataOf(t, key, dropped)[x]
  {
    var ke, kl, kd := Weight(t, key, key, elems, x), Weight(t, key, key, log, x), Weight(t, key, key, dropped, x);
    WeightSplit(t, key, key, elems, log, dropped, x);
    HonestData(ke, kl, kd);
    assert DataOf(t, key, elems)[x] == ke % U32_LIMIT;
    assert DataOf(t, key, log)[x] == kl % U32_LIMIT;
    assert DataOf(t, key, dropped)[x] == kd % U32_LIMIT;
  }

}
