/** The IBLTAccumulator of the accumulator crate (accumulator/src/iblt.rs):
  * the additive multiset-hash digest of the processed elements next to an
  * invertible Bloom lookup table of their u32 keys. Validation rebuilds the
  * table from the received list, subtracts the router's table cell by
  * cell, peels the cells left with a count of one, and then either rechecks
  * the digest directly or lists the received elements the difference still
  * contains for an external ILP solver, after which the digest is rechecked
  * without the elements it picked. */
module IbltAccumulator {
  import opened Common
  import opened BloomHashing
  import opened BloomCounters
  import opened BloomIblt
  import opened Digests
  import opened IbltTable
  import AccumulatorLib
  import ModArith

  /** BITS_PER_ENTRY of the table. */
  const BITS_PER_ENTRY: nat := 16

  // ---------------------------------------------------------------------
  // Digests of lists

  /** Two digests, one of s and one of log, compare equal under any two
    * nonces: the lengths agree modulo L and the totals modulo N. */
  predicate SameDigest(s: seq<U32>, log: seq<U32>)
  {
    |s| % MSET_L == |log| % MSET_L && Digests.Total(s) % MSET_N == Digests.Total(log) % MSET_N
  }

  /** add(e) on a digest holding the digest of acc. */
  method AddLogged(d: AdditiveMsetHash, ghost acc: seq<U32>, e: U32)
    requires d.Valid() && (d.hash, d.count) == DigestOf(d.nonce, acc)
    modifies d
    ensures d.Valid() && (d.hash, d.count) == DigestOf(d.nonce, acc + [e])
  {
    d.Add(e);
    assert (acc + [e])[..|acc|] == acc;
    ModArith.ModAdd(|acc|, 1, MSET_L);
    ModArith.ModSmall(1, MSET_L);
  }

  /** The elements the final digest loop of validate adds, from position i
    * on: a position in skip is passed over, and so is an element whose key
    * is still in removed, its key then taken out of removed. */
  function Survivors(elems: seq<U32>, i: nat, skip: set<nat>, removed: set<U32>, key: U32 -> U32): seq<U32>
    requires i <= |elems|
    decreases |elems| - i
  {
    if i == |elems| then []
    else if i in skip then Survivors(elems, i + 1, skip, removed, key)
    else if key(elems[i]) in removed then Survivors(elems, i + 1, skip, removed - {key(elems[i])}, key)
    else [elems[i]] + Survivors(elems, i + 1, skip, removed, key)
  }

  /** The elements that loop passes over, in the same walk. */
  function Passed(elems: seq<U32>, i: nat, skip: set<nat>, removed: set<U32>, key: U32 -> U32): seq<U32>
    requires i <= |elems|
    decreases |elems| - i
  {
    if i == |elems| then []
    else if i in skip then [elems[i]] + Passed(elems, i + 1, skip, removed, key)
    else if key(elems[i]) in removed then [elems[i]] + Passed(elems, i + 1, skip, removed - {key(elems[i])}, key)
    else Passed(elems, i + 1, skip, removed, key)
  }

  /** Every element from position i on is either added or passed over. */
  lemma {:induction false} SurvivorsSplit(elems: seq<U32>, i: nat, skip: set<nat>, removed: set<U32>, key: U32 -> U32)
    requires i <= |elems|
    ensures multiset(Survivors(elems, i, skip, removed, key)) + multiset(Passed(elems, i, skip, removed, key))
         == multiset(elems[i..])
    decreases |elems| - i
  {
    if i < |elems| {
      assert elems[i..] == [elems[i]] + elems[i + 1..];
      if i in skip {
        SurvivorsSplit(elems, i + 1, skip, removed, key);
      } else if key(elems[i]) in removed {
        SurvivorsSplit(elems, i + 1, skip, removed - {key(elems[i])}, key);
      } else {
        SurvivorsSplit(elems, i + 1, skip, removed, key);
      }
    }
  }

  /** With nothing to skip and nothing removed, every element is added. */
  lemma {:induction false} SurvivorsNone(elems: seq<U32>, i: nat, key: U32 -> U32)
    requires i <= |elems|
    ensures Survivors(elems, i, {}, {}, key) == elems[i..]
    decreases |elems| - i
  {
    if i < |elems| {
      SurvivorsNone(elems, i + 1, key);
      assert elems[i..] == [elems[i]] + elems[i + 1..];
    }
  }

  /** Elements of the same multiset have the same digest. */
  lemma SameElementsSameDigest(s: seq<U32>, log: seq<U32>)
    requires multiset(s) == multiset(log)
    ensures SameDigest(s, log)
  {
    TotalOrderFree(s, log);
    assert |s| == |multiset(s)| == |log|;
  }

  /** When the elements passed over are exactly what the received list
    * holds beyond the log, the digest recheck accepts. */
  lemma ExactDropsAccepted(elems: seq<U32>, log: seq<U32>, skip: set<nat>, removed: set<U32>, key: U32 -> U32)
    requires multiset(elems) == multiset(log) + multiset(Passed(elems, 0, skip, removed, key))
    ensures SameDigest(Survivors(elems, 0, skip, removed, key), log)
  {
    var S, P := Survivors(elems, 0, skip, removed, key), Passed(elems, 0, skip, removed, key);
    SurvivorsSplit(elems, 0, skip, removed, key);
    assert elems[0..] == elems;
    var MS, MP, ML := multiset(S), multiset(P), multiset(log);
    assert MS + MP == ML + MP;
    assert MS == ML by {
      forall x
        ensures MS[x] == ML[x]
      {
        assert (MS + MP)[x] == (ML + MP)[x];
      }
    }
    SameElementsSameDigest(S, log);
  }

  /** The final digest loop of validate: a fresh digest with the given
    * nonce, to which the survivors are added one at a time. */
  method DigestSurvivors(elems: seq<U32>, skip: set<nat>, removed: set<U32>, key: U32 -> U32, nonce: U32)
    returns (d: AdditiveMsetHash)
    ensures fresh(d) && d.Valid() && d.nonce == nonce
    ensures (d.hash, d.count) == DigestOf(nonce, Survivors(elems, 0, skip, removed, key))
  {
    d := new AdditiveMsetHash(nonce);
    ghost var acc: seq<U32> := [];
    var left := removed;
    for i := 0 to |elems|
      invariant d.Valid() && d.nonce == nonce && (d.hash, d.count) == DigestOf(nonce, acc)
      invariant Survivors(elems, 0, skip, removed, key) == acc + Survivors(elems, i, skip, left, key)
    {
      left, acc := SurviveOne(d, acc, elems, i, skip, left, key);
    }
    assert acc + Survivors(elems, |elems|, skip, left, key) == acc;
  }

  /** One pass of the final digest loop, at position i. */
  method SurviveOne(d: AdditiveMsetHash, ghost acc: seq<U32>, elems: seq<U32>, i: nat, skip: set<nat>, left: set<U32>,
                    key: U32 -> U32)
    returns (left': set<U32>, ghost acc': seq<U32>)
    requires i < |elems| && d.Valid() && (d.hash, d.count) == DigestOf(d.nonce, acc)
    modifies d
    ensures d.Valid() && (d.hash, d.count) == DigestOf(d.nonce, acc')
    ensures acc + Survivors(elems, i, skip, left, key) == acc' + Survivors(elems, i + 1, skip, left', key)
  {
    left', acc' := left, acc;
    if i in skip {
      return;
    }
    var k := key(elems[i]);
    if k in left {
      left' := left - {k};
      return;
    }
    AddLogged(d, acc, elems[i]);
    acc' := acc + [elems[i]];
    assert acc + ([elems[i]] + Survivors(elems, i + 1, skip, left, key)) == acc' + Survivors(elems, i + 1, skip, left, key);
  }

  // ---------------------------------------------------------------------
  // The difference table and its candidates

  /** The received table passes the cell-by-cell comparison with the
    * router's. */
  predicate Consistent(t: InvBloomLookupTable, key: U32 -> U32, elems: seq<U32>, log: seq<U32>)
    requires t.numEntries > 0
  {
    Passes(CountersOf(t, key, elems), CountersOf(t, key, log), DataOf(t, key, elems), DataOf(t, key, log))
  }

  /** The difference table after peeling the values of order. */
  ghost function Peeled(t: InvBloomLookupTable, key: U32 -> U32, elems: seq<U32>, log: seq<U32>, order: seq<U32>): (seq<int>, seq<int>)
    requires t.numEntries > 0
  {
    t.Peel(CountDiff(CountersOf(t, key, elems), CountersOf(t, key, log)),
           DataDiffs(DataOf(t, key, elems), DataOf(t, key, log)), order)
  }

  /** For each received element, whether the counters D are non-zero on
    * all the cells of its key. */
  function Hits(t: InvBloomLookupTable, key: U32 -> U32, D: seq<int>, elems: seq<U32>): (h: seq<bool>)
    requires t.numEntries > 0
    ensures |h| == |elems|
  {
    seq(|elems|, j requires 0 <= j < |elems| => AccumulatorLib.Covered(D, t.Indexes(key(elems[j]))))
  }

  /** pkt_hashes: the cells of each candidate among the first i elements,
    * one candidate after the other. */
  function PktHashes(t: InvBloomLookupTable, key: U32 -> U32, h: seq<bool>, elems: seq<U32>, i: nat): seq<nat>
    requires t.numEntries > 0 && |h| == |elems| && i <= |elems|
  {
    if i == 0 then [] else PktHashes(t, key, h, elems, i - 1) + (if h[i - 1] then t.Indexes(key(elems[i - 1])) else [])
  }

  /** Tables with the same cells for every item see the same hits. */
  lemma HitsAlike(t: InvBloomLookupTable, u: InvBloomLookupTable, key: U32 -> U32, D: seq<int>, elems: seq<U32>)
    requires t.numEntries == u.numEntries > 0
    requires forall item :: t.Indexes(item) == u.Indexes(item)
    ensures Hits(t, key, D, elems) == Hits(u, key, D, elems)
  {
  }

  /** Tables with the same cells for every item list the same cells. */
  lemma {:induction false} PktHashesAlike(t: InvBloomLookupTable, u: InvBloomLookupTable, key: U32 -> U32, h: seq<bool>, elems: seq<U32>, i: nat)
    requires t.numEntries == u.numEntries > 0 && |h| == |elems| && i <= |elems|
    requires forall item :: t.Indexes(item) == u.Indexes(item)
    ensures PktHashes(t, key, h, elems, i) == PktHashes(u, key, h, elems, i)
    decreases i
  {
    if i > 0 {
      PktHashesAlike(t, u, key, h, elems, i - 1);
      assert t.Indexes(key(elems[i - 1])) == u.Indexes(key(elems[i - 1]));
    }
  }

  /** Tables with the same cells for every item peel alike. */
  lemma {:induction false} PeelAlike(t: InvBloomLookupTable, u: InvBloomLookupTable, c: seq<int>, d: seq<int>, order: seq<U32>)
    requires t.numEntries == u.numEntries > 0 && t.maxValue == u.maxValue
    requires forall item :: t.Indexes(item) == u.Indexes(item)
    ensures t.Peel(c, d, order) == u.Peel(c, d, order)
    decreases |order|
  {
    if |order| > 0 {
      var init, v := order[..|order| - 1], order[|order| - 1];
      PeelAlike(t, u, c, d, init);
      assert t.Indexes(v) == u.Indexes(v);
      assert t.PeelOne(t.Peel(c, d, init), v) == u.PeelOne(u.Peel(c, d, init), v);
    }
  }

  /** A value peeled twice leaves order with a repeat. */
  lemma RepeatNotDistinct(order: seq<U32>)
    requires |order| > 0 && order[|order| - 1] in order[..|order| - 1]
    ensures !Distinct(order)
  {
    var k :| 0 <= k < |order| - 1 && order[k] == order[|order| - 1];
  }

  // ---------------------------------------------------------------------
  // The accumulator

  /** What validate reaches without the external solver: a verdict, a
    * panic (one of its assert!s failing), or the system it hands to the
    * solver (the peeled difference counters, the candidate positions,
    * their cells, the number of dropped elements still to find and the
    * keys already peeled). */
  datatype Outcome =
    | Decided(valid: bool)
    | Panicked
    | SolveIlp(counters: seq<int>, candidates: seq<nat>, pktHashes: seq<nat>, nRemaining: nat, removed: set<U32>)

  class IBLTAccumulator {
    const digest: AdditiveMsetHash
    var numElems: nat
    const iblt: InvBloomLookupTable
    /** elem_to_u32. */
    const key: U32 -> U32
    /** The elements processed so far, in order. */
    ghost var log: seq<U32>

    /** The digest and the count describe the log, and the table holds the
      * counters and data of the log. */
    ghost predicate Valid()
      reads this, digest, iblt, iblt.counters, iblt.data
    {
      digest.Valid() && iblt.Valid() && iblt.numEntries > 0 && iblt.bitsPerEntry == BITS_PER_ENTRY
      && (digest.hash, digest.count) == DigestOf(digest.nonce, log)
      && numElems == |log|
      && iblt.counters[..] == CountersOf(iblt, key, log) && iblt.data[..] == DataOf(iblt, key, log)
    }

    /** new(threshold): a fresh digest and an empty table of 16-bit
      * counters with four cells per expected element. The threshold must
      * fit in a u32. The digest's random nonce, the table's random hash
      * keys and elem_to_u32 are given. */
    constructor(threshold: nat, nonce: U32, one: Hasher, two: Hasher, key: U32 -> U32)
      requires 0 < threshold < U32_LIMIT
      ensures Valid() && log == [] && fresh(digest) && fresh(iblt) && fresh(iblt.counters) && fresh(iblt.data)
      ensures digest.nonce == nonce && this.key == key
      ensures iblt.numEntries == 4 * threshold && iblt.numHashes == 2 && iblt.one == one && iblt.two == two
    {
      digest := new AdditiveMsetHash(nonce);
      numElems := 0;
      iblt := new InvBloomLookupTable.WithRate(BITS_PER_ENTRY, threshold, one, two);
      this.key := key;
      log := [];
      new;
      TableEmpty(iblt, key);
    }

    /** process(elem): adds elem to the digest, counts it and inserts its
      * key into the table. */
    method Process(elem: U32)
      requires Valid()
      modifies this, digest, iblt.counters, iblt.data
      ensures Valid() && log == old(log) + [elem]
    {
      AddLogged(digest, log, elem);
      numElems := numElems + 1;
      InsertKey(iblt, key, log, elem);
      log := log + [elem];
    }

    /** process_batch(elems): process on each element in order. */
    method ProcessBatch(elems: seq<U32>)
      requires Valid()
      modifies this, digest, iblt.counters, iblt.data
      ensures Valid() && log == old(log) + elems
    {
      for i := 0 to |elems|
        invariant Valid() && log == old(log) + elems[..i]
      {
        Process(elems[i]);
        assert elems[..i + 1] == elems[..i] + [elems[i]];
      }
      assert elems[..|elems|] == elems;
    }

    /** total(): the number of processed elements. */
    function Total(): (n: nat)
      reads this, digest, iblt, iblt.counters, iblt.data
      requires Valid()
      ensures n == |log|
    {
      numElems
    }

    /** What equals compares: the digests field by field, the counts and
      * the tables. */
    ghost predicate SameAs(other: IBLTAccumulator)
      reads this, digest, iblt, iblt.counters, iblt.data
      reads other, other.digest, other.iblt, other.iblt.counters, other.iblt.data
    {
      digest.hash == other.digest.hash && digest.count == other.digest.count && digest.nonce == other.digest.nonce
      && numElems == other.numElems && iblt.SameAs(other.iblt)
    }

    /** equals(other). */
    method Equals(other: IBLTAccumulator) returns (r: bool)
      requires Valid() && other.Valid()
      ensures r <==> SameAs(other)
    {
      if digest.hash != other.digest.hash || digest.count != other.digest.count || digest.nonce != other.digest.nonce
        || numElems != other.numElems
      {
        return false;
      }
      r := iblt.Equals(other.iblt);
    }

    /** validate(elems) up to the solver call, with nonce the fresh
      * digests' nonce. A shorter list than the log is rejected; a list as
      * long as the log is accepted exactly when its digest matches.
      * Otherwise the list's table is rebuilt and the router's subtracted
      * with the corrected data difference (see Subtract); a cell whose count
      * falls short, or whose count cancels while its data does not,
      * rejects. The difference is then peeled (order is the
      * sequence of peeled keys). When as many keys were peeled as elements
      * were dropped, the digest of the list without them must match, or
      * validate panics; otherwise the remaining candidates go to the
      * solver. */
    method Validate(elems: seq<U32>, nonce: U32) returns (r: Outcome, ghost order: seq<U32>)
      requires Valid()
      ensures |elems| < |log| ==> r == Decided(false)
      ensures |elems| == |log| ==> r == Decided(SameDigest(elems, log))
      ensures |elems| > |log| ==> (r == Decided(false) <==> !Consistent(iblt, key, elems, log))
      ensures |elems| > |log| && r == Decided(true) ==>
                Distinct(order) && |Members(order)| == |elems| - |log|
                && SameDigest(Survivors(elems, 0, {}, Members(order), key), log)
      ensures r == Panicked ==>
                |elems| > |log| && Consistent(iblt, key, elems, log)
                && (!Distinct(order)
                    || (|Members(order)| == |elems| - |log| && !SameDigest(Survivors(elems, 0, {}, Members(order), key), log))
                    || |Members(order)| > |elems| - |log|
                    || |elems| - |log| - |Members(order)| > |Candidates(elems, order)|)
      ensures r.SolveIlp? ==>
                |elems| > |log| && Consistent(iblt, key, elems, log) && Distinct(order)
                && r.removed == Members(order) && r.nRemaining == |elems| - |log| - |r.removed| > 0
                && r.counters == Peeled(iblt, key, elems, log, order).0
                && r.candidates == Candidates(elems, order) && r.nRemaining <= |r.candidates|
                && r.pktHashes == PktHashes(iblt, key, Hits(iblt, key, r.counters, elems), elems, |elems|)
    {
      order := [];
      if |elems| < numElems {
        return Decided(false), order;
      }
      var nDropped := |elems| - numElems;
      if nDropped == 0 {
        var d := new AdditiveMsetHash(nonce);
        d.AddAll(elems);
        CountAfterIsSum(0, |elems|);
        DigestsEqualIff(nonce, elems, digest.nonce, log);
        return Decided(d.Equals(digest)), order;
      }
      var t := iblt.EmptyClone();
      TableAlike(t, iblt, key, elems);
      TableAlike(t, iblt, key, log);
      InsertList(t, key, elems);
      var ok := Subtract(t, iblt);
      if !ok {
        return Decided(false), order;
      }
      r, order := Resolve(t, iblt, key, elems, nDropped, digest, log, nonce);
    }

    /** The candidates validate lists once the keys of order are peeled. */
    ghost function Candidates(elems: seq<U32>, order: seq<U32>): seq<nat>
      reads this, iblt
      requires iblt.numEntries > 0
    {
      AccumulatorLib.Candidates(Hits(iblt, key, Peeled(iblt, key, elems, log, order).0, elems), |elems|)
    }

    /** The verdict after the solver: err is its status, dropped the
      * positions in elems_i it picked and removed the peeled keys. The
      * digest is rechecked without the picked positions and without one
      * element per peeled key. Indexing elems_i panics when the solver
      * answers out of range; that is excluded. */
    method Conclude(elems: seq<U32>, elemsI: seq<nat>, removed: set<U32>, err: int, dropped: seq<nat>, nonce: U32)
      returns (valid: bool)
      requires Valid()
      requires forall j :: 0 <= j < |dropped| ==> dropped[j] < |elemsI|
      ensures valid <==> err == 0 && SameDigest(Survivors(elems, 0, DroppedIs(elemsI, dropped), removed, key), log)
    {
      if err != 0 {
        return false;
      }
      var d := DigestSurvivors(elems, DroppedIs(elemsI, dropped), removed, key, nonce);
      DigestsEqualIff(nonce, Survivors(elems, 0, DroppedIs(elemsI, dropped), removed, key), digest.nonce, log);
      valid := d.Equals(digest);
    }
  }

  /** The part of validate after the difference table t has passed the
    * comparison: t is peeled, then either the digest of the received list
    * without the peeled keys is rechecked (when as many keys were peeled
    * as elements were dropped) or the remaining candidates are listed. The
    * table u has t's cells. */
  method Resolve(t: InvBloomLookupTable, u: InvBloomLookupTable, key: U32 -> U32, elems: seq<U32>, nDropped: nat,
                 digest: AdditiveMsetHash, ghost log: seq<U32>, nonce: U32)
    returns (r: Outcome, ghost order: seq<U32>)
    requires t.Valid() && t.numEntries == u.numEntries > 0 && t.maxValue == u.maxValue
    requires forall item :: t.Indexes(item) == u.Indexes(item)
    requires digest.Valid() && (digest.hash, digest.count) == DigestOf(digest.nonce, log) && nDropped > 0
    modifies t.counters, t.data
    ensures r != Decided(false)
    ensures r == Decided(true) ==>
              Distinct(order) && |Members(order)| == nDropped && SameDigest(Survivors(elems, 0, {}, Members(order), key), log)
    ensures r == Panicked ==>
              !Distinct(order)
              || (|Members(order)| == nDropped && !SameDigest(Survivors(elems, 0, {}, Members(order), key), log))
              || |Members(order)| > nDropped
              || nDropped - |Members(order)|
                   > |AccumulatorLib.Candidates(Hits(u, key, u.Peel(old(t.counters[..]), old(t.data[..]), order).0, elems), |elems|)|
    ensures r.SolveIlp? ==>
              Distinct(order) && r.removed == Members(order) && r.nRemaining == nDropped - |r.removed| > 0
              && r.counters == u.Peel(old(t.counters[..]), old(t.data[..]), order).0
              && r.candidates == AccumulatorLib.Candidates(Hits(u, key, r.counters, elems), |elems|)
              && r.nRemaining <= |r.candidates|
              && r.pktHashes == PktHashes(u, key, Hits(u, key, r.counters, elems), elems, |elems|)
  {
    var removed, distinct;
    removed, distinct, order := t.EliminateElems();
    PeelAlike(t, u, old(t.counters[..]), old(t.data[..]), order);
    if !distinct {
      RepeatNotDistinct(order);
      return Panicked, order;
    }
    if |removed| == nDropped {
      var d := DigestSurvivors(elems, {}, removed, key, nonce);
      DigestsEqualIff(nonce, Survivors(elems, 0, {}, removed, key), digest.nonce, log);
      if !d.Equals(digest) {
        return Panicked, order;
      }
      return Decided(true), order;
    }
    var elemsI, pktHashes := ListCandidates(t, key, elems);
    HitsAlike(t, u, key, t.counters[..], elems);
    PktHashesAlike(t, u, key, Hits(t, key, t.counters[..], elems), elems, |elems|);
    if nDropped < |removed| {
      return Panicked, order;
    }
    var nRemaining := nDropped - |removed|;
    if nRemaining > |elemsI| {
      return Panicked, order;
    }
    r := SolveIlp(t.counters[..], elemsI, pktHashes, nRemaining, removed);
  }

  /** dropped_is: the positions in elems of the solver's picks. */
  function DroppedIs(elemsI: seq<nat>, dropped: seq<nat>): (r: set<nat>)
    requires forall j :: 0 <= j < |dropped| ==> dropped[j] < |elemsI|
    ensures forall i :: i in r <==> exists j :: 0 <= j < |dropped| && elemsI[dropped[j]] == i
  {
    set j | 0 <= j < |dropped| :: elemsI[dropped[j]]
  }

  /** Two accumulators with the same nonce, table shape, hash keys and key
    * function, whose logs hold the same elements in any order, compare
    * equal. */
  lemma SameLogsEqual(a: IBLTAccumulator, b: IBLTAccumulator)
    requires a.Valid() && b.Valid() && a.digest.nonce == b.digest.nonce && a.key == b.key
    requires a.iblt.numEntries == b.iblt.numEntries && a.iblt.numHashes == b.iblt.numHashes
    requires a.iblt.one == b.iblt.one && a.iblt.two == b.iblt.two && a.iblt.bitsPerEntry == b.iblt.bitsPerEntry
    requires multiset(a.log) == multiset(b.log)
    ensures a.SameAs(b)
  {
    assert |a.log| == |multiset(a.log)| == |b.log|;
    AccumulateTotal(a.digest.nonce, a.log);
    AccumulateTotal(a.digest.nonce, b.log);
    TotalOrderFree(a.log, b.log);
    TableOrderFree(a.iblt, a.key, a.log, b.log);
    TableAlike(a.iblt, b.iblt, a.key, b.log);
  }

  /** insert(key(e)) on a table holding the table of s. */
  method InsertKey(t: InvBloomLookupTable, key: U32 -> U32, ghost s: seq<U32>, e: U32)
    requires t.Valid() && t.numEntries > 0
    requires t.counters[..] == CountersOf(t, key, s) && t.data[..] == DataOf(t, key, s)
    modifies t.counters, t.data
    ensures t.Valid() && t.counters[..] == CountersOf(t, key, s + [e]) && t.data[..] == DataOf(t, key, s + [e])
  {
    var _ := t.Insert(key(e));
    TableAppend(t, key, s, e);
  }

  /** Inserts the key of every element of elems, in order, into the empty
    * table t. */
  method InsertList(t: InvBloomLookupTable, key: U32 -> U32, elems: seq<U32>)
    requires t.Valid() && t.numEntries > 0
    requires t.counters[..] == Zeros(t.numEntries) && t.data[..] == Zeros(t.numEntries)
    modifies t.counters, t.data
    ensures t.Valid() && t.counters[..] == CountersOf(t, key, elems) && t.data[..] == DataOf(t, key, elems)
  {
    TableEmpty(t, key);
    for i := 0 to |elems|
      invariant t.Valid() && t.counters[..] == CountersOf(t, key, elems[..i]) && t.data[..] == DataOf(t, key, elems[..i])
    {
      InsertKey(t, key, elems[..i], elems[i]);
      assert elems[..i + 1] == elems[..i] + [elems[i]];
    }
    assert elems[..|elems|] == elems;
  }

  /** The per-cell loop of validate: each counter of t becomes t's minus
    * f's and each data word the corrected difference DataDiff, t's minus
    * f's with u32 wrap-around; ok is false as soon as a counter of t is
    * below f's, or a count cancels while the data does not. The library
    * computes (u32::MAX - received) + processed when processed < received,
    * which is one less (DataDiffAsWritten); this loop uses the intended
    * difference instead. */
  method Subtract(t: InvBloomLookupTable, f: InvBloomLookupTable) returns (ok: bool)
    requires t.Valid() && f.Valid() && t.numEntries == f.numEntries && t.maxValue == f.maxValue
    requires t.counters != f.counters && t.data != f.data
    modifies t.counters, t.data
    ensures ok <==> Passes(old(t.counters[..]), f.counters[..], old(t.data[..]), f.data[..])
    ensures ok ==> t.Valid() && t.counters[..] == CountDiff(old(t.counters[..]), f.counters[..])
                   && t.data[..] == DataDiffs(old(t.data[..]), f.data[..])
  {
    ghost var P, Q, PD, QD := t.counters[..], f.counters[..], t.data[..], f.data[..];
    for i := 0 to t.numEntries
      invariant t.Valid() && f.counters[..] == Q && f.data[..] == QD
      invariant forall x :: 0 <= x < i ==> Q[x] <= P[x] && (P[x] == Q[x] ==> DataDiff(PD[x], QD[x]) == 0)
      invariant forall x :: 0 <= x < i ==> t.counters[x] == P[x] - Q[x] && t.data[x] == DataDiff(PD[x], QD[x])
      invariant forall x :: i <= x < t.numEntries ==> t.counters[x] == P[x] && t.data[x] == PD[x]
    {
      var processed := t.counters[i];
      var received := f.counters[i];
      if processed < received {
        return false;
      }
      var differenceCount := processed - received;
      t.counters[i] := differenceCount;
      var differenceData := DataDiff(t.data[i], f.data[i]);
      if differenceCount == 0 && differenceData != 0 {
        return false;
      }
      t.data[i] := differenceData;
    }
    assert t.counters[..] == CountDiff(P, Q);
    assert t.data[..] == DataDiffs(PD, QD);
    return true;
  }

  /** contains(item) on the table is Covered on its counters. */
  method ContainsKey(t: InvBloomLookupTable, item: U32) returns (has: bool)
    requires t.Valid() && t.numEntries > 0
    ensures has == AccumulatorLib.Covered(t.counters[..], t.Indexes(item))
  {
    has := t.Contains(item);
  }

  /** The candidate loop of validate: the positions of the received
    * elements that the difference table t contains, and their cells. */
  method ListCandidates(t: InvBloomLookupTable, key: U32 -> U32, elems: seq<U32>) returns (elemsI: seq<nat>, pktHashes: seq<nat>)
    requires t.Valid() && t.numEntries > 0
    ensures elemsI == AccumulatorLib.Candidates(Hits(t, key, t.counters[..], elems), |elems|)
    ensures pktHashes == PktHashes(t, key, Hits(t, key, t.counters[..], elems), elems, |elems|)
  {
    ghost var h := Hits(t, key, t.counters[..], elems);
    elemsI, pktHashes := [], [];
    for i := 0 to |elems|
      invariant elemsI == AccumulatorLib.Candidates(h, i)
      invariant pktHashes == PktHashes(t, key, h, elems, i)
    {
      elemsI, pktHashes := ListOne(t, key, elems, h, i, elemsI, pktHashes);
    }
  }

  /** One pass of the candidate loop: element i joins the candidates, and
    * its cells the cell list, when t contains its key. */
  method ListOne(t: InvBloomLookupTable, key: U32 -> U32, elems: seq<U32>, ghost h: seq<bool>, i: nat,
                 elemsI: seq<nat>, pktHashes: seq<nat>)
    returns (elemsI': seq<nat>, pktHashes': seq<nat>)
    requires t.Valid() && t.numEntries > 0 && i < |elems| && h == Hits(t, key, t.counters[..], elems)
    ensures elemsI' == elemsI + (if h[i] then [i] else [])
    ensures pktHashes' == pktHashes + (if h[i] then t.Indexes(key(elems[i])) else [])
  {
    var item := key(elems[i]);
    var has := ContainsKey(t, item);
    assert has == h[i];
    elemsI', pktHashes' := elemsI, pktHashes;
    if has {
      elemsI' := elemsI + [i];
      pktHashes' := pktHashes + t.Indexes(item);
    }
  }
}
