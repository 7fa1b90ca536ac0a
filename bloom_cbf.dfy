// The counting Bloom filter of the subset digest (bloom-sd/src/cbf.rs).
// ValueVec is an array of counters bounded by its max_value; the sizing
// from a false-positive rate (bloom::needed_bits, optimal_num_hashes) is
// given to the constructor as num_entries and num_hashes.

module BloomCbf {
  import opened Common
  import opened BloomHashing
  import opened BloomCounters

  class CountingBloomFilter {
    var counters: array<int>
    const numEntries: nat
    const numHashes: U32
    const bitsPerEntry: nat
    const maxValue: nat
    const one: Hasher
    const two: Hasher

    ghost predicate Valid()
      reads this, counters
    {
      counters.Length == numEntries > 0 && maxValue == MaxValue(bitsPerEntry)
      && forall x :: 0 <= x < numEntries ==> 0 <= counters[x] <= maxValue
    }

    /** with_rate: num_entries counters of bits_per_entry bits, all zero,
      * and two hashers. */
    constructor WithRate(bitsPerEntry: nat, numEntries: nat, numHashes: U32, one: Hasher, two: Hasher)
      requires numEntries > 0
      ensures Valid() && fresh(counters)
      ensures this.numEntries == numEntries && this.numHashes == numHashes && this.bitsPerEntry == bitsPerEntry
      ensures this.one == one && this.two == two
      ensures counters[..] == Zeros(numEntries)
    {
      this.bitsPerEntry := bitsPerEntry;
      this.numEntries := numEntries;
      this.numHashes := numHashes;
      maxValue := MaxValue(bitsPerEntry);
      this.one := one;
      this.two := two;
      counters := new int[numEntries](x => 0);
    }

    /** indexes(item): the item's cells. */
    function Indexes(item: int): (r: seq<nat>)
      requires numEntries > 0
      ensures |r| == numHashes && InRange(r, numEntries)
    {
      Positions(one.hash(item), two.hash(item), numHashes, numEntries)
    }

    /** insert(item): adds one to each cell of the item and answers whether
      * the smallest counter read was positive, i.e. whether every cell was
      * already positive. The library panics when a counter is already at
      * its maximum; that is excluded here. */
    method Insert(item: int) returns (present: bool)
      requires Valid()
      requires Fits(counters[..], Indexes(item), maxValue)
      modifies counters
      ensures Valid()
      ensures BumpedBy(counters[..], old(counters[..]), Indexes(item))
      ensures present <==> AllPositive(old(counters[..]), Indexes(item), numHashes)
    {
      ghost var c0, I := counters[..], Indexes(item);
      var hs := Values(item, numHashes, one, two);
      present := InsertAll(hs, c0, I);
    }

    /** The loop of insert over the item's hash values hs, whose cells are
      * I: it keeps the smallest counter read in min and adds one to each
      * cell. */
    method InsertAll(hs: seq<U64>, ghost c0: seq<int>, ghost I: seq<nat>) returns (present: bool)
      requires Valid() && counters[..] == c0 && I == Reduce(hs, numEntries)
      requires Ready(c0, I, maxValue)
      modifies counters
      ensures Valid() && BumpedBy(counters[..], c0, I)
      ensures present <==> AllPositive(c0, I, |I|)
    {
      var min := U32_MAX;
      assert Bounded(c0, maxValue);
      for k := 0 to |hs|
        invariant Inserting(c0, I, k, min)
      {
        min := InsertCell(hs[k] % numEntries, min, c0, I, k);
      }
      present := min > 0;
      InsertDone(c0, I);
    }

    /** After the last cell the counters are c0 bumped along all of I, and
      * still within bounds. */
    lemma InsertDone(c0: seq<int>, I: seq<nat>)
      requires counters.Length == numEntries > 0 && maxValue == MaxValue(bitsPerEntry)
      requires Ready(c0, I, maxValue) && Bounded(c0, maxValue)
      requires PartlyBumped(counters[..], c0, I, |I|)
      ensures Valid() && BumpedBy(counters[..], c0, I)
    {
      FullyBumped(counters[..], c0, I);
      BumpedBounded(c0, I, maxValue);
    }

    /** The state of insert after k steps over the cells I of counters that
      * held c0: each cell counted once per occurrence so far, and the
      * running minimum min positive exactly when every cell so far was. */
    ghost predicate Inserting(c0: seq<int>, I: seq<nat>, k: nat, min: int)
      reads this, counters
    {
      Ready(c0, I, maxValue) && PartlyBumped(counters[..], c0, I, k) && (min > 0 <==> AllPositive(c0, I, k))
    }

    /** One pass of insert's loop: read the k-th cell, fold it into the
      * running minimum, and add one to it. */
    method InsertCell(idx: nat, min: int, ghost c0: seq<int>, ghost I: seq<nat>, ghost k: nat) returns (min': int)
      requires k < |I| && idx == I[k] && Inserting(c0, I, k, min)
      modifies counters
      ensures Inserting(c0, I, k + 1, min')
    {
      var cur := counters[idx];
      assert cur == Read(c0, I, k);
      ReadFits(c0, I, k, maxValue);
      ReadPositive(c0, I, k);
      min' := min;
      if cur < min' {
        min' := cur;
      }
      if cur < maxValue {
        counters[idx] := cur + 1;
      } else {
        assert false;
      }
    }

    /** contains(item): false as soon as a cell of the item is zero. */
    method Contains(item: int) returns (r: bool)
      requires Valid()
      ensures r <==> forall k :: 0 <= k < numHashes ==> counters[Indexes(item)[k]] != 0
    {
      ghost var I := Indexes(item);
      var hs := Values(item, numHashes, one, two);
      for k := 0 to |hs|
        invariant forall j :: 0 <= j < k ==> counters[I[j]] != 0
      {
        if counters[hs[k] % numEntries] == 0 {
          return false;
        }
      }
      return true;
    }

    /** empty_clone(): the same sizes and hashers with every counter zero,
      * so the clone computes the same cells for every item. */
    method EmptyClone() returns (c: CountingBloomFilter)
      requires Valid()
      ensures fresh(c) && fresh(c.counters) && c.Valid()
      ensures c.numEntries == numEntries && c.numHashes == numHashes && c.bitsPerEntry == bitsPerEntry
      ensures c.one == one && c.two == two && c.maxValue == maxValue
      ensures c.counters[..] == Zeros(numEntries)
      ensures forall item :: c.Indexes(item) == Indexes(item)
    {
      c := new CountingBloomFilter.WithRate(bitsPerEntry, numEntries, numHashes, one, two);
    }
  }

  /** c holds c0 plus one per occurrence of a cell among the first k cells
    * of I. */
  predicate PartlyBumped(c: seq<int>, c0: seq<int>, I: seq<nat>, k: nat)
  {
    k <= |I| && |c0| == |c|
    && forall x :: 0 <= x < |c| ==> c[x] == c0[x] + Count(I, k, x)
  }

  /** c is c0 after one increment per occurrence of a cell in I. */
  predicate BumpedBy(c: seq<int>, c0: seq<int>, I: seq<nat>)
  {
    c == Bumped(c0, I)
  }

  /** Once all of I is counted, c is c0 bumped by I. */
  lemma FullyBumped(c: seq<int>, c0: seq<int>, I: seq<nat>)
    requires PartlyBumped(c, c0, I, |I|)
    ensures BumpedBy(c, c0, I)
  {
    forall x | 0 <= x < |c|
      ensures Count(I, |I|, x) == multiset(I)[x]
    {
      CountMultiplicity(I, |I|, x);
      assert I[..|I|] == I;
    }
  }

  /** Every counter of c lies within 0..max. */
  predicate Bounded(c: seq<int>, max: int)
  {
    forall x :: 0 <= x < |c| ==> 0 <= c[x] <= max
  }

  /** Bumping counters that lie within 0..max by cells that fit keeps them
    * within 0..max. */
  lemma BumpedBounded(c0: seq<int>, I: seq<nat>, max: int)
    requires Ready(c0, I, max) && forall x :: 0 <= x < |c0| ==> c0[x] <= max
    ensures forall x :: 0 <= x < |c0| ==> 0 <= Bumped(c0, I)[x] <= max
  {
    forall x | 0 <= x < |c0|
      ensures Bumped(c0, I)[x] <= max
    {
      if x in multiset(I) {
        var k :| 0 <= k < |I| && I[k] == x;
      }
    }
  }

  /** An insert into counters that are all zero answers false as soon as
    * the item has a cell, and leaves num_hashes in the counters. */
  lemma FirstInsert(n: nat, I: seq<nat>)
    requires InRange(I, n) && |I| > 0
    ensures !AllPositive(Zeros(n), I, |I|)
    ensures Sum(Bumped(Zeros(n), I)) == |I|
  {
    SumBumped(Zeros(n), I);
    SumZeros(n);
  }
}
