// The invertible Bloom lookup table of the subset digest
// (bloom-sd/src/iblt.rs). Each cell holds a counter that wraps around at
// its max_value and the wrapping u32 sum of the items hashed to it. Items
// are given already mapped to u32 (elem_to_u32 is the djb hash of the
// item's bytes and is left abstract); the SipHash builders are Hasher
// values.

module BloomIblt {
  import opened Common
  import opened BloomHashing
  import opened BloomCounters
  import ModArith

  class InvBloomLookupTable {
    var counters: array<int>
    var data: array<U32>
    const numEntries: nat
    const numHashes: U32
    const bitsPerEntry: nat
    const maxValue: nat
    const one: Hasher
    const two: Hasher

    ghost predicate Valid()
      reads this, counters, data
    {
      counters.Length == numEntries && data.Length == numEntries
      && maxValue == MaxValue(bitsPerEntry)
      && forall x :: 0 <= x < numEntries ==> 0 <= counters[x] <= maxValue
    }

    /** with_rate: two hashes and four cells per expected item, every
      * counter and every data word zero. The rate is not used. */
    constructor WithRate(bitsPerEntry: nat, expectedNumItems: U32, one: Hasher, two: Hasher)
      ensures Valid() && fresh(counters) && fresh(data)
      ensures numHashes == 2 && numEntries == 4 * expectedNumItems
      ensures this.bitsPerEntry == bitsPerEntry && this.one == one && this.two == two
      ensures counters[..] == Zeros(numEntries) && data[..] == Zeros(numEntries)
    {
      this.bitsPerEntry := bitsPerEntry;
      numHashes := 2;
      numEntries := 4 * expectedNumItems;
      maxValue := MaxValue(bitsPerEntry);
      this.one := one;
      this.two := two;
      counters := new int[4 * expectedNumItems](x => 0);
      data := new U32[4 * expectedNumItems](x => 0);
    }

    /** empty_clone(): the same sizes and hash keys, every counter and data
      * word zero. */
    method EmptyClone() returns (t: InvBloomLookupTable)
      requires Valid()
      ensures fresh(t) && fresh(t.counters) && fresh(t.data) && t.Valid()
      ensures t.numEntries == numEntries && t.numHashes == numHashes && t.bitsPerEntry == bitsPerEntry
      ensures t.one == one && t.two == two && t.maxValue == maxValue
      ensures t.counters[..] == Zeros(numEntries) && t.data[..] == Zeros(numEntries)
      ensures forall item :: numEntries > 0 ==> t.Indexes(item) == Indexes(item)
    {
      t := new InvBloomLookupTable.Shaped(bitsPerEntry, numEntries, numHashes, one, two);
    }

    /** A table of n empty cells with h hashes. */
    constructor Shaped(bitsPerEntry: nat, n: nat, h: U32, one: Hasher, two: Hasher)
      ensures Valid() && fresh(counters) && fresh(data)
      ensures numHashes == h && numEntries == n && this.bitsPerEntry == bitsPerEntry
      ensures maxValue == MaxValue(bitsPerEntry) && this.one == one && this.two == two
      ensures counters[..] == Zeros(n) && data[..] == Zeros(n)
    {
      this.bitsPerEntry := bitsPerEntry;
      numHashes := h;
      numEntries := n;
      maxValue := MaxValue(bitsPerEntry);
      this.one := one;
      this.two := two;
      counters := new int[n](x => 0);
      data := new U32[n](x => 0);
    }

    /** indexes(item): the item's cells. */
    function Indexes(item: U32): (r: seq<nat>)
      requires numEntries > 0
      ensures |r| == numHashes && InRange(r, numEntries)
    {
      Positions(one.hash(item), two.hash(item), numHashes, numEntries)
    }

    /** insert(item): each cell of the item gets one more on its counter,
      * wrapping to 0 past max_value, and the item added to its data with
      * u32 wrap-around; the answer is whether the smallest counter read
      * was positive. */
    method Insert(item: U32) returns (present: bool)
      requires Valid() && numEntries > 0
      modifies counters, data
      ensures Valid()
      ensures ShiftedBy(counters[..], old(counters[..]), Indexes(item), 1, maxValue + 1)
      ensures ShiftedBy(data[..], old(data[..]), Indexes(item), item, U32_LIMIT)
      ensures present <==> WrappedAllPositive(old(counters[..]), Indexes(item), numHashes, maxValue + 1)
    {
      ghost var c0, d0, I := counters[..], data[..], Indexes(item);
      var hs := Values(item, numHashes, one, two);
      present := InsertAll(hs, item, c0, d0, I);
    }

    /** The loop of insert over the item's hash values hs, whose cells are I. */
    method InsertAll(hs: seq<U64>, item: U32, ghost c0: seq<int>, ghost d0: seq<int>, ghost I: seq<nat>)
      returns (present: bool)
      requires Valid() && numEntries > 0 && counters[..] == c0 && data[..] == d0
      requires I == Reduce(hs, numEntries)
      modifies counters, data
      ensures Valid()
      ensures ShiftedBy(counters[..], c0, I, 1, maxValue + 1) && ShiftedBy(data[..], d0, I, item, U32_LIMIT)
      ensures present <==> WrappedAllPositive(c0, I, |I|, maxValue + 1)
    {
      var min := U32_MAX;
      ShiftsStart(c0, d0, I, 1, item);
      for k := 0 to |hs|
        invariant Shifting(c0, d0, I, k, 1, item)
        invariant min > 0 <==> WrappedAllPositive(c0, I, k, maxValue + 1)
      {
        min := InsertCell(hs[k] % numEntries, item, min, c0, d0, I, k);
      }
      present := min > 0;
      ShiftsDone(c0, d0, I, 1, item);
    }

    /** Before the first cell, a valid table is shifted by nothing. */
    lemma ShiftsStart(c0: seq<int>, d0: seq<int>, I: seq<nat>, v: int, w: int)
      requires Valid() && counters[..] == c0 && data[..] == d0
      ensures Shifting(c0, d0, I, 0, v, w)
    {
      ShiftStart(c0, I, v, maxValue + 1);
      ShiftStart(d0, I, w, U32_LIMIT);
    }

    /** After the last cell, the table is valid again and shifted along all
      * of I. */
    lemma ShiftsDone(c0: seq<int>, d0: seq<int>, I: seq<nat>, v: int, w: int)
      requires counters.Length == numEntries && data.Length == numEntries
      requires maxValue == MaxValue(bitsPerEntry)
      requires Shifting(c0, d0, I, |I|, v, w)
      ensures Valid()
      ensures ShiftedBy(counters[..], c0, I, v, maxValue + 1) && ShiftedBy(data[..], d0, I, w, U32_LIMIT)
    {
      FullyShifted(counters[..], c0, I, v, maxValue + 1);
      FullyShifted(data[..], d0, I, w, U32_LIMIT);
    }

    /** The state of insert and remove_u32 after k steps over the cells I:
      * counters shifted by v and data by w along the first k cells. */
    ghost predicate Shifting(c0: seq<int>, d0: seq<int>, I: seq<nat>, k: nat, v: int, w: int)
      reads this, counters, data
    {
      CountersShifted(c0, I, k, v) && DataShifted(d0, I, k, w)
    }

    /** One pass of insert's loop on cell idx. */
    method InsertCell(idx: nat, item: U32, min: int, ghost c0: seq<int>, ghost d0: seq<int>, ghost I: seq<nat>, ghost k: nat)
      returns (min': int)
      requires k < |I| && idx == I[k] && InRange(I, |c0|) && |d0| == |c0|
      requires Shifting(c0, d0, I, k, 1, item) && (min > 0 <==> WrappedAllPositive(c0, I, k, maxValue + 1))
      modifies counters, data
      ensures Shifting(c0, d0, I, k + 1, 1, item) && (min' > 0 <==> WrappedAllPositive(c0, I, k + 1, maxValue + 1))
    {
      var cur := IncrementCounter(idx, c0, I, k);
      min' := min;
      if cur < min' {
        min' := cur;
      }
      ShiftData(idx, item, d0, I, k);
    }

    /** The counters hold c0 shifted by v along the first k cells of I. */
    ghost predicate CountersShifted(c0: seq<int>, I: seq<nat>, k: nat, v: int)
      reads this, counters
    {
      PartlyShifted(counters[..], c0, I, k, v, maxValue + 1)
    }

    /** The data words hold d0 shifted by w along the first k cells of I. */
    ghost predicate DataShifted(d0: seq<int>, I: seq<nat>, k: nat, w: int)
      reads this, data
    {
      PartlyShifted(data[..], d0, I, k, w, U32_LIMIT)
    }

    /** insert's counter step: the value read, then one more, or 0 when the
      * counter was at max_value. */
    method IncrementCounter(idx: nat, ghost c0: seq<int>, ghost I: seq<nat>, ghost k: nat) returns (cur: int)
      requires k < |I| && idx == I[k] && InRange(I, |c0|) && CountersShifted(c0, I, k, 1)
      modifies counters
      ensures CountersShifted(c0, I, k + 1, 1)
      ensures cur == Read(c0, I, k) % (maxValue + 1)
    {
      cur := counters[idx];
      ghost var c := counters[..];
      PartlyShiftedStep(c, c0, I, k, 1, maxValue + 1);
      if cur < maxValue {
        counters[idx] := cur + 1;
        ModArith.ModSmall(cur + 1, maxValue + 1);
      } else {
        counters[idx] := 0;
        assert (cur + 1) % (maxValue + 1) == 0;
      }
      assert counters[..] == c[idx := (c[idx] + 1) % (maxValue + 1)];
    }

    /** remove_u32's counter step: one less, or max_value when the counter
      * was 0. */
    method DecrementCounter(idx: nat, ghost c0: seq<int>, ghost I: seq<nat>, ghost k: nat)
      requires k < |I| && idx == I[k] && InRange(I, |c0|) && CountersShifted(c0, I, k, -1)
      modifies counters
      ensures CountersShifted(c0, I, k + 1, -1)
    {
      var cur := counters[idx];
      ghost var c := counters[..];
      PartlyShiftedStep(c, c0, I, k, -1, maxValue + 1);
      if cur == 0 {
        counters[idx] := maxValue;
        WrapBelowZero(maxValue + 1);
      } else {
        counters[idx] := cur - 1;
        ModArith.ModSmall(cur - 1, maxValue + 1);
      }
      assert counters[..] == c[idx := (c[idx] + -1) % (maxValue + 1)];
    }

    /** The data step: w added with u32 wrap-around; insert adds the item
      * and remove_u32 subtracts it (w = -item). */
    method ShiftData(idx: nat, w: int, ghost d0: seq<int>, ghost I: seq<nat>, ghost k: nat)
      requires k < |I| && idx == I[k] && InRange(I, |d0|) && DataShifted(d0, I, k, w)
      modifies data
      ensures DataShifted(d0, I, k + 1, w)
    {
      ghost var d := data[..];
      PartlyShiftedStep(d, d0, I, k, w, U32_LIMIT);
      data[idx] := (data[idx] + w) % U32_LIMIT;
      assert data[..] == d[idx := (d[idx] + w) % U32_LIMIT];
    }

    /** remove_u32(item): each cell of the item gets one less on its
      * counter, wrapping from 0 to max_value, and the item subtracted from
      * its data with u32 wrap-around. */
    method RemoveU32(item: U32)
      requires Valid() && numEntries > 0
      modifies counters, data
      ensures Valid()
      ensures ShiftedBy(counters[..], old(counters[..]), Indexes(item), -1, maxValue + 1)
      ensures ShiftedBy(data[..], old(data[..]), Indexes(item), -(item as int), U32_LIMIT)
    {
      ghost var c0, d0, I := counters[..], data[..], Indexes(item);
      var hs := Values(item, numHashes, one, two);
      RemoveAll(hs, item, c0, d0, I);
    }

    /** The loop of remove_u32 over the item's hash values hs, whose cells
      * are I. */
    method RemoveAll(hs: seq<U64>, item: U32, ghost c0: seq<int>, ghost d0: seq<int>, ghost I: seq<nat>)
      requires Valid() && numEntries > 0 && counters[..] == c0 && data[..] == d0
      requires I == Reduce(hs, numEntries)
      modifies counters, data
      ensures Valid()
      ensures ShiftedBy(counters[..], c0, I, -1, maxValue + 1)
      ensures ShiftedBy(data[..], d0, I, -(item as int), U32_LIMIT)
    {
      ShiftsStart(c0, d0, I, -1, -(item as int));
      for k := 0 to |hs|
        invariant Shifting(c0, d0, I, k, -1, -(item as int))
      {
        RemoveCell(hs[k] % numEntries, item, c0, d0, I, k);
      }
      ShiftsDone(c0, d0, I, -1, -(item as int));
    }

    /** One pass of remove_u32's loop on cell idx. */
    method RemoveCell(idx: nat, item: U32, ghost c0: seq<int>, ghost d0: seq<int>, ghost I: seq<nat>, ghost k: nat)
      requires k < |I| && idx == I[k] && InRange(I, |c0|) && |d0| == |c0|
      requires Shifting(c0, d0, I, k, -1, -(item as int))
      modifies counters, data
      ensures Shifting(c0, d0, I, k + 1, -1, -(item as int))
    {
      DecrementCounter(idx, c0, I, k);
      ShiftData(idx, -(item as int), d0, I, k);
    }

    /** remove_u32 undoes insert: the counters and the data come back to
      * what they were. */
    lemma InsertThenRemove(c: seq<int>, d: seq<int>, item: U32)
      requires numEntries > 0
      requires forall x :: 0 <= x < |c| ==> 0 <= c[x] <= maxValue
      requires forall x :: 0 <= x < |d| ==> 0 <= d[x] < U32_LIMIT
      ensures Shifted(Shifted(c, Indexes(item), 1, maxValue + 1), Indexes(item), -1, maxValue + 1) == c
      ensures Shifted(Shifted(d, Indexes(item), item, U32_LIMIT), Indexes(item), -(item as int), U32_LIMIT) == d
    {
      ShiftUndo(c, Indexes(item), 1, maxValue + 1);
      ShiftUndo(d, Indexes(item), item, U32_LIMIT);
    }

    /** When no counter of the item wraps, insert answers as the counting
      * filter does: whether every cell of the item was already positive. */
    lemma InsertAnswerNoWrap(c: seq<int>, item: U32)
      requires numEntries > 0 && |c| == numEntries && Ready(c, Indexes(item), maxValue)
      ensures WrappedAllPositive(c, Indexes(item), numHashes, maxValue + 1)
          <==> forall k :: 0 <= k < numHashes ==> c[Indexes(item)[k]] > 0
    {
      var I := Indexes(item);
      WrappedAllPositiveNoWrap(c, I, |I|, maxValue);
      AllPositiveMeans(c, I, |I|);
    }

    /** contains(item): false as soon as a cell of the item is zero. */
    method Contains(item: U32) returns (r: bool)
      requires Valid() && numEntries > 0
      ensures r <==> forall k :: 0 <= k < numHashes ==> counters[Indexes(item)[k]] != 0
    {
      ghost var I := Indexes(item);
      var hs := Values(item, numHashes, one, two);
      for k := 0 to |hs|
        invariant forall j :: 0 <= j < k ==> counters[I[j]] != 0
      {
        if counters[hs[k] % numEntries] == 0 {
          return false;
        }
      }
      return true;
    }

    /** What equals compares: sizes, hash keys, data, the counters' bit
      * length and every counter. */
    ghost predicate SameAs(other: InvBloomLookupTable)
      reads this, counters, data, other, other.counters, other.data
    {
      numEntries == other.numEntries && numHashes == other.numHashes
      && one.keys == other.one.keys && two.keys == other.two.keys
      && data[..] == other.data[..]
      && numEntries * bitsPerEntry == other.numEntries * other.bitsPerEntry
      && counters[..] == other.counters[..]
    }

    /** equals(other). The counters are compared up to their bit length
      * divided by bits_per_entry, which panics when that is zero. */
    method Equals(other: InvBloomLookupTable) returns (r: bool)
      requires Valid() && other.Valid() && bitsPerEntry > 0
      ensures r <==> SameAs(other)
      ensures other == this ==> r
    {
      if numEntries != other.numEntries || numHashes != other.numHashes
        || one.keys != other.one.keys || two.keys != other.two.keys
        || data[..] != other.data[..]
      {
        return false;
      }
      var nbits := numEntries * bitsPerEntry;
      if nbits != other.numEntries * other.bitsPerEntry {
        return false;
      }
      MulDiv(numEntries, bitsPerEntry);
      for i := 0 to nbits / bitsPerEntry
        invariant forall j :: 0 <= j < i ==> counters[j] == other.counters[j]
      {
        if counters[i] != other.counters[i] {
          return false;
        }
      }
      assert counters[..] == other.counters[..];
      return true;
    }

    /** The table after removing each item of order in turn, as
      * eliminate_elems does. */
    ghost function Peel(c: seq<int>, d: seq<int>, order: seq<U32>): (r: (seq<int>, seq<int>))
      requires numEntries > 0
      decreases |order|
    {
      if |order| == 0 then (c, d)
      else PeelOne(Peel(c, d, order[..|order| - 1]), order[|order| - 1])
    }

    /** The counters and data p after remove_u32(v). */
    ghost function PeelOne(p: (seq<int>, seq<int>), v: U32): (seq<int>, seq<int>)
      requires numEntries > 0
    {
      (Shifted(p.0, Indexes(v), -1, maxValue + 1), Shifted(p.1, Indexes(v), -(v as int), U32_LIMIT))
    }

    /** The table holds c0 and d0 with the items of order removed. */
    ghost predicate PeeledFrom(c0: seq<int>, d0: seq<int>, order: seq<U32>)
      reads this, counters, data
      requires numEntries > 0
    {
      (counters[..], data[..]) == Peel(c0, d0, order)
    }

    /** Peeling one more value removes it from what the earlier ones left. */
    lemma PeelStep(c0: seq<int>, d0: seq<int>, order: seq<U32>, v: U32)
      requires numEntries > 0
      ensures Peel(c0, d0, order + [v]) == PeelOne(Peel(c0, d0, order), v)
    {
      assert (order + [v])[..|order|] == order;
    }

    /** The state eliminate_elems keeps between cells: a valid table holding
      * c0 and d0 with the values of order peeled, each once, and removedSet
      * the values peeled. */
    ghost predicate Peeling(c0: seq<int>, d0: seq<int>, order: seq<U32>, removedSet: set<U32>)
      reads this, counters, data
    {
      Valid() && numEntries > 0 && PeeledFrom(c0, d0, order)
      && removedSet == Members(order) && Distinct(order)
    }

    /** eliminate_elems(): sweeps the cells again and again, removing the
      * data value of every cell whose counter is exactly 1, until a sweep
      * removes nothing. It panics (ok false) when a value is peeled a second
      * time; order is the sequence of values peeled. On return no counter
      * is 1 and the removed set holds each peeled value once. */
    method EliminateElems() returns (removedSet: set<U32>, ok: bool, ghost order: seq<U32>)
      requires Valid() && numEntries > 0
      modifies counters, data
      ensures Valid() && PeeledFrom(old(counters[..]), old(data[..]), order)
      ensures ok ==> removedSet == Members(order) && Distinct(order)
      ensures ok ==> forall x :: 0 <= x < numEntries ==> counters[x] != 1
      ensures !ok ==> |order| > 0 && order[|order| - 1] in order[..|order| - 1]
    {
      ghost var c0, d0 := counters[..], data[..];
      removedSet, ok, order := {}, true, [];
      while true
        invariant Peeling(c0, d0, order, removedSet)
        decreases Unused(removedSet)
      {
        var removed;
        ghost var before := removedSet;
        removedSet, ok, removed, order := Sweep(c0, d0, order, removedSet);
        if !ok || !removed {
          return;
        }
        UnusedShrinks(before, removedSet);
      }
    }

    /** One sweep of eliminate_elems over every cell. removed says whether it
      * peeled anything; when it did not, no counter is 1. */
    method Sweep(ghost c0: seq<int>, ghost d0: seq<int>, ghost order: seq<U32>, removedSet: set<U32>)
      returns (removedSet': set<U32>, ok: bool, removed: bool, ghost order': seq<U32>)
      requires Peeling(c0, d0, order, removedSet)
      modifies counters, data
      ensures Valid() && numEntries > 0 && PeeledFrom(c0, d0, order')
      ensures ok ==> Peeling(c0, d0, order', removedSet')
      ensures ok && removed ==> removedSet < removedSet'
      ensures ok && !removed ==> forall x :: 0 <= x < numEntries ==> counters[x] != 1
      ensures !ok ==> |order'| > 0 && order'[|order'| - 1] in order'[..|order'| - 1]
    {
      removedSet', ok, removed, order' := removedSet, true, false, order;
      for i := 0 to numEntries
        invariant Peeling(c0, d0, order', removedSet')
        invariant if removed then removedSet < removedSet'
                  else removedSet' == removedSet && forall j :: 0 <= j < i ==> counters[j] != 1
      {
        if counters[i] == 1 {
          var item;
          item, order' := PeelCell(i, c0, d0, order');
          removedSet', ok := Record(item, order', removedSet');
          if !ok {
            return;
          }
          removed := true;
        }
      }
    }

    /** Peels cell i: removes its data value item from the table. */
    method PeelCell(i: nat, ghost c0: seq<int>, ghost d0: seq<int>, ghost order: seq<U32>)
      returns (item: U32, ghost order': seq<U32>)
      requires i < numEntries && Valid() && PeeledFrom(c0, d0, order)
      modifies counters, data
      ensures Valid() && PeeledFrom(c0, d0, order') && order' == order + [item]
    {
      item := data[i];
      RemoveU32(item);
      PeelStep(c0, d0, order, item);
      order' := order + [item];
    }
  }

  /** Records the peeled value last of order in the removed set, reporting
    * (ok false) a value that was peeled before. */
  method Record(item: U32, ghost order: seq<U32>, removedSet: set<U32>) returns (removedSet': set<U32>, ok: bool)
    requires |order| > 0 && order[|order| - 1] == item
    requires removedSet == Members(order[..|order| - 1]) && Distinct(order[..|order| - 1])
    ensures ok <==> item !in order[..|order| - 1]
    ensures ok ==> removedSet' == Members(order) && Distinct(order) && removedSet < removedSet'
  {
    if item in removedSet {
      return removedSet, false;
    }
    assert order == order[..|order| - 1] + [item];
    DistinctAppend(order[..|order| - 1], item);
    removedSet' := removedSet + {item};
    ok := true;
  }

  /** Below zero the counter wraps to max_value: (0 - 1) mod m == m - 1. */
  lemma WrapBelowZero(m: int)
    requires m > 0
    ensures (0 + -1) % m == m - 1
  {
    ModArith.ModAdd(m - 1, -m, m);
    ModArith.ModSmall(m - 1, m);
    assert -m % m == 0 by {
      ModArith.ModMul(-1, m, m);
    }
  }

  /** (n * b) / b == n for a positive b. */
  lemma MulDiv(n: nat, b: nat)
    requires b > 0
    ensures (n * b) / b == n
  {
    ModArith.DivModUnique(n * b, b, n, 0);
  }

  /** The values in s. */
  function Members(s: seq<U32>): (r: set<U32>)
    ensures forall x :: x in r <==> x in s
  {
    set x | x in s
  }

  /** No value occurs twice in s. */
  predicate Distinct(s: seq<U32>)
  {
    forall i, j :: 0 <= i < j < |s| ==> s[i] != s[j]
  }

  /** Appending a value not yet in s keeps s free of repeats. */
  lemma DistinctAppend(s: seq<U32>, x: U32)
    requires Distinct(s) && x !in s
    ensures Distinct(s + [x]) && Members(s + [x]) == Members(s) + {x}
  {
  }

  /** The u32 values not in s: what is left for eliminate_elems to peel. */
  function Unused(s: set<U32>): set<int>
  {
    set x: int | 0 <= x < U32_LIMIT && x !in s
  }

  /** Peeling a new value leaves fewer values unused, so the sweeps end. */
  lemma UnusedShrinks(before: set<U32>, after: set<U32>)
    requires before < after
    ensures Unused(after) < Unused(before)
  {
    var e :| e in after && e !in before;
    assert e in Unused(before) && e !in Unused(after);
  }
}
