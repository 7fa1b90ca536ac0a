/** The CBFAccumulator of the accumulator crate (accumulator/src/cbf.rs): the
  * XOR digest of the processed elements next to a counting Bloom filter of
  * them. Validation rebuilds the filter from the received list, subtracts
  * the router's filter cell by cell, and lists the received elements that
  * the difference still contains; an external ILP solver then picks the
  * dropped ones, and the digest is rechecked without them. */
module CbfAccumulator {
  import opened Common
  import opened BloomHashing
  import opened BloomCounters
  import opened BloomCbf
  import opened Digests
  import opened AccumulatorLib
  import RibltSymbol

  /** BITS_PER_ENTRY of the filter. */
  const BITS_PER_ENTRY: nat := 16

  // ---------------------------------------------------------------------
  // The filter of a list

  /** The cells of every element of s, one element after the other. */
  function Cells(f: CountingBloomFilter, s: seq<U32>): seq<nat>
    requires f.numEntries > 0
  {
    if |s| == 0 then [] else Cells(f, s[..|s| - 1]) + f.Indexes(s[|s| - 1])
  }

  /** The counters of f's shape after inserting s into zeros: each counter
    * counts how often its cell occurs among the cells of s. */
  function Filled(f: CountingBloomFilter, s: seq<U32>): (c: seq<int>)
    requires f.numEntries > 0
    ensures |c| == f.numEntries
  {
    Bumped(Zeros(f.numEntries), Cells(f, s))
  }

  /** Inserting every element of s never finds a counter at its maximum:
    * the filter of s stays within max_value, so insert does not panic. */
  ghost predicate FitsAll(f: CountingBloomFilter, s: seq<U32>)
    requires f.numEntries > 0
  {
    forall x :: 0 <= x < f.numEntries ==> Filled(f, s)[x] <= f.maxValue
  }

  /** The cells of s + [y]: those of s, then y's. */
  lemma CellsLast(f: CountingBloomFilter, s: seq<U32>, y: U32)
    requires f.numEntries > 0
    ensures Cells(f, s + [y]) == Cells(f, s) + f.Indexes(y)
  {
    assert (s + [y])[..|s|] == s;
  }

  lemma {:induction false} CellsConcat(f: CountingBloomFilter, a: seq<U32>, b: seq<U32>)
    requires f.numEntries > 0
    ensures Cells(f, a + b) == Cells(f, a) + Cells(f, b)
    decreases |b|
  {
    if |b| == 0 {
      assert a + b == a;
    } else {
      var b', y := b[..|b| - 1], b[|b| - 1];
      assert b == b' + [y];
      assert a + b == (a + b') + [y];
      calc {
        Cells(f, a + b);
        == { CellsLast(f, a + b', y); }
        Cells(f, a + b') + f.Indexes(y);
        == { CellsConcat(f, a, b'); }
        Cells(f, a) + Cells(f, b') + f.Indexes(y);
        == { AppendAssoc(Cells(f, a), Cells(f, b'), f.Indexes(y)); CellsLast(f, b', y); }
        Cells(f, a) + Cells(f, b);
      }
    }
  }

  /** The cells of a list, as a multiset, depend only on the multiset of
    * its elements. */
  lemma {:induction false} CellsOrderFree(f: CountingBloomFilter, a: seq<U32>, b: seq<U32>)
    requires f.numEntries > 0 && multiset(a) == multiset(b)
    ensures multiset(Cells(f, a)) == multiset(Cells(f, b))
    decreases |a|
  {
    if |a| > 0 {
      var n := |a| - 1;
      var x := a[n];
      var u, v := RibltSymbol.PickMatching(a, b);
      CellsOrderFree(f, a[..n], u + v);
      CellsConcat(f, u + [x], v);
      CellsConcat(f, u, [x]);
      CellsConcat(f, u, v);
      assert [x][..0] == [];
    } else {
      RibltSymbol.EmptyMatching(a, b);
    }
  }

  /** A list made of the log and the dropped elements, in any order, has
    * the cells of both. */
  lemma CellsSplit(f: CountingBloomFilter, elems: seq<U32>, log: seq<U32>, dropped: seq<U32>)
    requires f.numEntries > 0 && multiset(elems) == multiset(log) + multiset(dropped)
    ensures multiset(Cells(f, elems)) == multiset(Cells(f, log)) + multiset(Cells(f, dropped))
  {
    CellsOrderFree(f, elems, log + dropped);
    CellsConcat(f, log, dropped);
  }

  /** Inserting one more element bumps the element's cells. */
  lemma FilledAppend(f: CountingBloomFilter, s: seq<U32>, e: U32)
    requires f.numEntries > 0
    ensures Filled(f, s + [e]) == Bumped(Filled(f, s), f.Indexes(e))
  {
    assert (s + [e])[..|s|] == s;
    BumpedTwice(Zeros(f.numEntries), Cells(f, s), f.Indexes(e));
  }

  /** A counter of the filter of s counts the occurrences of its cell. */
  lemma FilledAt(f: CountingBloomFilter, s: seq<U32>, x: nat)
    requires f.numEntries > 0 && x < f.numEntries
    ensures Filled(f, s)[x] == multiset(Cells(f, s))[x]
  {
  }

  /** When the filter of s + [e] fits, the filter of s fits and inserting e
    * into it does not overflow. */
  lemma FitsNext(f: CountingBloomFilter, s: seq<U32>, e: U32)
    requires f.numEntries > 0 && FitsAll(f, s + [e])
    ensures FitsAll(f, s) && Fits(Filled(f, s), f.Indexes(e), f.maxValue)
  {
    var I := f.Indexes(e);
    FilledAppend(f, s, e);
    forall x | 0 <= x < f.numEntries
      ensures Filled(f, s)[x] + multiset(I)[x] <= f.maxValue
    {
      assert Bumped(Filled(f, s), I)[x] == Filled(f, s)[x] + multiset(I)[x];
    }
    forall k | 0 <= k < |I|
      ensures Filled(f, s)[I[k]] + multiset(I)[I[k]] <= f.maxValue
    {
      assert I[k] < f.numEntries;
    }
  }

  /** A prefix of a list that fits, fits. */
  lemma FitsPrefix(f: CountingBloomFilter, s: seq<U32>, t: seq<U32>)
    requires f.numEntries > 0 && FitsAll(f, s + t)
    ensures FitsAll(f, s)
  {
    CellsConcat(f, s, t);
    forall x | 0 <= x < f.numEntries
      ensures Filled(f, s)[x] <= f.maxValue
    {
      FilledAt(f, s, x);
      FilledAt(f, s + t, x);
      assert multiset(Cells(f, s + t)) == multiset(Cells(f, s)) + multiset(Cells(f, t));
    }
  }

  /** Filters with the same cells for every item fill alike. */
  lemma {:induction false} FilledAlike(c: CountingBloomFilter, f: CountingBloomFilter, s: seq<U32>)
    requires c.numEntries == f.numEntries > 0
    requires forall item :: c.Indexes(item) == f.Indexes(item)
    ensures Cells(c, s) == Cells(f, s) && Filled(c, s) == Filled(f, s)
    decreases |s|
  {
    if |s| > 0 {
      FilledAlike(c, f, s[..|s| - 1]);
    }
  }

  // ---------------------------------------------------------------------
  // The difference filter and the candidates

  /** Cell by cell, p minus q. */
  function Difference(p: seq<int>, q: seq<int>): (r: seq<int>)
    requires |p| == |q|
    ensures |r| == |p| && forall x :: 0 <= x < |p| ==> r[x] == p[x] - q[x]
  {
    seq(|p|, x requires 0 <= x < |p| => p[x] - q[x])
  }

  /** No cell of p is below the same cell of q. */
  predicate NoDeficit(p: seq<int>, q: seq<int>)
    requires |p| == |q|
  {
    forall x :: 0 <= x < |p| ==> q[x] <= p[x]
  }

  /** For each received element, whether the difference D covers its
    * cells. */
  function Hits(f: CountingBloomFilter, D: seq<int>, elems: seq<U32>): (h: seq<bool>)
    requires f.numEntries > 0
    ensures |h| == |elems|
  {
    seq(|elems|, j requires 0 <= j < |elems| => Covered(D, f.Indexes(elems[j])))
  }

  /** pkt_hashes: the cells of each candidate among the first i elements,
    * one candidate after the other. */
  function PktHashes(f: CountingBloomFilter, h: seq<bool>, elems: seq<U32>, i: nat): seq<nat>
    requires f.numEntries > 0 && |h| == |elems| && i <= |elems|
  {
    if i == 0 then [] else PktHashes(f, h, elems, i - 1) + (if h[i - 1] then f.Indexes(elems[i - 1]) else [])
  }

  /** Filters with the same cells for every item see the same hits. */
  lemma HitsAlike(c: CountingBloomFilter, f: CountingBloomFilter, D: seq<int>, elems: seq<U32>)
    requires c.numEntries == f.numEntries > 0
    requires forall item :: c.Indexes(item) == f.Indexes(item)
    ensures Hits(c, D, elems) == Hits(f, D, elems)
  {
  }

  /** Filters with the same cells for every item list the same cells. */
  lemma {:induction false} PktHashesAlike(c: CountingBloomFilter, f: CountingBloomFilter, h: seq<bool>, elems: seq<U32>, i: nat)
    requires c.numEntries == f.numEntries > 0 && |h| == |elems| && i <= |elems|
    requires forall item :: c.Indexes(item) == f.Indexes(item)
    ensures PktHashes(c, h, elems, i) == PktHashes(f, h, elems, i)
    decreases i
  {
    if i > 0 {
      PktHashesAlike(c, f, h, elems, i - 1);
      assert c.Indexes(elems[i - 1]) == f.Indexes(elems[i - 1]);
    }
  }

  /** The received list of an honest router holds the log and the dropped
    * elements: then no cell of the rebuilt filter is below the router's,
    * and the difference is the filter of the dropped elements. */
  lemma HonestDifference(f: CountingBloomFilter, elems: seq<U32>, log: seq<U32>, dropped: seq<U32>)
    requires f.numEntries > 0 && multiset(elems) == multiset(log) + multiset(dropped)
    ensures NoDeficit(Filled(f, elems), Filled(f, log))
    ensures Difference(Filled(f, elems), Filled(f, log)) == Filled(f, dropped)
  {
    CellsSplit(f, elems, log, dropped);
    var P, Q, R := Filled(f, elems), Filled(f, log), Filled(f, dropped);
    forall x | 0 <= x < f.numEntries
      ensures Q[x] <= P[x] && P[x] - Q[x] == R[x]
    {
      FilledAt(f, elems, x);
      FilledAt(f, log, x);
      FilledAt(f, dropped, x);
    }
    var D := Difference(P, Q);
    assert |D| == |R|;
    assert forall x :: 0 <= x < |D| ==> D[x] == R[x];
  }

  /** Every dropped element is a candidate: all its cells are non-zero in
    * the filter of the dropped elements. */
  lemma DroppedCovered(f: CountingBloomFilter, dropped: seq<U32>, j: nat)
    requires f.numEntries > 0 && j < |dropped|
    ensures Covered(Filled(f, dropped), f.Indexes(dropped[j]))
  {
    var e := dropped[j];
    var rest := dropped[..j] + dropped[j + 1..];
    assert dropped == dropped[..j] + [e] + dropped[j + 1..];
    assert multiset(dropped) == multiset([e]) + multiset(rest);
    CellsSplit(f, dropped, [e], rest);
    assert Cells(f, [e]) == f.Indexes(e) by {
      assert [e][..0] == [];
    }
  }

  /** Against an honest router, every received copy of a dropped element
    * is a candidate, so the solver can pick it. */
  lemma DroppedAreCandidates(f: CountingBloomFilter, elems: seq<U32>, log: seq<U32>, dropped: seq<U32>, j: nat)
    requires f.numEntries > 0 && multiset(elems) == multiset(log) + multiset(dropped)
    requires j < |elems| && elems[j] in multiset(dropped)
    ensures j in Candidates(Hits(f, Difference(Filled(f, elems), Filled(f, log)), elems), |elems|)
  {
    HonestDifference(f, elems, log, dropped);
    var k :| 0 <= k < |dropped| && dropped[k] == elems[j];
    DroppedCovered(f, dropped, k);
    CandidatesMembers(Hits(f, Filled(f, dropped), elems), |elems|, j);
  }

  // ---------------------------------------------------------------------
  // The accumulator

  /** What validate reaches without the external solver: either a verdict,
    * or the system it hands to the solver (the difference counters, the
    * candidate positions, their cells and the number of dropped elements). */
  datatype Stage =
    | Decided(valid: bool)
    | SolveIlp(counters: seq<int>, candidates: seq<nat>, pktHashes: seq<nat>, nDropped: nat)

  class CBFAccumulator {
    /** The hash of the XorDigest. */
    var digest: U32
    var numElems: nat
    const cbf: CountingBloomFilter
    /** The elements processed so far, in order. */
    ghost var log: seq<U32>

    /** The digest and the count describe the log, and the filter holds the
      * counters of the log. */
    ghost predicate Valid()
      reads this, cbf, cbf.counters
    {
      cbf.Valid() && digest == XorAll(log) && numElems == |log| && cbf.counters[..] == Filled(cbf, log)
    }

    /** new(threshold): an empty digest and an empty filter of 16-bit
      * counters; the filter's size and number of hashes, which the library
      * derives from the threshold and a false-positive rate, are given. */
    constructor(numEntries: nat, numHashes: U32, one: Hasher, two: Hasher)
      requires numEntries > 0
      ensures Valid() && log == [] && fresh(cbf) && fresh(cbf.counters)
      ensures cbf.numEntries == numEntries && cbf.numHashes == numHashes && cbf.bitsPerEntry == BITS_PER_ENTRY
    {
      digest, numElems := 0, 0;
      cbf := new CountingBloomFilter.WithRate(BITS_PER_ENTRY, numEntries, numHashes, one, two);
      log := [];
    }

    /** process(elem): XORs elem into the digest, counts it and inserts it
      * into the filter. The filter panics when a counter of elem is already
      * at its maximum; that is excluded. */
    method Process(elem: U32)
      requires Valid() && Fits(cbf.counters[..], cbf.Indexes(elem), cbf.maxValue)
      modifies this, cbf.counters
      ensures Valid() && log == old(log) + [elem]
    {
      assert (log + [elem])[..|log|] == log;
      digest := Xor32(digest, elem);
      numElems := numElems + 1;
      var _ := cbf.Insert(elem);
      FilledAppend(cbf, log, elem);
      log := log + [elem];
    }

    /** process_batch(elems): process on each element in order. */
    method ProcessBatch(elems: seq<U32>)
      requires Valid() && FitsAll(cbf, log + elems)
      modifies this, cbf.counters
      ensures Valid() && log == old(log) + elems
    {
      for i := 0 to |elems|
        invariant Valid() && log == old(log) + elems[..i]
      {
        assert old(log) + elems == log + [elems[i]] + elems[i + 1..] by {
          assert elems == elems[..i] + [elems[i]] + elems[i + 1..];
        }
        FitsPrefix(cbf, log + [elems[i]], elems[i + 1..]);
        FitsNext(cbf, log, elems[i]);
        Process(elems[i]);
        assert elems[..i + 1] == elems[..i] + [elems[i]];
      }
      assert elems[..|elems|] == elems;
    }

    /** total(): the number of processed elements. */
    function Total(): (n: nat)
      reads this, cbf, cbf.counters
      requires Valid()
      ensures n == |log|
    {
      numElems
    }

    /** validate(elems) up to the solver call. A shorter list than the log
      * is rejected; a list as long as the log is accepted exactly when its
      * XOR digest matches; otherwise the list's filter is rebuilt, a cell
      * below the router's rejects, and the difference and its candidates
      * go to the solver. Inserting the list into the new filter panics on
      * a counter overflow; that is excluded. */
    method Validate(elems: seq<U32>) returns (r: Stage)
      requires Valid() && FitsAll(cbf, elems)
      ensures |elems| < |log| ==> r == Decided(false)
      ensures |elems| == |log| ==> r == Decided(XorAll(elems) == XorAll(log))
      ensures |elems| > |log| ==> (r.Decided? <==> !NoDeficit(Filled(cbf, elems), Filled(cbf, log)))
      ensures |elems| > |log| && r.Decided? ==> !r.valid
      ensures r.SolveIlp? ==> |elems| > |log| && r.nDropped == |elems| - |log|
      ensures r.SolveIlp? ==> r.counters == Difference(Filled(cbf, elems), Filled(cbf, log))
      ensures r.SolveIlp? ==> r.candidates == Candidates(Hits(cbf, r.counters, elems), |elems|)
      ensures r.SolveIlp? ==> r.pktHashes == PktHashes(cbf, Hits(cbf, r.counters, elems), elems, |elems|)
    {
      if |elems| < numElems {
        return Decided(false);
      }
      var nDropped := |elems| - numElems;
      if nDropped == 0 {
        var d := new XorDigest();
        d.AddAll(elems);
        return Decided(d.hash == digest);
      }
      var c := cbf.EmptyClone();
      FilledAlike(c, cbf, elems);
      FilledAlike(c, cbf, log);
      InsertList(c, elems);
      var ok := Subtract(c, cbf);
      if !ok {
        return Decided(false);
      }
      var elemsI, pktHashes := ListCandidates(c, elems);
      HitsAlike(c, cbf, c.counters[..], elems);
      PktHashesAlike(c, cbf, Hits(c, c.counters[..], elems), elems, |elems|);
      r := SolveIlp(c.counters[..], elemsI, pktHashes, nDropped);
    }

    /** The verdict after the solver: err is its status and dropped the
      * positions in elems_i it picked. The picked elements are counted and
      * the digest is rechecked without them, by the corrected CheckDigest,
      * which leaves out exactly c occurrences of a value counted c times;
      * the library's check_digest (CheckDigestAsWritten) leaves out c + 1.
      * Indexing panics when the solver answers out of range; that is
      * excluded. */
    method Conclude(elems: seq<U32>, elemsI: seq<nat>, err: int, dropped: seq<nat>) returns (valid: bool)
      requires Valid()
      requires forall j :: 0 <= j < |elemsI| ==> elemsI[j] < |elems|
      requires forall j :: 0 <= j < |dropped| ==> dropped[j] < |elemsI|
      ensures valid <==> err == 0 && XorAll(Kept(elems, Tally(Picked(elems, elemsI, dropped)))) == XorAll(log)
    {
      if err != 0 {
        return false;
      }
      var counts := CountDropped(Picked(elems, elemsI, dropped));
      valid := CheckDigest(elems, counts, digest);
    }

    /** The same verdict with the library's check_digest as written, which
      * leaves out c + 1 occurrences of a value counted c times. */
    method ConcludeAsWritten(elems: seq<U32>, elemsI: seq<nat>, err: int, dropped: seq<nat>) returns (valid: bool)
      requires Valid()
      requires forall j :: 0 <= j < |elemsI| ==> elemsI[j] < |elems|
      requires forall j :: 0 <= j < |dropped| ==> dropped[j] < |elemsI|
      ensures valid <==> err == 0 && XorAll(KeptAsWritten(elems, Tally(Picked(elems, elemsI, dropped)))) == XorAll(log)
    {
      if err != 0 {
        return false;
      }
      var counts := CountDropped(Picked(elems, elemsI, dropped));
      valid := CheckDigestAsWritten(elems, counts, digest);
    }
  }

  /** The elements at the picked positions: elems[elems_i[dropped_i]]. */
  function Picked(elems: seq<U32>, elemsI: seq<nat>, dropped: seq<nat>): (r: seq<U32>)
    requires forall j :: 0 <= j < |elemsI| ==> elemsI[j] < |elems|
    requires forall j :: 0 <= j < |dropped| ==> dropped[j] < |elemsI|
    ensures |r| == |dropped| && forall j :: 0 <= j < |dropped| ==> r[j] == elems[elemsI[dropped[j]]]
  {
    seq(|dropped|, j requires 0 <= j < |dropped| => elems[elemsI[dropped[j]]])
  }

  /** Inserts every element of elems, in order, into the empty filter c. */
  method InsertList(c: CountingBloomFilter, elems: seq<U32>)
    requires c.Valid() && c.counters[..] == Zeros(c.numEntries) && FitsAll(c, elems)
    modifies c.counters
    ensures c.Valid() && c.counters[..] == Filled(c, elems)
  {
    assert Cells(c, []) == [];
    for i := 0 to |elems|
      invariant c.Valid() && c.counters[..] == Filled(c, elems[..i])
    {
      assert elems == elems[..i] + [elems[i]] + elems[i + 1..];
      FitsPrefix(c, elems[..i] + [elems[i]], elems[i + 1..]);
      FitsNext(c, elems[..i], elems[i]);
      var _ := c.Insert(elems[i]);
      FilledAppend(c, elems[..i], elems[i]);
      assert elems[..i + 1] == elems[..i] + [elems[i]];
    }
    assert elems[..|elems|] == elems;
  }

  /** The per-cell loop of validate: each counter of c becomes c's minus
    * f's, and ok is false as soon as a counter of c is below f's. */
  method Subtract(c: CountingBloomFilter, f: CountingBloomFilter) returns (ok: bool)
    requires c.Valid() && f.Valid() && c.counters != f.counters && c.numEntries == f.numEntries
    requires c.maxValue == f.maxValue
    modifies c.counters
    ensures ok <==> NoDeficit(old(c.counters[..]), f.counters[..])
    ensures ok ==> c.Valid() && c.counters[..] == Difference(old(c.counters[..]), f.counters[..])
  {
    ghost var P, Q := c.counters[..], f.counters[..];
    for i := 0 to c.numEntries
      invariant c.Valid() && f.counters[..] == Q
      invariant forall x :: 0 <= x < i ==> Q[x] <= P[x] && c.counters[x] == P[x] - Q[x]
      invariant forall x :: i <= x < c.numEntries ==> c.counters[x] == P[x]
    {
      var processed := c.counters[i];
      var received := f.counters[i];
      if processed < received {
        return false;
      }
      c.counters[i] := processed - received;
    }
    return true;
  }

  /** contains on the filter is Covered on its counters. */
  lemma ContainsCovered(c: CountingBloomFilter, item: int)
    requires c.Valid()
    ensures Covered(c.counters[..], c.Indexes(item))
        <==> forall k :: 0 <= k < c.numHashes ==> c.counters[c.Indexes(item)[k]] != 0
  {
  }

  /** The candidate loop of validate: the positions of the received
    * elements that the difference filter c contains, and their cells. */
  method ListCandidates(c: CountingBloomFilter, elems: seq<U32>) returns (elemsI: seq<nat>, pktHashes: seq<nat>)
    requires c.Valid()
    ensures elemsI == Candidates(Hits(c, c.counters[..], elems), |elems|)
    ensures pktHashes == PktHashes(c, Hits(c, c.counters[..], elems), elems, |elems|)
  {
    ghost var h := Hits(c, c.counters[..], elems);
    elemsI, pktHashes := [], [];
    for i := 0 to |elems|
      invariant elemsI == Candidates(h, i)
      invariant pktHashes == PktHashes(c, h, elems, i)
    {
      var has := c.Contains(elems[i]);
      ContainsCovered(c, elems[i]);
      assert h[i] == Covered(c.counters[..], c.Indexes(elems[i]));
      assert has == h[i];
      if has {
        elemsI := elemsI + [i];
        pktHashes := pktHashes + c.Indexes(elems[i]);
      }
    }
  }
}
