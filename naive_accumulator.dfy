/** The naive accumulator: a digest of the processed elements and nothing
  * else. Validation tries every set of exactly total() positions of the
  * received list, in the lexicographic order of itertools' combinations,
  * and accepts as soon as one of them digests to the stored digest. */
module Naive {
  import opened Common
  import opened Digests
  import IbltAccumulator

  // ---------------------------------------------------------------------
  // Index combinations

  /** The positions of a list named by c, in the order c names them. */
  function Pick(elems: seq<U32>, c: seq<nat>): (s: seq<U32>)
    requires forall j :: 0 <= j < |c| ==> c[j] < |elems|
    ensures |s| == |c| && forall j :: 0 <= j < |c| ==> s[j] == elems[c[j]]
  {
    seq(|c|, j requires 0 <= j < |c| => elems[c[j]])
  }

  /** c is a combination of k positions drawn from lo .. n-1: k of them, in
    * strictly increasing order. */
  predicate IndexSet(c: seq<nat>, lo: nat, n: nat, k: nat)
  {
    |c| == k
    && (forall j :: 0 <= j < |c| ==> lo <= c[j] < n)
    && (forall i, j :: 0 <= i < j < |c| ==> c[i] < c[j])
  }

  /** Puts x in front of every combination of cs. */
  function PrependAll(x: nat, cs: seq<seq<nat>>): (r: seq<seq<nat>>)
    ensures |r| == |cs| && forall i :: 0 <= i < |cs| ==> r[i] == [x] + cs[i]
  {
    seq(|cs|, i requires 0 <= i < |cs| => [x] + cs[i])
  }

  /** (lo..n).combinations(k): those starting with lo first, then those
    * that do not use lo. */
  function Combinations(lo: nat, n: nat, k: nat): seq<seq<nat>>
    decreases n - lo
  {
    if k == 0 then [[]]
    else if lo >= n then []
    else PrependAll(lo, Combinations(lo + 1, n, k - 1)) + Combinations(lo + 1, n, k)
  }

  /** A combination either takes lo as its first position, the rest drawn
    * from above lo, or draws every position from above lo. */
  lemma IndexSetSplit(c: seq<nat>, lo: nat, n: nat, k: nat)
    requires 0 < k && lo < n
    ensures IndexSet(c, lo, n, k) <==>
              (|c| > 0 && c[0] == lo && IndexSet(c[1..], lo + 1, n, k - 1)) || IndexSet(c, lo + 1, n, k)
  {
    if IndexSet(c, lo, n, k) && c[0] != lo {
      forall j | 0 <= j < |c| ensures lo + 1 <= c[j] {
        if j > 0 { assert c[0] < c[j]; }
      }
    }
    if |c| > 0 && c[0] == lo && IndexSet(c[1..], lo + 1, n, k - 1) {
      forall j | 0 <= j < |c| ensures lo <= c[j] < n {
        if j > 0 { assert c[j] == c[1..][j - 1]; }
      }
      forall i, j | 0 <= i < j < |c| ensures c[i] < c[j] {
        if i > 0 { assert c[i] == c[1..][i - 1] && c[j] == c[1..][j - 1]; }
        else { assert c[j] == c[1..][j - 1]; }
      }
    }
  }

  /** The combinations that start with x are x followed by one of cs. */
  lemma InPrependAll(x: nat, cs: seq<seq<nat>>, c: seq<nat>)
    ensures c in PrependAll(x, cs) <==> |c| > 0 && c[0] == x && c[1..] in cs
  {
    if c in PrependAll(x, cs) {
      var i :| 0 <= i < |cs| && PrependAll(x, cs)[i] == c;
      assert c[1..] == cs[i];
    }
    if |c| > 0 && c[0] == x && c[1..] in cs {
      var i :| 0 <= i < |cs| && cs[i] == c[1..];
      assert PrependAll(x, cs)[i] == c;
    }
  }

  /** The enumeration lists exactly the combinations of k positions from
    * lo .. n-1. */
  lemma {:induction false} CombinationsAreIndexSets(lo: nat, n: nat, k: nat, c: seq<nat>)
    ensures c in Combinations(lo, n, k) <==> IndexSet(c, lo, n, k)
    decreases n - lo
  {
    if k == 0 {
    } else if lo >= n {
      if |c| == k {
        assert !(lo <= c[0] < n);
      }
    } else {
      var A, B := Combinations(lo + 1, n, k - 1), Combinations(lo + 1, n, k);
      var P := PrependAll(lo, A);
      assert Combinations(lo, n, k) == P + B;
      assert c in P + B <==> c in P || c in B;
      CombinationsAreIndexSets(lo + 1, n, k, c);
      InPrependAll(lo, A, c);
      if |c| > 0 {
        CombinationsAreIndexSets(lo + 1, n, k - 1, c[1..]);
      }
      IndexSetSplit(c, lo, n, k);
    }
  }

  /** Any combination of k positions from lo .. n-1 needs k of them: with
    * fewer than k positions there is none. */
  lemma {:induction false} IndexSetNeedsRoom(c: seq<nat>, lo: nat, n: nat, k: nat)
    requires IndexSet(c, lo, n, k)
    ensures k == 0 || lo + k <= n
    decreases k
  {
    if k > 0 {
      var d := c[1..];
      forall j | 0 <= j < |d| ensures c[0] + 1 <= d[j] < n {
        assert d[j] == c[j + 1];
      }
      forall i, j | 0 <= i < j < |d| ensures d[i] < d[j] {
        assert d[i] == c[i + 1] && d[j] == c[j + 1];
      }
      IndexSetNeedsRoom(d, c[0] + 1, n, k - 1);
    }
  }

  // ---------------------------------------------------------------------
  // Which index sets exist

  /** A combination of positions below n is one below n + 1, and stays one
    * with n added at its end. */
  lemma IndexSetGrow(c: seq<nat>, n: nat, k: nat)
    requires IndexSet(c, 0, n, k)
    ensures IndexSet(c, 0, n + 1, k) && IndexSet(c + [n], 0, n + 1, k + 1)
  {
  }

  /** Positions below |rest| pick the same elements from rest and from any
    * list that extends it. */
  lemma PickPrefix(elems: seq<U32>, rest: seq<U32>, c: seq<nat>)
    requires |rest| <= |elems| && rest == elems[..|rest|]
    requires forall j :: 0 <= j < |c| ==> c[j] < |rest|
    ensures Pick(elems, c) == Pick(rest, c)
  {
  }

  /** Without its last element e, a list still holds m less one copy of
    * e, and all of m when e is not in m. */
  lemma DropLast(elems: seq<U32>, m: multiset<U32>)
    requires |elems| > 0 && m <= multiset(elems)
    ensures elems[|elems| - 1] in m ==> m - multiset{elems[|elems| - 1]} <= multiset(elems[..|elems| - 1])
    ensures elems[|elems| - 1] !in m ==> m <= multiset(elems[..|elems| - 1])
  {
    var n := |elems| - 1;
    var e, rest := elems[n], elems[..n];
    assert elems == rest + [e];
    var ME, MR, one := multiset(elems), multiset(rest), multiset{e};
    assert ME == MR + one;
    forall x: U32 ensures (m - one)[x] <= MR[x] && (e !in m ==> m[x] <= MR[x]) {
      assert ME[x] == MR[x] + one[x];
    }
  }

  /** Taking the last position as well picks one more copy of the last
    * element. */
  lemma TakeLast(elems: seq<U32>, m: multiset<U32>, c: seq<nat>)
    requires |elems| > 0 && elems[|elems| - 1] in m
    requires IndexSet(c, 0, |elems| - 1, |m| - 1)
    requires multiset(Pick(elems[..|elems| - 1], c)) == m - multiset{elems[|elems| - 1]}
    ensures IndexSet(c + [|elems| - 1], 0, |elems|, |m|) && multiset(Pick(elems, c + [|elems| - 1])) == m
  {
    var n := |elems| - 1;
    var e, rest := elems[n], elems[..n];
    IndexSetGrow(c, n, |m| - 1);
    PickPrefix(elems, rest, c);
    var before: seq<U32> := Pick(rest, c);
    assert Pick(elems, c + [n]) == before + [e];
    var one: multiset<U32> := multiset{e};
    assert multiset(Pick(elems, c + [n])) == multiset(before) + one;
    assert m == (m - one) + one;
  }

  /** Every sub-multiset of a list is picked out by some combination of its
    * positions. */
  lemma {:induction false} SubMultisetPicked(elems: seq<U32>, m: multiset<U32>) returns (c: seq<nat>)
    requires m <= multiset(elems)
    ensures IndexSet(c, 0, |elems|, |m|) && multiset(Pick(elems, c)) == m
    decreases |elems|
  {
    if |elems| == 0 {
      c := [];
      return;
    }
    var n := |elems| - 1;
    var e, rest := elems[n], elems[..n];
    DropLast(elems, m);
    if e in m {
      var c' := SubMultisetPicked(rest, m - multiset{e});
      TakeLast(elems, m, c');
      c := c' + [n];
    } else {
      c := SubMultisetPicked(rest, m);
      IndexSetGrow(c, n, |m|);
      PickPrefix(elems, rest, c);
    }
  }

  /** An honest list, one holding every processed element, is accepted:
    * the positions of the processed elements digest to the stored digest
    * (while fewer than L elements were processed, so that total() is the
    * number processed). */
  lemma HonestListAccepted(elems: seq<U32>, log: seq<U32>)
    requires multiset(log) <= multiset(elems) && |log| < MSET_L
    ensures exists c :: IndexSet(c, 0, |elems|, |log| % MSET_L) && IbltAccumulator.SameDigest(Pick(elems, c), log)
  {
    var c := SubMultisetPicked(elems, multiset(log));
    assert |multiset(log)| == |log| == |log| % MSET_L;
    IbltAccumulator.SameElementsSameDigest(Pick(elems, c), log);
  }

  /** Every listed combination is one. */
  lemma ListedAreIndexSets(n: nat, k: nat)
    ensures forall j :: 0 <= j < |Combinations(0, n, k)| ==> IndexSet(Combinations(0, n, k)[j], 0, n, k)
  {
    var cs := Combinations(0, n, k);
    forall j | 0 <= j < |cs| ensures IndexSet(cs[j], 0, n, k) {
      CombinationsAreIndexSets(0, n, k, cs[j]);
    }
  }

  /** When no listed combination matches, no combination does. */
  lemma NoneListedNoneMatch(elems: seq<U32>, log: seq<U32>, k: nat)
    requires forall j :: 0 <= j < |Combinations(0, |elems|, k)| ==>
               IndexSet(Combinations(0, |elems|, k)[j], 0, |elems|, k)
               && !IbltAccumulator.SameDigest(Pick(elems, Combinations(0, |elems|, k)[j]), log)
    ensures forall c :: IndexSet(c, 0, |elems|, k) ==> !IbltAccumulator.SameDigest(Pick(elems, c), log)
  {
    var cs := Combinations(0, |elems|, k);
    forall c | IndexSet(c, 0, |elems|, k)
      ensures !IbltAccumulator.SameDigest(Pick(elems, c), log)
    {
      CombinationsAreIndexSets(0, |elems|, k, c);
      var j :| 0 <= j < |cs| && cs[j] == c;
    }
  }

  // ---------------------------------------------------------------------
  // The accumulator

  /** Digest::new() under the given nonce, then add for every picked
    * position in turn. */
  method DigestOfPick(elems: seq<U32>, c: seq<nat>, nonce: U32) returns (d: AdditiveMsetHash)
    requires forall j :: 0 <= j < |c| ==> c[j] < |elems|
    ensures fresh(d) && d.Valid() && d.nonce == nonce
    ensures (d.hash, d.count) == DigestOf(nonce, Pick(elems, c))
  {
    d := new AdditiveMsetHash(nonce);
    for j := 0 to |c|
      invariant d.Valid() && d.nonce == nonce
      invariant (d.hash, d.count) == DigestOf(nonce, Pick(elems, c[..j]))
    {
      IbltAccumulator.AddLogged(d, Pick(elems, c[..j]), elems[c[j]]);
      assert Pick(elems, c[..j + 1]) == Pick(elems, c[..j]) + [elems[c[j]]];
    }
    assert c[..|c|] == c;
  }

  class NaiveAccumulator {
    const digest: AdditiveMsetHash
    /** The processed elements, in order. */
    ghost var log: seq<U32>

    ghost predicate Valid()
      reads this, digest
    {
      digest.Valid() && (digest.hash, digest.count) == DigestOf(digest.nonce, log)
    }

    /** NaiveAccumulator::new(): a fresh digest under the given nonce. */
    constructor(nonce: U32)
      ensures Valid() && fresh(digest) && digest.nonce == nonce && log == []
    {
      digest := new AdditiveMsetHash(nonce);
      log := [];
    }

    /** process(elem): adds the element to the digest. */
    method Process(elem: U32)
      requires Valid()
      modifies this, digest
      ensures Valid() && log == old(log) + [elem]
    {
      IbltAccumulator.AddLogged(digest, log, elem);
      log := log + [elem];
    }

    /** process_batch(elems): process on each element in order. */
    method ProcessBatch(elems: seq<U32>)
      requires Valid()
      modifies this, digest
      ensures Valid() && log == old(log) + elems
    {
      for i := 0 to |elems|
        invariant Valid() && log == old(log) + elems[..i]
      {
        Process(elems[i]);
        assert elems[..i + 1] == elems[..i] + [elems[i]];
      }
      assert elems[..|elems|] == elems;
    }

    /** total(): the digest's count, the number processed modulo L. */
    function Total(): (n: nat)
      reads this, digest
      requires Valid()
      ensures n == |log| % MSET_L
    {
      digest.count
    }

    /** One round of validate's loop: a fresh digest of the picked
      * positions, compared with the stored one. */
    method Matches(elems: seq<U32>, c: seq<nat>, nonce: U32) returns (hit: bool)
      requires Valid() && forall j :: 0 <= j < |c| ==> c[j] < |elems|
      ensures hit <==> IbltAccumulator.SameDigest(Pick(elems, c), log)
    {
      var d := DigestOfPick(elems, c, nonce);
      DigestsEqualIff(nonce, Pick(elems, c), digest.nonce, log);
      hit := d.Equals(digest);
    }

    /** validate(elems): true exactly when some combination of total()
      * positions of the list digests to the stored digest. Each candidate
      * digest is made with a fresh random nonce, here nonces(i) for the
      * i-th combination tried. */
    method Validate(elems: seq<U32>, nonces: nat -> U32) returns (valid: bool)
      requires Valid()
      ensures valid <==> exists c :: IndexSet(c, 0, |elems|, Total()) && IbltAccumulator.SameDigest(Pick(elems, c), log)
      ensures |elems| < Total() ==> !valid
    {
      var k := Total();
      var cs := Combinations(0, |elems|, k);
      ghost var L := log;
      ListedAreIndexSets(|elems|, k);
      for i := 0 to |cs|
        invariant forall j :: 0 <= j < i ==> !IbltAccumulator.SameDigest(Pick(elems, cs[j]), L)
      {
        var hit := Matches(elems, cs[i], nonces(i));
        if hit {
          IndexSetNeedsRoom(cs[i], 0, |elems|, k);
          assert IndexSet(cs[i], 0, |elems|, k) && IbltAccumulator.SameDigest(Pick(elems, cs[i]), log);
          return true;
        }
      }
      NoneListedNoneMatch(elems, log, k);
      valid := false;
    }
  }
}
