/** check_digest of the accumulator crate (accumulator/src/lib.rs): recompute
  * the XOR digest of a received list while skipping the elements a solver
  * named as dropped, and compare it with the router's digest. The dropped
  * elements arrive as a map from element to how many copies to skip. */
module AccumulatorLib {
  import opened Common
  import opened Digests

  /** How many copies of x the map still asks to skip: its count, or 0 when
    * x is not a key or its count is 0. */
  function Skips(d: map<U32, nat>, x: U32): nat
  {
    if x in d && d[x] > 0 then d[x] else 0
  }

  /** a - b, or 0 when b is larger. */
  function Minus(a: nat, b: nat): nat
  {
    if a >= b then a - b else 0
  }

  // ---------------------------------------------------------------------
  // As written

  /** The map after `dropped_count.remove(&elem)` found elem with a count,
    * followed by the reinsertion of count - 1 when the count is positive. */
  function RemoveOnce(d: map<U32, nat>, e: U32): map<U32, nat>
    requires e in d
  {
    var rest := d - {e};
    if d[e] > 0 then rest[e := d[e] - 1] else rest
  }

  /** The elements check_digest adds to its digest, as written: an element
    * that is a key of the map is skipped whatever its count, and its count
    * goes down by one, the key disappearing once the count was 0. */
  function KeptAsWritten(elems: seq<U32>, d: map<U32, nat>): seq<U32>
    decreases |elems|
  {
    if |elems| == 0 then []
    else if elems[0] in d then KeptAsWritten(elems[1..], RemoveOnce(d, elems[0]))
    else [elems[0]] + KeptAsWritten(elems[1..], d)
  }

  /** One element of the as-written loop, from position i. */
  lemma KeptAsWrittenStep(elems: seq<U32>, i: nat, d: map<U32, nat>)
    requires i < |elems|
    ensures KeptAsWritten(elems[i..], d)
         == if elems[i] in d then KeptAsWritten(elems[i + 1..], RemoveOnce(d, elems[i]))
            else [elems[i]] + KeptAsWritten(elems[i + 1..], d)
  {
    assert elems[i..][1..] == elems[i + 1..];
  }

  /** check_digest as written: XORs every element that KeptAsWritten keeps
    * into a fresh digest and compares it with expected. */
  method CheckDigestAsWritten(elems: seq<U32>, droppedCount: map<U32, nat>, expected: U32) returns (same: bool)
    ensures same <==> XorAll(KeptAsWritten(elems, droppedCount)) == expected
  {
    var digest := new XorDigest();
    var d := droppedCount;
    ghost var kept: seq<U32> := [];
    for i := 0 to |elems|
      invariant KeptAsWritten(elems, droppedCount) == kept + KeptAsWritten(elems[i..], d)
      invariant digest.hash == XorAll(kept)
    {
      var elem := elems[i];
      KeptAsWrittenStep(elems, i, d);
      if elem in d {
        var count := d[elem];
        d := d - {elem};
        if count > 0 {
          d := d[elem := count - 1];
        }
      } else {
        digest.Add(elem);
        assert (kept + [elem])[..|kept|] == kept;
        kept := kept + [elem];
      }
    }
    assert elems[|elems|..] == [];
    assert KeptAsWritten(elems, droppedCount) == kept;
    same := digest.hash == expected;
  }

  /** As written, a key with count c skips c + 1 copies of its element:
    * one more than the count the caller put in the map. */
  lemma {:induction false} KeptAsWrittenCounts(elems: seq<U32>, d: map<U32, nat>, x: U32)
    ensures multiset(KeptAsWritten(elems, d))[x]
         == if x in d then Minus(multiset(elems)[x], Skips(d, x) + 1) else multiset(elems)[x]
    decreases |elems|
  {
    if |elems| > 0 {
      var e, rest := elems[0], elems[1..];
      assert elems == [e] + rest;
      if e in d {
        KeptAsWrittenCounts(rest, RemoveOnce(d, e), x);
      } else {
        KeptAsWrittenCounts(rest, d, x);
      }
    }
  }

  /** The list [5, 5] from a router that logged [5] and dropped one 5: the
    * dropped map {5: 1} makes the check as written skip both copies, so it
    * rejects the honest log, while the corrected check accepts it. */
  lemma AsWrittenRejectsHonestLog()
    ensures XorAll(KeptAsWritten([5, 5], map[5 := 1])) != XorAll([5])
    ensures XorAll(Kept([5, 5], map[5 := 1])) == XorAll([5])
  {
    var d := map[5 := 1];
    assert RemoveOnce(d, 5) == map[5 := 0];
    assert RemoveOnce(map[5 := 0], 5) == map[];
    assert KeptAsWritten([5, 5], d) == [] by {
      assert [5, 5][1..] == [5];
      assert [5 as U32][1..] == [];
    }
    assert Kept([5, 5], d) == [5] by {
      assert [5, 5][1..] == [5];
      assert [5 as U32][1..] == [];
      assert Kept([5], map[5 := 0]) == [5] + Kept([], map[5 := 0]);
    }
    assert [5 as U32][..0] == [];
  }

  // ---------------------------------------------------------------------
  // Corrected

  /** The elements the digest recheck is meant to add: an element whose
    * count is positive is skipped and its count goes down by one; any other
    * element is added. */
  function Kept(elems: seq<U32>, d: map<U32, nat>): seq<U32>
    decreases |elems|
  {
    if |elems| == 0 then []
    else if Skips(d, elems[0]) > 0 then Kept(elems[1..], d[elems[0] := d[elems[0]] - 1])
    else [elems[0]] + Kept(elems[1..], d)
  }

  /** One element of the corrected loop, from position i. */
  lemma KeptStep(elems: seq<U32>, i: nat, d: map<U32, nat>)
    requires i < |elems|
    ensures Kept(elems[i..], d)
         == if Skips(d, elems[i]) > 0 then Kept(elems[i + 1..], d[elems[i] := d[elems[i]] - 1])
            else [elems[i]] + Kept(elems[i + 1..], d)
  {
    assert elems[i..][1..] == elems[i + 1..];
  }

  /** check_digest with the count honoured: skips exactly count copies of
    * each dropped element. */
  method CheckDigest(elems: seq<U32>, droppedCount: map<U32, nat>, expected: U32) returns (same: bool)
    ensures same <==> XorAll(Kept(elems, droppedCount)) == expected
  {
    var digest := new XorDigest();
    var d := droppedCount;
    ghost var kept: seq<U32> := [];
    for i := 0 to |elems|
      invariant Kept(elems, droppedCount) == kept + Kept(elems[i..], d)
      invariant digest.hash == XorAll(kept)
    {
      var elem := elems[i];
      KeptStep(elems, i, d);
      if elem in d && d[elem] > 0 {
        d := d[elem := d[elem] - 1];
      } else {
        digest.Add(elem);
        assert (kept + [elem])[..|kept|] == kept;
        kept := kept + [elem];
      }
    }
    assert elems[|elems|..] == [];
    assert Kept(elems, droppedCount) == kept;
    same := digest.hash == expected;
  }

  /** The corrected check skips exactly Skips(d, x) copies of each x. */
  lemma {:induction false} KeptCounts(elems: seq<U32>, d: map<U32, nat>, x: U32)
    ensures multiset(Kept(elems, d))[x] == Minus(multiset(elems)[x], Skips(d, x))
    decreases |elems|
  {
    if |elems| > 0 {
      var e, rest := elems[0], elems[1..];
      assert elems == [e] + rest;
      if Skips(d, e) > 0 {
        KeptCounts(rest, d[e := d[e] - 1], x);
      } else {
        KeptCounts(rest, d, x);
      }
    }
  }

  /** When the map counts the copies of a multiset D, the corrected check
    * keeps exactly the received multiset minus D. */
  lemma KeptIsDifference(elems: seq<U32>, d: map<U32, nat>, D: multiset<U32>)
    requires forall x :: Skips(d, x) == D[x]
    ensures multiset(Kept(elems, d)) == multiset(elems) - D
  {
    forall x
      ensures multiset(Kept(elems, d))[x] == (multiset(elems) - D)[x]
    {
      KeptCounts(elems, d, x);
    }
  }

  /** The recheck accepts an honest router: when the received list is the
    * logged list plus the dropped multiset D, and the map counts D, the
    * digest of what is kept is the digest of the log. */
  lemma CheckDigestAcceptsHonestLog(log: seq<U32>, elems: seq<U32>, d: map<U32, nat>, D: multiset<U32>)
    requires multiset(elems) == multiset(log) + D
    requires forall x :: Skips(d, x) == D[x]
    ensures XorAll(Kept(elems, d)) == XorAll(log)
  {
    KeptIsDifference(elems, d, D);
    assert multiset(elems) - D == multiset(log);
    XorAllOrderFree(Kept(elems, d), log);
  }

  /** With nothing dropped, both versions add every element, so the check
    * compares the XOR of the whole list with expected. */
  lemma {:induction false} NothingDropped(elems: seq<U32>)
    ensures KeptAsWritten(elems, map[]) == elems && Kept(elems, map[]) == elems
    decreases |elems|
  {
    if |elems| > 0 {
      NothingDropped(elems[1..]);
      assert elems == [elems[0]] + elems[1..];
    }
  }

  // ---------------------------------------------------------------------
  // Counting the dropped elements

  /** The count map of a list, built one element at a time: the first copy
    * of an element enters with count 1, each later copy adds one. */
  function Tally(s: seq<U32>): map<U32, nat>
  {
    if |s| == 0 then map[]
    else
      var t, e := Tally(s[..|s| - 1]), s[|s| - 1];
      t[e := (if e in t then t[e] else 0) + 1]
  }

  /** The count map of a list counts each element's copies. */
  lemma {:induction false} TallyCounts(s: seq<U32>, x: U32)
    ensures x in Tally(s) <==> x in multiset(s)
    ensures Skips(Tally(s), x) == multiset(s)[x]
    decreases |s|
  {
    if |s| > 0 {
      var init := s[..|s| - 1];
      TallyCounts(init, x);
      TallyCounts(init, s[|s| - 1]);
      assert s == init + [s[|s| - 1]];
    }
  }

  /** The loop `*dropped_count.entry(elem).or_insert(0) += 1` over the
    * dropped elements. */
  method CountDropped(dropped: seq<U32>) returns (d: map<U32, nat>)
    ensures d == Tally(dropped)
  {
    d := map[];
    for i := 0 to |dropped|
      invariant d == Tally(dropped[..i])
    {
      var elem := dropped[i];
      assert dropped[..i + 1][..i] == dropped[..i];
      var count := if elem in d then d[elem] else 0;
      d := d[elem := count + 1];
    }
    assert dropped[..|dropped|] == dropped;
  }

  /** The whole recheck accepts an honest router: when the received list is
    * the logged list plus the dropped list, counting the dropped list and
    * skipping those copies leaves the digest of the log. */
  lemma HonestDropsPass(log: seq<U32>, elems: seq<U32>, dropped: seq<U32>)
    requires multiset(elems) == multiset(log) + multiset(dropped)
    ensures XorAll(Kept(elems, Tally(dropped))) == XorAll(log)
  {
    forall x
      ensures Skips(Tally(dropped), x) == multiset(dropped)[x]
    {
      TallyCounts(dropped, x);
    }
    CheckDigestAcceptsHonestLog(log, elems, Tally(dropped), multiset(dropped));
  }

  // ---------------------------------------------------------------------
  // Candidate dropped elements, shared by the CBF and IBLT accumulators

  /** contains on counters D: every cell of I is non-zero. */
  predicate Covered(D: seq<int>, I: seq<nat>)
  {
    forall k :: 0 <= k < |I| ==> I[k] < |D| && D[I[k]] != 0
  }

  /** elems_i: the positions among the first i whose hit is set, in
    * increasing order. */
  function Candidates(h: seq<bool>, i: nat): seq<nat>
    requires i <= |h|
  {
    if i == 0 then [] else Candidates(h, i - 1) + (if h[i - 1] then [i - 1] else [])
  }

  /** A position is a candidate exactly when it is below i and its hit is
    * set. */
  lemma {:induction false} CandidatesMembers(h: seq<bool>, i: nat, j: int)
    requires i <= |h|
    ensures j in Candidates(h, i) <==> 0 <= j < i && h[j]
    decreases i
  {
    if i > 0 {
      CandidatesMembers(h, i - 1, j);
    }
  }
}
