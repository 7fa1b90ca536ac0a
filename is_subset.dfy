/** The test driver's is_subset(a, b): two occurrence-count tables filled
  * in one pass each, then a scan of a checking every element is counted in
  * b at least as often as in a. */
module SubsetTest {

  /** How often x occurs in s. */
  function Count<T(==)>(s: seq<T>, x: T): nat
  {
    if |s| == 0 then 0
    else Count(s[..|s| - 1], x) + (if s[|s| - 1] == x then 1 else 0)
  }

  /** Every value occurs in b at least as often as in a. */
  ghost predicate Included<T(!new)>(a: seq<T>, b: seq<T>)
  {
    forall x :: Count(a, x) <= Count(b, x)
  }

  /** An unordered_map's operator[]: a missing key reads as 0. */
  function Get<T(==)>(m: map<T, nat>, x: T): nat
  {
    if x in m then m[x] else 0
  }

  // ---------------------------------------------------------------------
  // Counting

  /** The count is the multiplicity in the multiset of the sequence. */
  lemma {:induction false} CountIsMultiplicity<T>(s: seq<T>, x: T)
    ensures Count(s, x) == multiset(s)[x]
  {
    if |s| > 0 {
      var n := |s| - 1;
      CountIsMultiplicity(s[..n], x);
      assert s == s[..n] + [s[n]];
      assert multiset(s) == multiset(s[..n]) + multiset{s[n]};
    }
  }

  /** Counts add up over concatenation. */
  lemma {:induction false} CountAppend<T>(a: seq<T>, b: seq<T>, x: T)
    ensures Count(a + b, x) == Count(a, x) + Count(b, x)
  {
    CountIsMultiplicity(a + b, x);
    CountIsMultiplicity(a, x);
    CountIsMultiplicity(b, x);
    assert multiset(a + b) == multiset(a) + multiset(b);
  }

  /** A value that does not occur has count 0. */
  lemma AbsentCountZero<T>(s: seq<T>, x: T)
    requires x !in s
    ensures Count(s, x) == 0
  {
    CountIsMultiplicity(s, x);
  }

  /** Inclusion by counts is multiset inclusion. */
  lemma IncludedIffSubMultiset<T(!new)>(a: seq<T>, b: seq<T>)
    ensures Included(a, b) <==> multiset(a) <= multiset(b)
  {
    forall x ensures Count(a, x) == multiset(a)[x] && Count(b, x) == multiset(b)[x] {
      CountIsMultiplicity(a, x);
      CountIsMultiplicity(b, x);
    }
  }

  // ---------------------------------------------------------------------
  // is_subset

  /** for (x : s) ++counts[x]; */
  method CountAll<T(==)>(s: seq<T>) returns (counts: map<T, nat>)
    ensures forall x :: Get(counts, x) == Count(s, x)
  {
    counts := map[];
    for i := 0 to |s|
      invariant forall x :: Get(counts, x) == Count(s[..i], x)
    {
      assert s[..i + 1][..i] == s[..i];
      counts := counts[s[i] := Get(counts, s[i]) + 1];
    }
    assert s[..|s|] == s;
  }

  /** is_subset(a, b): false at the first element of a counted more often
    * in a than in b, true when there is none. */
  method IsSubset<T(==,!new)>(a: seq<T>, b: seq<T>) returns (r: bool)
    ensures r <==> Included(a, b)
  {
    var aCounts := CountAll(a);
    var bCounts := CountAll(b);
    for i := 0 to |a|
      invariant forall j :: 0 <= j < i ==> Count(a, a[j]) <= Count(b, a[j])
    {
      if Get(aCounts, a[i]) > Get(bCounts, a[i]) {
        return false;
      }
    }
    forall x ensures Count(a, x) <= Count(b, x) {
      if x !in a {
        AbsentCountZero(a, x);
      }
    }
    return true;
  }

  // ---------------------------------------------------------------------
  // Properties of inclusion

  /** The empty list is included in any list, and every list in itself. */
  lemma EmptyAndSelfIncluded<T(!new)>(a: seq<T>, b: seq<T>)
    ensures Included([], b) && Included(a, a)
  {
    forall x ensures Count([], x) <= Count(b, x) {
      AbsentCountZero([], x);
    }
  }

  /** Reordering either list does not change the answer. */
  lemma IncludedOrderFree<T(!new)>(a: seq<T>, a': seq<T>, b: seq<T>, b': seq<T>)
    requires multiset(a) == multiset(a') && multiset(b) == multiset(b')
    ensures Included(a, b) <==> Included(a', b')
  {
    IncludedIffSubMultiset(a, b);
    IncludedIffSubMultiset(a', b');
  }

  /** Appending to b never turns true into false. */
  lemma IncludedGrow<T(!new)>(a: seq<T>, b: seq<T>, extra: seq<T>)
    requires Included(a, b)
    ensures Included(a, b + extra)
  {
    forall x ensures Count(a, x) <= Count(b + extra, x) {
      CountAppend(b, extra, x);
    }
  }
}
