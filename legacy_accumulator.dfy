/** The PowerSumAccumulator of the accumulator crate: a multiset digest of the
  * processed elements together with the first `threshold` power sums of
  * their 31-bit hashes modulo 4294967029, its byte packing, and the early
  * exits of validation up to the call into the external root finder.
  *
  * An element is represented by its u32 identifier (what elem_to_u32 gives
  * for its bytes); the digest is the additive multiset hash, whose fields
  * are kept here. */
module LegacyAccumulator {
  import opened Common
  import opened ModArith
  import opened PowerSumMath
  import opened PowerSumMod
  import opened LegacyPowerSum
  import opened Digests
  import RibltSymbol

  /** The outcomes of validation named in the accumulator. */
  datatype ValidationResult =
    | Valid
    | Invalid
    | PsumExceedsThreshold
    | PsumErrorFindingRoots
    | PsumCollisionsValid
    | PsumCollisionsInvalid

  /** What validate reaches without the external solver: either a verdict or
    * the coefficients it hands to the root finder. */
  datatype Outcome =
    | Decided(result: ValidationResult)
    | FindRoots(coeffs: seq<U32>)

  /** elem_to_u32(elem) & DJB_MASK: the low 31 bits of the identifier. */
  function Mask(h: U32): (r: U32)
    ensures r <= DJB_MASK && r % 0x8000_0000 == h % 0x8000_0000
  {
    h % 0x8000_0000
  }

  /** Mask applied to every identifier of a list. */
  function MaskAll(s: seq<U32>): (r: seq<U32>)
    ensures |r| == |s| && forall i :: 0 <= i < |s| ==> r[i] == Mask(s[i])
  {
    seq(|s|, i requires 0 <= i < |s| => Mask(s[i]))
  }

  /** Masking commutes with appending one element. */
  lemma MaskAllAppend(s: seq<U32>, x: U32)
    ensures MaskAll(s + [x]) == MaskAll(s) + [Mask(x)]
  {
  }

  /** Masking preserves multiset inclusion of lists. */
  lemma {:induction false} MaskAllMultiset(a: seq<U32>, b: seq<U32>)
    requires multiset(a) == multiset(b)
    ensures multiset(MaskAll(a)) == multiset(MaskAll(b))
    decreases |a|
  {
    if |a| > 0 {
      var n := |a| - 1;
      var x := a[n];
      var u, v := RibltSymbol.PickMatching(a, b);
      MaskAllMultiset(a[..n], u + v);
      assert a == a[..n] + [x];
      MaskAllConcat(a[..n], [x]);
      MaskAllConcat(u + [x], v);
      MaskAllConcat(u, [x]);
      MaskAllConcat(u, v);
    } else {
      RibltSymbol.EmptyMatching(a, b);
    }
  }

  /** Masking distributes over concatenation. */
  lemma MaskAllConcat(a: seq<U32>, b: seq<U32>)
    ensures MaskAll(a + b) == MaskAll(a) + MaskAll(b)
  {
  }

  // ---------------------------------------------------------------------
  // Byte packing of the power sums

  /** Each power sum as four big-endian bytes, back to back. */
  function PackSums(s: seq<U32>): (b: seq<Byte>)
    ensures |b| == 4 * |s|
  {
    if |s| == 0 then [] else PackSums(s[..|s| - 1]) + BE32(s[|s| - 1])
  }

  /** |b| / 4 power sums read back from big-endian groups of four bytes. */
  function UnpackSums(b: seq<Byte>): (s: seq<U32>)
    ensures |s| == |b| / 4
  {
    seq(|b| / 4, i requires 0 <= i < |b| / 4 => FromBE32(b[4 * i .. 4 * i + 4]))
  }

  /** Word i of PackSums(s) sits at bytes 4i .. 4i+4. */
  lemma {:induction false} PackSumsAt(s: seq<U32>, i: nat)
    requires i < |s|
    ensures PackSums(s)[4 * i .. 4 * i + 4] == BE32(s[i])
  {
    var n := |s| - 1;
    assert PackSums(s) == PackSums(s[..n]) + BE32(s[n]);
    if i < n {
      PackSumsAt(s[..n], i);
      assert PackSums(s)[4 * i .. 4 * i + 4] == PackSums(s[..n])[4 * i .. 4 * i + 4];
    }
  }

  /** from_bytes reads back every power sum to_bytes wrote. */
  lemma PackSumsRoundTrip(s: seq<U32>)
    ensures UnpackSums(PackSums(s)) == s
  {
    forall i | 0 <= i < |s|
      ensures UnpackSums(PackSums(s))[i] == s[i]
    {
      PackSumsAt(s, i);
      BE32RoundTrip(s[i]);
    }
  }

  /** The serialized form: digest hash, count narrowed to u16, the nonce as
    * seed, and the packed power sums. */
  datatype MiniAccumulator = MiniAccumulator(hash: int, count: int, seed: U32, powerSums: seq<Byte>)

  /** Threshold zero power sums. */
  function ZeroSums(threshold: nat): (s: seq<U32>)
    ensures |s| == threshold && forall i :: 0 <= i < threshold ==> s[i] == 0
  {
    seq(threshold, _ => 0)
  }

  /** The zero power sums are those of the empty list. */
  lemma ZeroSumsEmpty(threshold: nat)
    ensures ZeroSums(threshold) == PowerSumsMod([], threshold, LARGE_PRIME)
  {
  }

  class PowerSumAccumulator {
    var hash: int
    var count: int
    var nonce: U32
    var powerSums: seq<U32>
    /** The identifiers processed so far, in order. */
    ghost var log: seq<U32>

    /** The digest describes the log, and power sum i is the (i+1)-th power
      * sum of the masked log modulo P. */
    ghost predicate Valid()
      reads this
    {
      (hash, count) == DigestOf(nonce, log)
      && powerSums == PowerSumsMod(MaskAll(log), |powerSums|, LARGE_PRIME)
    }

    /** new(threshold, seed): an empty digest under the given nonce and
      * threshold zero power sums. */
    constructor(threshold: nat, seed: U32)
      ensures Valid() && log == [] && nonce == seed && |powerSums| == threshold
    {
      hash, count, nonce := HashFn(0, seed), 0, seed;
      powerSums := ZeroSums(threshold);
      log := [];
      ZeroSumsEmpty(threshold);
    }

    /** from_bytes: the digest fields and the power sums unpacked from groups
      * of four big-endian bytes. */
    constructor FromBytes(m: MiniAccumulator)
      ensures hash == m.hash && count == m.count && nonce == m.seed
      ensures powerSums == UnpackSums(m.powerSums)
    {
      hash, count, nonce := m.hash, m.count, m.seed;
      powerSums := UnpackSums(m.powerSums);
      log := [];
    }

    /** to_bytes: asserts that the count fits a u16. */
    function ToBytes(): (m: MiniAccumulator)
      reads this
      requires 0 <= count < 0x1_0000
      ensures m.count == count && |m.powerSums| == 4 * |powerSums|
    {
      MiniAccumulator(hash, count, nonce, PackSums(powerSums))
    }

    /** total(): the digest's count. */
    function Total(): (t: int)
      reads this
      requires Valid()
      ensures t == |log| % MSET_L
    {
      count
    }

    /** reset(): a fresh digest, under a new nonce, and zero power sums of
      * the same number. */
    method Reset(seed: U32)
      modifies this
      ensures Valid() && log == [] && nonce == seed && powerSums == ZeroSums(|old(powerSums)|)
    {
      hash, count, nonce := HashFn(0, seed), 0, seed;
      powerSums := ZeroSums(|powerSums|);
      log := [];
      ZeroSumsEmpty(|powerSums|);
    }

    /** process(elem): adds elem to the digest and the powers of its masked
      * value to the power sums. */
    method Process(elem: U32)
      requires Valid()
      modifies this
      ensures Valid() && log == old(log) + [elem] && nonce == old(nonce)
      ensures powerSums == AddPowers(old(powerSums), Mask(elem), LARGE_PRIME)
    {
      assert (log + [elem])[..|log|] == log;
      ModAdd(|log|, 1, MSET_L);
      ModSmall(1, MSET_L);
      hash := (hash + HashFn(1, elem)) % MSET_N;
      count := (count + 1) % MSET_L;
      var x := Mask(elem);
      ghost var before := powerSums;
      powerSums := AddElementPowers(powerSums, x);
      AddPowersSums(MaskAll(log), x, |before|, LARGE_PRIME);
      MaskAllAppend(log, elem);
      log := log + [elem];
    }

    /** process_batch(elems): process each element in order. */
    method ProcessBatch(elems: seq<U32>)
      requires Valid()
      modifies this
      ensures Valid() && log == old(log) + elems && nonce == old(nonce)
      ensures |powerSums| == |old(powerSums)|
    {
      var i := 0;
      while i < |elems|
        invariant 0 <= i <= |elems|
        invariant Valid() && log == old(log) + elems[..i] && nonce == old(nonce)
        invariant |powerSums| == |old(powerSums)|
      {
        Process(elems[i]);
        assert elems[..i + 1] == elems[..i] + [elems[i]];
        i := i + 1;
      }
      assert elems[..i] == elems;
    }

    /** validate(elems), up to the root finder: the three early exits, the
      * digest recheck when nothing is missing, and otherwise the coefficients
      * computed from the difference of the power sums. A digest made afresh
      * has a nonce of its own, given here as a parameter. */
    method Validate(elems: seq<U32>, freshNonce: U32) returns (r: Outcome)
      requires Valid() && |powerSums| <= U32_MAX
      ensures Total() == 0 ==> r == Decided(ValidationResult.Valid)
      ensures Total() != 0 && |elems| < Total() ==> r == Decided(Invalid)
      ensures Total() != 0 && |elems| >= Total() && |elems| - Total() > |powerSums|
          ==> r == Decided(PsumExceedsThreshold)
      ensures Total() != 0 && |elems| == Total()
          ==> r == Decided(if DigestsMatch(freshNonce, elems) then ValidationResult.Valid else Invalid)
      ensures Total() != 0 && |elems| > Total() && |elems| - Total() <= |powerSums|
          ==> r == FindRoots(ValidateCoeffs(elems, |elems| - Total()))
    {
      if count == 0 {
        return Decided(ValidationResult.Valid);
      }
      if |elems| < count {
        return Decided(Invalid);
      }
      var nValues := |elems| - count;
      var threshold := |powerSums|;
      if nValues > threshold {
        return Decided(PsumExceedsThreshold);
      }
      if nValues == 0 {
        var same := CheckDigest(freshNonce, elems);
        return Decided(if same then ValidationResult.Valid else Invalid);
      }
      r := SolveMissing(elems, nValues);
    }

    /** The digest recheck of validate when no element is missing: elems
      * hashed under a fresh nonce against this digest. */
    method CheckDigest(freshNonce: U32, elems: seq<U32>) returns (same: bool)
      ensures same == DigestsMatch(freshNonce, elems)
    {
      var d := new AdditiveMsetHash(freshNonce);
      d.AddAll(elems);
      CountAfterIsSum(0, |elems|);
      same := MsetEquals(d.hash, d.count, d.nonce, hash, count, nonce);
    }

    /** validate when n elements are missing: the power sums of elems minus
      * the logged ones, turned into coefficients and handed to the root
      * finder. */
    method SolveMissing(elems: seq<U32>, n: nat) returns (r: Outcome)
      requires Valid() && 0 < n <= |powerSums| <= U32_MAX
      ensures r == FindRoots(ValidateCoeffs(elems, n))
    {
      var sums := CalculatePowerSums(MaskAll(elems), n);
      ResiduesBelowP(powerSums, MaskAll(log));
      var diff := CalculateDifference(sums, powerSums);
      var coeffs := ComputePolynomialCoefficients(diff[..n]);
      return FindRoots(coeffs);
    }

    /** The digest of elems under a fresh nonce equals this one. */
    predicate DigestsMatch(freshNonce: U32, elems: seq<U32>)
      reads this
    {
      var d := DigestOf(freshNonce, elems);
      MsetEquals(d.0, d.1, freshNonce, hash, count, nonce)
    }

    /** The coefficients validate hands to the root finder when n elements
      * are missing. */
    function ValidateCoeffs(elems: seq<U32>, n: nat): (c: seq<U32>)
      reads this
      requires Valid() && 0 < n <= |powerSums| <= U32_MAX
      ensures |c| == n + 1
    {
      ResiduesBelowP(powerSums, MaskAll(log));
      DiffCoeffs(MaskAll(elems), powerSums, n)
    }

    /** The digest recheck succeeds exactly when the list and the log have
      * the same length modulo L and the same total modulo N. */
    lemma DigestsMatchIff(freshNonce: U32, elems: seq<U32>)
      requires Valid()
      ensures DigestsMatch(freshNonce, elems)
          <==> |elems| % MSET_L == |log| % MSET_L && Digests.Total(elems) % MSET_N == Digests.Total(log) % MSET_N
    {
      DigestsEqualIff(freshNonce, elems, nonce, log);
    }

    /** When the list is the log plus n missing elements D, the coefficients
      * validate computes vanish exactly at the masked elements of D. */
    lemma ValidateFindsMissing(elems: seq<U32>, D: seq<U32>, x: int)
      requires Valid() && IsPrime(LARGE_PRIME) && 0 < |D| <= |powerSums| < LARGE_PRIME
      requires multiset(elems) == multiset(log) + multiset(D)
      ensures MonicValue(ValidateCoeffs(elems, |D|)[1..], x) % LARGE_PRIME == 0
          <==> exists i :: 0 <= i < |D| && (x - Mask(D[i])) % LARGE_PRIME == 0
    {
      ResiduesBelowP(powerSums, MaskAll(log));
      MissingFromLog(elems, log, D, powerSums, x);
      MaskedRoot(D, x);
    }
  }

  /** The coefficients validate computes from the power sums of A against
    * the stored sums s, for n missing elements. */
  function DiffCoeffs(A: seq<U32>, s: seq<U32>, n: nat): (c: seq<U32>)
    requires 0 < n <= |s| && n <= U32_MAX && forall i :: 0 <= i < |s| ==> s[i] < LARGE_PRIME
    ensures |c| == n + 1
  {
    LegacyCoeffs(CalculateDifference(PowerSumsMod(A, n, LARGE_PRIME), s)[..n])
  }

  /** Some element of M is x modulo P. */
  predicate RootAmong(M: seq<U32>, x: int)
  {
    exists i :: 0 <= i < |M| && (x - M[i]) % LARGE_PRIME == 0
  }

  /** The difference coefficients of a list that is the log plus D, against
    * the stored sums of the log, vanish exactly at the masks of D. */
  lemma MissingFromLog(elems: seq<U32>, log: seq<U32>, D: seq<U32>, s: seq<U32>, x: int)
    requires IsPrime(LARGE_PRIME) && 0 < |D| <= |s| < LARGE_PRIME
    requires s == PowerSumsMod(MaskAll(log), |s|, LARGE_PRIME)
    requires forall i :: 0 <= i < |s| ==> s[i] < LARGE_PRIME
    requires multiset(elems) == multiset(log) + multiset(D)
    ensures MonicValue(DiffCoeffs(MaskAll(elems), s, |D|)[1..], x) % LARGE_PRIME == 0 <==> RootAmong(MaskAll(D), x)
  {
    MaskedDifference(elems, log, D);
    MissingRoots(MaskAll(elems), MaskAll(log), MaskAll(D), s, x);
  }

  /** Masking keeps a multiset difference. */
  lemma MaskedDifference(elems: seq<U32>, log: seq<U32>, D: seq<U32>)
    requires multiset(elems) == multiset(log) + multiset(D)
    ensures multiset(MaskAll(elems)) == multiset(MaskAll(log)) + multiset(MaskAll(D))
  {
    MaskAllMultiset(elems, log + D);
    MaskAllConcat(log, D);
  }

  /** A root among the masked elements is a root at some element's mask. */
  lemma MaskedRoot(D: seq<U32>, x: int)
    ensures RootAmong(MaskAll(D), x)
        <==> exists i :: 0 <= i < |D| && (x - Mask(D[i])) % LARGE_PRIME == 0
  {
    var M := MaskAll(D);
    if i :| 0 <= i < |D| && (x - M[i]) % LARGE_PRIME == 0 {
      assert (x - Mask(D[i])) % LARGE_PRIME == 0;
    }
    if i :| 0 <= i < |D| && (x - Mask(D[i])) % LARGE_PRIME == 0 {
      assert (x - M[i]) % LARGE_PRIME == 0;
    }
  }

  /** The coefficients computed from the difference between the sums of A
    * and the stored sums of B vanish exactly at the elements of M, when A
    * is B plus M as a multiset. */
  lemma MissingRoots(A: seq<U32>, B: seq<U32>, M: seq<U32>, s: seq<U32>, x: int)
    requires IsPrime(LARGE_PRIME) && 0 < |M| <= |s| < LARGE_PRIME
    requires s == PowerSumsMod(B, |s|, LARGE_PRIME)
    requires multiset(A) == multiset(B) + multiset(M)
    requires forall i :: 0 <= i < |s| ==> s[i] < LARGE_PRIME
    ensures MonicValue(DiffCoeffs(A, s, |M|)[1..], x) % LARGE_PRIME == 0 <==> RootAmong(M, x)
  {
    var n := |M|;
    var p := CalculateDifference(PowerSumsMod(A, n, LARGE_PRIME), s)[..n];
    assert DiffCoeffs(A, s, n) == LegacyCoeffs(p);
    assert p == PowerSumsMod(M, n, LARGE_PRIME) by {
      SubSumsDifference(A, B, M, n, |s|, LARGE_PRIME);
    }
    assert SumsOf(p, M, LARGE_PRIME, n) by {
      ReducedSumsOf(M, n, LARGE_PRIME);
    }
    LegacyRoots(M, p, x);
  }

  /** Power sums reduced modulo P are below P. */
  lemma ResiduesBelowP(s: seq<U32>, X: seq<int>)
    requires s == PowerSumsMod(X, |s|, LARGE_PRIME)
    ensures forall i :: 0 <= i < |s| ==> s[i] < LARGE_PRIME
  {
  }

  /** to_bytes then from_bytes restores the digest fields and the power sums. */
  lemma BytesRoundTrip(a: PowerSumAccumulator)
    requires 0 <= a.count < 0x1_0000
    ensures var m := a.ToBytes();
      m.hash == a.hash && m.count == a.count && m.seed == a.nonce && UnpackSums(m.powerSums) == a.powerSums
  {
    PackSumsRoundTrip(a.powerSums);
  }
}
