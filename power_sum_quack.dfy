/** The 32-bit power sum quACK of the Rust library, PowerSumQuackU32.
  *
  * The quACK holds `threshold` power sums modulo a prime p, the number of
  * elements it represents as a wrapping u32, and the last value inserted when
  * it is known. The library's modular integer type and its inverse table are
  * not part of this model: the modulus p and the table are constant fields
  * given at construction, and the arithmetic is that of the ModularInteger
  * module. A Rust slice `&mut buf[k..]` is the pair (buf, k). */
module PowerSumQuack {
  import opened Common
  import opened ModArith
  import opened PowerSumMath
  import opened PowerSumMod
  import opened ModularInteger
  import opened FixedAccumulator
  import opened VectorAccumulator

  /** The modulus of ModularInteger<u32>: below 2^32, and above half of it, so
    * that ModularInteger::new reduces every u32. */
  predicate Modulus32(p: int)
  {
    1 < p < U32_LIMIT <= 2 * p
  }

  class PowerSumQuackU32 {
    const p: int
    /** INVERSE_TABLE_U32: entry i is the inverse of i + 1. */
    const inverses: seq<ModInt>
    var powerSums: seq<ModInt>
    var lastValue: Option<ModInt>
    var count: int

    ghost predicate Valid()
      reads this
    {
      Modulus32(p) && |powerSums| < p && AllValid(powerSums, p) && AllValid(inverses, p)
      && IsU32(count) && (lastValue.Some? ==> ModularInteger.Valid(lastValue.value, p))
    }

    /** The power sums, as integers. */
    function Sums(): seq<int>
      reads this
    {
      Values(powerSums)
    }

    /** new(threshold): threshold zero power sums, count 0, no last value. */
    constructor(threshold: nat, p: int, inverses: seq<ModInt>)
      requires Modulus32(p) && threshold < p && AllValid(inverses, p)
      ensures Valid() && this.p == p && this.inverses == inverses
      ensures |powerSums| == threshold && Sums() == Zeros(threshold)
      ensures count == 0 && lastValue == None
    {
      this.p, this.inverses := p, inverses;
      var sums := [];
      var i := 0;
      while i < threshold
        invariant 0 <= i <= threshold && |sums| == i
        invariant forall k :: 0 <= k < i ==> sums[k] == Zero()
      {
        sums := sums + [Zero()];
        i := i + 1;
      }
      powerSums, lastValue, count := sums, None, 0;
    }

    /** A quACK with the given parts, as `Self { .. }` builds one. */
    constructor FromParts(p: int, inverses: seq<ModInt>, powerSums: seq<ModInt>,
                          lastValue: Option<ModInt>, count: int)
      ensures this.p == p && this.inverses == inverses && this.powerSums == powerSums
      ensures this.lastValue == lastValue && this.count == count
    {
      this.p, this.inverses := p, inverses;
      this.powerSums, this.lastValue, this.count := powerSums, lastValue, count;
    }

    /** insert(value): adds value^(i+1) to power sum i, counts the element with
      * u32 wrap-around and remembers it as the last value. At least one power
      * sum is needed, because the loop bound size - 1 is unsigned. */
    method Insert(value: int)
      requires Valid() && |powerSums| >= 1 && IsU32(value)
      modifies this
      ensures Valid() && |powerSums| == |old(powerSums)|
      ensures Sums() == AddPowers(old(Sums()), value, p)
      ensures count == WrapU32(old(count) + 1)
      ensures lastValue == Some(FromNarrow(value, p))
    {
      var x := FromNarrow(value, p);
      powerSums := AddedPowers(powerSums, value, p);
      count := WrapU32(count + 1);
      lastValue := Some(x);
    }

    /** remove(value): subtracts value^(i+1) from power sum i and uncounts the
      * element with u32 wrap-around. The last value is forgotten only when its
      * stored residue equals value. */
    method Remove(value: int)
      requires Valid() && |powerSums| >= 1 && IsU32(value)
      modifies this
      ensures Valid() && |powerSums| == |old(powerSums)|
      ensures Sums() == SubPowers(old(Sums()), value, p)
      ensures count == WrapU32(old(count) - 1)
      ensures lastValue == if old(lastValue).Some? && old(lastValue).value.value == value
                           then None else old(lastValue)
    {
      powerSums := SubtractedPowers(powerSums, value, p);
      count := WrapU32(count - 1);
      if lastValue.Some? && lastValue.value.value == value {
        lastValue := None;
      }
    }

    /** sub_assign(rhs): the thresholds must agree (the source asserts it);
      * subtracts the sums element-wise and the counts with wrap-around, and
      * forgets the last value. */
    method SubAssign(rhs: PowerSumQuackU32)
      requires Valid() && rhs.Valid() && rhs != this && rhs.p == p
      requires |rhs.powerSums| == |powerSums|
      modifies this
      ensures Valid() && |powerSums| == |old(powerSums)|
      ensures Sums() == SubSums(old(Sums()), rhs.Sums(), p)
      ensures count == WrapU32(old(count) - rhs.count)
      ensures lastValue == None
    {
      powerSums := SubtractedSums(powerSums, rhs.powerSums, p);
      count := WrapU32(count - rhs.count);
      lastValue := None;
    }

    /** sub(rhs): a new quACK whose threshold is the smaller of the two, with
      * the element-wise differences over that prefix, the count difference and
      * no last value. */
    method Sub(rhs: PowerSumQuackU32) returns (r: PowerSumQuackU32)
      requires Valid() && rhs.Valid() && rhs.p == p
      ensures fresh(r) && r.Valid() && r.p == p && r.inverses == inverses
      ensures |r.powerSums| == if |powerSums| <= |rhs.powerSums| then |powerSums| else |rhs.powerSums|
      ensures r.Sums() == SubSums(Sums(), rhs.Sums(), p)
      ensures r.count == WrapU32(count - rhs.count) && r.lastValue == None
    {
      var threshold := if |powerSums| <= |rhs.powerSums| then |powerSums| else |rhs.powerSums|;
      var sums := [];
      var i := 0;
      while i < threshold
        invariant 0 <= i <= threshold && |sums| == i
        invariant AllValid(sums, p)
        invariant forall k :: 0 <= k < i ==>
          sums[k].value == (powerSums[k].value - rhs.powerSums[k].value) % p
      {
        sums := sums + [ModularInteger.Sub(powerSums[i], rhs.powerSums[i], p)];
        i := i + 1;
      }
      r := new PowerSumQuackU32.FromParts(p, inverses, sums, None, WrapU32(count - rhs.count));
    }

    /** to_coeffs_preallocated(coeffs): nothing for an empty buffer; otherwise
      * Newton's identities into the caller's buffer, which may hold at most
      * threshold entries. Entries from 1 on start from what the caller left
      * in them. */
    method ToCoeffsPreallocated(coeffs: array<ModInt>)
      requires Valid() && coeffs.Length <= |powerSums| && coeffs.Length <= |inverses|
      requires AllValid(coeffs[..], p)
      modifies coeffs
      ensures AllValid(coeffs[..], p)
      ensures Values(coeffs[..]) == NewtonCoeffs(old(Values(coeffs[..])), Sums(), Values(inverses), p)
    {
      if coeffs.Length == 0 {
        return;
      }
      NewtonInto(coeffs, powerSums, inverses, p);
    }

    /** to_coeffs(): count() coefficients, computed into a buffer of zeros; the
      * count may not exceed the threshold. */
    method ToCoeffs() returns (r: seq<ModInt>)
      requires Valid() && count <= |powerSums| && count <= |inverses|
      ensures |r| == count && AllValid(r, p)
      ensures Values(r) == NewtonCoeffs(Zeros(count), Sums(), Values(inverses), p)
    {
      var c := new ModInt[count](_ => Zero());
      assert Values(c[..]) == Zeros(count);
      ToCoeffsPreallocated(c);
      r := c[..];
    }

    /** decode_with_log(log): nothing when the count is 0; otherwise the entries
      * of the log, in order and with repetitions, at which the monic polynomial
      * of the coefficients vanishes. */
    method DecodeWithLog(log: seq<int>) returns (r: seq<int>)
      requires Valid() && AllU32(log) && count <= |powerSums| && count <= |inverses|
      ensures count == 0 ==> r == []
      ensures count != 0 ==>
        r == RootsInLog(log, NewtonCoeffs(Zeros(count), Sums(), Values(inverses), p), p)
    {
      if count == 0 {
        return [];
      }
      var coeffs := ToCoeffs();
      ghost var c := Values(coeffs);
      r := [];
      var i := 0;
      while i < |log|
        invariant 0 <= i <= |log|
        invariant r == RootsInLog(log[..i], c, p)
      {
        var v := EvaluateMonicPolynomial(coeffs, log[i], p, U32_LIMIT);
        assert log[..i + 1][..i] == log[..i];
        if v.value == 0 {
          r := r + [log[i]];
        }
        i := i + 1;
      }
      assert log[..|log|] == log;
    }

    /** serialize(buf): the count and the last value as little-endian u32s,
      * then the power sums; the last value must be known. Returns the number
      * of bytes written, 8 + 4 * threshold. */
    method Serialize(buf: array<Byte>, start: nat) returns (n: nat)
      requires Valid() && lastValue.Some? && start + 8 + 4 * |powerSums| <= buf.Length
      modifies buf
      ensures n == 8 + 4 * |powerSums|
      ensures buf[start..start + n] == Encoding(count, lastValue.value.value, Sums())
      ensures buf[..start] == old(buf[..start]) && buf[start + n..] == old(buf[start + n..])
    {
      var bytes := Encoding(count, lastValue.value.value, Sums());
      n := |bytes|;
      CopyBytes(buf, start, bytes);
    }

    /** serialize_with_hint(buf, num_missing): as serialize, but only the first
      * min(threshold, num_missing) power sums. */
    method SerializeWithHint(buf: array<Byte>, start: nat, numMissing: nat) returns (n: nat)
      requires Valid() && lastValue.Some?
      requires start + 8 + 4 * (if |powerSums| <= numMissing then |powerSums| else numMissing) <= buf.Length
      modifies buf
      ensures var k := if |powerSums| <= numMissing then |powerSums| else numMissing;
        n == 8 + 4 * k && buf[start..start + n] == Encoding(count, lastValue.value.value, Sums()[..k])
      ensures buf[..start] == old(buf[..start]) && buf[start + n..] == old(buf[start + n..])
    {
      var k := if |powerSums| <= numMissing then |powerSums| else numMissing;
      var bytes := Encoding(count, lastValue.value.value, Sums()[..k]);
      n := |bytes|;
      CopyBytes(buf, start, bytes);
    }

    /** deserialize_prealloc(buf): when the buffer holds as many power sums as
      * this quACK, the words are copied over them in place; otherwise the
      * quACK is replaced by deserialize(buf). Either way the state is the
      * decoded one, with the words copied as they are. */
    method DeserializePrealloc(buf: seq<Byte>)
      requires Modulus32(p) && |buf| >= 8
      modifies this
      ensures Sums() == Decoding(buf).sums && count == Decoding(buf).count
      ensures lastValue == Some(FromNarrow(Decoding(buf).last, p))
    {
      var n := (|buf| - 8) / 4;
      if |powerSums| != n {
        var q := Deserialize(buf, p, inverses);
        powerSums, count, lastValue := q.powerSums, q.count, q.lastValue;
        return;
      }
      ghost var words := Decoding(buf).sums;
      var sums := powerSums;
      var i := 0;
      while i < n
        invariant 0 <= i <= n && |sums| == n
        invariant forall k :: 0 <= k < i ==> sums[k].value == words[k]
      {
        assert buf[8..][4 * i .. 4 * i + 4] == buf[8 + 4 * i .. 8 + 4 * i + 4];
        sums := sums[i := ModInt(FromLE32(buf[8 + 4 * i .. 8 + 4 * i + 4]))];
        i := i + 1;
      }
      powerSums := sums;
      count := FromLE32(buf[0..4]);
      lastValue := Some(FromNarrow(FromLE32(buf[4..8]), p));
    }
  }

  /** The loop of insert: adds value^(i+1) to power sum i, each power the
    * previous one times value. */
  method AddedPowers(s: seq<ModInt>, value: int, p: int) returns (r: seq<ModInt>)
    requires Modulus32(p) && |s| >= 1 && AllValid(s, p) && IsU32(value)
    ensures |r| == |s| && AllValid(r, p) && Values(r) == AddPowers(Values(s), value, p)
  {
    var size := |s|;
    var x := FromNarrow(value, p);
    var y := x;
    assert Pow(value, 1) == value;
    r := s;
    var i := 0;
    while i < size - 1
      invariant 0 <= i <= size - 1 && |r| == size
      invariant y.value == Pow(value, i + 1) % p
      invariant AllValid(r, p)
      invariant forall k :: 0 <= k < i ==> r[k].value == (s[k].value + Pow(value, k + 1)) % p
      invariant forall k :: i <= k < size ==> r[k] == s[k]
    {
      AddPowerMod(r[i].value, y.value, value, i + 1, p);
      r := r[i := Add(r[i], y, p)];
      PowerStepMod(y.value, x.value, value, i + 1, p);
      y := Mul(y, x, p);
      i := i + 1;
    }
    AddPowerMod(r[size - 1].value, y.value, value, size, p);
    r := r[size - 1 := Add(r[size - 1], y, p)];
  }

  /** The loop of sub_assign: subtracts t[i] from s[i] in place. */
  method SubtractedSums(s: seq<ModInt>, t: seq<ModInt>, p: int) returns (r: seq<ModInt>)
    requires p > 0 && |t| == |s| && AllValid(s, p) && AllValid(t, p)
    ensures |r| == |s| && AllValid(r, p) && Values(r) == SubSums(Values(s), Values(t), p)
  {
    r := s;
    var i := 0;
    while i < |r|
      invariant 0 <= i <= |r| == |s|
      invariant AllValid(r, p)
      invariant forall k :: 0 <= k < i ==> r[k].value == (s[k].value - t[k].value) % p
      invariant forall k :: i <= k < |s| ==> r[k] == s[k]
    {
      r := r[i := ModularInteger.Sub(r[i], t[i], p)];
      i := i + 1;
    }
  }

  /** The loop of remove: subtracts value^(i+1) from power sum i. */
  method SubtractedPowers(s: seq<ModInt>, value: int, p: int) returns (r: seq<ModInt>)
    requires Modulus32(p) && |s| >= 1 && AllValid(s, p) && IsU32(value)
    ensures |r| == |s| && AllValid(r, p) && Values(r) == SubPowers(Values(s), value, p)
  {
    var size := |s|;
    var x := FromNarrow(value, p);
    var y := x;
    assert Pow(value, 1) == value;
    r := s;
    var i := 0;
    while i < size - 1
      invariant 0 <= i <= size - 1 && |r| == size
      invariant y.value == Pow(value, i + 1) % p
      invariant AllValid(r, p)
      invariant forall k :: 0 <= k < i ==> r[k].value == (s[k].value - Pow(value, k + 1)) % p
      invariant forall k :: i <= k < size ==> r[k] == s[k]
    {
      SubPowerMod(r[i].value, y.value, value, i + 1, p);
      r := r[i := ModularInteger.Sub(r[i], y, p)];
      PowerStepMod(y.value, x.value, value, i + 1, p);
      y := Mul(y, x, p);
      i := i + 1;
    }
    SubPowerMod(r[size - 1].value, y.value, value, size, p);
    r := r[size - 1 := ModularInteger.Sub(r[size - 1], y, p)];
  }

  /** deserialize(buf): the count and the last value from the first eight
    * bytes, then as many power sums as whole words follow, copied as they are. */
  method Deserialize(buf: seq<Byte>, p: int, inverses: seq<ModInt>) returns (q: PowerSumQuackU32)
    requires |buf| >= 8 && Modulus32(p)
    ensures fresh(q) && q.p == p && q.inverses == inverses
    ensures q.Sums() == Decoding(buf).sums && q.count == Decoding(buf).count
    ensures q.lastValue == Some(FromNarrow(Decoding(buf).last, p))
  {
    var f := Decoding(buf);
    q := new PowerSumQuackU32.FromParts(p, inverses, Raw(f.sums), Some(FromNarrow(f.last, p)), f.count);
  }

  /** Words copied into modular integers without reduction. */
  function Raw(s: seq<int>): (r: seq<ModInt>)
    ensures Values(r) == s
  {
    seq(|s|, i requires 0 <= i < |s| => ModInt(s[i]))
  }

  /** copy_from_slice / copy_nonoverlapping into buf from position start. */
  method CopyBytes(buf: array<Byte>, start: nat, bytes: seq<Byte>)
    requires start + |bytes| <= buf.Length
    modifies buf
    ensures buf[start..start + |bytes|] == bytes
    ensures buf[..start] == old(buf[..start]) && buf[start + |bytes|..] == old(buf[start + |bytes|..])
  {
    forall i | start <= i < start + |bytes| {
      buf[i] := bytes[i - start];
    }
  }

  // ---------------------------------------------------------------------
  // The wire format

  /** The serialized quACK: count, last value, then the power sums, each a
    * little-endian u32. */
  function Encoding(count: int, last: int, sums: seq<int>): (b: seq<Byte>)
    requires IsU32(count) && IsU32(last) && AllU32(sums)
    ensures |b| == 8 + 4 * |sums|
  {
    LE32(count) + LE32(last) + LEWords(sums)
  }

  datatype Fields = Fields(count: int, last: int, sums: seq<int>)

  /** The fields read back from a buffer of at least eight bytes: as many
    * power sums as whole words follow the header. */
  function Decoding(b: seq<Byte>): (f: Fields)
    requires |b| >= 8
    ensures IsU32(f.count) && IsU32(f.last) && AllU32(f.sums) && |f.sums| == (|b| - 8) / 4
  {
    Fields(FromLE32(b[0..4]), FromLE32(b[4..8]), FromLEWords(b[8..], (|b| - 8) / 4))
  }

  /** Deserializing what serialize (or serialize_with_hint, with its prefix of
    * the sums) wrote gives back the count, the last value and the sums. */
  lemma EncodingRoundTrip(count: int, last: int, sums: seq<int>)
    requires IsU32(count) && IsU32(last) && AllU32(sums)
    ensures Decoding(Encoding(count, last, sums)) == Fields(count, last, sums)
  {
    var b := Encoding(count, last, sums);
    assert b[0..4] == LE32(count);
    assert b[4..8] == LE32(last);
    assert b[8..] == LEWords(sums);
    LE32RoundTrip(count);
    LE32RoundTrip(last);
    LEWordsRoundTrip(sums);
  }

  // ---------------------------------------------------------------------
  // Properties of the quACK

  /** The entries of log, in order and with repetitions, at which the monic
    * polynomial c vanishes modulo p. */
  function RootsInLog(log: seq<int>, c: seq<int>, p: int): seq<int>
    requires p > 0
  {
    if |log| == 0 then []
    else RootsInLog(log[..|log| - 1], c, p)
         + (if MonicValue(c, log[|log| - 1]) % p == 0 then [log[|log| - 1]] else [])
  }

  /** Each value keeps all of its occurrences in the log when it is a root,
    * and none of them otherwise. */
  lemma {:induction false} RootsInLogMultiplicity(log: seq<int>, c: seq<int>, p: int, x: int)
    requires p > 0
    ensures multiset(RootsInLog(log, c, p))[x]
         == if MonicValue(c, x) % p == 0 then multiset(log)[x] else 0
  {
    if |log| > 0 {
      var n := |log| - 1;
      RootsInLogMultiplicity(log[..n], c, p, x);
      assert log == log[..n] + [log[n]];
    }
  }

  /** RootsInLog keeps the order of the log: it is a subsequence of it. */
  lemma {:induction false} RootsInLogSubsequence(log: seq<int>, c: seq<int>, p: int)
    requires p > 0
    ensures |RootsInLog(log, c, p)| <= |log|
    ensures forall x :: x in RootsInLog(log, c, p) ==> x in log && MonicValue(c, x) % p == 0
  {
    if |log| > 0 {
      var n := |log| - 1;
      RootsInLogSubsequence(log[..n], c, p);
      forall x | x in RootsInLog(log, c, p)
        ensures x in log && MonicValue(c, x) % p == 0
      {
        if x in RootsInLog(log[..n], c, p) {
          assert x in log[..n];
        }
      }
    }
  }

  /** Inserting a value and removing it again restores the power sums and the
    * count. */
  lemma InsertRemoveRestores(sums: seq<int>, count: int, x: int, p: int)
    requires p > 0 && Residues(sums, p) && IsU32(count)
    ensures SubPowers(AddPowers(sums, x, p), x, p) == sums
    ensures WrapU32(WrapU32(count + 1) - 1) == count
  {
    SubPowersAddPowers(sums, x, p);
    if count == U32_MAX {
      assert WrapU32(count + 1) == 0;
    }
  }

  /** Subtracting a quACK from itself leaves zero sums and count 0. */
  lemma SubSelfIsEmpty(sums: seq<int>, count: int, p: int)
    requires p > 0 && IsU32(count)
    ensures SubSums(sums, sums, p) == Zeros(|sums|) && WrapU32(count - count) == 0
  {
  }

  /** The decode after a subtraction: with a prime modulus and an inverse
    * table, when the quACK holds the difference of the power sums of A and
    * of B, A is B plus D and D fits in the threshold, a log entry is decoded
    * exactly when it is congruent to an element of D, with all of its
    * occurrences in the log. */
  lemma DecodeDifference(A: seq<int>, B: seq<int>, D: seq<int>, t: nat, p: int, inv: seq<int>,
                         log: seq<int>, x: int)
    requires IsPrime(p) && |D| <= t && InverseTable(inv, p, |D|)
    requires multiset(A) == multiset(B) + multiset(D)
    ensures
      var diff := SubSums(PowerSumsMod(A, t, p), PowerSumsMod(B, t, p), p);
      var c := NewtonCoeffs(Zeros(|D|), diff, inv, p);
      multiset(RootsInLog(log, c, p))[x]
        == if exists i :: 0 <= i < |D| && (x - D[i]) % p == 0 then multiset(log)[x] else 0
  {
    var diff := SubSums(PowerSumsMod(A, t, p), PowerSumsMod(B, t, p), p);
    DifferenceDecodes(A, B, D, p, t, inv, x);
    RootsInLogMultiplicity(log, NewtonCoeffs(Zeros(|D|), diff, inv, p), p, x);
  }

  /** The library's example: after inserting 1 .. 5 into one quACK and 2 and 5
    * into another, the difference decodes the log [1, 2, 3, 4, 5] to
    * [1, 3, 4], for any prime modulus above 5 and threshold of at least 3. */
  lemma SubtractionExample(t: nat, p: int, inv: seq<int>)
    requires IsPrime(p) && p > 5 && t >= 3 && InverseTable(inv, p, 3)
    ensures
      var diff := SubSums(PowerSumsMod([1, 2, 3, 4, 5], t, p), PowerSumsMod([2, 5], t, p), p);
      RootsInLog([1, 2, 3, 4, 5], NewtonCoeffs(Zeros(3), diff, inv, p), p) == [1, 3, 4]
  {
    var A, B, D := [1, 2, 3, 4, 5], [2, 5], [1, 3, 4];
    ExampleSplit();
    assert forall i :: 0 <= i < |D| ==> 1 <= D[i] <= 5;
    ExampleRoots(A, B, D, t, p, inv);
    ExampleLog(NewtonCoeffs(Zeros(3), SubSums(PowerSumsMod(A, t, p), PowerSumsMod(B, t, p), p), inv, p), p);
  }

  /** The example's first quACK holds the second's elements and 1, 3, 4. */
  lemma ExampleSplit()
    ensures multiset([1, 2, 3, 4, 5]) == multiset([2, 5]) + multiset([1, 3, 4])
  {
  }

  /** Among 1 .. 5, the roots of the decoded polynomial are the elements of D,
    * when they all lie in 1 .. 5 as well. */
  lemma ExampleRoots(A: seq<int>, B: seq<int>, D: seq<int>, t: nat, p: int, inv: seq<int>)
    requires IsPrime(p) && p > 5 && |D| <= t && InverseTable(inv, p, |D|)
    requires multiset(A) == multiset(B) + multiset(D)
    requires forall i :: 0 <= i < |D| ==> 1 <= D[i] <= 5
    ensures var c := NewtonCoeffs(Zeros(|D|), SubSums(PowerSumsMod(A, t, p), PowerSumsMod(B, t, p), p), inv, p);
      forall x :: 1 <= x <= 5 ==> (MonicValue(c, x) % p == 0 <==> x in D)
  {
    var c := NewtonCoeffs(Zeros(|D|), SubSums(PowerSumsMod(A, t, p), PowerSumsMod(B, t, p), p), inv, p);
    forall x | 1 <= x <= 5
      ensures MonicValue(c, x) % p == 0 <==> x in D
    {
      DifferenceDecodes(A, B, D, p, t, inv, x);
      SmallDifferences(x, D, p);
    }
  }

  /** The log [1, 2, 3, 4, 5] filtered by a polynomial whose roots among its
    * entries are 1, 3 and 4. */
  lemma ExampleLog(c: seq<int>, p: int)
    requires p > 5
    requires forall x :: 1 <= x <= 5 ==> (MonicValue(c, x) % p == 0 <==> x in [1, 3, 4])
    ensures RootsInLog([1, 2, 3, 4, 5], c, p) == [1, 3, 4]
  {
    assert MonicValue(c, 4) % p == 0 && MonicValue(c, 5) % p != 0;
    ExampleLogPrefix(c, p);
    assert [1, 2, 3, 4, 5][..4] == [1, 2, 3, 4] && [1, 2, 3, 4][..3] == [1, 2, 3];
  }

  /** The first three entries of the example's log: 1 and 3 are roots, 2 is not. */
  lemma ExampleLogPrefix(c: seq<int>, p: int)
    requires p > 5
    requires forall x :: 1 <= x <= 5 ==> (MonicValue(c, x) % p == 0 <==> x in [1, 3, 4])
    ensures RootsInLog([1, 2, 3], c, p) == [1, 3]
  {
    assert MonicValue(c, 1) % p == 0 && MonicValue(c, 3) % p == 0 && MonicValue(c, 2) % p != 0;
    assert [1, 2, 3][..2] == [1, 2] && [1, 2][..1] == [1] && [1][..0] == [];
    assert RootsInLog([1], c, p) == [1];
    assert RootsInLog([1, 2], c, p) == [1];
  }

  /** Between small values, congruence modulo a larger p is equality. */
  lemma SmallDifferences(x: int, D: seq<int>, p: int)
    requires p > 5 && 1 <= x <= 5 && forall i :: 0 <= i < |D| ==> 1 <= D[i] <= 5
    ensures (exists i :: 0 <= i < |D| && (x - D[i]) % p == 0) <==> x in D
  {
    forall i | 0 <= i < |D|
      ensures (x - D[i]) % p == 0 <==> x == D[i]
    {
      var d := x - D[i];
      if d > 0 {
        ModSmall(d, p);
      } else if d < 0 {
        DivModUnique(d, p, -1, p + d);
      }
    }
  }
}
