/** QuackWrapper of the Rust library: either a power sum quACK or an IBLT
  * quACK, selected at construction. The IBLT quACK of this version is an
  * empty struct whose operations are all unimplemented, so its arm carries no
  * state here, and every operation that would reach one of its unimplemented
  * methods requires the power sum arm instead. */
module QuackLib {
  import opened Common
  import opened PowerSumMod
  import opened ModularInteger
  import opened PowerSumQuack

  datatype QuackWrapper = PowerSum(psum: PowerSumQuackU32) | IBLT

  /** The serialization tag of each arm. */
  const POWER_SUM_TAG: Byte := 0
  const IBLT_TAG: Byte := 1

  /** QuackWrapper::new(threshold, riblt): the IBLT arm exactly when riblt is
    * set, and otherwise a fresh empty power sum quACK. */
  method NewWrapper(threshold: nat, riblt: bool, p: int, inverses: seq<ModInt>) returns (q: QuackWrapper)
    requires Modulus32(p) && threshold < p && AllValid(inverses, p)
    ensures Riblt(q) == riblt
    ensures q.PowerSum? ==> (fresh(q.psum) && q.psum.Valid() && q.psum.p == p
      && q.psum.Sums() == Zeros(threshold) && q.psum.count == 0 && q.psum.lastValue == None)
  {
    if riblt {
      q := IBLT;
    } else {
      var inner := new PowerSumQuackU32(threshold, p, inverses);
      q := PowerSum(inner);
    }
  }

  /** riblt(): whether this is the IBLT arm. */
  predicate Riblt(q: QuackWrapper)
  {
    q.IBLT?
  }

  /** insert(value), forwarded to the power sum quACK. */
  method Insert(q: QuackWrapper, value: int)
    requires q.PowerSum? && q.psum.Valid() && |q.psum.powerSums| >= 1 && IsU32(value)
    modifies q.psum
    ensures q.psum.Valid() && q.psum.Sums() == AddPowers(old(q.psum.Sums()), value, q.psum.p)
    ensures q.psum.count == WrapU32(old(q.psum.count) + 1)
    ensures q.psum.lastValue == Some(FromNarrow(value, q.psum.p))
  {
    q.psum.Insert(value);
  }

  /** remove(value), forwarded to the power sum quACK. */
  method Remove(q: QuackWrapper, value: int)
    requires q.PowerSum? && q.psum.Valid() && |q.psum.powerSums| >= 1 && IsU32(value)
    modifies q.psum
    ensures q.psum.Valid() && q.psum.Sums() == SubPowers(old(q.psum.Sums()), value, q.psum.p)
    ensures q.psum.count == WrapU32(old(q.psum.count) - 1)
    ensures q.psum.lastValue == if old(q.psum.lastValue).Some? && old(q.psum.lastValue).value.value == value
                                then None else old(q.psum.lastValue)
  {
    q.psum.Remove(value);
  }

  /** sub_assign(rhs): forwarded when both are power sum quACKs; a power sum
    * quACK minus an IBLT quACK (or the reverse) is left unchanged. Two IBLT
    * quACKs would reach the unimplemented IBLT subtraction. */
  method SubAssign(q: QuackWrapper, rhs: QuackWrapper)
    requires !(q.IBLT? && rhs.IBLT?)
    requires q.PowerSum? && rhs.PowerSum? ==>
      (q.psum.Valid() && rhs.psum.Valid() && rhs.psum != q.psum && rhs.psum.p == q.psum.p
       && |rhs.psum.powerSums| == |q.psum.powerSums|)
    modifies if q.PowerSum? then {q.psum} else {}
    ensures q.PowerSum? && rhs.PowerSum? ==>
      (q.psum.Sums() == SubSums(old(q.psum.Sums()), rhs.psum.Sums(), q.psum.p)
       && q.psum.count == WrapU32(old(q.psum.count) - rhs.psum.count) && q.psum.lastValue == None)
    ensures q.PowerSum? && rhs.IBLT? ==> unchanged(q.psum)
  {
    if q.PowerSum? && rhs.PowerSum? {
      q.psum.SubAssign(rhs.psum);
    }
  }

  /** sub(rhs): both must be power sum quACKs (a mismatch panics); the
    * difference is a new power sum quACK. */
  method Sub(q: QuackWrapper, rhs: QuackWrapper) returns (r: QuackWrapper)
    requires q.PowerSum? && rhs.PowerSum? && q.psum.Valid() && rhs.psum.Valid()
    requires rhs.psum.p == q.psum.p
    ensures r.PowerSum? && fresh(r.psum) && r.psum.Valid()
    ensures r.psum.Sums() == SubSums(q.psum.Sums(), rhs.psum.Sums(), q.psum.p)
    ensures r.psum.count == WrapU32(q.psum.count - rhs.psum.count)
  {
    var d := q.psum.Sub(rhs.psum);
    r := PowerSum(d);
  }

  /** serialize(buf): the tag 0, then the power sum quACK's own encoding; the
    * length written is one more than the inner one. */
  method Serialize(q: QuackWrapper, buf: array<Byte>, start: nat) returns (n: nat)
    requires q.PowerSum? && q.psum.Valid() && q.psum.lastValue.Some?
    requires start + 9 + 4 * |q.psum.powerSums| <= buf.Length
    modifies buf
    ensures n == 9 + 4 * |q.psum.powerSums|
    ensures buf[start..start + n]
         == WrapperEncoding(q.psum.count, q.psum.lastValue.value.value, q.psum.Sums())
    ensures buf[..start] == old(buf[..start]) && buf[start + n..] == old(buf[start + n..])
  {
    buf[start] := POWER_SUM_TAG;
    var inner := q.psum.Serialize(buf, start + 1);
    n := 1 + inner;
    assert buf[start..start + n] == [buf[start]] + buf[start + 1..start + 1 + inner];
  }

  /** deserialize(buf): tag 0 selects the power sum quACK, read from the
    * remaining bytes; any other tag panics (tag 1 reaches the unimplemented
    * IBLT deserialization). */
  method Deserialize(buf: seq<Byte>, p: int, inverses: seq<ModInt>) returns (q: QuackWrapper)
    requires |buf| >= 9 && buf[0] == POWER_SUM_TAG && Modulus32(p)
    ensures q.PowerSum? && fresh(q.psum) && q.psum.p == p
    ensures q.psum.count == WrapperDecoding(buf).count && q.psum.Sums() == WrapperDecoding(buf).sums
    ensures q.psum.lastValue == Some(FromNarrow(WrapperDecoding(buf).last, p))
  {
    var inner := PowerSumQuack.Deserialize(buf[1..], p, inverses);
    q := PowerSum(inner);
  }

  /** The tagged encoding of a power sum quACK. */
  function WrapperEncoding(count: int, last: int, sums: seq<int>): (b: seq<Byte>)
    requires IsU32(count) && IsU32(last) && AllU32(sums)
    ensures |b| == 9 + 4 * |sums| && b[0] == POWER_SUM_TAG
  {
    [POWER_SUM_TAG] + Encoding(count, last, sums)
  }

  /** The fields of a power sum quACK read back from its tagged encoding. */
  function WrapperDecoding(b: seq<Byte>): (f: Fields)
    requires |b| >= 9
    ensures IsU32(f.count) && AllU32(f.sums) && |f.sums| == (|b| - 9) / 4
  {
    Decoding(b[1..])
  }

  /** Deserializing the tagged encoding gives back the count, the last value
    * and the power sums. */
  lemma WrapperRoundTrip(count: int, last: int, sums: seq<int>)
    requires IsU32(count) && IsU32(last) && AllU32(sums)
    ensures WrapperDecoding(WrapperEncoding(count, last, sums)) == Fields(count, last, sums)
  {
    assert WrapperEncoding(count, last, sums)[1..] == Encoding(count, last, sums);
    EncodingRoundTrip(count, last, sums);
  }

  /** The library's own round trip: a power sum quACK serialized into a
    * buffer and deserialized from the bytes written has the same count, last
    * value and power sums, so the same coefficients. */
  method SerializeDeserialize(q: QuackWrapper, buf: array<Byte>) returns (q2: QuackWrapper, len: nat)
    requires q.PowerSum? && q.psum.Valid() && q.psum.lastValue.Some?
    requires 9 + 4 * |q.psum.powerSums| <= buf.Length
    modifies buf
    ensures len == 9 + 4 * |q.psum.powerSums|
    ensures q2.PowerSum? && q2.psum.p == q.psum.p
    ensures q2.psum.count == q.psum.count && q2.psum.lastValue == q.psum.lastValue
    ensures q2.psum.Sums() == q.psum.Sums()
  {
    len := Serialize(q, buf, 0);
    q2 := Deserialize(buf[..len], q.psum.p, q.psum.inverses);
    WrapperRoundTrip(q.psum.count, q.psum.lastValue.value.value, q.psum.Sums());
    ghost var last := q.psum.lastValue.value;
    assert FromNarrow(last.value, q.psum.p) == last;
  }
}
