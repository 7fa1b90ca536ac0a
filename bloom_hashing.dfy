// The double-hashing index iterator of the Bloom structures
// (bloom-sd/src/hashing.rs). HashIter::from hashes the item with two keyed
// SipHash builders; the hashers are modelled as a Hasher value whose hash
// is an arbitrary function from items to u64, so the iterator starts from
// the two resulting u64 values h1 and h2.

module BloomHashing {
  import opened Common
  import ModArith

  /** A keyed hash builder: its keys (what equality compares) and the hash
    * it computes for each item. */
  datatype Hasher = Hasher(keys: (int, int), hash: int -> U64)

  type U64 = x: int | 0 <= x < U64_LIMIT

  /** The i-th value of the sequence: h1, then h2, then (h1 + i) * h2 with
    * u64 wrap-around. */
  function HashAt(h1: U64, h2: U64, i: nat): (r: U64)
  {
    if i == 0 then h1
    else if i == 1 then h2
    else WrappingMul((h1 + i) % U64_LIMIT, h2)
  }

  /** u64::wrapping_mul, as a sum of a copies of b taken modulo 2^64. */
  function WrappingMul(a: nat, b: U64): U64
  {
    if a == 0 then 0 else (WrappingMul(a - 1, b) + b) % U64_LIMIT
  }

  /** The wrapped sum is the product modulo 2^64. */
  lemma {:induction false} WrappingMulIsProduct(a: nat, b: U64)
    ensures WrappingMul(a, b) == (a * b) % U64_LIMIT
  {
    if a > 0 {
      WrappingMulIsProduct(a - 1, b);
      ModArith.ModAdd((a - 1) * b, b, U64_LIMIT);
      ModArith.ModAdd(WrappingMul(a - 1, b), b, U64_LIMIT);
      ModArith.ModMod((a - 1) * b, U64_LIMIT);
      assert (a - 1) * b + b == a * b;
    }
  }

  /** The whole sequence of count values. */
  function HashSeq(h1: U64, h2: U64, count: nat): (r: seq<U64>)
    ensures |r| == count
  {
    if count == 0 then [] else HashSeq(h1, h2, count - 1) + [HashAt(h1, h2, count - 1)]
  }

  /** Entry i of the sequence is the i-th value. */
  lemma {:induction false} HashSeqAt(h1: U64, h2: U64, count: nat, i: nat)
    requires i < count
    ensures HashSeq(h1, h2, count)[i] == HashAt(h1, h2, i)
  {
    if i < count - 1 {
      HashSeqAt(h1, h2, count - 1, i);
    }
  }

  /** The first two values are h1 and h2 and every later one is the wrapped
    * product of h1 + i and h2. */
  lemma HashSeqShape(h1: U64, h2: U64, count: nat)
    ensures count >= 1 ==> HashSeq(h1, h2, count)[0] == h1
    ensures count >= 2 ==> HashSeq(h1, h2, count)[1] == h2
    ensures forall i :: 2 <= i < count ==>
      HashSeq(h1, h2, count)[i] == ((h1 + i) * h2) % U64_LIMIT
  {
    if count >= 1 {
      HashSeqAt(h1, h2, count, 0);
    }
    if count >= 2 {
      HashSeqAt(h1, h2, count, 1);
    }
    forall i | 2 <= i < count
      ensures HashSeq(h1, h2, count)[i] == ((h1 + i) * h2) % U64_LIMIT
    {
      HashSeqAt(h1, h2, count, i);
      WrappingMulIsProduct((h1 + i) % U64_LIMIT, h2);
      ModArith.ModMul(h1 + i, h2, U64_LIMIT);
      ModArith.ModSmall(h2, U64_LIMIT);
    }
  }

  class HashIter {
    const h1: U64
    const h2: U64
    var i: U32
    const count: U32

    ghost predicate Valid()
      reads this
    {
      i <= count
    }

    /** HashIter::from with the item's two hashes already computed. */
    constructor(item: int, count: U32, one: Hasher, two: Hasher)
      ensures Valid() && h1 == one.hash(item) && h2 == two.hash(item)
      ensures i == 0 && this.count == count
    {
      h1 := one.hash(item);
      h2 := two.hash(item);
      i := 0;
      this.count := count;
    }

    /** next(): None once count values have been yielded, otherwise the
      * i-th value of the sequence, advancing i. */
    method Next() returns (r: Option<U64>)
      requires Valid()
      modifies this
      ensures Valid()
      ensures old(i) == count ==> r == None && i == old(i)
      ensures old(i) < count ==> r == Some(HashAt(h1, h2, old(i))) && i == old(i) + 1
    {
      if i == count {
        return None;
      }
      r := Some(HashAt(h1, h2, i));
      i := i + 1;
    }

    /** Draining the iterator (as a for loop or collect does) yields the
      * rest of the sequence and then None. */
    method Drain() returns (vals: seq<U64>)
      requires Valid()
      modifies this
      ensures Valid() && i == count
      ensures vals == HashSeq(h1, h2, count)[old(i)..]
    {
      vals := [];
      ghost var start := i;
      while true
        invariant Valid() && start <= i
        invariant vals == HashSeq(h1, h2, count)[start..i]
        decreases count - i
      {
        var r := Next();
        if r.None? {
          return;
        }
        HashSeqAt(h1, h2, count, i - 1);
        assert HashSeq(h1, h2, count)[start..i] == HashSeq(h1, h2, count)[start..i - 1] + [r.value];
        vals := vals + [r.value];
      }
    }
  }

  /** A fresh iterator yields exactly count values: the sequence depends on
    * the item only through the two hashers. */
  method Values(item: int, count: U32, one: Hasher, two: Hasher) returns (vals: seq<U64>)
    ensures vals == HashSeq(one.hash(item), two.hash(item), count)
  {
    var it := new HashIter(item, count, one, two);
    vals := it.Drain();
  }
}
