/** The two digests of the digest crate: the XOR of 32-bit elements, which
  * forgets order and multiplicity parity, and the incremental additive
  * multiset hash, which sums a tagged image of every element modulo N and
  * counts elements modulo L. Nonces are parameters instead of random draws. */
module Digests {
  import opened Common
  import RibltSymbol
  import ModArith

  // ---------------------------------------------------------------------
  // XorDigest

  /** The bitwise exclusive or of two naturals, one binary digit at a time
    * from the lowest. */
  function Xor(a: nat, b: nat): nat
    decreases a
  {
    if a == 0 then b else if b == 0 then a else 2 * Xor(a / 2, b / 2) + (a + b) % 2
  }

  /** The lowest digit of a ^ b is the parity of a + b; the rest is the
    * exclusive or of the rest of a and of b. */
  lemma XorHalves(a: nat, b: nat)
    ensures Xor(a, b) % 2 == (a + b) % 2 && Xor(a, b) / 2 == Xor(a / 2, b / 2)
  {
    if a == 0 {
      assert Xor(0, b / 2) == b / 2;
    } else if b == 0 {
      XorZero(a / 2);
    } else {
      LowDigit(Xor(a / 2, b / 2), (a + b) % 2);
    }
  }

  lemma XorZero(a: nat)
    ensures Xor(a, 0) == a
  {
  }

  lemma LowDigit(y: int, r: int)
    requires 0 <= r < 2
    ensures (2 * y + r) % 2 == r && (2 * y + r) / 2 == y
  {
  }

  lemma {:induction false} XorComm(a: nat, b: nat)
    ensures Xor(a, b) == Xor(b, a)
    decreases a
  {
    if a != 0 && b != 0 {
      XorComm(a / 2, b / 2);
    }
  }

  lemma {:induction false} XorSelf(a: nat)
    ensures Xor(a, a) == 0
    decreases a
  {
    if a != 0 {
      XorSelf(a / 2);
    }
  }

  lemma Parity(p: int, q: int, r: int)
    requires p % 2 == q % 2
    ensures (p + r) % 2 == (q + r) % 2
  {
  }

  lemma {:induction false} XorAssoc(a: nat, b: nat, c: nat)
    ensures Xor(Xor(a, b), c) == Xor(a, Xor(b, c))
    decreases a + b + c
  {
    if a != 0 && b != 0 && c != 0 {
      XorAssoc(a / 2, b / 2, c / 2);
      XorHalves(Xor(a, b), c);
      XorHalves(a, b);
      XorHalves(a, Xor(b, c));
      XorHalves(b, c);
      XorParityLeft(a, b, c);
      XorParityRight(a, b, c);
    }
  }

  /** (a ^ b) ^ c has the parity of a + b + c. */
  lemma XorParityLeft(a: nat, b: nat, c: nat)
    ensures Xor(Xor(a, b), c) % 2 == (a + b + c) % 2
  {
    XorHalves(Xor(a, b), c);
    XorHalves(a, b);
    Parity(Xor(a, b), a + b, c);
  }

  /** a ^ (b ^ c) has the parity of a + b + c. */
  lemma XorParityRight(a: nat, b: nat, c: nat)
    ensures Xor(a, Xor(b, c)) % 2 == (a + b + c) % 2
  {
    XorHalves(a, Xor(b, c));
    XorHalves(b, c);
    Parity(Xor(b, c), b + c, a);
  }

  function Pow2(k: nat): nat
  {
    if k == 0 then 1 else 2 * Pow2(k - 1)
  }

  /** The exclusive or of two k-bit numbers has k bits. */
  lemma {:induction false} XorBelow(a: nat, b: nat, k: nat)
    requires a < Pow2(k) && b < Pow2(k)
    ensures Xor(a, b) < Pow2(k)
  {
    if a != 0 && b != 0 {
      XorBelow(a / 2, b / 2, k - 1);
    }
  }

  lemma {:induction false} Pow2Add(j: nat, k: nat)
    ensures Pow2(j + k) == Pow2(j) * Pow2(k)
  {
    if j > 0 {
      Pow2Add(j - 1, k);
      assert Pow2(j + k) == 2 * Pow2(j - 1 + k);
      Twice(Pow2(j - 1), Pow2(k));
    }
  }

  lemma Twice(x: int, y: int)
    ensures 2 * (x * y) == (2 * x) * y
  {
  }

  lemma Pow2Word()
    ensures Pow2(32) == U32_LIMIT
  {
    assert Pow2(4) == 16;
    Pow2Add(4, 4);
    Pow2Add(8, 8);
    Pow2Add(16, 16);
  }

  /** Xor agrees with the bitwise operator on a few values. */
  lemma XorExamples()
    ensures Xor(5, 3) == 6 && Xor(0xFFFF_FFFF, 1) == 0xFFFF_FFFE && Xor(12, 12) == 0
  {
    assert Xor(5, 3) == 2 * Xor(2, 1) + 0;
    assert Xor(2, 1) == 2 * Xor(1, 0) + 1;
    XorSelf(12);
    assert Xor(0xFFFF_FFFF, 1) == 2 * Xor(0x7FFF_FFFF, 0) + 0;
  }

  /** u32 ^ u32. */
  function Xor32(a: U32, b: U32): (r: U32)
  {
    Pow2Word();
    XorBelow(a, b, 32);
    Xor(a, b)
  }

  /** The XOR of all elements of s, folded from the front. */
  function XorAll(s: seq<U32>): U32
  {
    if |s| == 0 then 0 else Xor32(XorAll(s[..|s| - 1]), s[|s| - 1])
  }

  lemma {:induction false} XorAllAppend(a: seq<U32>, b: seq<U32>)
    ensures XorAll(a + b) == Xor32(XorAll(a), XorAll(b))
    decreases |b|
  {
    if |b| == 0 {
      assert a + b == a;
    } else {
      var b' := b[..|b| - 1];
      assert (a + b)[..|a + b| - 1] == a + b';
      XorAllAppend(a, b');
      XorAssoc(XorAll(a), XorAll(b'), b[|b| - 1]);
    }
  }

  /** One element can be taken out of the middle and XORed in last. */
  lemma {:induction false} XorAllMoveLast(u: seq<U32>, x: U32, v: seq<U32>)
    ensures XorAll(u + [x] + v) == Xor32(XorAll(u + v), x)
    decreases |v|
  {
    if |v| == 0 {
      assert u + [x] + v == u + [x];
      assert (u + [x])[..|u|] == u;
      assert u + v == u;
    } else {
      var w, y := v[..|v| - 1], v[|v| - 1];
      XorAllMoveLast(u, x, w);
      assert (u + [x] + v)[..|u + [x] + v| - 1] == u + [x] + w;
      assert (u + v)[..|u + v| - 1] == u + w;
      XorSwap(XorAll(u + w), x, y);
    }
  }

  lemma XorSwap(p: U32, x: U32, y: U32)
    ensures Xor32(Xor32(p, x), y) == Xor32(Xor32(p, y), x)
  {
    XorAssoc(p, x, y);
    XorAssoc(p, y, x);
    XorComm(x, y);
  }

  /** The XOR digest depends only on the multiset of elements, not on their
    * order. */
  lemma {:induction false} XorAllOrderFree(a: seq<U32>, b: seq<U32>)
    requires multiset(a) == multiset(b)
    ensures XorAll(a) == XorAll(b)
    decreases |a|
  {
    if |a| > 0 {
      var n := |a| - 1;
      var u, v := RibltSymbol.PickMatching(a, b);
      XorAllOrderFree(a[..n], u + v);
      XorAllStep(a, u, v);
    } else {
      RibltSymbol.EmptyMatching(a, b);
      assert a == b;
    }
  }

  /** The inductive step of XorAllOrderFree: when the rest of a and u + v
    * have equal digests, so do a and u + [last of a] + v. */
  lemma XorAllStep(a: seq<U32>, u: seq<U32>, v: seq<U32>)
    requires |a| > 0
    requires XorAll(a[..|a| - 1]) == XorAll(u + v)
    ensures XorAll(a) == XorAll(u + [a[|a| - 1]] + v)
  {
    XorAllMoveLast(u, a[|a| - 1], v);
  }

  /** Two copies of an element cancel: even and odd multiplicities of the
    * same element cannot be told apart. */
  lemma XorAllPairCancels(a: seq<U32>, x: U32)
    ensures XorAll(a + [x, x]) == XorAll(a)
  {
    var b := a + [x];
    assert (a + [x, x])[..|a| + 1] == b;
    assert b[..|a|] == a;
    XorSelfCancels(XorAll(a), x);
  }

  lemma XorSelfCancels(p: U32, x: U32)
    ensures Xor32(Xor32(p, x), x) == p
  {
    XorAssoc(p, x, x);
    XorSelf(x);
    if p != 0 {
    }
  }

  class XorDigest {
    var hash: U32

    /** XorDigest::new(): the digest of nothing, 0. */
    constructor()
      ensures hash == 0
    {
      hash := 0;
    }

    /** add(elem): XORs elem into the digest. */
    method Add(elem: U32)
      modifies this
      ensures hash == Xor32(old(hash), elem)
    {
      hash := Xor32(hash, elem);
    }

    /** add_all(elems): adds each element in turn, so the digest moves by the
      * XOR of all of them. */
    method AddAll(elems: seq<U32>)
      modifies this
      ensures hash == Xor32(old(hash), XorAll(elems))
    {
      var i := 0;
      while i < |elems|
        invariant 0 <= i <= |elems|
        invariant hash == Xor32(old(hash), XorAll(elems[..i]))
      {
        assert elems[..i + 1][..i] == elems[..i];
        XorAssoc(old(hash), XorAll(elems[..i]), elems[i]);
        Add(elems[i]);
        i := i + 1;
      }
      assert elems[..i] == elems;
    }
  }

  // ---------------------------------------------------------------------
  // AdditiveMsetHash

  /** The moduli of the hash and of the count. */
  const MSET_L: int := 51539607551
  const MSET_N: int := 51539607551

  /** hash_fn(bit, val): val in the low 32 bits and bit from bit 32 up. The
    * two bit ranges do not overlap, so the bitwise or is their sum. The
    * library only passes bits 0 and 1; a bit of 2^31 or more would overflow
    * the 64-bit signed shift. */
  function HashFn(bit: int, val: U32): int
    requires 0 <= bit < 0x8000_0000
  {
    val + bit * U32_LIMIT
  }

  /** The hash after adding each element of es to hash h, one add at a time. */
  function Accumulate(h: int, es: seq<U32>): int
  {
    if |es| == 0 then h else (Accumulate(h, es[..|es| - 1]) + HashFn(1, es[|es| - 1])) % MSET_N
  }

  /** The sum over es of the images hash_fn(1, e) = e + 2^32. */
  function Total(es: seq<U32>): int
  {
    if |es| == 0 then 0 else Total(es[..|es| - 1]) + HashFn(1, es[|es| - 1])
  }

  /** Adding es one by one reduces h plus the total of their images. */
  lemma {:induction false} AccumulateTotal(h: int, es: seq<U32>)
    requires 0 <= h < MSET_N
    ensures Accumulate(h, es) == (h + Total(es)) % MSET_N
    decreases |es|
  {
    if |es| > 0 {
      var init := es[..|es| - 1];
      AccumulateTotal(h, init);
      ModArith.ModAdd(h + Total(init), HashFn(1, es[|es| - 1]), MSET_N);
      ModArith.ModMod(h + Total(init), MSET_N);
      ModArith.ModSmall(HashFn(1, es[|es| - 1]) % MSET_N, MSET_N);
      ModArith.ModAdd(Accumulate(h, init), HashFn(1, es[|es| - 1]), MSET_N);
    } else {
      ModArith.ModSmall(h, MSET_N);
    }
  }

  lemma {:induction false} TotalAppend(a: seq<U32>, b: seq<U32>)
    ensures Total(a + b) == Total(a) + Total(b)
    decreases |b|
  {
    if |b| == 0 {
      assert a + b == a;
    } else {
      assert (a + b)[..|a + b| - 1] == a + b[..|b| - 1];
      TotalAppend(a, b[..|b| - 1]);
    }
  }

  /** The total depends only on the multiset of elements. */
  lemma {:induction false} TotalOrderFree(a: seq<U32>, b: seq<U32>)
    requires multiset(a) == multiset(b)
    ensures Total(a) == Total(b)
    decreases |a|
  {
    if |a| > 0 {
      var n := |a| - 1;
      var x := a[n];
      assert x in multiset(b);
      var j :| 0 <= j < |b| && b[j] == x;
      RibltSymbol.RemoveMatching(a, b, j);
      TotalOrderFree(a[..n], b[..j] + b[j + 1..]);
      assert b == b[..j] + ([x] + b[j + 1..]);
      TotalAppend(b[..j], [x] + b[j + 1..]);
      TotalAppend([x], b[j + 1..]);
      TotalAppend(b[..j], b[j + 1..]);
      assert Total([x]) == HashFn(1, x) by {
        assert [x][..0] == [];
      }
    } else {
      assert |b| == 0;
    }
  }

  /** Counting n elements one at a time modulo L. */
  function CountAfter(c: int, n: nat): int
  {
    if n == 0 then c else (CountAfter(c, n - 1) + 1) % MSET_L
  }

  /** Counting one at a time agrees with adding the length once, as add_all
    * does. */
  lemma {:induction false} CountAfterIsSum(c: int, n: nat)
    requires 0 <= c < MSET_L
    ensures CountAfter(c, n) == (c + n) % MSET_L
  {
    if n == 0 {
      ModArith.ModSmall(c, MSET_L);
    } else {
      CountAfterIsSum(c, n - 1);
      ModArith.ModAdd(c + n - 1, 1, MSET_L);
      ModArith.ModSmall(1, MSET_L);
      ModArith.ModAdd(CountAfter(c, n - 1), 1, MSET_L);
      ModArith.ModMod(c + n - 1, MSET_L);
    }
  }

  /** equals on the fields of two digests: equal counts, and each hash plus
    * the other's nonce agree modulo N. */
  predicate MsetEquals(h1: int, c1: int, n1: U32, h2: int, c2: int, n2: U32)
  {
    c1 == c2 && (h1 + HashFn(0, n2)) % MSET_N == (h2 + HashFn(0, n1)) % MSET_N
  }

  /** The fields of a digest made with nonce n after adding es. */
  function DigestOf(n: U32, es: seq<U32>): (d: (int, int))
    ensures 0 <= d.0 < MSET_N && 0 <= d.1 < MSET_L
  {
    (Accumulate(n, es), |es| % MSET_L)
  }

  /** Two digests made from es and fs, under any two nonces, are equal
    * exactly when the lengths agree modulo L and the totals modulo N. */
  lemma DigestsEqualIff(n1: U32, es: seq<U32>, n2: U32, fs: seq<U32>)
    ensures MsetEquals(DigestOf(n1, es).0, DigestOf(n1, es).1, n1, DigestOf(n2, fs).0, DigestOf(n2, fs).1, n2)
        <==> (|es| % MSET_L == |fs| % MSET_L && Total(es) % MSET_N == Total(fs) % MSET_N)
  {
    var a, b := n1, n2;
    AccumulateTotal(a, es);
    AccumulateTotal(b, fs);
    assert HashFn(0, n1) == a && HashFn(0, n2) == b;
    CrossSumsCongruent(a, b, Total(es), Total(fs), DigestOf(n1, es).0, DigestOf(n2, fs).0);
  }

  /** Two reduced hashes, each with the other's start added, agree exactly
    * when the totals agree. */
  lemma CrossSumsCongruent(a: int, b: int, ta: int, tb: int, ha: int, hb: int)
    requires 0 <= a < MSET_N && 0 <= b < MSET_N
    requires ha == (a + ta) % MSET_N && hb == (b + tb) % MSET_N
    ensures (ha + b) % MSET_N == (hb + a) % MSET_N <==> ta % MSET_N == tb % MSET_N
  {
    ShiftMod(a + ta, b);
    ShiftMod(b + tb, a);
    assert a + ta + b == (a + b) + ta && b + tb + a == (a + b) + tb;
    SumsCongruent(a + b, ta, tb);
  }

  /** Adding a residue after reducing is adding it before. */
  lemma ShiftMod(x: int, b: int)
    requires 0 <= b < MSET_N
    ensures (x % MSET_N + b) % MSET_N == (x + b) % MSET_N
  {
    ModArith.ModAdd(x, b, MSET_N);
    ModArith.ModAdd(x % MSET_N, b, MSET_N);
    ModArith.ModMod(x, MSET_N);
  }

  /** Adding the same amount to both sides keeps congruence and its converse. */
  lemma SumsCongruent(s: int, x: int, y: int)
    ensures (s + x) % MSET_N == (s + y) % MSET_N <==> x % MSET_N == y % MSET_N
  {
    ModArith.ModAdd(s, x, MSET_N);
    ModArith.ModAdd(s, y, MSET_N);
    if (s + x) % MSET_N == (s + y) % MSET_N {
      ModArith.ModSub(s + x, s, MSET_N);
      ModArith.ModSub(s + y, s, MSET_N);
      assert s + x - s == x && s + y - s == y;
    }
  }

  /** The library's tests: the same multiset in any order, under different
    * nonces, gives equal digests. */
  lemma EqualMultisetsEqualDigests(n1: U32, es: seq<U32>, n2: U32, fs: seq<U32>)
    requires multiset(es) == multiset(fs)
    ensures MsetEquals(DigestOf(n1, es).0, DigestOf(n1, es).1, n1, DigestOf(n2, fs).0, DigestOf(n2, fs).1, n2)
  {
    TotalOrderFree(es, fs);
    assert |es| == |multiset(es)| == |fs|;
    DigestsEqualIff(n1, es, n2, fs);
  }

  /** One extra copy of an element breaks equality, while fewer than L - 1
    * elements were added. */
  lemma ExtraCopyBreaksEquality(n1: U32, es: seq<U32>, n2: U32, x: U32)
    requires |es| + 1 < MSET_L
    ensures !MsetEquals(DigestOf(n1, es).0, DigestOf(n1, es).1, n1,
                        DigestOf(n2, es + [x]).0, DigestOf(n2, es + [x]).1, n2)
  {
    ModArith.ModSmall(|es|, MSET_L);
    ModArith.ModSmall(|es| + 1, MSET_L);
  }

  class AdditiveMsetHash {
    var hash: int
    var count: int
    const nonce: U32

    ghost predicate Valid()
      reads this
    {
      0 <= hash < MSET_N && 0 <= count < MSET_L
    }

    /** AdditiveMsetHash::new(): the hash starts at the nonce, the count at 0. */
    constructor(nonce: U32)
      ensures Valid() && this.nonce == nonce && hash == nonce && count == 0
    {
      this.nonce := nonce;
      hash := HashFn(0, nonce);
      count := 0;
    }

    /** add(elem): adds hash_fn(1, elem) to the hash modulo N and one to the
      * count modulo L. */
    method Add(elem: U32)
      requires Valid()
      modifies this
      ensures Valid()
      ensures hash == (old(hash) + HashFn(1, elem)) % MSET_N && count == (old(count) + 1) % MSET_L
    {
      hash := (hash + HashFn(1, elem)) % MSET_N;
      count := (count + 1) % MSET_L;
    }

    /** add_all(elems): the same hash and count as adding each element in
      * turn; the count is added once. */
    method AddAll(elems: seq<U32>)
      requires Valid()
      modifies this
      ensures Valid()
      ensures hash == Accumulate(old(hash), elems) && count == CountAfter(old(count), |elems|)
    {
      var i := 0;
      while i < |elems|
        invariant 0 <= i <= |elems| && count == old(count)
        invariant hash == Accumulate(old(hash), elems[..i]) && 0 <= hash < MSET_N
      {
        assert elems[..i + 1][..i] == elems[..i];
        hash := (hash + HashFn(1, elems[i])) % MSET_N;
        i := i + 1;
      }
      assert elems[..i] == elems;
      CountAfterIsSum(count, |elems|);
      count := (count + |elems|) % MSET_L;
    }

    /** equals(other). */
    predicate Equals(other: AdditiveMsetHash)
      reads this, other
    {
      MsetEquals(hash, count, nonce, other.hash, other.count, other.nonce)
    }
  }
}
