/** Coded symbols of the rateless IBLT: the XOR of the hashes mapped to the
  * symbol and the signed number of them. HashType is taken to be u32, the
  * element type of the decoder's remote list. The count is an i64 in the
  * library; its overflow is not modelled. */
module RibltSymbol {
  type Hash = bv32

  /** The direction of an application: +1 adds a source symbol, -1 removes it. */
  const ADD: int := 1
  const REMOVE: int := -1

  datatype CodedSymbol = CodedSymbol(hash: Hash, count: int)

  /** The derived Default: hash 0, count 0. */
  const DEFAULT_SYMBOL: CodedSymbol := CodedSymbol(0, 0)

  /** apply(hash, direction): the symbol with hash XORed in and the direction
    * added to its count. */
  function Apply(c: CodedSymbol, h: Hash, d: int): (r: CodedSymbol)
    ensures r.hash ^ c.hash == h && r.count - c.count == d
  {
    CodedSymbol(c.hash ^ h, c.count + d)
  }

  /** Removing a hash that was added gives back the symbol exactly. */
  lemma RemoveUndoesAdd(c: CodedSymbol, h: Hash)
    ensures Apply(Apply(c, h, ADD), h, REMOVE) == c
  {
  }

  /** Two applications commute. */
  lemma ApplyCommutes(c: CodedSymbol, h1: Hash, d1: int, h2: Hash, d2: int)
    ensures Apply(Apply(c, h1, d1), h2, d2) == Apply(Apply(c, h2, d2), h1, d1)
  {
  }

  /** The symbol after applying each (hash, direction) pair of ops in turn. */
  function ApplyAll(c: CodedSymbol, ops: seq<(Hash, int)>): CodedSymbol
  {
    if |ops| == 0 then c
    else Apply(ApplyAll(c, ops[..|ops| - 1]), ops[|ops| - 1].0, ops[|ops| - 1].1)
  }

  /** One pair can be taken out of the middle and applied last. */
  lemma {:induction false} ApplyAllMoveLast(c: CodedSymbol, u: seq<(Hash, int)>, x: (Hash, int), v: seq<(Hash, int)>)
    ensures ApplyAll(c, u + [x] + v) == Apply(ApplyAll(c, u + v), x.0, x.1)
    decreases |v|
  {
    if |v| == 0 {
      assert u + [x] + v == u + [x];
      assert (u + [x])[..|u|] == u;
      assert u + v == u;
    } else {
      var w, y := v[..|v| - 1], v[|v| - 1];
      ApplyAllMoveLast(c, u, x, w);
      assert (u + [x] + v)[..|u + [x] + v| - 1] == u + [x] + w;
      assert (u + v)[..|u + v| - 1] == u + w;
      ApplyCommutes(ApplyAll(c, u + w), x.0, x.1, y.0, y.1);
    }
  }

  /** The final symbol depends only on the multiset of pairs applied, not on
    * their order. */
  lemma {:induction false} ApplyAllOrderFree(c: CodedSymbol, a: seq<(Hash, int)>, b: seq<(Hash, int)>)
    requires multiset(a) == multiset(b)
    ensures ApplyAll(c, a) == ApplyAll(c, b)
    decreases |a|
  {
    if |a| > 0 {
      var n := |a| - 1;
      var x := a[n];
      assert a == a[..n] + [x];
      assert x in multiset(b);
      var j :| 0 <= j < |b| && b[j] == x;
      var u, v := b[..j], b[j + 1..];
      assert b == u + [x] + v;
      RemoveMatching(a, b, j);
      ApplyAllOrderFree(c, a[..n], u + v);
      ApplyAllMoveLast(c, u, x, v);
    } else {
      assert |b| == 0;
    }
  }

  /** Taking the last element out of a and an equal element out of b keeps
    * their multisets equal. */
  lemma RemoveMatching<T>(a: seq<T>, b: seq<T>, j: nat)
    requires |a| > 0 && j < |b| && b[j] == a[|a| - 1] && multiset(a) == multiset(b)
    ensures multiset(a[..|a| - 1]) == multiset(b[..j] + b[j + 1..])
  {
    var n, x := |a| - 1, a[|a| - 1];
    assert a == a[..n] + [x];
    SplitAt(b, j);
  }

  /** Cutting the element at j out of b takes one copy of it from the
    * multiset. */
  lemma SplitAt<T>(b: seq<T>, j: nat)
    requires j < |b|
    ensures multiset(b[..j] + b[j + 1..]) == multiset(b) - multiset{b[j]}
  {
    assert b == b[..j] + [b[j]] + b[j + 1..];
  }

  /** An element equal to the last of a, cut out of b, leaves b's other
    * elements in equal multiset with the rest of a. */
  lemma PickMatching<T>(a: seq<T>, b: seq<T>) returns (u: seq<T>, v: seq<T>)
    requires |a| > 0 && multiset(a) == multiset(b)
    ensures b == u + [a[|a| - 1]] + v
    ensures multiset(a[..|a| - 1]) == multiset(u + v)
  {
    var x := a[|a| - 1];
    assert x in multiset(b);
    var j :| 0 <= j < |b| && b[j] == x;
    u, v := b[..j], b[j + 1..];
    assert b == u + [x] + v;
    RemoveMatching(a, b, j);
  }

  /** Only the empty sequence has the multiset of the empty sequence. */
  lemma EmptyMatching<T>(a: seq<T>, b: seq<T>)
    requires |a| == 0 && multiset(a) == multiset(b)
    ensures b == []
  {
    assert |b| == |multiset(b)| == |multiset(a)| == 0;
  }
}
