/** The encoder's coding window: the source symbols, their mapping
  * generators, and a binary min-heap of queue entries ordered by the next
  * coded symbol each source symbol maps to. */
module RibltEncoder {
  import opened RibltSymbol
  import opened RibltMapping

  datatype SymbolMapping = SymbolMapping(codedIdx: nat)

  /** The heap order: every entry other than the head is no smaller than its
    * parent at (i - 1) / 2. */
  predicate IsHeap(q: seq<SymbolMapping>)
  {
    forall i, j :: 0 < i < |q| && j == (i - 1) / 2 ==> q[j].codedIdx <= q[i].codedIdx
  }

  /** The heap order everywhere except between the entry at hole and its
    * parent, with the parent of hole no larger than the children of hole:
    * the state of a sift-up. */
  predicate HeapBut(q: seq<SymbolMapping>, hole: nat)
  {
    (forall i, j :: 0 < i < |q| && i != hole && j == (i - 1) / 2 ==> q[j].codedIdx <= q[i].codedIdx)
    && (0 < hole < |q| ==>
          forall i :: 0 < i < |q| && (i - 1) / 2 == hole ==> q[(hole - 1) / 2].codedIdx <= q[i].codedIdx)
  }

  /** fix_tail(queue): sifts the last entry up, swapping it with its parent
    * while the parent is larger. When every other entry was already in heap
    * order, the whole queue is a heap afterwards, and it holds the same
    * entries. */
  method FixTail(q: seq<SymbolMapping>) returns (r: seq<SymbolMapping>)
    requires |q| > 0 && IsHeap(q[..|q| - 1])
    ensures IsHeap(r) && multiset(r) == multiset(q) && |r| == |q|
  {
    r := q;
    var curr := |r| - 1;
    forall i, j | 0 < i < |r| && i != curr && j == (i - 1) / 2
      ensures r[j].codedIdx <= r[i].codedIdx
    {
      assert q[..|q| - 1][i] == q[i] && q[..|q| - 1][j] == q[j];
    }
    while curr != 0
      invariant 0 <= curr < |r| == |q| && multiset(r) == multiset(q)
      invariant HeapBut(r, curr)
    {
      var parent := (curr - 1) / 2;
      if curr == parent || r[parent].codedIdx <= r[curr].codedIdx {
        break;
      }
      SiftStep(r, curr);
      r := r[parent := r[curr]][curr := r[parent]];
      curr := parent;
    }
  }

  /** Swapping the entry at a hole with its larger parent moves the hole up. */
  lemma SiftStep(q: seq<SymbolMapping>, hole: nat)
    requires 0 < hole < |q| && HeapBut(q, hole)
    requires q[(hole - 1) / 2].codedIdx > q[hole].codedIdx
    ensures var p := (hole - 1) / 2;
      var r := q[p := q[hole]][hole := q[p]];
      HeapBut(r, p) && multiset(r) == multiset(q)
  {
    var p := (hole - 1) / 2;
    var r := q[p := q[hole]][hole := q[p]];
    SiftOrder(q, hole, p, r);
    if 0 < p {
      SiftBelowGrandparent(q, hole, p, r);
    }
  }

  /** After the swap, every entry but the old parent's slot is ordered with
    * its parent. */
  lemma SiftOrder(q: seq<SymbolMapping>, hole: nat, p: nat, r: seq<SymbolMapping>)
    requires 0 < hole < |q| && HeapBut(q, hole) && p == (hole - 1) / 2
    requires q[p].codedIdx > q[hole].codedIdx && r == q[p := q[hole]][hole := q[p]]
    ensures forall i, j :: 0 < i < |r| && i != p && j == (i - 1) / 2 ==> r[j].codedIdx <= r[i].codedIdx
  {
    forall i, pi | 0 < i < |r| && i != p && pi == (i - 1) / 2
      ensures r[pi].codedIdx <= r[i].codedIdx
    {
      if i == hole {
      } else if pi == hole {
      } else if pi == p {
        assert q[pi].codedIdx <= q[i].codedIdx;
      } else {
        assert r[pi] == q[pi] && r[i] == q[i];
      }
    }
  }

  /** After the swap, the children of the new hole are no smaller than its
    * parent. */
  lemma SiftBelowGrandparent(q: seq<SymbolMapping>, hole: nat, p: nat, r: seq<SymbolMapping>)
    requires 0 < hole < |q| && HeapBut(q, hole) && p == (hole - 1) / 2 && 0 < p
    requires q[p].codedIdx > q[hole].codedIdx && r == q[p := q[hole]][hole := q[p]]
    ensures forall i :: 0 < i < |r| && (i - 1) / 2 == p ==> r[(p - 1) / 2].codedIdx <= r[i].codedIdx
  {
    var pp := (p - 1) / 2;
    assert pp < p < hole;
    assert q[pp].codedIdx <= q[p].codedIdx;
    forall i | 0 < i < |r| && (i - 1) / 2 == p
      ensures r[pp].codedIdx <= r[i].codedIdx
    {
      if i != hole {
        assert q[p].codedIdx <= q[i].codedIdx;
      }
    }
  }

  /** A heap holds its minimum at the head. */
  lemma {:induction false} HeapHeadIsMinimum(q: seq<SymbolMapping>, i: nat)
    requires IsHeap(q) && i < |q|
    ensures q[0].codedIdx <= q[i].codedIdx
    decreases i
  {
    if i > 0 {
      var j := (i - 1) / 2;
      HeapHeadIsMinimum(q, j);
      assert q[j].codedIdx <= q[i].codedIdx;
    }
  }

  class CodingWindow {
    var symbols: seq<Hash>
    var mappings: seq<RandomMapping>
    var queue: seq<SymbolMapping>

    /** The queue is a heap. */
    ghost predicate Valid()
      reads this
    {
      IsHeap(queue)
    }

    /** add_hash_with_mapping(t, m): appends t and m, and queues t by the
      * index its mapping is at; the queue stays a heap. */
    method AddHashWithMapping(t: Hash, m: RandomMapping)
      requires Valid()
      modifies this
      ensures Valid()
      ensures symbols == old(symbols) + [t] && mappings == old(mappings) + [m]
      ensures multiset(queue) == multiset(old(queue)) + multiset{SymbolMapping(m.lastIndex)}
    {
      symbols := symbols + [t];
      mappings := mappings + [m];
      var q := queue + [SymbolMapping(m.lastIndex)];
      assert q[..|q| - 1] == queue;
      queue := FixTail(q);
    }
  }
}
