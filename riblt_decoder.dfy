/** The peeling decoder of the rateless IBLT. It holds the coded symbols
  * received so far, the source symbols recovered so far (remote), the queue of
  * coded symbols that can be peeled (decodable) and the number of coded
  * symbols already decoded. The mapping's floating-point step is the
  * decoder's constant parameter `step`. */
module RibltDecoder {
  import opened RibltSymbol
  import opened RibltMapping

  /** A coded symbol is decodable when it holds exactly one source symbol, or
    * none and a zero hash. */
  predicate Decodable(c: CodedSymbol)
  {
    c.count == 1 || (c.count == 0 && c.hash == 0)
  }

  /** The ascending indices of the decodable symbols of cs, as Decoder::new
    * filters them. */
  function InitialDecodable(cs: seq<CodedSymbol>): seq<nat>
  {
    if |cs| == 0 then []
    else InitialDecodable(cs[..|cs| - 1]) + (if Decodable(cs[|cs| - 1]) then [|cs| - 1] else [])
  }

  /** InitialDecodable holds every decodable index once, in ascending order,
    * and nothing else. */
  lemma {:induction false} InitialDecodableExact(cs: seq<CodedSymbol>)
    ensures var d := InitialDecodable(cs);
      (forall i :: i in d <==> 0 <= i < |cs| && Decodable(cs[i]))
      && (forall k, l :: 0 <= k < l < |d| ==> d[k] < d[l])
  {
    if |cs| > 0 {
      var n := |cs| - 1;
      InitialDecodableExact(cs[..n]);
      var d0 := InitialDecodable(cs[..n]);
      forall i | 0 <= i < n
        ensures cs[..n][i] == cs[i]
      {
      }
      assert forall k :: 0 <= k < |d0| ==> d0[k] in d0;
    }
  }

  /** Whether a symbol holds two source symbols or more: only such a symbol can
    * turn decodable when a source symbol is peeled from it. */
  function Heavy(c: CodedSymbol): nat
  {
    if c.count >= 2 then 1 else 0
  }

  /** The number of heavy symbols in cs. */
  function HeavyCount(cs: seq<CodedSymbol>): nat
  {
    if |cs| == 0 then 0 else HeavyCount(cs[..|cs| - 1]) + Heavy(cs[|cs| - 1])
  }

  /** Replacing one symbol changes the count by the difference at that symbol. */
  lemma {:induction false} HeavyCountUpdate(cs: seq<CodedSymbol>, i: nat, x: CodedSymbol)
    requires i < |cs|
    ensures HeavyCount(cs[i := x]) + Heavy(cs[i]) == HeavyCount(cs) + Heavy(x)
  {
    var n := |cs| - 1;
    if i == n {
      assert cs[i := x][..n] == cs[..n];
    } else {
      assert cs[i := x][..n] == cs[..n][i := x];
      HeavyCountUpdate(cs[..n], i, x);
    }
  }

  /** The indices of idx, in order, at which applying (t, dir) to cs leaves
    * a count of one: those apply_new_symbol pushes. */
  function Pushed(cs: seq<CodedSymbol>, idx: seq<nat>, t: Hash, dir: int): seq<nat>
  {
    if |idx| == 0 then []
    else
      var i := idx[|idx| - 1];
      Pushed(cs, idx[..|idx| - 1], t, dir)
      + (if i < |cs| && Apply(cs[i], t, dir).count == 1 then [i] else [])
  }

  /** The new symbols and queue after applying (t, dir) along the mapping of t:
    * each symbol at a mapped index has it applied once, the others are
    * unchanged, and the mapped indices whose count becomes one are queued. */
  predicate AppliedAlongMapping(cs0: seq<CodedSymbol>, dec0: seq<nat>, cs1: seq<CodedSymbol>, dec1: seq<nat>,
                                t: Hash, dir: int, step: Step)
  {
    var idx := Indices(NewMapping(t), |cs0|, step);
    |cs1| == |cs0|
    && (forall i :: 0 <= i < |cs1| ==> cs1[i] == if i in idx then Apply(cs0[i], t, dir) else cs0[i])
    && dec1 == dec0 + Pushed(cs0, idx, t, dir)
  }

  /** Every index in s lies below n. */
  predicate AllBelow(s: seq<nat>, n: nat)
  {
    forall k :: 0 <= k < |s| ==> s[k] < n
  }

  /** syms is cs with (t, dir) applied once at each index of done. */
  predicate AppliedAt(cs: seq<CodedSymbol>, syms: seq<CodedSymbol>, done: seq<nat>, t: Hash, dir: int)
  {
    |syms| == |cs|
    && forall i :: 0 <= i < |syms| ==> syms[i] == if i in done then Apply(cs[i], t, dir) else cs[i]
  }

  /** One step of the loop: applying at a new index cidx, above every index
    * done, gives the symbols with one more index done. */
  lemma AppliedAtStep(cs: seq<CodedSymbol>, syms: seq<CodedSymbol>, done: seq<nat>, cidx: nat, t: Hash, dir: int)
    requires AppliedAt(cs, syms, done, t, dir) && AllBelow(done, cidx) && cidx < |cs|
    ensures syms[cidx] == cs[cidx]
    ensures AppliedAt(cs, syms[cidx := Apply(syms[cidx], t, dir)], done + [cidx], t, dir)
    ensures AllBelow(done + [cidx], cidx + 1)
  {
    assert cidx !in done;
  }

  /** Pushed over one more index adds that index when its count becomes one. */
  lemma PushedStep(cs: seq<CodedSymbol>, done: seq<nat>, cidx: nat, t: Hash, dir: int)
    requires cidx < |cs|
    ensures Pushed(cs, done + [cidx], t, dir)
         == Pushed(cs, done, t, dir) + (if Apply(cs[cidx], t, dir).count == 1 then [cidx] else [])
  {
    assert (done + [cidx])[..|done|] == done;
  }

  /** When removing, a symbol that becomes decodable was heavy before, so the
    * heavy count pays for every index pushed. */
  lemma HeavyStep(cs: seq<CodedSymbol>, syms: seq<CodedSymbol>, pushed: nat, cidx: nat, t: Hash)
    requires cidx < |syms| == |cs| && syms[cidx] == cs[cidx]
    requires HeavyCount(syms) + pushed <= HeavyCount(cs)
    ensures var x := Apply(syms[cidx], t, REMOVE);
      HeavyCount(syms[cidx := x]) + pushed + (if x.count == 1 then 1 else 0) <= HeavyCount(cs)
  {
    HeavyCountUpdate(syms, cidx, Apply(syms[cidx], t, REMOVE));
  }

  /** One step of the loop: applying at a new index cidx keeps the symbols,
    * the queue and the heavy count in step with the indices done. */
  lemma ApplyStep(cs: seq<CodedSymbol>, decodable: seq<nat>, syms: seq<CodedSymbol>, queue: seq<nat>,
                  done: seq<nat>, cidx: nat, t: Hash, dir: int)
    requires AppliedAt(cs, syms, done, t, dir) && AllBelow(done, cidx) && cidx < |cs|
    requires queue == decodable + Pushed(cs, done, t, dir) && AllBelow(queue, |cs|)
    requires dir == REMOVE ==> HeavyCount(syms) + |Pushed(cs, done, t, dir)| <= HeavyCount(cs)
    ensures var syms' := syms[cidx := Apply(syms[cidx], t, dir)];
      var queue' := if syms'[cidx].count == 1 then queue + [cidx] else queue;
      AppliedAt(cs, syms', done + [cidx], t, dir) && AllBelow(done + [cidx], cidx + 1)
      && queue' == decodable + Pushed(cs, done + [cidx], t, dir) && AllBelow(queue', |cs|)
      && (dir == REMOVE ==> HeavyCount(syms') + |Pushed(cs, done + [cidx], t, dir)| <= HeavyCount(cs))
  {
    AppliedAtStep(cs, syms, done, cidx, t, dir);
    PushedStep(cs, done, cidx, t, dir);
    if Apply(cs[cidx], t, dir).count == 1 {
      assert queue + [cidx] == decodable + (Pushed(cs, done, t, dir) + [cidx]);
    }
    if dir == REMOVE {
      HeavyStep(cs, syms, |Pushed(cs, done, t, dir)|, cidx, t);
    }
  }

  /** The loop of apply_new_symbol on the symbols and the queue: walks the
    * mapping of t from index 0 while it stays below the number of symbols,
    * applying (t, dir) and queueing each index whose count becomes one. */
  method ApplyAlongMapping(cs: seq<CodedSymbol>, decodable: seq<nat>, t: Hash, dir: int, step: Step)
    returns (syms: seq<CodedSymbol>, queue: seq<nat>, m: RandomMapping)
    requires AllBelow(decodable, |cs|)
    ensures AppliedAlongMapping(cs, decodable, syms, queue, t, dir, step)
    ensures AllBelow(queue, |syms|) && m.lastIndex >= |syms|
    ensures dir == REMOVE ==> HeavyCount(syms) + |queue| <= HeavyCount(cs) + |decodable|
  {
    syms, queue := cs, decodable;
    var n := |syms|;
    m := NewMapping(t);
    ghost var all := Indices(m, n, step);
    ghost var done: seq<nat> := [];
    while m.lastIndex < |syms|
      invariant |syms| == n && all == done + Indices(m, n, step)
      invariant AppliedAt(cs, syms, done, t, dir) && AllBelow(done, m.lastIndex)
      invariant queue == decodable + Pushed(cs, done, t, dir) && AllBelow(queue, n)
      invariant dir == REMOVE ==> HeavyCount(syms) + |Pushed(cs, done, t, dir)| <= HeavyCount(cs)
      decreases n - m.lastIndex
    {
      var cidx := m.lastIndex;
      IndicesAdvance(NewMapping(t), m, n, step, done);
      ApplyStep(cs, decodable, syms, queue, done, cidx, t, dir);
      syms := syms[cidx := Apply(syms[cidx], t, dir)];
      if syms[cidx].count == 1 {
        queue := queue + [cidx];
      }
      done := done + [cidx];
      m := NextIndex(m, step);
    }
    assert Indices(m, n, step) == [];
    assert all == done;
  }

  class Decoder {
    var cs: seq<CodedSymbol>
    var remote: seq<Hash>
    var decodable: seq<nat>
    var decoded: nat
    const step: Step

    /** Every queued index names a received symbol. */
    ghost predicate Valid()
      reads this
    {
      forall k :: 0 <= k < |decodable| ==> decodable[k] < |cs|
    }

    /** new(cs): every decodable symbol queued in ascending order, nothing
      * recovered and nothing decoded. */
    constructor(cs: seq<CodedSymbol>, step: Step)
      ensures Valid() && this.cs == cs && this.step == step
      ensures decodable == InitialDecodable(cs) && remote == [] && decoded == 0
    {
      InitialDecodableExact(cs);
      var d := InitialDecodable(cs);
      assert forall k :: 0 <= k < |d| ==> d[k] in d;
      this.cs, this.step := cs, step;
      decodable := d;
      remote, decoded := [], 0;
    }

    /** decoded(): every coded symbol received so far has been decoded. */
    predicate IsDecoded()
      reads this
    {
      decoded == |cs|
    }

    /** _add_coded_symbol(c): appends c, and queues its index when it is
      * decodable. */
    method AddCodedSymbol(c: CodedSymbol)
      requires Valid()
      modifies this
      ensures Valid() && cs == old(cs) + [c]
      ensures decodable == old(decodable) + (if Decodable(c) then [|old(cs)|] else [])
      ensures remote == old(remote) && decoded == old(decoded)
    {
      cs := cs + [c];
      if c.count == 1 {
        decodable := decodable + [|cs| - 1];
      } else if c.count == 0 && c.hash == 0 {
        decodable := decodable + [|cs| - 1];
      }
    }

    /** apply_new_symbol(t, dir): walks the mapping of t from index 0 while it
      * stays below the number of symbols, applies (t, dir) at each index and
      * queues each index whose count becomes one. Removing never makes more
      * symbols heavy, and each queued index was heavy before. */
    method ApplyNewSymbol(t: Hash, dir: int) returns (m: RandomMapping)
      requires Valid()
      modifies this
      ensures Valid() && m.lastIndex >= |cs|
      ensures AppliedAlongMapping(old(cs), old(decodable), cs, decodable, t, dir, step)
      ensures dir == REMOVE ==>
        HeavyCount(cs) + |decodable| <= HeavyCount(old(cs)) + |old(decodable)|
      ensures remote == old(remote) && decoded == old(decoded)
    {
      cs, decodable, m := ApplyAlongMapping(cs, decodable, t, dir, step);
    }

    /** One pass of try_decode's loop over the queue entry at didx. A symbol
      * holding one source symbol is peeled: its hash is removed along its own
      * mapping, recorded as recovered, and the symbol counts as decoded. A
      * symbol holding none only counts as decoded. Any other count stops the
      * loop (false) with nothing changed. */
    method PeelEntry(didx: nat) returns (ok: bool)
      requires Valid() && didx < |decodable|
      modifies this
      ensures Valid()
      ensures var c := old(cs[decodable[didx]]);
        ok <==> c.count == 0 || c.count == 1
      ensures var c := old(cs[decodable[didx]]);
        c.count == 1 ==>
          AppliedAlongMapping(old(cs), old(decodable), cs, decodable, c.hash, REMOVE, step)
          && remote == old(remote) + [c.hash] && decoded == old(decoded) + 1
      ensures var c := old(cs[decodable[didx]]);
        c.count != 1 ==> (cs == old(cs) && decodable == old(decodable) && remote == old(remote)
          && decoded == (if c.count == 0 then old(decoded) + 1 else old(decoded)))
      ensures HeavyCount(cs) + |decodable| <= HeavyCount(old(cs)) + |old(decodable)|
    {
      var cidx := decodable[didx];
      var c := cs[cidx];
      if c.count == 1 {
        var ns := c.hash;
        var _ := ApplyNewSymbol(ns, REMOVE);
        remote := remote + [ns];
        decoded := decoded + 1;
        ok := true;
      } else if c.count == 0 {
        decoded := decoded + 1;
        ok := true;
      } else {
        ok := false;
      }
    }

    /** try_decode(): visits the queue in order, including entries queued
      * while peeling, until it is exhausted, and then empties it; or stops
      * early, leaving the queue as it is, at an entry whose count is neither
      * zero nor one. Peeling can queue each symbol at most once more, when it
      * goes from two source symbols to one, so the loop ends. Recovered
      * symbols are only appended, each with a decoded symbol. */
    method TryDecode()
      requires Valid()
      modifies this
      ensures Valid() && |cs| == |old(cs)|
      ensures decodable == [] || (
        |old(decodable)| <= |decodable| && decodable[..|old(decodable)|] == old(decodable)
        && exists k :: 0 <= k < |decodable| && cs[decodable[k]].count != 0 && cs[decodable[k]].count != 1)
      ensures |old(remote)| <= |remote| && remote[..|old(remote)|] == old(remote)
      ensures old(decoded) + (|remote| - |old(remote)|) <= decoded
    {
      var didx := 0;
      while didx < |decodable|
        invariant Valid() && didx <= |decodable| && |cs| == |old(cs)|
        invariant |old(decodable)| <= |decodable| && decodable[..|old(decodable)|] == old(decodable)
        invariant |old(remote)| <= |remote| && remote[..|old(remote)|] == old(remote)
        invariant old(decoded) + (|remote| - |old(remote)|) <= decoded
        decreases HeavyCount(cs) + |decodable| - didx
      {
        ghost var before := decodable;
        ghost var remoteBefore := remote;
        var ok := PeelEntry(didx);
        if !ok {
          return;
        }
        assert decodable[..|before|] == before;
        assert remote[..|remoteBefore|] == remoteBefore;
        didx := didx + 1;
      }
      decodable := [];
    }
  }
}
