/** The random mapping of a source symbol to the coded symbols it is added
  * to. Its PRNG update is exact; the distance to the next index is computed
  * in floating point in the library, so here it is a parameter: a step
  * function of the current index and the 64-bit PRNG output that advances
  * by at least one. The library's formula does not always advance: for an
  * output r within about 2^12 of 2^64, r + 1 rounds to 2^64 as a double,
  * the square root is 2^32, and the step is ceil(0.0) = 0 (for r = 2^64 - 1
  * the addition r + 1 overflows). Those outputs are outside this model. */
module RibltMapping {
  import opened Common
  import opened RibltSymbol

  /** The odd multiplier of the PRNG update. */
  const MULTIPLIER: int := 0xda942042e4dd58b5

  /** The floating-point distance to the next index, given the current index
    * and the PRNG output. */
  type Step = f: (nat, nat) -> nat | forall i: nat, r: nat :: f(i, r) >= 1
    witness (i: nat, r: nat) => 1

  datatype RandomMapping = RandomMapping(prng: Hash, lastIndex: nat)

  /** RandomMapping::new(prng): the first index is 0. */
  function NewMapping(prng: Hash): (m: RandomMapping)
    ensures m.lastIndex == 0 && m.prng == prng
  {
    RandomMapping(prng, 0)
  }

  /** The 64-bit PRNG output: the state widened to u64 and multiplied with
    * wrap-around. */
  function PrngOutput(prng: Hash): (r: nat)
    ensures r < U64_LIMIT
  {
    (prng as int * MULTIPLIER) % U64_LIMIT
  }

  /** next_index(): the new state is the output truncated to the hash width,
    * and the index moves strictly forward, since the step is at least one. */
  function NextIndex(m: RandomMapping, step: Step): (r: RandomMapping)
    ensures r.lastIndex > m.lastIndex
  {
    var out := PrngOutput(m.prng);
    RandomMapping((out % U32_LIMIT) as bv32, m.lastIndex + step(m.lastIndex, out))
  }

  /** The indices the mapping visits from its current one while they stay
    * below n. */
  function Indices(m: RandomMapping, n: nat, step: Step): seq<nat>
    decreases n - m.lastIndex
  {
    if m.lastIndex >= n then [] else [m.lastIndex] + Indices(NextIndex(m, step), n, step)
  }

  /** The visited indices rise strictly, start at the current index and stay
    * below n. */
  lemma {:induction false} IndicesAscend(m: RandomMapping, n: nat, step: Step)
    ensures var s := Indices(m, n, step);
      (forall i :: 0 <= i < |s| ==> m.lastIndex <= s[i] < n)
      && (forall i, j :: 0 <= i < j < |s| ==> s[i] < s[j])
      && (m.lastIndex < n <==> |s| > 0)
      && (|s| > 0 ==> s[0] == m.lastIndex)
    decreases n - m.lastIndex
  {
    if m.lastIndex < n {
      IndicesAscend(NextIndex(m, step), n, step);
    }
  }

  /** A prefix of the visited indices grows by the current index when the
    * mapping advances. */
  lemma IndicesAdvance(start: RandomMapping, m: RandomMapping, n: nat, step: Step, done: seq<nat>)
    requires m.lastIndex < n && done + Indices(m, n, step) == Indices(start, n, step)
    ensures (done + [m.lastIndex]) + Indices(NextIndex(m, step), n, step) == Indices(start, n, step)
  {
    assert Indices(m, n, step) == [m.lastIndex] + Indices(NextIndex(m, step), n, step);
    assert (done + [m.lastIndex]) + Indices(NextIndex(m, step), n, step)
        == done + ([m.lastIndex] + Indices(NextIndex(m, step), n, step));
  }
}
