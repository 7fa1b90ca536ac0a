# quACK power-sum set reconciliation, modelled in Dafny

This project models the core of the quACK repository: a sender and a
receiver each summarise a multiset of 32-bit packet identifiers, and the
difference of two summaries tells which identifiers are missing. Each source
file of the core has its own Dafny module.

- **Power-sum quACK** (`src/power_sum.rs`, `src/lib.rs`). The quACK is the
  class `PowerSumQuack.PowerSumQuackU32`. It keeps `threshold` power sums
  modulo a prime p, a wrapping u32 count and the last inserted value.
  Insert, remove, in-place and value subtraction, Newton's identities
  (`to_coeffs`), decoding a log against the monic polynomial, and the
  little-endian byte encoding are modelled. `QuackLib` is the tagged
  `QuackWrapper` around it. The mathematics they share is in `PowerSumMath`
  (power sums over the integers, Newton's identities, the monic polynomial of
  a multiset) and in `PowerSumMod` (the same taken modulo p). `ModArith`
  provides modular arithmetic and extended Euclid. `Fermat` proves Fermat's
  little theorem.
- **The same algorithm in two other forms.**
  - `LegacyPowerSum` models the older accumulator crate's `add_and_mod`,
    `mul_and_mod`, `div_and_mod` and Newton's identities over
    P = 4294967029.
  - `LegacyAccumulator` models that crate's accumulator: big-endian packing,
    `process`, and `validate` up to the root finder.
  - The C++ templates are `ModularInteger`, `FixedAccumulator` and
    `FixedEvaluator` (fixed-size arrays), and `VectorAccumulator` and
    `VectorEvaluator` (vectors and inverse tables).
- **Rateless IBLT** (`src/riblt`).
  - `RibltSymbol`: the coded-symbol algebra.
  - `RibltMapping`: the index generator, abstracted to an increasing sequence.
  - `RibltEncoder`: the heap sift-up and the coding window.
  - `RibltDecoder`: the peeling decoder as a class over `cs`, `decodable`
    and `remote`.
- **Bloom structures** (`bloom-sd`).
  - `BloomHashing`: the double-hashing iterator.
  - `BloomCounters`: counter arrays bounded by a maximum value.
  - `BloomCbf`: the counting Bloom filter, which panics on overflow.
  - `BloomIblt`: the invertible Bloom lookup table, with wrapping counters,
    wrapping data sums and peeling.
- **Digests** (`digest`). `Digests` holds the XOR digest and the additive
  multiset hash.
- **Accumulator front-ends** (`accumulator/src`).
  - `AccumulatorLib`: `check_digest`.
  - `CbfAccumulator`: the CBF-based accumulator.
  - `IbltTable` and `IbltAccumulator`: the IBLT-based accumulator and its
    difference table.
  - `Naive`: the exhaustive subset search.
  - `SubsetTest`: the test driver's `is_subset`.
- **Scripts.**
  - `BenchmarkTable`: the benchmark-table parser of `graphs/main.py`.
  - `Montgomery`: the constant derivation of
    `montgomery-multiplication-demo/preprocess.py`.
- `Common` holds the shared machine-word helpers: u32 wrap-around and
  little- and big-endian byte encodings.

Machine integers are unbounded `int`s, and every wrap-around is written out.
A panic of the source is a precondition or an explicit outcome. A random
nonce, a hash key or a solver result is a parameter.

## Model

| member | source | states |
|---|---|---|
| RibltSymbol.Apply | src/riblt/symbol.rs:17-21 | the new hash is the old hash XOR h and the new count is the old count plus the direction |
| RibltSymbol.RemoveUndoesAdd | src/riblt/symbol.rs:5-7 | applying h with ADD (1) and then with REMOVE (-1) gives back the original symbol |
| RibltSymbol.ApplyCommutes | src/riblt/symbol.rs:17-21 | two applications commute |
| RibltSymbol.ApplyAllMoveLast | src/riblt/symbol.rs:17-21 | one application can be moved from anywhere in a sequence of applications to the end |
| RibltSymbol.ApplyAllOrderFree | src/riblt/symbol.rs:17-21 | the final symbol depends only on the multiset of (hash, direction) pairs applied |
| RibltMapping.NewMapping | src/riblt/mapping.rs:17-19 | a fresh mapping keeps the PRNG state and starts at index 0 |
| RibltMapping.PrngOutput | src/riblt/mapping.rs:25-26 | the PRNG update is a 64-bit wrapping multiplication, so its output is below 2^64 |
| RibltMapping.NextIndex | src/riblt/mapping.rs:22-38 | every step strictly increases last_index (the step size is a parameter of at least 1) |
| RibltMapping.IndicesAscend | src/riblt/mapping.rs:21-38 | the indices a mapping visits below n start at its current index, ascend strictly, stay below n, and are empty exactly when the mapping already stands at or past n |
| RibltMapping.IndicesAdvance | src/riblt/decoder.rs:64-89 | one loop step of apply_new_symbol consumes exactly the next index of the mapping's sequence |
| RibltEncoder.FixTail | src/riblt/encoder.rs:21-31 | on a non-empty queue whose prefix without the last entry is a min-heap on coded_idx, the result is a min-heap, has the same length and holds the same multiset of entries |
| RibltEncoder.SiftStep | src/riblt/encoder.rs:24-29 | swapping a hole with a larger parent moves the hole up one level and keeps the multiset of entries |
| RibltEncoder.HeapHeadIsMinimum | src/riblt/encoder.rs:11-13 | in a min-heap the head holds the smallest coded_idx |
| RibltEncoder.CodingWindow.AddHashWithMapping | src/riblt/encoder.rs:50-57 | symbols and mappings each grow by t and m, and the queue gains exactly one entry with coded_idx m.last_index while staying a heap |
| RibltDecoder.InitialDecodableExact | src/riblt/decoder.rs:25-30 | the initial decodable list holds exactly the indices whose symbol has count 1 or count 0 with hash 0, in ascending order |
| RibltDecoder.Decoder.constructor | src/riblt/decoder.rs:23-35 | keeps cs, builds the initial decodable list, with remote empty and decoded 0 |
| RibltDecoder.Decoder.AddCodedSymbol | src/riblt/decoder.rs:51-60 | appends c and pushes its index exactly when c has count 1 or count 0 with hash 0; earlier symbols, remote and decoded are untouched |
| RibltDecoder.ApplyAlongMapping | src/riblt/decoder.rs:62-92 | applies (t, dir) at every index of the mapping below cs.len(), starting from 0, pushes each index whose count becomes 1, leaves other symbols unchanged, and returns a mapping at or past cs.len() |
| RibltDecoder.Decoder.ApplyNewSymbol | src/riblt/decoder.rs:62-92 | the decoder's fields change as ApplyAlongMapping describes; with REMOVE the number of symbols of count above 1 plus the decodable list does not grow |
| RibltDecoder.Decoder.PeelEntry | src/riblt/decoder.rs:98-123 | one visit of the try_decode loop: a count-1 symbol is peeled with REMOVE, its hash appended to remote and decoded incremented; a count-0 symbol only increments decoded; any other count reports failure and changes nothing |
| RibltDecoder.Decoder.TryDecode | src/riblt/decoder.rs:95-127 | cs keeps its length; on normal completion decodable is empty, otherwise it still extends the old list and holds an entry whose count is neither 0 nor 1; remote only grows and decoded grows by at least the number of hashes appended to remote |
| Digests.XorDigest.constructor | digest/src/xor.rs:11-13 | a new digest has hash 0 |
| Digests.XorDigest.Add | digest/src/xor.rs:16-18 | the hash becomes the old hash XOR elem |
| Digests.XorDigest.AddAll | digest/src/xor.rs:21-25 | the hash becomes the old hash XOR the XOR of all elements, as adding each in turn does |
| Digests.XorBelow | digest/src/xor.rs:7 | the XOR of two values below 2^k is below 2^k, so the integer XOR stays a u32 |
| Digests.XorAllAppend | digest/src/xor.rs:21-25 | the XOR of a concatenation is the XOR of the two parts' XORs |
| Digests.XorAllOrderFree | digest/src/xor.rs:58-73 | lists that are permutations of each other have the same XOR digest |
| Digests.XorAllPairCancels | digest/src/xor.rs:1-4 | adding an element twice leaves the digest unchanged, so even and odd multiplicities are not told apart |
| Digests.XorSelfCancels | digest/src/xor.rs:16-18 | XOR with the same element twice is the identity |
| Digests.AccumulateTotal | digest/src/mset.rs:32-46 | adding elements one by one leaves (start + sum of hash_fn(1, e)) mod N |
| Digests.CountAfterIsSum | digest/src/mset.rs:36-45 | incrementing the count n times modulo L equals adding n once modulo L, so add_all's count agrees with repeated add |
| Digests.TotalOrderFree | digest/src/mset.rs:113-128 | the sum of element images does not depend on the order of the elements |
| Digests.DigestOf | digest/src/mset.rs:22-46 | a digest built from a nonce and a list has hash below N and count below L |
| Digests.DigestsEqualIff | digest/src/mset.rs:54-63 | two digests, under any two nonces, are equal exactly when the list lengths agree modulo L and the sums of hash_fn(1, e) agree modulo N; the condition is symmetric in the two digests |
| Digests.EqualMultisetsEqualDigests | digest/src/mset.rs:89-128 | digests of the same multiset are equal under different nonces and in any order |
| Digests.ExtraCopyBreaksEquality | digest/src/mset.rs:100-111 | one extra copy of an element makes the digests unequal (while the list is shorter than L) |
| Digests.AdditiveMsetHash.constructor | digest/src/mset.rs:22-29 | the hash starts at hash_fn(0, nonce) = nonce and the count at 0 |
| Digests.AdditiveMsetHash.Add | digest/src/mset.rs:32-37 | the hash becomes (hash + hash_fn(1, e)) mod N and the count (count + 1) mod L |
| Digests.AdditiveMsetHash.AddAll | digest/src/mset.rs:40-46 | the hash and count are those of adding each element in turn |
| ModArith.ExtGcdBezout | accumulator/src/power_sum.rs:66-113 | extended Euclid returns the gcd together with Bezout coefficients x, y with a·x + b·y = gcd(a, b) |
| ModArith.GcdDivides | accumulator/src/power_sum.rs:71-78 | the gcd of two numbers not both zero is positive and divides both |
| ModArith.BezoutInverse | accumulator/src/power_sum.rs:80-111 | when gcd(a, m) = 1 the Bezout coefficient of a is its inverse modulo m |
| ModArith.EuclidLemma | accumulator/src/ModularInteger.hpp:18 | a prime modulus that divides a product divides one of its factors |
| ModArith.PrimeCoprime | accumulator/src/ModularInteger.hpp:18 | every r with 0 < r < m is coprime to a prime m |
| Fermat.BinomialTheorem | accumulator/src/ModularInteger.hpp:113-115 | (a + 1)^n is the binomial sum, the first step to Fermat's little theorem |
| Fermat.PrimeDividesBinomial | accumulator/src/ModularInteger.hpp:113-115 | a prime m divides every binomial coefficient C(m, k) with 0 < k < m |
| Fermat.FreshmanDream | accumulator/src/ModularInteger.hpp:113-115 | (a + 1)^m ≡ a^m + 1 modulo a prime m |
| Fermat.FermatNat | accumulator/src/ModularInteger.hpp:113-115 | Fermat's little theorem a^m ≡ a (mod m) for a prime m |
| Fermat.FermatInverse | accumulator/src/ModularInteger.hpp:113-115 | for a prime m and a not divisible by m, a^(m-2)·a ≡ 1, so pow<M-2>() is the inverse |
| ModularInteger.Zero | accumulator/src/ModularInteger.hpp:23-24 | the default value is 0, a residue for every modulus |
| ModularInteger.FromNarrow | accumulator/src/ModularInteger.hpp:26-27 | the modulus is subtracted once when n ≥ M; the value is congruent to n, and below M (equal to n mod M) whenever n < 2·M |
| ModularInteger.ToBool | accumulator/src/ModularInteger.hpp:43-45 | true exactly when the value is non-zero modulo M |
| ModularInteger.Add | accumulator/src/ModularInteger.hpp:47-59 | for residues a and b, += leaves the residue (a + b) mod M |
| ModularInteger.Sub | accumulator/src/ModularInteger.hpp:61-74 | for residues, -= computed as a + (M − b) leaves (a − b) mod M |
| ModularInteger.Neg | accumulator/src/ModularInteger.hpp:76-82 | unary minus maps 0 to 0 and any other a to M − a, that is (−a) mod M |
| ModularInteger.Mul | accumulator/src/ModularInteger.hpp:84-95 | *= leaves (a·b) mod M, computed from the wide product |
| ModularInteger.PowT | accumulator/src/ModularInteger.hpp:97-111 | the recursive square-and-multiply pow<P>() equals a^P mod M |
| ModularInteger.Inv | accumulator/src/ModularInteger.hpp:113-115 | inv() is a^(M−2) mod M |
| ModularInteger.InvIsInverse | accumulator/src/ModularInteger.hpp:18 | for a prime modulus and a non-zero a, inv()·a = 1 |
| ModularInteger.SubAdd | accumulator/src/ModularInteger.hpp:47-74 | (a + b) − b = a |
| ModularInteger.NegIsSubFromZero | accumulator/src/ModularInteger.hpp:61-82 | unary minus agrees with 0 − a, and a + (−a) = 0 |
| ModularInteger.FermatInverses | cpp/PowerSumAccumulator.hpp:10-19 | modular_inverse_table(n) has n entries, each a residue |
| ModularInteger.FermatInversesTable | cpp/PowerSumAccumulator.hpp:10-19 | for a prime modulus above n, every entry i < n of modular_inverse_table(n), entry 0 included, is the inverse of i + 1 |
| PowerSumMath.PowerSumMultiset | src/power_sum.rs:117-128 | power sums do not depend on the order in which elements were inserted |
| PowerSumMath.PowerSumDifference | src/lib.rs:80-88 | when A is B plus D as multisets, the power sums of A minus those of B are the power sums of D |
| PowerSumMath.Newton | src/power_sum.rs:185-197 | Newton's identity k·e_k = −Σ_{u=1..k} e_{k−u}·p_u over the integers, the identity the coefficient recursion implements |
| PowerSumMath.MonicFactor | src/power_sum.rs:82-91 | the monic polynomial with the signed elementary symmetric coefficients of X is x^(n−|X|)·Π(x − X_i) |
| PowerSumMath.MonicRoot | src/power_sum.rs:82-91 | every element of X is a root of that polynomial |
| PowerSumMath.MonicExpanded | accumulator/src/MonicPolynomialEvaluator.hpp:52-71 | Horner's value of the monic polynomial equals x^n + Σ_i c_i·x^(n−1−i) |
| PowerSumMath.MonicTrailingZeros | accumulator/src/TestProgram.cpp:125-128 | r trailing zero coefficients factor out x^r |
| PowerSumMod.AddPowersSums | src/power_sum.rs:117-125 | inserting x moves the reduced power sums of X to those of X + [x] |
| PowerSumMod.SubPowersAddPowers | src/power_sum.rs:130-138 | removing x undoes inserting x on reduced power sums |
| PowerSumMod.SubPowersSums | src/power_sum.rs:130-138 | removing x moves the reduced power sums of X + [x] back to those of X |
| PowerSumMod.SubSumsDifference | src/power_sum.rs:147-171 | subtracting the sums of B from those of A, with B a sub-multiset, gives the sums of A∖B over the shorter length |
| PowerSumMod.NewtonCoeffs | src/power_sum.rs:185-197 | the coefficient recursion c0 = −p0, c_i = (init_i − Σ_{j<i} p_j·c_{i−j−1} − p_i)·inv_i yields one residue per starting entry |
| PowerSumMod.NewtonFirst | src/power_sum.rs:189 | the first coefficient is −p0 mod m |
| PowerSumMod.NewtonCoeffsPrefix | src/power_sum.rs:190-196 | coefficient i depends only on the first i + 1 entries, so a prefix of the input gives a prefix of the output |
| PowerSumMod.NewtonCoeffsCorrect | src/power_sum.rs:185-197 | with power sums of X, an inverse table for 1..n and zero starting entries from index 1, the coefficients are the signed elementary symmetric polynomials of X modulo m |
| PowerSumMod.NonzeroInitBreaksCoeffs | src/power_sum.rs:185-197 | to_coeffs_preallocated needs the caller's entries from index 1 to start at zero: a non-zero entry 1 gives a wrong second coefficient |
| PowerSumMod.DecodeRoot | src/power_sum.rs:199-208 | every element of X is a root modulo m of the polynomial with X's coefficients |
| PowerSumMod.ProductZeroMod | src/power_sum.rs:199-208 | modulo a prime, Π(x − X_i) vanishes exactly when x is congruent to some X_i |
| PowerSumMod.DecodeExact | src/power_sum.rs:199-208 | with exactly |X| coefficients, x is a root modulo a prime exactly when it is congruent to an element of X |
| PowerSumMod.DecodeNonzero | src/power_sum.rs:199-208 | with at least |X| coefficients and a non-zero x, x is a root exactly when it is congruent to an element of X |
| PowerSumMod.ZeroIsSpuriousRoot | src/power_sum.rs:199-208 | with more coefficients than elements, 0 is always reported as a root |
| PowerSumMod.CoeffsBeyondZero | accumulator/src/TestProgram.cpp:125-128 | coefficients past |X| are zero |
| PowerSumMod.CoeffsTrailingZeros | accumulator/src/TestProgram.cpp:125-128 | the run of trailing zero coefficients is at least the number of coefficients minus |X| |
| PowerSumMod.ReducedSumsOf | src/power_sum.rs:117-128 | reduced power sums are power sums of X modulo m |
| PowerSumMod.DifferenceDecodes | src/lib.rs:80-118 | after subtracting the quACK of a sub-multiset B from that of A, the polynomial of degree |A∖B| vanishes exactly at the elements of A∖B, modulo a prime |
| FixedAccumulator.PowerSumAccumulator.constructor | accumulator/src/PowerSumAccumulator.hpp:18-22 | all SIZE power sums start at 0 |
| FixedAccumulator.PowerSumAccumulator.Insert | accumulator/src/PowerSumAccumulator.hpp:30-38 | power sum i grows by value^(i+1) mod M for every i < SIZE |
| FixedAccumulator.PowerSumAccumulator.Clear | accumulator/src/PowerSumAccumulator.hpp:40-44 | all power sums become 0 |
| FixedAccumulator.PowerSumAccumulator.SubAssign | accumulator/src/PowerSumAccumulator.hpp:46-53 | the power sums become the element-wise differences mod M |
| FixedAccumulator.PowerSumAccumulator.ToPolynomialCoefficients | accumulator/src/PowerSumAccumulator.hpp:55-69 | SIZE coefficients from the Newton recursion with the Fermat inverses of 1..SIZE |
| FixedAccumulator.NewtonIdentities | accumulator/src/PowerSumAccumulator.hpp:57-67 | the nested loops compute exactly the Newton recursion from zero-initialised coefficients |
| FixedAccumulator.CountTrailingZeros | accumulator/src/PowerSumAccumulator.hpp:74-86 | the result is the length of the final run of zero coefficients, between 0 and SIZE (the same loop is accumulator/src/MonicPolynomialEvaluator.hpp:11-20 and cpp/MonicPolynomialEvaluator.hpp:12-21, where an empty vector gives 0) |
| FixedAccumulator.EvaluateMonicPolynomial | accumulator/src/PowerSumAccumulator.hpp:89-103 | Horner's rule returns the value of x^SIZE + Σ c_i·x^(SIZE−1−i) mod M (the same loop is the generic eval of both MonicPolynomialEvaluator.hpp files) |
| FixedAccumulator.DroppedPacketsAreRoots | accumulator/src/TestProgram.cpp:108-123 | when at most SIZE packets are dropped, each dropped packet is a root of the polynomial of the difference, so it lands in the resend queue |
| FixedAccumulator.TrailingZerosBoundDropped | accumulator/src/TestProgram.cpp:125-128 | SIZE minus the trailing zeros is a lower bound on the number of dropped packets |
| FixedEvaluator.PowerTable | accumulator/src/MonicPolynomialEvaluator.hpp:23-35 | entry i is x^(SIZE−1−i) for i ≤ SIZE−2 and entry SIZE−1 is x^SIZE |
| FixedEvaluator.PowerTables16 | accumulator/src/MonicPolynomialEvaluator.hpp:38-49 | position i holds power_table(i) for each of the 65536 values |
| FixedEvaluator.Eval16 | accumulator/src/MonicPolynomialEvaluator.hpp:74-96 | the 16-bit table evaluator, summing in 64 bits and reducing once, returns the same value as Horner's rule |
| VectorAccumulator.ModularInverseTable | cpp/PowerSumAccumulator.hpp:10-19 | entry i is ModInt(i + 1).inv() |
| VectorAccumulator.InverseTableInverts | cpp/PowerSumAccumulator.hpp:10-19 | for a prime modulus each entry i is the inverse of i + 1 |
| VectorAccumulator.PowerSumAccumulator.constructor | cpp/PowerSumAccumulator.hpp:32-39 | size zero power sums and a size-entry inverse table |
| VectorAccumulator.PowerSumAccumulator.Insert | cpp/PowerSumAccumulator.hpp:41-50 | power sum i grows by value^(i+1) for every i < size |
| VectorAccumulator.PowerSumAccumulator.InsertFromTables | cpp/PowerSumAccumulator.hpp:52-62 | with tables from power_tables_16 of table_size ≥ size, the table-driven insert equals the plain insert |
| VectorAccumulator.PowerSumAccumulator.Clear | cpp/PowerSumAccumulator.hpp:64-69 | every power sum becomes 0, the length is kept |
| VectorAccumulator.PowerSumAccumulator.SubAssign | cpp/PowerSumAccumulator.hpp:71-79 | subtracts element-wise over this accumulator's size |
| VectorAccumulator.PowerSumAccumulator.ToPolynomialCoefficients | cpp/PowerSumAccumulator.hpp:81-93 | for 1 ≤ coeffs.size() ≤ size, fills the coefficients by the Newton recursion starting from the caller's entries |
| VectorAccumulator.NewtonInto | cpp/PowerSumAccumulator.hpp:84-92 | the nested loops over the caller's array compute exactly the Newton recursion from its old entries |
| VectorAccumulator.DroppedPacketsDecode | cpp/PowerSumAccumulator.hpp:71-93 | after subtracting the accumulator of the received packets, x is a root exactly when it is congruent to a dropped packet |
| VectorEvaluator.FlatEntry | cpp/MonicPolynomialEvaluator.hpp:81-90 | the flat tables hold x^(k+1) at offset size·x + k, inside the vector |
| VectorEvaluator.PowerTable | cpp/MonicPolynomialEvaluator.hpp:63-78 | appends exactly x^1 .. x^size after the caller's entries, and nothing when size is 0 |
| VectorEvaluator.PowerTables16 | cpp/MonicPolynomialEvaluator.hpp:81-90 | 65536·size entries with x^(k+1) at offset size·x + k |
| VectorEvaluator.EvalWithTables | cpp/MonicPolynomialEvaluator.hpp:43-58 | with table_size ≥ n the table-driven eval stays below 2^64 and equals the Horner value |
| PowerSumQuack.PowerSumQuackU32.constructor | src/power_sum.rs:97-103 | threshold zero power sums, count 0 and no last value |
| PowerSumQuack.PowerSumQuackU32.Insert | src/power_sum.rs:117-128 | adds x^(i+1) mod p to power sum i for every i < threshold, increments count with u32 wrap-around and sets last_value to x |
| PowerSumQuack.PowerSumQuackU32.Remove | src/power_sum.rs:130-145 | subtracts the same powers, decrements count with wrap-around, and clears last_value only when it equals x |
| PowerSumQuack.PowerSumQuackU32.SubAssign | src/power_sum.rs:147-158 | for equal thresholds subtracts element-wise, subtracts counts with wrap-around and clears last_value |
| PowerSumQuack.PowerSumQuackU32.Sub | src/power_sum.rs:160-171 | a new quACK of threshold min(lhs, rhs) with the element-wise differences, the wrapped count difference and no last value |
| PowerSumQuack.PowerSumQuackU32.ToCoeffsPreallocated | src/power_sum.rs:185-197 | fills the caller's coefficients by the Newton recursion starting from their old entries |
| PowerSumQuack.PowerSumQuackU32.ToCoeffs | src/power_sum.rs:177-183 | exactly count coefficients, empty when count is 0, by the Newton recursion from zeros |
| PowerSumQuack.PowerSumQuackU32.DecodeWithLog | src/power_sum.rs:199-208 | [] when count is 0; otherwise the entries of the log, in order and with duplicates, at which the monic polynomial evaluates to 0 |
| PowerSumQuack.PowerSumQuackU32.Serialize | src/power_sum.rs:212-222 | writes count and last_value little-endian in bytes 0-7 and then the power sums, returns 8 + 4·threshold and touches nothing else |
| PowerSumQuack.PowerSumQuackU32.SerializeWithHint | src/power_sum.rs:224-235 | writes only min(threshold, num_missing) power sums |
| PowerSumQuack.Deserialize | src/power_sum.rs:237-251 | restores count, last_value and (len − 8) / 4 power sums |
| PowerSumQuack.PowerSumQuackU32.DeserializePrealloc | src/power_sum.rs:253-266 | the fields become those decoded from the buffer, whether or not the length matched |
| PowerSumQuack.AddedPowers | src/power_sum.rs:118-125 | the loop with the running power y adds x^(i+1) to entry i |
| PowerSumQuack.SubtractedPowers | src/power_sum.rs:131-138 | the loop with the running power y subtracts x^(i+1) from entry i |
| PowerSumQuack.SubtractedSums | src/power_sum.rs:153-155 | entry-wise subtraction of two equal-length vectors |
| PowerSumQuack.Encoding | src/power_sum.rs:212-222 | the serialized quACK is 8 header bytes and 4 bytes per power sum |
| PowerSumQuack.Decoding | src/power_sum.rs:237-251 | deserialize reads u32 count and last value and one u32 power sum per whole word after the header |
| PowerSumQuack.EncodingRoundTrip | src/power_sum.rs:212-251 | deserialize(serialize(q)) restores count, last_value and every power sum |
| PowerSumQuack.RootsInLogMultiplicity | src/power_sum.rs:86-91 | a root appears in the result as many times as in the log, a non-root never |
| PowerSumQuack.RootsInLogSubsequence | src/power_sum.rs:204-207 | the result is no longer than the log and holds only log entries that are roots |
| PowerSumQuack.InsertRemoveRestores | src/power_sum.rs:117-145 | insert(x) followed by remove(x) restores the power sums and the count |
| PowerSumQuack.SubSelfIsEmpty | src/power_sum.rs:147-171 | q − q has zero power sums and count 0 |
| PowerSumQuack.DecodeDifference | src/lib.rs:80-118 | after subtracting a quACK of a sub-multiset B from that of A, a log entry is decoded, with all of its occurrences in the log, exactly when it is congruent to an element of A∖B (when |A∖B| fits in the threshold and the modulus is prime) |
| PowerSumQuack.SubtractionExample | src/lib.rs:96-117 | {1..5} minus {2, 5} decodes to [1, 3, 4] from the log [1..5] |
| QuackLib.NewWrapper | src/lib.rs:210-223 | builds the IBLT variant exactly when riblt is true; the power-sum variant is a fresh empty quACK |
| QuackLib.Insert | src/lib.rs:160-165 | forwards to the wrapped quACK's insert unchanged |
| QuackLib.Remove | src/lib.rs:167-172 | forwards to the wrapped quACK's remove unchanged |
| QuackLib.SubAssign | src/lib.rs:174-187 | equal variants subtract; a power-sum quACK with an IBLT right-hand side is left unchanged |
| QuackLib.Sub | src/lib.rs:189-206 | two power-sum quACKs give their difference (other pairs panic, so they are excluded) |
| QuackLib.Serialize | src/lib.rs:239-250 | writes tag byte 0 and then the inner encoding, returning 1 + the inner length |
| QuackLib.Deserialize | src/lib.rs:252-258 | tag 0 deserializes the power-sum quACK from the rest of the buffer |
| QuackLib.WrapperEncoding | src/lib.rs:239-250 | the wrapper encoding is the tag byte 0 followed by the quACK's own encoding |
| QuackLib.WrapperDecoding | src/lib.rs:252-258 | decoding skips the tag and reads the quACK's fields |
| QuackLib.WrapperRoundTrip | src/lib.rs:290-305 | decoding the tagged encoding restores count, last_value and the power sums |
| QuackLib.SerializeDeserialize | src/lib.rs:290-305 | serialize returns 1 + 4 + 4 + 4·threshold and deserialize round-trips count, last_value and the power sums |
| LegacyPowerSum.AddAndMod | accumulator/src/power_sum.rs:56-58 | the sum of two u32 values widened to 64 bits is reduced modulo 4294967029 and stays below it |
| LegacyPowerSum.MulAndMod | accumulator/src/power_sum.rs:60-62 | the product of two u32 values widened to 64 bits is reduced modulo 4294967029 and stays below it |
| LegacyPowerSum.MulAndModExamples | accumulator/src/power_sum.rs:535-540 | the two expected products of the unit test, one without and one with 32-bit overflow of the plain product |
| LegacyPowerSum.GcdLoopIsGcd | accumulator/src/power_sum.rs:70-84 | the remainder loop started from the smaller and larger argument ends on their greatest common divisor |
| LegacyPowerSum.EuclidLoopBezout | accumulator/src/power_sum.rs:94-103 | the extended Euclid loop keeps both Bezout relations and ends with old_r the gcd and old_x, old_y its Bezout coefficients |
| LegacyPowerSum.RaiseNonneg | accumulator/src/power_sum.rs:104-107 | adding the prime until the value is non-negative leaves a non-negative value with the same residue |
| LegacyPowerSum.Quotient | accumulator/src/power_sum.rs:66-113 | div_and_mod's value, for positive a and b, is a field element below the prime |
| LegacyPowerSum.DivAndMod | accumulator/src/power_sum.rs:66-113 | the loops of div_and_mod (gcd, divide out, b == 1 shortcut, inverse of b by extended Euclid, final product) compute the quotient function |
| LegacyPowerSum.QuotientTimesDivisor | accumulator/src/power_sum.rs:66-113 | when b is invertible modulo the prime, div_and_mod(a, b) times b is a modulo the prime, on both the shortcut and the inverse path |
| LegacyPowerSum.CalculatePowerSums | accumulator/src/power_sum.rs:116-151 | the nested loops yield the first num_psums power sums of the elements modulo the prime |
| LegacyPowerSum.AddElementPowers | accumulator/src/power_sum.rs:130-137 | the inner loop adds x, x^2, ... to successive sums, each reduced modulo the prime |
| LegacyPowerSum.PowerSumsExamples | accumulator/src/power_sum.rs:548-551 | the power sums of [2, 3, 5] are 10, 38 and 160 |
| LegacyPowerSum.PowerSumsLargeExample | accumulator/src/power_sum.rs:552-553 | the reduced power sums of 294967295 are 294967295, 2507781770 and 2201765005 |
| LegacyPowerSum.CalculateDifference | accumulator/src/power_sum.rs:154-158 | the entry-wise difference over the shorter length, each entry lhs + (P − rhs) reduced, is the modular difference of the two vectors |
| LegacyPowerSum.DifferenceEntry | accumulator/src/power_sum.rs:156 | one entry add_and_mod(a, P − b) is a − b modulo the prime |
| LegacyPowerSum.DifferenceExamples | accumulator/src/power_sum.rs:558-566 | [2,3,4] minus [1,2,3] or [1,2,3,4] is [1,1,1], and [1] minus [2] wraps to 4294967028 |
| LegacyPowerSum.DifferenceOfLists | accumulator/src/power_sum.rs:337-350 | when the received list is the log plus D as multisets, the difference of their power sums is the power sums of D |
| LegacyPowerSum.NextEAsWritten | accumulator/src/power_sum.rs:175-188 | one round of the outer loop as written: the signed sum raised and reduced, then div_and_mod by i + 1, which needs a nonzero residue |
| LegacyPowerSum.NextE | accumulator/src/power_sum.rs:175-188 | the same round with a zero residue giving the zero coefficient |
| LegacyPowerSum.LegacyEs | accumulator/src/power_sum.rs:174-188 | e starts as [1] and gains one entry per round, every entry below the prime |
| LegacyPowerSum.LegacyCoeffs | accumulator/src/power_sum.rs:169-197 | an empty input gives no coefficients; otherwise n + 1 coefficients led by 1, all below the prime |
| LegacyPowerSum.NextEntry | accumulator/src/power_sum.rs:176-187 | the inner loop with its alternating signs computes the next e |
| LegacyPowerSum.NegateOdd | accumulator/src/power_sum.rs:189-194 | every odd-position entry is negated modulo the prime and every even one kept |
| LegacyPowerSum.ComputePolynomialCoefficients | accumulator/src/power_sum.rs:169-197 | the method's loops return the coefficients function |
| LegacyPowerSum.NextECorrect | accumulator/src/power_sum.rs:175-188 | when p holds the power sums of X and e the signed elementary symmetric polynomials so far, the round yields the next one (Newton's identity divided by i + 1) |
| LegacyPowerSum.LegacyEsCorrect | accumulator/src/power_sum.rs:174-188 | from the power sums of X, e holds the elementary symmetric polynomials of X with alternating signs |
| LegacyPowerSum.LegacyCoeffsCorrect | accumulator/src/power_sum.rs:169-197 | from the power sums of X, the returned coefficients are those of the product of (x − X_i) modulo the prime |
| LegacyPowerSum.LegacyRoots | accumulator/src/power_sum.rs:355-360 | the polynomial from the power sums of X vanishes modulo the prime exactly at the elements of X |
| LegacyPowerSum.MissingPairDividesByZero | accumulator/src/power_sum.rs:187 | the missing pair 2147483647, 2147483382 has first power sum 0, so the first round hands div_and_mod a zero residue |
| LegacyAccumulator.Mask | accumulator/src/power_sum.rs:283 | masking with DJB_MASK keeps the low 31 bits |
| LegacyAccumulator.MaskAll | accumulator/src/power_sum.rs:341-343 | every identifier of the list is masked, in order |
| LegacyAccumulator.MaskAllMultiset | accumulator/src/power_sum.rs:341-343 | masking two lists with equal multisets gives lists with equal multisets |
| LegacyAccumulator.PackSums | accumulator/src/power_sum.rs:270-271 | to_bytes writes four bytes per power sum |
| LegacyAccumulator.UnpackSums | accumulator/src/power_sum.rs:246-258 | from_bytes reads one power sum per whole four bytes |
| LegacyAccumulator.PackSumsRoundTrip | accumulator/src/power_sum.rs:242-273 | unpacking the big-endian bytes of to_bytes gives back the power sums |
| LegacyAccumulator.ZeroSumsEmpty | accumulator/src/power_sum.rs:238 | threshold zeros are the power sums of the empty list |
| LegacyAccumulator.PowerSumAccumulator.constructor | accumulator/src/power_sum.rs:227-240 | a new accumulator has an empty log, the given seed and threshold zero sums |
| LegacyAccumulator.PowerSumAccumulator.FromBytes | accumulator/src/power_sum.rs:242-260 | from_bytes takes the hash, count and seed as stored and reads each 4 bytes as a big-endian power sum |
| LegacyAccumulator.PowerSumAccumulator.ToBytes | accumulator/src/power_sum.rs:264-273 | to_bytes keeps the count, which must fit 16 bits, and writes 4 bytes per power sum |
| LegacyAccumulator.PowerSumAccumulator.Total | accumulator/src/power_sum.rs:296-298 | the total is the digest's count: the number of processed elements modulo the multiset hash's count modulus |
| LegacyAccumulator.PowerSumAccumulator.Reset | accumulator/src/power_sum.rs:275-278 | reset empties the log, takes a new nonce and zeroes as many sums as before |
| LegacyAccumulator.PowerSumAccumulator.Process | accumulator/src/power_sum.rs:280-288 | process adds the element to the digest's log and its masked powers to the sums |
| LegacyAccumulator.PowerSumAccumulator.ProcessBatch | accumulator/src/power_sum.rs:290-294 | process_batch appends the batch to the log in order and keeps the number of sums |
| LegacyAccumulator.PowerSumAccumulator.Validate | accumulator/src/power_sum.rs:306-360 | an empty log is valid, a short list invalid, more missing than the threshold exceeds it, none missing rechecks the digest, otherwise the difference coefficients go to the root finder |
| LegacyAccumulator.PowerSumAccumulator.CheckDigest | accumulator/src/power_sum.rs:325-335 | a fresh digest of the list is compared with the logged one |
| LegacyAccumulator.PowerSumAccumulator.SolveMissing | accumulator/src/power_sum.rs:337-360 | power sums of the masked list, minus the logged ones, cut to n and turned into coefficients |
| LegacyAccumulator.PowerSumAccumulator.ValidateCoeffs | accumulator/src/power_sum.rs:349-356 | the coefficients handed to the root finder number n + 1 |
| LegacyAccumulator.PowerSumAccumulator.DigestsMatchIff | accumulator/src/power_sum.rs:325-335 | the digest recheck succeeds exactly when the list matches the log in length and total under the multiset hash's moduli |
| LegacyAccumulator.PowerSumAccumulator.ValidateFindsMissing | accumulator/src/power_sum.rs:337-360 | when the list is the log plus D, the polynomial handed to the root finder vanishes exactly at the masked elements of D |
| LegacyAccumulator.MissingFromLog | accumulator/src/power_sum.rs:337-360 | the same statement over the masked log and power sums given directly |
| LegacyAccumulator.MaskedDifference | accumulator/src/power_sum.rs:341-343 | masking preserves the multiset decomposition list = log + D |
| LegacyAccumulator.MaskedRoot | accumulator/src/power_sum.rs:394-395 | being a root among the masked D is being congruent to the mask of some element of D |
| LegacyAccumulator.MissingRoots | accumulator/src/power_sum.rs:349-360 | for A = B + M as multisets, the coefficients from the difference of their power sums vanish exactly at M |
| LegacyAccumulator.BytesRoundTrip | accumulator/src/power_sum.rs:518-533 | from_bytes(to_bytes(a)) gives back hash, count, seed and power sums |
| BloomHashing.WrappingMulIsProduct | bloom-sd/src/hashing.rs:22-23 | the modelled wrapping_mul is the product reduced modulo 2^64 |
| BloomHashing.HashSeq | bloom-sd/src/hashing.rs:14-28 | the iterator's values for a given count number exactly count |
| BloomHashing.HashSeqAt | bloom-sd/src/hashing.rs:18-25 | the i-th value of the sequence is the i-th value the iterator yields |
| BloomHashing.HashSeqShape | bloom-sd/src/hashing.rs:18-25 | the values are h1, then h2, then (h1 + i) · h2 with 64-bit wrap-around |
| BloomHashing.HashIter.constructor | bloom-sd/src/hashing.rs:32-50 | from hashes the item with both hashers and starts at position 0 with the given count |
| BloomHashing.HashIter.Next | bloom-sd/src/hashing.rs:14-28 | at the end next yields None and stays; otherwise it yields the value at the current position and advances by one |
| BloomHashing.HashIter.Drain | bloom-sd/src/hashing.rs:11-29 | running the iterator to the end yields the remaining values of the sequence in order |
| BloomHashing.Values | bloom-sd/src/hashing.rs:32-50 | collecting a fresh iterator yields the whole sequence for the item's two hashes |
| BloomCounters.MaxValue | bloom-sd/src/cbf.rs:83 | the largest counter value of bits_per_entry bits is 2^bits − 1 |
| BloomCounters.Positions | bloom-sd/src/cbf.rs:109-117 | the cell indexes of an item number num_hashes and lie below num_entries |
| BloomCounters.Reduce | bloom-sd/src/cbf.rs:78 | each hash is reduced modulo the number of entries |
| BloomCounters.BumpedTwice | bloom-sd/src/cbf.rs:72-90 | bumping along I and then along J is bumping along I followed by J |
| BloomCounters.SumBumped | bloom-sd/src/cbf.rs:149-158 | every insertion raises the sum of the counters by the number of its indexes |
| BloomCounters.BumpedPositive | bloom-sd/src/cbf.rs:173-187 | after an insertion every counter at its indexes is positive |
| BloomCounters.SumZeros | bloom-sd/src/cbf.rs:133-139 | the counters of a new filter sum to 0 |
| BloomCounters.AllPositiveMeans | bloom-sd/src/cbf.rs:73-89 | the running minimum staying positive over k cells means each of those k counters was positive |
| BloomCounters.ReadPositive | bloom-sd/src/cbf.rs:79-82 | the minimum stays positive one step further exactly when the counter read there is positive |
| BloomCounters.ReadFits | bloom-sd/src/cbf.rs:83-87 | when the insertion fits, every counter read before its increment is below the maximum |
| BloomCounters.ShiftUndo | bloom-sd/src/iblt.rs:127-171 | shifting cells up by v and then down by v modulo m restores them |
| BloomCounters.WrappedAllPositiveNoWrap | bloom-sd/src/iblt.rs:135-147 | when no counter wraps, the wrapped running minimum is the plain one |
| BloomCbf.CountingBloomFilter.WithRate | bloom-sd/src/cbf.rs:21-38 | with_rate makes a fresh vector of num_entries zero counters with the given sizes and hashers |
| BloomCbf.CountingBloomFilter.Indexes | bloom-sd/src/cbf.rs:109-117 | indexes gives num_hashes positions below num_entries |
| BloomCbf.CountingBloomFilter.Insert | bloom-sd/src/cbf.rs:72-90 | insert adds one to the counter at every index of the item and returns whether each was already positive |
| BloomCbf.CountingBloomFilter.InsertAll | bloom-sd/src/cbf.rs:74-89 | the loop over the hash iterator bumps every index and tracks the minimum |
| BloomCbf.CountingBloomFilter.Contains | bloom-sd/src/cbf.rs:94-106 | contains is true exactly when no counter at the item's indexes is zero |
| BloomCbf.CountingBloomFilter.EmptyClone | bloom-sd/src/cbf.rs:41-50 | empty_clone has the same sizes and hashers, hence the same indexes, and all counters zero |
| BloomCbf.FullyBumped | bloom-sd/src/cbf.rs:74-88 | once every index is processed the counters are the old ones bumped along the indexes |
| BloomCbf.BumpedBounded | bloom-sd/src/cbf.rs:83-87 | an insertion that fits keeps every counter within 0 and the maximum |
| BloomCbf.FirstInsert | bloom-sd/src/cbf.rs:149-152 | a first insertion into an empty filter reports absent and raises the sum to num_hashes |
| BloomIblt.InvBloomLookupTable.WithRate | bloom-sd/src/iblt.rs:41-65 | with_rate uses 2 hashes and 4 · expected entries, all counters and data zero |
| BloomIblt.InvBloomLookupTable.EmptyClone | bloom-sd/src/iblt.rs:68-78 | empty_clone keeps sizes and hashers, hence the indexes, and zeroes counters and data |
| BloomIblt.InvBloomLookupTable.Shaped | bloom-sd/src/iblt.rs:57-64 | a table of n zero cells with h hashes and the given hashers |
| BloomIblt.InvBloomLookupTable.Indexes | bloom-sd/src/iblt.rs:191-200 | indexes gives num_hashes positions below num_entries |
| BloomIblt.InvBloomLookupTable.Insert | bloom-sd/src/iblt.rs:127-148 | insert adds one to each counter at the item's indexes, wrapping past the maximum to 0, adds the item to each data cell with u32 wrap-around, and reports whether the wrapped minimum was positive |
| BloomIblt.InvBloomLookupTable.InsertAll | bloom-sd/src/iblt.rs:130-147 | the loop over the hash iterator shifts every index up and tracks the wrapped minimum |
| BloomIblt.InvBloomLookupTable.IncrementCounter | bloom-sd/src/iblt.rs:135-144 | one counter is raised by one modulo maximum + 1 and its old value returned |
| BloomIblt.InvBloomLookupTable.DecrementCounter | bloom-sd/src/iblt.rs:162-168 | one counter is lowered by one, 0 wrapping to the maximum |
| BloomIblt.InvBloomLookupTable.ShiftData | bloom-sd/src/iblt.rs:145 | one data cell is shifted by the item with u32 wrap-around |
| BloomIblt.InvBloomLookupTable.RemoveU32 | bloom-sd/src/iblt.rs:156-171 | remove_u32 lowers each counter at the item's indexes by one with wrap-around and subtracts the item from each data cell |
| BloomIblt.InvBloomLookupTable.RemoveAll | bloom-sd/src/iblt.rs:157-170 | the loop over the hash iterator shifts every index down |
| BloomIblt.InvBloomLookupTable.RemoveCell | bloom-sd/src/iblt.rs:161-169 | one cell of the removal loop |
| BloomIblt.InvBloomLookupTable.InsertThenRemove | bloom-sd/src/iblt.rs:127-171 | removing an item right after inserting it restores counters and data |
| BloomIblt.InvBloomLookupTable.InsertAnswerNoWrap | bloom-sd/src/iblt.rs:125-148 | when no counter wraps, insert reports exactly whether every counter at the item's indexes was positive |
| BloomIblt.InvBloomLookupTable.Contains | bloom-sd/src/iblt.rs:175-188 | contains is true exactly when no counter at the item's indexes is zero |
| BloomIblt.InvBloomLookupTable.Equals | bloom-sd/src/iblt.rs:104-123 | equals compares sizes, hash keys, data, bit length and every counter, and is reflexive |
| BloomIblt.InvBloomLookupTable.PeelStep | bloom-sd/src/iblt.rs:212-220 | peeling one more item is one more removal after the earlier ones |
| BloomIblt.InvBloomLookupTable.Sweep | bloom-sd/src/iblt.rs:211-220 | one pass over the cells peels every cell found at count 1; when it peels nothing, no counter is 1 |
| BloomIblt.InvBloomLookupTable.PeelCell | bloom-sd/src/iblt.rs:216-217 | the cell's data value is removed from the table and appended to the peeled items |
| BloomIblt.InvBloomLookupTable.EliminateElems | bloom-sd/src/iblt.rs:206-225 | the table ends as the old one with the peeled items removed in order; on success they are distinct, form the returned set and leave no counter equal to 1; on failure the last item was already peeled, where the source's assert fires |
| BloomIblt.Record | bloom-sd/src/iblt.rs:218 | inserting into the removed set succeeds exactly when the item is new, and then the set grows |
| BloomIblt.DistinctAppend | bloom-sd/src/iblt.rs:218 | a new item keeps the peeled items distinct and joins their set |
| BloomIblt.UnusedShrinks | bloom-sd/src/iblt.rs:210-224 | a growing removed set leaves fewer u32 values unused, which bounds the outer loop |
| AccumulatorLib.CheckDigestAsWritten | accumulator/src/lib.rs:31-47 | check_digest as written: the XOR of the elements it lets through, where each counted value is suppressed once more than its count, equals the expected digest |
| AccumulatorLib.KeptAsWrittenCounts | accumulator/src/lib.rs:36-45 | as written, a value with dropped count c loses c + 1 occurrences (or all, if fewer) |
| AccumulatorLib.AsWrittenRejectsHonestLog | accumulator/src/lib.rs:36-46 | for received [5, 5] with 5 dropped once, the as-written check rejects the honest log [5] while the corrected check accepts it |
| AccumulatorLib.CheckDigest | accumulator/src/lib.rs:31-47 | the corrected check: the XOR of the elements left after skipping each value as often as its dropped count equals the expected digest |
| AccumulatorLib.KeptCounts | accumulator/src/lib.rs:36-45 | after the corrected pass a value keeps its occurrences minus its dropped count, floored at 0 |
| AccumulatorLib.KeptIsDifference | accumulator/src/lib.rs:36-45 | when the dropped counts are the multiplicities of D, the kept elements are the received multiset minus D |
| AccumulatorLib.CheckDigestAcceptsHonestLog | accumulator/src/lib.rs:24-28 | when the received list is the log plus D and the counts are D's, the kept elements XOR to the log's digest |
| AccumulatorLib.NothingDropped | accumulator/src/lib.rs:36-45 | with no dropped counts both versions keep every element |
| AccumulatorLib.TallyCounts | accumulator/src/cbf.rs:152-157 | the tally holds a key exactly for the values that occur, with their multiplicities |
| AccumulatorLib.CountDropped | accumulator/src/cbf.rs:152-157 | the loop over the dropped elements builds their tally |
| AccumulatorLib.HonestDropsPass | accumulator/src/cbf.rs:151-158 | when the ILP picks exactly the dropped elements, the digest check passes |
| AccumulatorLib.CandidatesMembers | accumulator/src/cbf.rs:107-117 | the candidate indexes are exactly the positions whose element the difference filter contains |
| CbfAccumulator.CellsConcat | accumulator/src/cbf.rs:88-90 | the cells touched by inserting a + b are those of a followed by those of b |
| CbfAccumulator.CellsOrderFree | accumulator/src/cbf.rs:88-90 | reordering the inserted list does not change the multiset of touched cells |
| CbfAccumulator.CellsSplit | accumulator/src/cbf.rs:86-100 | when the received list is the log plus the dropped ones, its cells are the log's plus the dropped ones' |
| CbfAccumulator.FilledAppend | accumulator/src/cbf.rs:53-57 | inserting one more element bumps the counters at its indexes |
| CbfAccumulator.FilledAt | accumulator/src/cbf.rs:86-90 | each counter of a filled filter is how often its cell was touched |
| CbfAccumulator.FitsNext | accumulator/src/cbf.rs:59-63 | if a whole list fits the counters, so does each prefix and the next insertion |
| CbfAccumulator.FitsPrefix | accumulator/src/cbf.rs:59-63 | if a list fits, so does every prefix |
| CbfAccumulator.FilledAlike | accumulator/src/cbf.rs:87 | two filters with the same indexes fill alike, which is what empty_clone gives |
| CbfAccumulator.Difference | accumulator/src/cbf.rs:91-100 | the difference filter subtracts counter by counter |
| CbfAccumulator.Hits | accumulator/src/cbf.rs:111 | one flag per received element |
| CbfAccumulator.HitsAlike | accumulator/src/cbf.rs:107-117 | filters with the same indexes flag the same elements |
| CbfAccumulator.PktHashesAlike | accumulator/src/cbf.rs:107-117 | filters with the same indexes list the same packet hashes |
| CbfAccumulator.HonestDifference | accumulator/src/cbf.rs:86-100 | for received = log + dropped, no counter falls short and the difference filter is exactly the dropped elements' filter |
| CbfAccumulator.DroppedCovered | accumulator/src/cbf.rs:111 | every dropped element's counters are nonzero in the dropped elements' filter |
| CbfAccumulator.DroppedAreCandidates | accumulator/src/cbf.rs:107-117 | for received = log + dropped, every position holding a dropped value is among the ILP's candidates |
| CbfAccumulator.CBFAccumulator.constructor | accumulator/src/cbf.rs:39-49 | a new accumulator has an empty log and a fresh filter of 16-bit counters |
| CbfAccumulator.CBFAccumulator.Process | accumulator/src/cbf.rs:53-57 | process appends the element to the log and the filter stays its filled filter |
| CbfAccumulator.CBFAccumulator.ProcessBatch | accumulator/src/cbf.rs:59-63 | process_batch appends the batch in order |
| CbfAccumulator.CBFAccumulator.Total | accumulator/src/cbf.rs:65-67 | the total is the number of processed elements |
| CbfAccumulator.CBFAccumulator.Validate | accumulator/src/cbf.rs:69-148 | a short list is invalid; an equal-length list compares XOR digests; otherwise a counter shortfall is invalid, and else the ILP gets the number dropped, the difference counters, the candidates and their hashes |
| CbfAccumulator.CBFAccumulator.Conclude | accumulator/src/cbf.rs:151-162 | after the ILP, valid exactly when it succeeded and the elements it did not pick XOR to the logged digest (the corrected check of Findings row 2) |
| CbfAccumulator.CBFAccumulator.ConcludeAsWritten | accumulator/src/cbf.rs:151-162 | the same verdict through check_digest as written: valid exactly when the ILP succeeded and the elements left after dropping c + 1 copies of each value picked c times XOR to the logged digest |
| CbfAccumulator.Picked | accumulator/src/cbf.rs:153-154 | the ILP's answer indexes the candidates, which index the received elements |
| CbfAccumulator.InsertList | accumulator/src/cbf.rs:87-90 | inserting the received list into an empty clone yields its filled filter |
| CbfAccumulator.Subtract | accumulator/src/cbf.rs:91-100 | the subtraction loop fails exactly on a counter shortfall and otherwise leaves the difference |
| CbfAccumulator.ContainsCovered | accumulator/src/cbf.rs:111 | contains on the difference filter is covered-ness of the element's indexes |
| CbfAccumulator.ListCandidates | accumulator/src/cbf.rs:107-117 | the filter-and-flatten pass gives the candidate positions and their concatenated indexes |
| IbltTable.CountersOf | accumulator/src/iblt.rs:134-137 | the counters of a table filled with a list number num_entries |
| IbltTable.DataOf | accumulator/src/iblt.rs:134-137 | the data cells of a table filled with a list number num_entries and are u32 values |
| IbltTable.TableAppend | bloom-sd/src/iblt.rs:127-148 | inserting one more element raises its counters by one modulo max + 1 and adds its key to its data cells modulo 2^32 |
| IbltTable.TableEmpty | bloom-sd/src/iblt.rs:68-78 | a table filled with nothing is all zeros, as empty_clone makes it |
| IbltTable.WeightConcat | accumulator/src/iblt.rs:134-137 | what a + b puts into a cell is what a puts there plus what b puts there |
| IbltTable.WeightOrderFree | accumulator/src/iblt.rs:134-137 | reordering the list does not change what it puts into any cell |
| IbltTable.WeightSplit | accumulator/src/iblt.rs:134-137 | for received = log + dropped, each cell gets the log's share plus the dropped ones' share |
| IbltTable.TableOrderFree | accumulator/src/iblt.rs:95-105 | two lists with the same elements in any order give the same counters and data |
| IbltTable.WeightAlike | accumulator/src/iblt.rs:134 | two tables with the same indexes receive the same weights, as an empty clone does |
| IbltTable.TableAlike | accumulator/src/iblt.rs:134-137 | two tables with the same indexes and maximum fill alike |
| IbltTable.WeightNonNegative | accumulator/src/iblt.rs:157-159 | counts and key sums in a cell are non-negative, and a cell no element reaches holds no key sum |
| IbltTable.DataDiffInverts | accumulator/src/iblt.rs:149-156 | the corrected data difference is processed − received modulo 2^32, adding it back to received restores processed, and it is zero exactly when the two are equal |
| IbltTable.DataDiffAsWrittenOffByOne | accumulator/src/iblt.rs:152-156 | as written, when processed < received the difference comes out one less than the modular difference and no longer adds back to processed |
| IbltTable.DataDiffAsWrittenExample | accumulator/src/iblt.rs:152-156 | processed 0 and received 1 give 0xFFFFFFFE as written, where 0xFFFFFFFF is the value that adds back to 0 |
| IbltTable.CountDiff | accumulator/src/iblt.rs:146-147 | the difference counters subtract cell by cell |
| IbltTable.DataDiffs | accumulator/src/iblt.rs:149-160 | the difference data is the corrected data difference cell by cell |
| IbltTable.HonestDifference | accumulator/src/iblt.rs:138-161 | for received = log + dropped without counter wrap, every cell passes both checks and the difference table is exactly the dropped elements' table |
| IbltTable.HonestCellCounters | accumulator/src/iblt.rs:143-147 | in one cell the log's count is at most the received count, the difference is the dropped count, and a zero dropped count means no dropped key there |
| IbltTable.HonestCellData | accumulator/src/iblt.rs:149-156 | in one cell the corrected data difference is the dropped elements' key sum |
| IbltAccumulator.AddLogged | digest/src/mset.rs:32-38 | adding an element to a digest of acc gives the digest of acc + [e] |
| IbltAccumulator.SurvivorsSplit | accumulator/src/iblt.rs:248-258 | the survivors of the final loop and the elements it passes over together make up the list from i on |
| IbltAccumulator.SurvivorsNone | accumulator/src/iblt.rs:248-258 | with nothing skipped and nothing removed every element survives |
| IbltAccumulator.SameElementsSameDigest | accumulator/src/iblt.rs:127-131 | two lists with the same elements in any order have the same digest |
| IbltAccumulator.ExactDropsAccepted | accumulator/src/iblt.rs:239-259 | when the passed-over elements are exactly the dropped ones, the survivors' digest matches the log's |
| IbltAccumulator.DigestSurvivors | accumulator/src/iblt.rs:248-258 | the final loop builds the digest of the elements neither picked by the solver nor matching a still-unused peeled key |
| IbltAccumulator.SurviveOne | accumulator/src/iblt.rs:249-257 | one pass skips a picked position, consumes a peeled key once, or adds the element |
| IbltAccumulator.Hits | accumulator/src/iblt.rs:198 | one flag per received element |
| IbltAccumulator.HitsAlike | accumulator/src/iblt.rs:194-204 | tables with the same indexes flag the same elements |
| IbltAccumulator.PktHashesAlike | accumulator/src/iblt.rs:194-204 | tables with the same indexes list the same packet hashes |
| IbltAccumulator.PeelAlike | accumulator/src/iblt.rs:169 | tables with the same indexes peel the same cells alike |
| IbltAccumulator.RepeatNotDistinct | bloom-sd/src/iblt.rs:218 | a peeled key seen twice makes the peeled keys not distinct |
| IbltAccumulator.IBLTAccumulator.constructor | accumulator/src/iblt.rs:50-63 | a new accumulator has an empty log, an empty digest and a table of 4 · threshold cells with 2 hashes |
| IbltAccumulator.IBLTAccumulator.Process | accumulator/src/iblt.rs:95-99 | process appends the element to the log; digest and table stay those of the log |
| IbltAccumulator.IBLTAccumulator.ProcessBatch | accumulator/src/iblt.rs:101-105 | process_batch appends the batch in order |
| IbltAccumulator.IBLTAccumulator.Total | accumulator/src/iblt.rs:107-109 | the total is the number of processed elements |
| IbltAccumulator.IBLTAccumulator.Equals | accumulator/src/iblt.rs:83-87 | equals compares the digests, the counts and the tables |
| IbltAccumulator.IBLTAccumulator.Validate | accumulator/src/iblt.rs:117-264 | a short list is invalid; an equal-length list compares digests; otherwise a failed cell comparison is invalid; peeling as many keys as were dropped needs a matching digest (or the assert fires); otherwise the solver gets the peeled counters, the remaining candidates and their cells, and the asserts of lines 209 and 211 fire when their counts disagree |
| IbltAccumulator.IBLTAccumulator.Conclude | accumulator/src/iblt.rs:239-263 | after the solver, valid exactly when it succeeded and the survivors' digest matches the log's |
| IbltAccumulator.Resolve | accumulator/src/iblt.rs:165-236 | after a passing comparison: peel, then either recheck the digest or list the remaining candidates for the solver |
| IbltAccumulator.DroppedIs | accumulator/src/iblt.rs:244-247 | the picked positions in elems are the candidate positions the solver's answer indexes |
| IbltAccumulator.SameLogsEqual | accumulator/src/iblt.rs:83-87 | two accumulators of the same shape, nonce and hashers whose logs hold the same elements compare equal |
| IbltAccumulator.InsertKey | accumulator/src/iblt.rs:135-137 | inserting one element's key moves the table from the list's to the list-plus-one's |
| IbltAccumulator.InsertList | accumulator/src/iblt.rs:134-137 | inserting the received list into an empty clone gives its table |
| IbltAccumulator.Subtract | accumulator/src/iblt.rs:138-161 | the comparison loop passes exactly when every cell passes, and then leaves the difference counters and corrected data differences |
| IbltAccumulator.ContainsKey | accumulator/src/iblt.rs:198 | contains on the difference table is covered-ness of the key's indexes |
| IbltAccumulator.ListCandidates | accumulator/src/iblt.rs:194-204 | the filter-and-flatten pass gives the candidate positions and their concatenated indexes |
| IbltAccumulator.ListOne | accumulator/src/iblt.rs:198-202 | one element joins the candidates with its cells exactly when the table contains it |
| Common.WrapU32 | src/power_sum.rs:117-145 | the u32 count update wraps into 0..2^32 and leaves in-range values alone |
| Common.LEBytesRoundTrip | src/power_sum.rs:212-251 | reading back k little-endian bytes of a value below 256^k gives the value |
| Common.FromLEBytesRoundTrip | src/power_sum.rs:237-251 | writing back the value read from some bytes gives the same bytes |
| Common.LE32RoundTrip | src/power_sum.rs:213-214 | from_le_bytes(to_le_bytes(x)) is x for a u32 |
| Common.FromLE32RoundTrip | src/power_sum.rs:247-249 | to_le_bytes(from_le_bytes(b)) is b for 4 bytes |
| Common.BE32RoundTrip | accumulator/src/power_sum.rs:257-271 | from_be_bytes(to_be_bytes(x)) is x for a u32 |
| Common.LEWordsAt | src/power_sum.rs:215-220 | word i of the little-endian copy sits at bytes 4i to 4i + 4 |
| Common.LEWordsRoundTrip | src/power_sum.rs:215-248 | reading n words back from the little-endian copy of n words gives them back |
| Naive.Pick | accumulator/src/naive.rs:65-67 | a combination picks the elements at its indexes, in order |
| Naive.PrependAll | accumulator/src/naive.rs:60-61 | each listed combination is extended in front by x |
| Naive.IndexSetSplit | accumulator/src/naive.rs:60-61 | a k-combination of lo..n either starts with lo or is a k-combination of lo + 1..n |
| Naive.InPrependAll | accumulator/src/naive.rs:60-61 | membership in the extended list is membership of the tail |
| Naive.CombinationsAreIndexSets | accumulator/src/naive.rs:60-61 | the enumerated combinations are exactly the strictly increasing k-sequences of indexes below n |
| Naive.IndexSetNeedsRoom | accumulator/src/naive.rs:60-61 | a k-combination of lo..n needs k ≤ n − lo |
| Naive.IndexSetGrow | accumulator/src/naive.rs:60-61 | a combination stays one when n grows, and adding n extends it by one |
| Naive.PickPrefix | accumulator/src/naive.rs:65-67 | picking from a prefix that holds every index gives the same elements |
| Naive.DropLast | accumulator/src/naive.rs:58-76 | a sub-multiset of a list, less its last element if present, is a sub-multiset of the rest |
| Naive.TakeLast | accumulator/src/naive.rs:58-76 | a combination of the rest picking m less the last element, extended by the last index, picks m |
| Naive.SubMultisetPicked | accumulator/src/naive.rs:58-76 | every sub-multiset of the received list is picked by some combination of its size |
| Naive.HonestListAccepted | accumulator/src/naive.rs:58-76 | when the log is a sub-multiset of the received list and shorter than the count modulus, some combination of total() indexes has the log's digest |
| Naive.ListedAreIndexSets | accumulator/src/naive.rs:60-61 | every listed combination is a k-combination of 0..n |
| Naive.NoneListedNoneMatch | accumulator/src/naive.rs:60-75 | if no listed combination matches, no k-combination at all matches |
| Naive.DigestOfPick | accumulator/src/naive.rs:62-67 | the inner loop gives a fresh digest of the picked elements |
| Naive.NaiveAccumulator.constructor | accumulator/src/naive.rs:26-30 | a new accumulator holds an empty digest with the given nonce |
| Naive.NaiveAccumulator.Process | accumulator/src/naive.rs:38-40 | process appends the element to the digest's log |
| Naive.NaiveAccumulator.ProcessBatch | accumulator/src/naive.rs:42-46 | process_batch appends the batch in order |
| Naive.NaiveAccumulator.Total | accumulator/src/naive.rs:48-50 | the total is the digest's count, the number processed modulo the count modulus |
| Naive.NaiveAccumulator.Matches | accumulator/src/naive.rs:62-70 | one combination matches exactly when its picked elements have the logged digest |
| Naive.NaiveAccumulator.Validate | accumulator/src/naive.rs:58-76 | validate is true exactly when some combination of total() received indexes has the logged digest, and false when fewer elements arrived than the total |
| SubsetTest.CountIsMultiplicity | accumulator/src/TestProgram.cpp:36-38 | a count-table entry is the value's multiplicity in the list |
| SubsetTest.CountAppend | accumulator/src/TestProgram.cpp:38 | counts add up over concatenation |
| SubsetTest.AbsentCountZero | accumulator/src/TestProgram.cpp:40 | a value absent from the list counts 0, as a missing map key reads |
| SubsetTest.IncludedIffSubMultiset | accumulator/src/TestProgram.cpp:34-43 | inclusion by counts is multiset inclusion |
| SubsetTest.CountAll | accumulator/src/TestProgram.cpp:37-38 | the counting loop fills a map whose every entry is the value's count |
| SubsetTest.IsSubset | accumulator/src/TestProgram.cpp:34-43 | is_subset is true exactly when every value occurs in b at least as often as in a |
| SubsetTest.EmptyAndSelfIncluded | accumulator/src/TestProgram.cpp:39-42 | the empty list is included in any list, and every list in itself |
| SubsetTest.IncludedOrderFree | accumulator/src/TestProgram.cpp:36-38 | reordering either list does not change the answer |
| SubsetTest.IncludedGrow | accumulator/src/TestProgram.cpp:38-42 | appending to b never turns true into false |
| BenchmarkTable.JoinNewLine | graphs/main.py:10 | joining with an extra empty line adds one newline |
| BenchmarkTable.JoinExtendLast | graphs/main.py:10 | extending the last line extends the joined text |
| BenchmarkTable.SplitLines | graphs/main.py:10 | splitting on newlines gives at least one line, none holding a newline, and joining them restores the text |
| BenchmarkTable.SkipSpaces | graphs/main.py:24 | skipping leading whitespace leaves a suffix that starts with a non-space |
| BenchmarkTable.SkippedAreSpaces | graphs/main.py:24 | everything skipped is whitespace |
| BenchmarkTable.WordAt | graphs/main.py:24 | the word at the front is no longer than the text and non-empty when the text starts with a non-space |
| BenchmarkTable.WordAtShape | graphs/main.py:24 | the word is a prefix without whitespace |
| BenchmarkTable.WordsShape | graphs/main.py:24 | split() yields non-empty words without whitespace |
| BenchmarkTable.WordsEmptyIff | graphs/main.py:24 | split() is empty exactly when the text is all whitespace |
| BenchmarkTable.Decimal | graphs/main.py:24 | the decimal rendering of a natural is all digits |
| BenchmarkTable.DecimalValue | graphs/main.py:24 | the digits of the decimal rendering read back as the number |
| BenchmarkTable.ParseIntDecimal | graphs/main.py:24 | int() reads a decimal rendering, with an optional sign, back as the number |
| BenchmarkTable.ContainsFirst | graphs/main.py:20-22 | a substring match places the word's first character in the line |
| BenchmarkTable.MarkerHasWord | graphs/main.py:22-24 | a line containing bits has a first word |
| BenchmarkTable.KeyOf | graphs/main.py:22-24 | a key is read only from a marker line |
| BenchmarkTable.RunCons | graphs/main.py:19-30 | the scan processes the first line and then the rest |
| BenchmarkTable.RunAppend | graphs/main.py:19-30 | scanning a + b is scanning a and then b, stopping at the first error |
| BenchmarkTable.SkippedPrefix | graphs/main.py:20-21 | a prefix of empty or time lines changes nothing |
| BenchmarkTable.SkippedLineIgnored | graphs/main.py:20-21 | removing an empty or time line anywhere does not change the result |
| BenchmarkTable.AllSkippedEmpty | graphs/main.py:8-32 | a file of only skipped lines, or an empty file, gives the empty table |
| BenchmarkTable.DataBeforeMarkerFails | graphs/main.py:27-30 | a data line before any marker fails, where xs is still None |
| BenchmarkTable.StepOk | graphs/main.py:19-30 | one line succeeds exactly when its tokens parse and a data line has an open section; a marker opens a section |
| BenchmarkTable.RunOkIff | graphs/main.py:19-30 | the scan succeeds exactly when the lines are well formed |
| BenchmarkTable.ParseOkIff | graphs/main.py:4-32 | parse_data succeeds exactly when every marker and data line parses and no data line precedes the first marker |
| BenchmarkTable.StepKeys | graphs/main.py:22-26 | a marker line adds its key to the table once sealed |
| BenchmarkTable.RunKeys | graphs/main.py:15-31 | after a run the table's keys are the earlier keys and the markers' keys |
| BenchmarkTable.KeysAreMarkers | graphs/main.py:4-32 | the keys of the result are exactly the numbers of the marker lines |
| BenchmarkTable.StepAligned | graphs/main.py:27-30 | a data line appends to xs and ys together |
| BenchmarkTable.RunAligned | graphs/main.py:19-30 | xs and ys keep equal length over a run |
| BenchmarkTable.SectionsAligned | graphs/main.py:4-32 | in every section of the result the X and Y lists have equal length |
| BenchmarkTable.StepData | graphs/main.py:27-30 | a data line appends its first and second numbers to the open section |
| BenchmarkTable.StepMarker | graphs/main.py:22-26 | a marker line seals the open section and opens an empty one under its key |
| BenchmarkTable.BodyAppends | graphs/main.py:27-30 | the data lines after a marker append their pairs in order |
| BenchmarkTable.StepKeeps | graphs/main.py:15-17 | a line that is not k's marker leaves a sealed section k alone |
| BenchmarkTable.KeyKept | graphs/main.py:15-17 | lines without k's marker keep a sealed section k |
| BenchmarkTable.SectionContents | graphs/main.py:4-32 | when a marker for k is followed by data lines and then by no other marker for k, section k holds exactly those lines' pairs |
| BenchmarkTable.ParseData | graphs/main.py:4-32 | the loop over the lines returns the parse function of the split text |
| Montgomery.Invert | montgomery-multiplication-demo/preprocess.py:6 | the two reduced results lie below b and below a |
| Montgomery.InvertInverts | montgomery-multiplication-demo/preprocess.py:6 | when a and b are coprime, the two results are a's inverse modulo b and b's inverse modulo a |
| Montgomery.NegatedInverse | montgomery-multiplication-demo/preprocess.py:7 | r minus an inverse of n is its negation: n · (r − v) leaves r − 1 |
| Montgomery.Coprime | montgomery-multiplication-demo/preprocess.py:4-5 | N is odd, equals R − 25, and shares no factor with R |
| Montgomery.RadixIsPowerOfTwo | montgomery-multiplication-demo/preprocess.py:5 | R is 2^63 |
| Montgomery.ConstantsHold | montgomery-multiplication-demo/preprocess.py:9-11 | the three asserted identities: R · RInv ≡ 1 mod N, N · NInv ≡ 1 mod R, N · NPrime ≡ R − 1 mod R |

## Left out

- I/O, command-line drivers, packet capture, benchmark programs, timing, logging, printing and plotting (`plot_graph`, `plot_legend`, the prints of preprocess.py) are not modelled: they do not bear on the computed values.
- The tokio tasks of `calculate_power_sums` are not modelled; only its sequential meaning is.
- The external solvers are not modelled: the GLPK integer program (`CbfAccumulator.Stage.SolveIlp` and the `SolveIlp` outcome of `IbltAccumulator`) and the PARI root finder (`LegacyAccumulator` outcome `FindRoots`). Each stops at the solver's input, and a solver's answer is a parameter of `Conclude`.
- The legacy accumulator's collision resolution after the root finder (accumulator/src/power_sum.rs:371-475) depends on the root finder's output and is not modelled.
- `decode_by_factorization`, the FFI layer, `src/riblt/sketch.rs` (every method unimplemented), and the cfg-gated U16 and U64 power-sum variants are not modelled.
- The inner accessors `threshold`, `count`, `last_value`, `psum_inner` and `iblt_inner` of the wrapper are not separate members: the model reads the fields of the power sum arm directly.
- The IBLT arm of the wrapper carries no state, because the Rust IBLT quACK it wraps is unimplemented.
- Hashers are parameters, as are hash keys and random nonces: SipHash, `RandomState`, the djb hash behind `elem_to_u32`, `Digest::new` and the per-combination nonces of the naive accumulator. Elements are u32 identifiers rather than `BigUint`.
- The floating-point parts are parameters: the f64 step of the rateless mapping (a gap of at least 1), and the Bloom sizing from a false-positive rate (`needed_bits`, `optimal_num_hashes`).
- The serde and bincode glue, the derived `PartialEq` of the naive accumulator and its byte encoding are not modelled. The `unsafe` byte copies of `serialize` are modelled as a little-endian encoding.
- The `crt` module is not part of this model. `Montgomery.Invert` stands for `crt.invert` as one extended-Euclid run, reduced on each side.
- That the moduli are prime (4294967029 and the C++ template moduli) is taken as an `IsPrime` precondition rather than proved.
- Python `int()` accepts underscores and non-ASCII digits; the parser model accepts only ASCII decimal digits with an optional sign. The file read is replaced by its text as a parameter.
- The `ModularInteger` compound operators are modelled as functions returning the new value rather than as in-place assignment.
- The `is_subset` template is modelled for any element type with equality.
- `HashFn`'s bitwise or is written as a sum, which is the same value for a u32 operand.
- `RibltDecoder.Decoder.IsDecoded` is a predicate without a contract of its own.
- LegacyPowerSum.DivAndMod: requires both arguments positive. A zero argument makes the source divide by zero; see Findings.
- LegacyPowerSum.ComputePolynomialCoefficients: where the source negates a zero entry at an odd position it produces P rather than 0. The model writes 0, which is the same field element.
- LegacyPowerSum.ComputePolynomialCoefficients: a zero Newton residue gives a zero entry through `NextE`, where the source divides by zero (Findings row 1). LegacyAccumulator.PowerSumAccumulator.SolveMissing and LegacyAccumulator.PowerSumAccumulator.Validate inherit this: where the source panics, they return coefficients.
- BloomCbf.CountingBloomFilter.Insert: requires every hashed counter below the maximum value; this precondition stands for the overflow panic.
- IbltAccumulator.IBLTAccumulator.Validate: the `Panicked` outcome stands for the asserts of accumulator/src/iblt.rs:187, 209 and 211.
- IbltAccumulator.IBLTAccumulator.Validate: it compares cells and peels with the corrected data difference `IbltTable.DataDiff` (Findings row 3), not the source's `(u32::MAX - received) + processed`. Where processed < received, the source stores one less. So a peeled key can differ by one from the source's. With equal counts, data 0 against 0xFFFFFFFF passes in the source and rejects in the model.
- IbltAccumulator.Subtract: it stores the corrected data difference `IbltTable.DataDiff`, which is one more than the source's value whenever processed < received (Findings row 3). The as-written value is `IbltTable.DataDiffAsWritten`.
- CbfAccumulator.CBFAccumulator.Conclude: it rechecks the digest with the corrected `AccumulatorLib.CheckDigest` (Findings row 2), where accumulator/src/cbf.rs:158 calls `check_digest` as written. The as-written verdict is `CbfAccumulator.CBFAccumulator.ConcludeAsWritten`. The two differ, for example, on received [5, 5] and log [5] with one 5 picked: the model accepts and the source rejects.
- RibltMapping.NextIndex: the step is at least 1. In the source, the floating-point step is 0 for a PRNG output r within about 2^12 of 2^64: r + 1 rounds to 2^64 as a double, and ceil(0.0) is 0. For r = 2^64 - 1, r + 1 overflows. The model excludes those outputs, and so RibltMapping.IndicesAscend and the decoder's mapping loop rely on the step being at least 1.
- PowerSumQuack.PowerSumQuackU32.Serialize: requires the buffer to hold 8 + 4·threshold bytes from the start. In the source, a buffer shorter than 8 bytes panics on slicing. The unchecked copy overruns one shorter than 8 + 4·threshold, which is undefined behaviour. PowerSumQuack.PowerSumQuackU32.SerializeWithHint has the same requirement with min(threshold, num_missing) sums.
- PowerSumQuack.Deserialize: requires at least 8 bytes; a shorter buffer makes the length subtraction underflow, and the slicing panics.
- QuackLib.Serialize: requires room for the tag byte and the inner encoding; the source panics or overruns the buffer otherwise. QuackLib.Deserialize requires at least 9 bytes, for the same reason.
- BloomIblt.InvBloomLookupTable.Equals: requires a positive bits-per-entry, because the source divides the bit length by it.
- QuackLib.Deserialize: requires tag 0. Tag 1 would reach the unimplemented IBLT quACK, and any other tag panics.
- QuackLib.Insert: requires the power sum arm, because the IBLT arm's insert is unimplemented; the same holds for QuackLib.Remove, QuackLib.Sub and QuackLib.Serialize.
- PowerSumQuack.PowerSumQuackU32.Serialize: requires a last value; None panics in the source. The same holds for PowerSumQuack.PowerSumQuackU32.SerializeWithHint.
- PowerSumQuack.PowerSumQuackU32.ToCoeffs: requires count at most the threshold; a larger count panics in the source.
- PowerSumQuack.PowerSumQuackU32.Insert: requires a threshold of at least 1, because the source indexes entry threshold − 1. The same holds for PowerSumQuack.PowerSumQuackU32.Remove.
- LegacyAccumulator.PowerSumAccumulator.Reset: takes the new digest nonce as a parameter; the source draws it at random.
- Digests.AdditiveMsetHash.constructor: the nonce is a parameter.

## Findings

| source | as written | input that shows it | evidently intended | confidence | as-written member | corrected member |
|---|---|---|---|---|---|---|
| accumulator/src/power_sum.rs:175-188 | `compute_polynomial_coefficients` calls `div_and_mod` on the residue of a Newton partial sum. When that residue is 0, the gcd loop of `div_and_mod` divides by zero. | missing identifiers 2147483647 and 2147483382, whose first power sum is 4294967029 ≡ 0 | a zero numerator gives coefficient 0 | not executed | LegacyPowerSum.MissingPairDividesByZero | LegacyPowerSum.LegacyCoeffsCorrect |
| accumulator/src/lib.rs:36-45 | a dropped-count entry with count c suppresses c + 1 occurrences, because an entry at 0 is removed and its occurrence is still skipped | received [5, 5], with 5 dropped once and log [5]: the honest log is rejected | each key with count c suppresses exactly c occurrences | not executed | AccumulatorLib.AsWrittenRejectsHonestLog | AccumulatorLib.HonestDropsPass |
| accumulator/src/iblt.rs:150-156 | when processed < received, the data difference is `(u32::MAX - received) + processed` | processed 0, received 1: the result is 0xFFFFFFFE, where wrapping subtraction gives 0xFFFFFFFF | wrapping subtraction modulo 2^32 | not executed | IbltTable.DataDiffAsWrittenOffByOne | IbltTable.DataDiffInverts |
