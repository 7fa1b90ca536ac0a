/** Power sums and Newton's identities modulo m, as every quACK in the
  * repository computes them: the coefficient recursion shared by
  * src/power_sum.rs and both PowerSumAccumulator.hpp copies, the power-sum
  * updates made by insert, remove and subtraction, and what the resulting
  * polynomial says about the missing elements. */
module PowerSumMod {
  import opened ModArith
  import opened PowerSumMath

  // ---------------------------------------------------------------------
  // Power-sum updates

  /** Adds x^(i+1) to entry i of the power sums, reducing modulo m. */
  function AddPowers(s: seq<int>, x: int, m: int): seq<int>
    requires m > 0
  {
    seq(|s|, i requires 0 <= i < |s| => (s[i] + Pow(x, i + 1)) % m)
  }

  /** Subtracts x^(i+1) from entry i of the power sums, reducing modulo m. */
  function SubPowers(s: seq<int>, x: int, m: int): seq<int>
    requires m > 0
  {
    seq(|s|, i requires 0 <= i < |s| => (s[i] - Pow(x, i + 1)) % m)
  }

  /** Entry-wise difference of two power-sum vectors over their common prefix. */
  function SubSums(a: seq<int>, b: seq<int>, m: int): seq<int>
    requires m > 0
  {
    var n := if |a| <= |b| then |a| else |b|;
    seq(n, i requires 0 <= i < n => (a[i] - b[i]) % m)
  }

  /** Every entry is a residue modulo m. */
  predicate Residues(s: seq<int>, m: int)
  {
    forall i :: 0 <= i < |s| ==> 0 <= s[i] < m
  }

  /** Inserting x into X moves the power sums of X to those of X + [x]. */
  lemma AddPowersSums(X: seq<int>, x: int, t: nat, m: int)
    requires m > 0
    ensures AddPowers(PowerSumsMod(X, t, m), x, m) == PowerSumsMod(X + [x], t, m)
  {
    forall i | 0 <= i < t
      ensures AddPowers(PowerSumsMod(X, t, m), x, m)[i] == PowerSumsMod(X + [x], t, m)[i]
    {
      PowerSumAppend(X, [x], i + 1);
      assert PowerSum([x], i + 1) == Pow(x, i + 1) by {
        assert [x][1..] == [];
      }
      ModMod(PowerSum(X, i + 1), m);
      CongAdd(PowerSum(X, i + 1) % m, Pow(x, i + 1), PowerSum(X, i + 1), Pow(x, i + 1), m);
    }
  }

  /** Removing x undoes inserting it, entry by entry. */
  lemma SubPowersAddPowers(s: seq<int>, x: int, m: int)
    requires m > 0 && Residues(s, m)
    ensures SubPowers(AddPowers(s, x, m), x, m) == s
  {
    forall i | 0 <= i < |s|
      ensures SubPowers(AddPowers(s, x, m), x, m)[i] == s[i]
    {
      var y := Pow(x, i + 1);
      ModMod(s[i] + y, m);
      CongSub((s[i] + y) % m, y, s[i] + y, y, m);
      ModSmall(s[i], m);
    }
  }

  /** Removing x from X + [x] gives back the power sums of X. */
  lemma SubPowersSums(X: seq<int>, x: int, t: nat, m: int)
    requires m > 0
    ensures SubPowers(PowerSumsMod(X + [x], t, m), x, m) == PowerSumsMod(X, t, m)
  {
    AddPowersSums(X, x, t, m);
    SubPowersAddPowers(PowerSumsMod(X, t, m), x, m);
  }

  /** Subtracting the power sums of a sub-multiset B of A leaves the power
    * sums of the difference D, over the shorter of the two vectors. */
  lemma SubSumsDifference(A: seq<int>, B: seq<int>, D: seq<int>, ta: nat, tb: nat, m: int)
    requires m > 0 && multiset(A) == multiset(B) + multiset(D)
    ensures SubSums(PowerSumsMod(A, ta, m), PowerSumsMod(B, tb, m), m)
         == PowerSumsMod(D, if ta <= tb then ta else tb, m)
  {
    var t := if ta <= tb then ta else tb;
    forall i | 0 <= i < t
      ensures SubSums(PowerSumsMod(A, ta, m), PowerSumsMod(B, tb, m), m)[i]
           == PowerSumsMod(D, t, m)[i]
    {
      PowerSumDifference(A, B, D, i + 1);
      ModMod(PowerSum(A, i + 1), m);
      ModMod(PowerSum(B, i + 1), m);
      CongSub(PowerSum(A, i + 1) % m, PowerSum(B, i + 1) % m, PowerSum(A, i + 1), PowerSum(B, i + 1), m);
    }
  }

  // ---------------------------------------------------------------------
  // Newton's identities modulo m

  /** Sum over l < j of p[l] * c[|c| - 1 - l]: the inner loop of the
    * coefficient recursion for coefficient |c|. */
  function Convolution(p: seq<int>, c: seq<int>, j: nat): int
    requires j <= |p| && j <= |c|
  {
    if j == 0 then 0 else Convolution(p, c, j - 1) + p[j - 1] * c[|c| - j]
  }

  /** The coefficients the source computes from power sums p and the inverse
    * table inv, starting from the caller's entries init: entry 0 is -p[0] and
    * entry i >= 1 is (init[i] - sum of p[j] * c[i-j-1] over j < i - p[i]) * inv[i],
    * all modulo m. Every caller except one passes zeros for init. */
  function NewtonCoeffs(init: seq<int>, p: seq<int>, inv: seq<int>, m: int): (c: seq<int>)
    requires m > 0 && |init| <= |p| && |init| <= |inv|
    ensures |c| == |init| && Residues(c, m)
  {
    if |init| == 0 then []
    else
      var prev := NewtonCoeffs(init[..|init| - 1], p, inv, m);
      var i := |init| - 1;
      prev + [if i == 0 then (-p[0]) % m
              else ((init[i] - Convolution(p, prev, i) - p[i]) * inv[i]) % m]
  }

  /** The first coefficient is -p[0]. */
  lemma NewtonFirst(p: seq<int>, inv: seq<int>, m: int)
    requires m > 0 && 1 <= |p| && 1 <= |inv|
    ensures NewtonCoeffs(Zeros(1), p, inv, m) == [(-p[0]) % m]
  {
    assert Zeros(1)[..0] == [];
  }

  /** The coefficients of one prefix of init are a prefix of the coefficients. */
  lemma {:induction false} NewtonCoeffsPrefix(init: seq<int>, p: seq<int>, inv: seq<int>, m: int, n: nat)
    requires m > 0 && |init| <= |p| && |init| <= |inv| && n <= |init|
    ensures NewtonCoeffs(init[..n], p, inv, m) == NewtonCoeffs(init, p, inv, m)[..n]
    decreases |init|
  {
    if n < |init| {
      assert init[..|init| - 1][..n] == init[..n];
      NewtonCoeffsPrefix(init[..|init| - 1], p, inv, m, n);
    } else {
      assert init[..n] == init;
    }
  }

  /** The inverse table holds (i+1)^-1 modulo m at every index from 1 on. */
  predicate InverseTable(inv: seq<int>, m: int, n: nat)
    requires m > 0
  {
    n <= |inv| && forall i :: 1 <= i < n ==> (inv[i] * (i + 1)) % m == 1
  }

  /** p holds the first n power sums of X, up to congruence modulo m. */
  predicate SumsOf(p: seq<int>, X: seq<int>, m: int, n: nat)
    requires m > 0
  {
    n <= |p| && forall j :: 0 <= j < n ==> p[j] % m == PowerSum(X, j + 1) % m
  }

  /** c holds the first |c| signed elementary symmetric polynomials of X,
    * up to congruence modulo m. */
  predicate CoeffsOf(c: seq<int>, X: seq<int>, m: int)
    requires m > 0
  {
    forall i :: 0 <= i < |c| ==> c[i] % m == Elementary(X, i + 1) % m
  }

  /** The inner sum agrees, modulo m, with the matching Newton sum. */
  lemma {:induction false} ConvolutionCong(X: seq<int>, p: seq<int>, c: seq<int>, m: int, j: nat)
    requires m > 0 && j <= |c| && SumsOf(p, X, m, j) && CoeffsOf(c, X, m)
    ensures Convolution(p, c, j) % m == NewtonSum(X, |c| + 1, j) % m
  {
    if j > 0 {
      ConvolutionCong(X, p, c, m, j - 1);
      CongMul(p[j - 1], c[|c| - j], PowerSum(X, j), Elementary(X, |c| + 1 - j), m);
      CongAdd(Convolution(p, c, j - 1), p[j - 1] * c[|c| - j],
              NewtonSum(X, |c| + 1, j - 1), Elementary(X, |c| + 1 - j) * PowerSum(X, j), m);
    }
  }

  /** The source's recursion computes the signed elementary symmetric
    * polynomials of X whenever p holds X's power sums, the inverse table is
    * right and the caller's entries are zero. */
  lemma {:induction false} NewtonCoeffsCorrect(X: seq<int>, init: seq<int>, p: seq<int>, inv: seq<int>, m: int)
    requires m > 1 && |init| <= |p|
    requires SumsOf(p, X, m, |init|) && InverseTable(inv, m, |init|)
    requires forall i :: 1 <= i < |init| ==> init[i] % m == 0
    ensures CoeffsOf(NewtonCoeffs(init, p, inv, m), X, m)
    decreases |init|
  {
    if |init| > 0 {
      var i := |init| - 1;
      var init' := init[..i];
      assert SumsOf(p, X, m, i) && InverseTable(inv, m, i);
      assert forall j :: 1 <= j < i ==> init'[j] % m == 0;
      NewtonCoeffsCorrect(X, init', p, inv, m);
      NewtonLastCoeff(X, init, p, inv, m);
      var prev := NewtonCoeffs(init', p, inv, m);
      var c := NewtonCoeffs(init, p, inv, m);
      assert c == prev + [c[i]];
      forall k | 0 <= k <= i
        ensures c[k] % m == Elementary(X, k + 1) % m
      {
        if k < i {
          assert c[k] == prev[k];
        }
      }
    }
  }

  /** The step of NewtonCoeffsCorrect for the last coefficient. */
  lemma NewtonLastCoeff(X: seq<int>, init: seq<int>, p: seq<int>, inv: seq<int>, m: int)
    requires m > 1 && 1 <= |init| <= |p|
    requires SumsOf(p, X, m, |init|) && InverseTable(inv, m, |init|)
    requires forall i :: 1 <= i < |init| ==> init[i] % m == 0
    requires CoeffsOf(NewtonCoeffs(init[..|init| - 1], p, inv, m), X, m)
    ensures NewtonCoeffs(init, p, inv, m)[|init| - 1] % m == Elementary(X, |init|) % m
  {
    if |init| == 1 {
      NewtonFirstCoeff(X, init, p, inv, m);
    } else {
      NewtonLaterCoeff(X, init, p, inv, m);
    }
  }

  /** The first coefficient, -p[0], is minus the first power sum: the first
    * elementary symmetric polynomial with its sign. */
  lemma NewtonFirstCoeff(X: seq<int>, init: seq<int>, p: seq<int>, inv: seq<int>, m: int)
    requires m > 1 && |init| == 1 <= |p| && 1 <= |inv| && SumsOf(p, X, m, 1)
    ensures NewtonCoeffs(init, p, inv, m)[0] % m == Elementary(X, 1) % m
  {
    assert init[..0] == [];
    var c0 := NewtonCoeffs(init, p, inv, m)[0];
    assert c0 == (-p[0]) % m;
    var e, ps := Elementary(X, 1), PowerSum(X, 1);
    Newton(X, 1);
    assert Elementary(X, 0) == 1;
    assert NewtonSum(X, 1, 1) == ps;
    assert -1 * e == -e;
    assert e == -ps;
    CongSub(0, p[0], 0, PowerSum(X, 1), m);
    ModMod(-p[0], m);
    assert c0 % m == (-p[0]) % m;
  }

  /** NewtonLastCoeff past the first coefficient: the recursion's step is
    * Newton's identity modulo m. */
  lemma NewtonLaterCoeff(X: seq<int>, init: seq<int>, p: seq<int>, inv: seq<int>, m: int)
    requires m > 1 && 2 <= |init| <= |p|
    requires SumsOf(p, X, m, |init|) && InverseTable(inv, m, |init|)
    requires forall i :: 1 <= i < |init| ==> init[i] % m == 0
    requires CoeffsOf(NewtonCoeffs(init[..|init| - 1], p, inv, m), X, m)
    ensures NewtonCoeffs(init, p, inv, m)[|init| - 1] % m == Elementary(X, |init|) % m
  {
    var i := |init| - 1;
    var prev := NewtonCoeffs(init[..i], p, inv, m);
    var c := NewtonCoeffs(init, p, inv, m);
    var e := Elementary(X, i + 1);
    Newton(X, i + 1);
    ConvolutionCong(X, p, prev, m, i);
    var conv := Convolution(p, prev, i);
    var ns, ps := NewtonSum(X, i + 1, i), PowerSum(X, i + 1);
    assert Elementary(X, 0) == 1;
    assert NewtonSum(X, i + 1, i + 1) == ns + ps;
    NegateProduct(ns + ps, i + 1, e);
    NewtonStepMod(init[i], conv, p[i], inv[i], ns, ps, e, i, m);
    assert c[i] == ((init[i] - conv - p[i]) * inv[i]) % m;
    ModMod((init[i] - conv - p[i]) * inv[i], m);
  }

  /** Moving the sign of a product: s == -k * e means -s == k * e. */
  lemma NegateProduct(s: int, k: int, e: int)
    requires s == -k * e
    ensures -s == k * e
  {
  }

  /** One step of the recursion, modulo m: with a zero caller entry, the
    * convolution congruent to the Newton sum and p_i congruent to the power
    * sum, the new coefficient is congruent to e. */
  lemma NewtonStepMod(init: int, conv: int, p: int, inv: int, ns: int, ps: int, e: int, i: nat, m: int)
    requires m > 1 && init % m == 0 && conv % m == ns % m && p % m == ps % m
    requires (inv * (i + 1)) % m == 1 && -(ns + ps) == (i + 1) * e
    ensures ((init - conv - p) * inv) % m == e % m
  {
    CongSub(init, conv, 0, ns, m);
    CongSub(init - conv, p, -ns, ps, m);
    MulByInverse(init - conv - p, e, inv, i + 1, m);
  }

  /** Multiplying a residue congruent to k * e by an inverse of k leaves e. */
  lemma MulByInverse(a: int, e: int, inv: int, k: int, m: int)
    requires m > 1 && a % m == (k * e) % m && (inv * k) % m == 1
    ensures (a * inv) % m == e % m
  {
    CongMul(a, inv, k * e, inv, m);
    assert k * e * inv == e * (inv * k);
    CongMul(e, inv * k, e, 1, m);
  }

  /** The all-zero entries every caller but one starts from. */
  function Zeros(n: nat): seq<int>
  {
    seq(n, i => 0)
  }

  /** NewtonCoeffsCorrect for the all-zero caller entries. */
  lemma NewtonCoeffsOfZeros(X: seq<int>, n: nat, p: seq<int>, inv: seq<int>, m: int)
    requires m > 1 && n <= |p| && SumsOf(p, X, m, n) && InverseTable(inv, m, n)
    ensures CoeffsOf(NewtonCoeffs(Zeros(n), p, inv, m), X, m)
  {
    forall i | 1 <= i < n
      ensures Zeros(n)[i] % m == 0
    {
      ModSmall(0, m);
    }
    NewtonCoeffsCorrect(X, Zeros(n), p, inv, m);
  }

  /** A nonzero caller entry at index 1 makes the second coefficient wrong:
    * the preallocated form is only correct on zeroed entries. */
  lemma NonzeroInitBreaksCoeffs(X: seq<int>, init: seq<int>, p: seq<int>, inv: seq<int>, m: int)
    requires IsPrime(m) && 2 <= |init| <= |p|
    requires SumsOf(p, X, m, |init|) && InverseTable(inv, m, |init|)
    requires init[1] % m != 0
    ensures NewtonCoeffs(init, p, inv, m)[1] != Elementary(X, 2) % m
  {
    var w := SecondCoeff(X, init, p, inv, m);
    ShiftedProductDiffers(init[1], w, inv[1], m);
  }

  /** The second coefficient from init is ((init[1] + w) * inv[1]) % m, where
    * (w * inv[1]) % m is the one from zeros, congruent to Elementary(X, 2). */
  lemma SecondCoeff(X: seq<int>, init: seq<int>, p: seq<int>, inv: seq<int>, m: int) returns (w: int)
    requires m > 1 && 2 <= |init| <= |p|
    requires SumsOf(p, X, m, |init|) && InverseTable(inv, m, |init|)
    ensures NewtonCoeffs(init, p, inv, m)[1] == ((init[1] + w) * inv[1]) % m
    ensures Elementary(X, 2) % m == (w * inv[1]) % m
  {
    NewtonCoeffsPrefix(init, p, inv, m, 2);
    var c := NewtonCoeffs(init[..2], p, inv, m);
    assert NewtonCoeffs(init, p, inv, m)[1] == c[1];
    assert init[..2][..1] == [init[0]];
    assert [0, 0][..1] == [0];
    var c0 := NewtonCoeffs([init[0]], p, inv, m);
    assert c0 == NewtonCoeffs([0], p, inv, m);
    var conv := Convolution(p, c0, 1);
    w := 0 - conv - p[1];
    assert c == c0 + [((init[1] - conv - p[1]) * inv[1]) % m];
    var good := NewtonCoeffs([0, 0], p, inv, m);
    assert good == c0 + [(w * inv[1]) % m];
    assert SumsOf(p, X, m, 2);
    assert InverseTable(inv, m, 2);
    assert 0 % m == 0;
    NewtonCoeffsCorrect(X, [0, 0], p, inv, m);
    assert good[1] % m == Elementary(X, 2) % m;
    ModMod(w * inv[1], m);
    assert init[1] - conv - p[1] == init[1] + w;
  }

  /** Modulo a prime, adding a non-multiple d to w changes w * inv when inv
    * is the inverse of 2. */
  lemma ShiftedProductDiffers(d: int, w: int, inv: int, m: int)
    requires IsPrime(m) && d % m != 0 && (inv * 2) % m == 1
    ensures ((d + w) * inv) % m != (w * inv) % m
  {
    if ((d + w) * inv) % m == (w * inv) % m {
      assert (d + w) * inv - w * inv == d * inv;
      ModSub((d + w) * inv, w * inv, m);
      ModSmall(0, m);
      EuclidLemma(d, inv, m);
      CongMul(inv, 2, 0, 2, m);
      assert false;
    }
  }

  // ---------------------------------------------------------------------
  // Roots of the polynomial modulo m

  /** Congruent coefficients and congruent points give congruent values. */
  lemma {:induction false} MonicValueCong(c: seq<int>, d: seq<int>, x: int, y: int, m: int)
    requires m > 0 && |c| == |d| && x % m == y % m
    requires forall i :: 0 <= i < |c| ==> c[i] % m == d[i] % m
    ensures MonicValue(c, x) % m == MonicValue(d, y) % m
  {
    if |c| > 0 {
      var n := |c| - 1;
      MonicValueCong(c[..n], d[..n], x, y, m);
      CongMul(MonicValue(c[..n], x), x, MonicValue(d[..n], y), y, m);
      CongAdd(MonicValue(c[..n], x) * x, c[n], MonicValue(d[..n], y) * y, d[n], m);
    }
  }

  /** Every element of X is a root, modulo m, of the polynomial whose
    * coefficients are congruent to X's signed elementary symmetric
    * polynomials, as long as there are at least |X| coefficients. */
  lemma DecodeRoot(X: seq<int>, c: seq<int>, m: int, x: int)
    requires m > 0 && |c| >= |X| && CoeffsOf(c, X, m) && x in X
    ensures MonicValue(c, x) % m == 0
  {
    CoeffsOfValue(X, c, m, x);
    MonicRoot(X, |c|, x);
  }

  /** Coefficients congruent to X's give the value of X's own polynomial. */
  lemma CoeffsOfValue(X: seq<int>, c: seq<int>, m: int, x: int)
    requires m > 0 && CoeffsOf(c, X, m)
    ensures MonicValue(c, x) % m == MonicValue(ElementaryCoeffs(X, |c|), x) % m
  {
    var d := ElementaryCoeffs(X, |c|);
    forall i | 0 <= i < |c|
      ensures c[i] % m == d[i] % m
    {
    }
    MonicValueCong(c, d, x, x, m);
  }

  /** Modulo a prime, a product vanishes exactly when one factor does. */
  lemma {:induction false} ProductZeroMod(X: seq<int>, x: int, m: int)
    requires IsPrime(m)
    ensures Product(X, x) % m == 0 <==> exists i :: 0 <= i < |X| && (x - X[i]) % m == 0
  {
    if |X| == 0 {
      ModSmall(1, m);
    } else {
      ProductZeroMod(X[1..], x, m);
      if Product(X, x) % m == 0 {
        EuclidLemma(x - X[0], Product(X[1..], x), m);
        if (x - X[0]) % m != 0 {
          var i :| 0 <= i < |X[1..]| && (x - X[1..][i]) % m == 0;
          assert (x - X[i + 1]) % m == 0;
        }
      }
      if exists i :: 0 <= i < |X| && (x - X[i]) % m == 0 {
        var i :| 0 <= i < |X| && (x - X[i]) % m == 0;
        if i == 0 {
          CongMul(x - X[0], Product(X[1..], x), 0, Product(X[1..], x), m);
        } else {
          assert (x - X[1..][i - 1]) % m == 0;
          CongMul(x - X[0], Product(X[1..], x), x - X[0], 0, m);
        }
      }
    }
  }

  /** Decoding is exact modulo a prime: with exactly |X| coefficients
    * congruent to X's, x is a root iff x is congruent to an element of X. */
  lemma DecodeExact(X: seq<int>, c: seq<int>, m: int, x: int)
    requires IsPrime(m) && |c| == |X| && CoeffsOf(c, X, m)
    ensures MonicValue(c, x) % m == 0 <==> exists i :: 0 <= i < |X| && (x - X[i]) % m == 0
  {
    CoeffsOfValue(X, c, m, x);
    MonicFactor(X, |c|, x);
    assert Pow(x, 0) == 1;
    ProductZeroMod(X, x, m);
  }

  // ---------------------------------------------------------------------
  // One step of the in-place coefficient loops

  /** The inner loop subtracts p[j] * c[|c|-1-j], reduced, from an accumulator
    * congruent to init - Convolution(p, c, j); afterwards it is congruent to
    * init - Convolution(p, c, j + 1). */
  lemma ConvolutionStepMod(init: int, acc: int, p: seq<int>, c: seq<int>, j: nat, m: int, pj: int, cj: int)
    requires m > 0 && j < |p| && j < |c| && pj == p[j] && cj == c[|c| - 1 - j]
    requires acc == (init - Convolution(p, c, j)) % m
    ensures (acc - (pj * cj) % m) % m == (init - Convolution(p, c, j + 1)) % m
  {
    var q := pj * cj;
    ModMod(q, m);
    ModMod(init - Convolution(p, c, j), m);
    CongSub(acc, q % m, init - Convolution(p, c, j), q, m);
  }

  /** Appending the completed entry i extends the coefficients computed from
    * i zeros to those computed from i + 1 zeros. */
  lemma NewtonExtend(p: seq<int>, inv: seq<int>, m: int, i: nat, prev: seq<int>, last: int)
    requires m > 0 && 1 <= i < |p| && i < |inv|
    requires prev == NewtonCoeffs(Zeros(i), p, inv, m)
    requires last == ((0 - Convolution(p, prev, i) - p[i]) * inv[i]) % m
    ensures prev + [last] == NewtonCoeffs(Zeros(i + 1), p, inv, m)
  {
    assert Zeros(i + 1)[..i] == Zeros(i);
  }

  /** The end of one outer iteration of the coefficient loops: from an
    * accumulator congruent to init_i - Convolution, subtracting p[i] and
    * multiplying by inv[i] gives the next coefficient. */
  lemma NewtonEntryStep(p: seq<int>, inv: seq<int>, m: int, i: nat, done: seq<int>,
                        acc: int, a: int, b: int, c: int)
    requires m > 0 && 1 <= i < |p| && i < |inv|
    requires done == NewtonCoeffs(Zeros(i), p, inv, m)
    requires acc == (0 - Convolution(p, done, i)) % m
    requires a == (acc - p[i]) % m && b == inv[i] && c == (a * b) % m
    ensures done + [c] == NewtonCoeffs(Zeros(i + 1), p, inv, m)
  {
    ModMod(0 - Convolution(p, done, i), m);
    NewtonFinishMod(0, acc, Convolution(p, done, i), p[i], inv[i], m);
    NewtonExtend(p, inv, m, i, done, c);
  }

  /** The coefficients from n zeros begin with those from i <= n zeros. */
  lemma NewtonZerosPrefix(p: seq<int>, inv: seq<int>, m: int, n: nat, i: nat)
    requires m > 0 && n <= |p| && n <= |inv| && i <= n
    ensures NewtonCoeffs(Zeros(n), p, inv, m)[..i] == NewtonCoeffs(Zeros(i), p, inv, m)
  {
    NewtonCoeffsPrefix(Zeros(n), p, inv, m, i);
    assert Zeros(n)[..i] == Zeros(i);
  }

  /** Entry i of the coefficients from n zeros, computed from the entries
    * before it as the outer loop does. */
  lemma NewtonEntryAt(p: seq<int>, inv: seq<int>, m: int, n: nat, i: nat, N: seq<int>,
                      acc: int, a: int, b: int, c: int)
    requires m > 0 && 1 <= i < n <= |p| && n <= |inv|
    requires N == NewtonCoeffs(Zeros(n), p, inv, m)
    requires acc == (0 - Convolution(p, N[..i], i)) % m
    requires a == (acc - p[i]) % m && b == inv[i] && c == (a * b) % m
    ensures c == N[i]
  {
    NewtonZerosPrefix(p, inv, m, n, i);
    NewtonEntryStep(p, inv, m, i, N[..i], acc, a, b, c);
    NewtonZerosPrefix(p, inv, m, n, i + 1);
    assert N[i] == N[..i + 1][i];
  }

  /** Subtracting p and multiplying by the inverse entry completes the entry. */
  lemma NewtonFinishMod(init: int, acc: int, conv: int, p: int, inv: int, m: int)
    requires m > 0 && acc % m == (init - conv) % m
    ensures (((acc - p) % m) * inv) % m == ((init - conv - p) * inv) % m
  {
    CongSub(acc, p, init - conv, p, m);
    ModMod(acc - p, m);
    CongMul((acc - p) % m, inv, init - conv - p, inv, m);
  }

  // ---------------------------------------------------------------------
  // Trailing zero coefficients

  /** The last r entries of c are zero and, when r < |c|, the one before is not:
    * r is the length of the final run of zeros. */
  predicate ZeroRun(c: seq<int>, r: int)
  {
    0 <= r <= |c|
    && (forall j :: |c| - r <= j < |c| ==> c[j] == 0)
    && (r < |c| ==> c[|c| - 1 - r] != 0)
  }

  /** Coefficient residues of a multiset X of size below |c| end in at least
    * |c| - |X| zeros, because the elementary symmetric polynomials vanish
    * beyond |X|. */
  lemma CoeffsTrailingZeros(X: seq<int>, c: seq<int>, m: int, r: int)
    requires m > 0 && Residues(c, m) && CoeffsOf(c, X, m) && |X| <= |c| && ZeroRun(c, r)
    ensures r >= |c| - |X|
  {
    CoeffsBeyondZero(X, c, m);
  }

  // ---------------------------------------------------------------------
  // One step of the insert and remove loops

  /** Multiplying the residue of v^k by the residue of v gives the residue of v^(k+1). */
  lemma PowerStepMod(y: int, x: int, v: int, k: nat, m: int)
    requires m > 0 && y == Pow(v, k) % m && x == v % m
    ensures (y * x) % m == Pow(v, k + 1) % m
  {
    ModMod(Pow(v, k), m);
    ModMod(v, m);
    CongMul(y, x, Pow(v, k), v, m);
    assert Pow(v, k + 1) == Pow(v, k) * v;
  }

  /** Adding the residue of v^k is adding v^k, modulo m. */
  lemma AddPowerMod(s: int, y: int, v: int, k: nat, m: int)
    requires m > 0 && y == Pow(v, k) % m
    ensures (s + y) % m == (s + Pow(v, k)) % m
  {
    ModMod(Pow(v, k), m);
    CongAdd(s, y, s, Pow(v, k), m);
  }

  /** Subtracting the residue of v^k is subtracting v^k, modulo m. */
  lemma SubPowerMod(s: int, y: int, v: int, k: nat, m: int)
    requires m > 0 && y == Pow(v, k) % m
    ensures (s - y) % m == (s - Pow(v, k)) % m
  {
    ModMod(Pow(v, k), m);
    CongSub(s, y, s, Pow(v, k), m);
  }

  // ---------------------------------------------------------------------
  // Decoding with more coefficients than missing elements

  /** Powers of a value that is not a multiple of the prime m are not either. */
  lemma {:induction false} PowNonzeroMod(x: int, r: nat, m: int)
    requires IsPrime(m) && x % m != 0
    ensures Pow(x, r) % m != 0
  {
    if r == 0 {
      ModSmall(1, m);
    } else {
      PowNonzeroMod(x, r - 1, m);
      if Pow(x, r) % m == 0 {
        EuclidLemma(x, Pow(x, r - 1), m);
      }
    }
  }

  /** With more coefficients than elements, every value that is not a multiple
    * of the prime m is a root exactly when it is congruent to an element of X. */
  lemma DecodeNonzero(X: seq<int>, c: seq<int>, m: int, x: int)
    requires IsPrime(m) && |X| <= |c| && Residues(c, m) && CoeffsOf(c, X, m) && x % m != 0
    ensures MonicValue(c, x) % m == 0 <==> exists i :: 0 <= i < |X| && (x - X[i]) % m == 0
  {
    var r := |c| - |X|;
    var d := c[..|X|];
    CoeffsBeyondZero(X, c, m);
    MonicTrailingZeros(c, r, x);
    assert MonicValue(d, x) % m == 0 <==> exists i :: 0 <= i < |X| && (x - X[i]) % m == 0 by {
      assert CoeffsOf(d, X, m);
      DecodeExact(X, d, m, x);
    }
    PowNonzeroMod(x, r, m);
    ProductFactorMod(Pow(x, r), MonicValue(d, x), m);
  }

  /** The coefficients beyond |X| are zero. */
  lemma CoeffsBeyondZero(X: seq<int>, c: seq<int>, m: int)
    requires m > 0 && Residues(c, m) && CoeffsOf(c, X, m)
    ensures forall j :: |X| <= j < |c| ==> c[j] == 0
  {
    forall j | |X| <= j < |c|
      ensures c[j] == 0
    {
      ElementaryBeyond(X, j + 1);
      ModSmall(c[j], m);
    }
  }

  /** A factor that is not a multiple of the prime m cancels from p * v == 0. */
  lemma ProductFactorMod(p: int, v: int, m: int)
    requires IsPrime(m) && p % m != 0
    ensures (p * v) % m == 0 <==> v % m == 0
  {
    if v % m == 0 {
      CongMul(p, v, p, 0, m);
    }
    if (p * v) % m == 0 {
      EuclidLemma(p, v, m);
    }
  }

  /** With more coefficients than elements the last coefficient is zero, so 0
    * is a root whether or not X holds it. */
  lemma ZeroIsSpuriousRoot(X: seq<int>, c: seq<int>, m: int)
    requires m > 0 && |X| < |c| && Residues(c, m) && CoeffsOf(c, X, m)
    ensures MonicValue(c, 0) % m == 0
  {
    ElementaryBeyond(X, |c|);
    ModSmall(c[|c| - 1], m);
    ModSmall(0, m);
  }

  /** The reduced power sums of X are its power sums up to congruence. */
  lemma ReducedSumsOf(X: seq<int>, n: nat, m: int)
    requires m > 0
    ensures SumsOf(PowerSumsMod(X, n, m), X, m, n)
  {
    forall j | 0 <= j < n
      ensures PowerSumsMod(X, n, m)[j] % m == PowerSum(X, j + 1) % m
    {
      ModMod(PowerSum(X, j + 1), m);
    }
  }

  /** The decode of a difference: with a prime modulus, the coefficients
    * computed from zeros, |D| entries long, out of the difference of the power
    * sums of A and of B, where A is B plus the multiset D, vanish at x exactly
    * when x is congruent to an element of D. */
  lemma DifferenceDecodes(A: seq<int>, B: seq<int>, D: seq<int>, m: int, size: nat, inv: seq<int>, x: int)
    requires IsPrime(m) && |D| <= size && InverseTable(inv, m, |D|)
    requires multiset(A) == multiset(B) + multiset(D)
    ensures
      var diff := SubSums(PowerSumsMod(A, size, m), PowerSumsMod(B, size, m), m);
      var c := NewtonCoeffs(Zeros(|D|), diff, inv, m);
      MonicValue(c, x) % m == 0 <==> exists i :: 0 <= i < |D| && (x - D[i]) % m == 0
  {
    var n := |D|;
    var diff := SubSums(PowerSumsMod(A, size, m), PowerSumsMod(B, size, m), m);
    assert SumsOf(diff, D, m, n) by {
      SubSumsDifference(A, B, D, size, size, m);
      ReducedSumsOf(D, size, m);
    }
    NewtonCoeffsOfZeros(D, n, diff, inv, m);
    DecodeExact(D, NewtonCoeffs(Zeros(n), diff, inv, m), m, x);
  }
}
