/** The mathematics behind every power-sum quACK in the repository, over the
  * integers: power sums of a multiset of identifiers, the coefficients of the
  * monic polynomial whose roots are those identifiers, Newton's identities
  * relating the two, and the factorisation that makes every identifier a root. */
module PowerSumMath {
  import opened ModArith

  /** Sum of a^t over the elements a of X. */
  function PowerSum(X: seq<int>, t: nat): int
  {
    if |X| == 0 then 0 else Pow(X[0], t) + PowerSum(X[1..], t)
  }

  /** The first t power sums of X (exponents 1..t), reduced modulo m. */
  function PowerSumsMod(X: seq<int>, t: nat, m: int): seq<int>
    requires m > 0
  {
    seq(t, i requires 0 <= i < t => PowerSum(X, i + 1) % m)
  }

  /** Coefficient of x^(|X|-k) in the product of (x - a) over a in X, i.e. the
    * k-th elementary symmetric polynomial of X with sign (-1)^k. */
  function Elementary(X: seq<int>, k: int): int
  {
    if k == 0 then 1
    else if k < 0 || |X| == 0 then 0
    else Elementary(X[1..], k) - X[0] * Elementary(X[1..], k - 1)
  }

  /** Coefficients 1..n of that polynomial, leading 1 omitted. */
  function ElementaryCoeffs(X: seq<int>, n: nat): seq<int>
  {
    seq(n, i requires 0 <= i < n => Elementary(X, i + 1))
  }

  /** Product of (x - a) over the elements a of X. */
  function Product(X: seq<int>, x: int): int
  {
    if |X| == 0 then 1 else (x - X[0]) * Product(X[1..], x)
  }

  /** Value at x of the monic polynomial x^n + c[0] x^(n-1) + ... + c[n-1]
    * with n = |c|, written as Horner's rule over a growing prefix. */
  function MonicValue(c: seq<int>, x: int): int
  {
    if |c| == 0 then 1 else MonicValue(c[..|c| - 1], x) * x + c[|c| - 1]
  }

  /** Sum over u = 1..t of Elementary(X, k - u) * PowerSum(X, u): the terms of
    * Newton's identity for index k. */
  function NewtonSum(X: seq<int>, k: int, t: nat): int
  {
    if t == 0 then 0 else NewtonSum(X, k, t - 1) + Elementary(X, k - t) * PowerSum(X, t)
  }

  // ---------------------------------------------------------------------
  // Power sums

  lemma {:induction false} PowerSumAppend(X: seq<int>, Y: seq<int>, t: nat)
    ensures PowerSum(X + Y, t) == PowerSum(X, t) + PowerSum(Y, t)
  {
    if |X| > 0 {
      assert (X + Y)[1..] == X[1..] + Y;
      PowerSumAppend(X[1..], Y, t);
    } else {
      assert X + Y == Y;
    }
  }

  /** A power sum depends only on the multiset of elements, not on their order. */
  lemma {:induction false} PowerSumMultiset(X: seq<int>, Y: seq<int>, t: nat)
    requires multiset(X) == multiset(Y)
    ensures PowerSum(X, t) == PowerSum(Y, t)
  {
    if |X| > 0 {
      assert X[0] in multiset(Y);
      var j :| 0 <= j < |Y| && Y[j] == X[0];
      var Z := Y[..j] + Y[j + 1..];
      assert multiset(X[1..]) == multiset(Z) by {
        RemoveAtMultiset(X, 0);
        assert X[..0] + X[1..] == X[1..];
        RemoveAtMultiset(Y, j);
      }
      PowerSumMultiset(X[1..], Z, t);
      PowerSumRemoveAt(Y, j, t);
    } else {
      assert |Y| == 0;
    }
  }

  /** Deleting the element at j removes one copy of it from the multiset. */
  lemma RemoveAtMultiset(Y: seq<int>, j: nat)
    requires j < |Y|
    ensures multiset(Y[..j] + Y[j + 1..]) == multiset(Y) - multiset{Y[j]}
  {
    assert Y == Y[..j] + [Y[j]] + Y[j + 1..];
    assert multiset(Y) == multiset(Y[..j]) + multiset{Y[j]} + multiset(Y[j + 1..]);
  }

  /** Deleting the element at j removes its term from the power sum. */
  lemma PowerSumRemoveAt(Y: seq<int>, j: nat, t: nat)
    requires j < |Y|
    ensures PowerSum(Y, t) == PowerSum(Y[..j] + Y[j + 1..], t) + Pow(Y[j], t)
  {
    assert Y == Y[..j] + [Y[j]] + Y[j + 1..];
    PowerSumAppend(Y[..j] + [Y[j]], Y[j + 1..], t);
    PowerSumAppend(Y[..j], [Y[j]], t);
    PowerSumAppend(Y[..j], Y[j + 1..], t);
    assert PowerSum([Y[j]], t) == Pow(Y[j], t) by {
      assert [Y[j]][1..] == [];
    }
  }

  /** Removing a sub-multiset B from A subtracts its power sums: this is what
    * makes the difference of two quACKs the quACK of the missing elements. */
  lemma PowerSumDifference(A: seq<int>, B: seq<int>, D: seq<int>, t: nat)
    requires multiset(A) == multiset(B) + multiset(D)
    ensures PowerSum(A, t) - PowerSum(B, t) == PowerSum(D, t)
  {
    assert multiset(B + D) == multiset(B) + multiset(D);
    PowerSumMultiset(A, B + D, t);
    PowerSumAppend(B, D, t);
  }

  // ---------------------------------------------------------------------
  // Newton's identities

  /** Expanding the first element of X in Elementary, for every k. */
  lemma ElementaryCons(X: seq<int>, k: int)
    requires |X| > 0
    ensures Elementary(X, k) == Elementary(X[1..], k) - X[0] * Elementary(X[1..], k - 1)
  {
  }

  /** Elementary symmetric polynomials beyond the size of X vanish. */
  lemma {:induction false} ElementaryBeyond(X: seq<int>, k: int)
    requires k > |X|
    ensures Elementary(X, k) == 0
  {
    if |X| > 0 {
      ElementaryBeyond(X[1..], k);
      ElementaryBeyond(X[1..], k - 1);
    }
  }

  lemma {:induction false} NewtonSumEmpty(X: seq<int>, k: int, t: nat)
    requires |X| == 0
    ensures NewtonSum(X, k, t) == 0
  {
    if t > 0 {
      NewtonSumEmpty(X, k, t - 1);
    }
  }

  /** The Newton sum of X splits into sums over X[1..] plus a telescoping
    * remainder in the first element. */
  lemma {:induction false} NewtonSumSplit(X: seq<int>, k: int, t: nat)
    requires |X| > 0
    ensures NewtonSum(X, k, t)
         == NewtonSum(X[1..], k, t) - X[0] * NewtonSum(X[1..], k - 1, t)
            + X[0] * Elementary(X[1..], k - 1)
            - Elementary(X[1..], k - 1 - t) * Pow(X[0], t + 1)
  {
    var a, R := X[0], X[1..];
    if t > 0 {
      NewtonSumSplit(X, k, t - 1);
      ElementaryCons(X, k - t);
      var e1, e2 := Elementary(R, k - t), Elementary(R, k - t - 1);
      var pa, pr := Pow(a, t), PowerSum(R, t);
      SplitStep(NewtonSum(X, k, t), NewtonSum(X, k, t - 1), Elementary(X, k - t), PowerSum(X, t),
                NewtonSum(R, k, t), NewtonSum(R, k, t - 1), NewtonSum(R, k - 1, t), NewtonSum(R, k - 1, t - 1),
                Elementary(R, k - 1), a, e1, e2, pa, pr, Pow(a, t + 1));
    }
  }

  /** The ring identity behind one step of NewtonSumSplit. */
  lemma SplitStep(l: int, l0: int, ex: int, px: int, nr: int, nr0: int, nr1: int, nr10: int,
                  e: int, a: int, e1: int, e2: int, pa: int, pr: int, pa1: int)
    requires l == l0 + ex * px && ex == e1 - a * e2 && px == pa + pr
    requires nr == nr0 + e1 * pr && nr1 == nr10 + e2 * pr && pa1 == a * pa
    requires l0 == nr0 - a * nr10 + a * e - e1 * pa
    ensures l == nr - a * nr1 + a * e - e2 * pa1
  {
    assert ex * px == e1 * pa + e1 * pr - a * e2 * pa - a * e2 * pr;
    assert a * nr1 == a * nr10 + a * e2 * pr;
  }

  /** Newton's identity: k * e_k == -(sum over u = 1..k of e_(k-u) * p_u), in
    * signed form, for every k >= 1 and every sequence X. */
  lemma {:induction false} Newton(X: seq<int>, k: int)
    requires k >= 1
    ensures NewtonSum(X, k, k) == -k * Elementary(X, k)
  {
    if |X| == 0 {
      NewtonSumEmpty(X, k, k);
    } else {
      var a, R := X[0], X[1..];
      NewtonSumSplit(X, k, k);
      Newton(R, k);
      assert NewtonSum(R, k - 1, k) == NewtonSum(R, k - 1, k - 1);
      if k > 1 {
        Newton(R, k - 1);
      }
      ElementaryCons(X, k);
      NewtonStep(NewtonSum(X, k, k), NewtonSum(R, k, k), NewtonSum(R, k - 1, k),
                 Elementary(R, k), Elementary(R, k - 1), Elementary(X, k),
                 Elementary(R, -1) * Pow(a, k + 1), a, k);
    }
  }

  /** The ring identity behind one step of Newton. */
  lemma NewtonStep(ns: int, nsR: int, nsR1: int, eR: int, eR1: int, e: int, z: int, a: int, k: int)
    requires ns == nsR - a * nsR1 + a * eR1 - z && z == 0
    requires nsR == -k * eR && nsR1 == -(k - 1) * eR1 && e == eR - a * eR1
    ensures ns == -k * e
  {
    assert a * nsR1 == -(k - 1) * (a * eR1);
    assert -k * e == -k * eR + k * (a * eR1);
  }

  // ---------------------------------------------------------------------
  // The monic polynomial and its roots

  lemma MonicValueStep(c: seq<int>, d: int, x: int)
    ensures MonicValue(c + [d], x) == MonicValue(c, x) * x + d
  {
    assert (c + [d])[..|c|] == c;
  }

  lemma {:induction false} MonicValueZeros(n: nat, x: int)
    ensures MonicValue(seq(n, i => 0), x) == Pow(x, n)
  {
    if n > 0 {
      assert seq(n, i => 0)[..n - 1] == seq(n - 1, i => 0);
      MonicValueZeros(n - 1, x);
    }
  }

  /** Expanding the first element of X in the polynomial's value. */
  lemma {:induction false} MonicCons(X: seq<int>, n: nat, x: int)
    requires |X| > 0 && n >= 1
    ensures MonicValue(ElementaryCoeffs(X, n), x)
         == MonicValue(ElementaryCoeffs(X[1..], n), x)
            - X[0] * MonicValue(ElementaryCoeffs(X[1..], n - 1), x)
  {
    var a, R := X[0], X[1..];
    ElementaryCons(X, n);
    assert ElementaryCoeffs(X, n)[..n - 1] == ElementaryCoeffs(X, n - 1);
    assert ElementaryCoeffs(R, n)[..n - 1] == ElementaryCoeffs(R, n - 1);
    if n == 1 {
      assert ElementaryCoeffs(R, 0) == [];
    } else {
      MonicCons(X, n - 1, x);
      assert ElementaryCoeffs(R, n - 1)[..n - 2] == ElementaryCoeffs(R, n - 2);
      var u, v := MonicValue(ElementaryCoeffs(R, n - 1), x), MonicValue(ElementaryCoeffs(R, n - 2), x);
      ConsStep(MonicValue(ElementaryCoeffs(X, n - 1), x), u, v, a, x, Elementary(R, n), Elementary(R, n - 1));
    }
  }

  /** The ring identity behind one step of MonicCons. */
  lemma ConsStep(l: int, u: int, v: int, a: int, x: int, en: int, en1: int)
    requires l == u - a * v
    ensures l * x + (en - a * en1) == (u * x + en) - a * (v * x + en1)
  {
    assert (u - a * v) * x == u * x - a * v * x;
    assert a * (v * x + en1) == a * v * x + a * en1;
  }

  /** For n >= |X| the polynomial with coefficients e_1..e_n factors as
    * x^(n - |X|) times the product of (x - a) over a in X. */
  lemma {:induction false} MonicFactor(X: seq<int>, n: nat, x: int)
    requires n >= |X|
    ensures MonicValue(ElementaryCoeffs(X, n), x) == Pow(x, n - |X|) * Product(X, x)
  {
    if |X| == 0 {
      assert ElementaryCoeffs(X, n) == seq(n, i => 0);
      MonicValueZeros(n, x);
    } else {
      var a, R := X[0], X[1..];
      MonicCons(X, n, x);
      assert ElementaryCoeffs(R, n)[..n - 1] == ElementaryCoeffs(R, n - 1);
      ElementaryBeyond(R, n);
      MonicFactor(R, n - 1, x);
      var w := MonicValue(ElementaryCoeffs(R, n - 1), x);
      FactorStep(w, x, a, Pow(x, n - |X|), Product(R, x));
    }
  }

  /** The ring identity behind one step of MonicFactor. */
  lemma FactorStep(w: int, x: int, a: int, p: int, q: int)
    requires w == p * q
    ensures w * x - a * w == p * ((x - a) * q)
  {
    assert w * x - a * w == (x - a) * w;
  }

  /** Every element of X is a root of the product. */
  lemma {:induction false} ProductRoot(X: seq<int>, x: int)
    requires x in X
    ensures Product(X, x) == 0
  {
    if X[0] != x {
      ProductRoot(X[1..], x);
    }
  }

  /** Every element of X is a root of the monic polynomial built from its
    * elementary symmetric polynomials, whenever at least |X| coefficients are used. */
  lemma MonicRoot(X: seq<int>, n: nat, x: int)
    requires n >= |X| && x in X
    ensures MonicValue(ElementaryCoeffs(X, n), x) == 0
  {
    MonicFactor(X, n, x);
    ProductRoot(X, x);
  }

  /** Sum over i < k of c[i] * x^(n-1-i): the lower terms of the monic
    * polynomial of degree n, as a table-driven evaluation adds them up. */
  function TermSum(c: seq<int>, x: int, k: nat, n: nat): int
    requires k <= |c| && k <= n
  {
    if k == 0 then 0 else TermSum(c, x, k - 1, n) + c[k - 1] * Pow(x, n - k)
  }

  /** Raising the degree by one multiplies every term by x. */
  lemma {:induction false} TermSumShift(c: seq<int>, x: int, k: nat, n: nat)
    requires k <= |c| && k <= n
    ensures TermSum(c, x, k, n + 1) == x * TermSum(c, x, k, n)
  {
    if k > 0 {
      TermSumShift(c, x, k - 1, n);
      assert Pow(x, n + 1 - k) == x * Pow(x, n - k);
    }
  }

  /** Only the first k coefficients take part in TermSum(_, _, k, _). */
  lemma {:induction false} TermSumPrefix(c: seq<int>, d: seq<int>, x: int, k: nat, n: nat)
    requires k <= |c| && k <= |d| && k <= n && c[..k] == d[..k]
    ensures TermSum(c, x, k, n) == TermSum(d, x, k, n)
  {
    if k > 0 {
      assert c[k - 1] == c[..k][k - 1] == d[..k][k - 1] == d[k - 1];
      assert c[..k - 1] == d[..k - 1];
      TermSumPrefix(c, d, x, k - 1, n);
    }
  }

  /** Horner's value of the monic polynomial equals its expanded form
    * x^n + sum of c[i] * x^(n-1-i). */
  lemma {:induction false} MonicExpanded(c: seq<int>, x: int)
    ensures MonicValue(c, x) == Pow(x, |c|) + TermSum(c, x, |c|, |c|)
  {
    var n := |c|;
    if n > 0 {
      var d := c[..n - 1];
      MonicExpanded(d, x);
      TermSumShift(d, x, n - 1, n - 1);
      assert d[..n - 1] == c[..n - 1];
      TermSumPrefix(d, c, x, n - 1, n);
      assert Pow(x, 0) == 1;
      ExpandStep(MonicValue(c, x), MonicValue(d, x), Pow(x, n - 1), Pow(x, n),
                 TermSum(d, x, n - 1, n - 1), TermSum(c, x, n - 1, n), TermSum(c, x, n, n), c[n - 1], x);
    }
  }

  /** The ring identity behind one step of MonicExpanded. */
  lemma ExpandStep(v: int, vd: int, px1: int, px: int, td: int, tc1: int, tc: int, cl: int, x: int)
    requires v == vd * x + cl && vd == px1 + td && tc1 == x * td
    requires tc == tc1 + cl && px == x * px1
    ensures v == px + tc
  {
    assert vd * x == px1 * x + td * x;
  }

  /** A run of r zero coefficients at the end contributes the factor x^r. */
  lemma {:induction false} MonicTrailingZeros(c: seq<int>, r: nat, x: int)
    requires r <= |c| && forall j :: |c| - r <= j < |c| ==> c[j] == 0
    ensures MonicValue(c, x) == Pow(x, r) * MonicValue(c[..|c| - r], x)
  {
    var n := |c|;
    if r == 0 {
      assert c[..n] == c;
    } else {
      var d := c[..n - 1];
      MonicTrailingZeros(d, r - 1, x);
      assert d[..|d| - (r - 1)] == c[..n - r];
      var v := MonicValue(c[..n - r], x);
      calc {
        MonicValue(c, x);
        MonicValue(d, x) * x;
        (Pow(x, r - 1) * v) * x;
        (x * Pow(x, r - 1)) * v;
      }
    }
  }
}
