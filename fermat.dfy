/** Fermat's little theorem, through the binomial theorem: the reason the
  * C++ ModularInteger may invert by raising to the power MODULUS - 2. */
module Fermat {
  import opened ModArith

  /** Binomial coefficient n choose k, by Pascal's rule. */
  function Binomial(n: nat, k: int): nat
  {
    if k < 0 then 0
    else if k == 0 then 1
    else if n == 0 then 0
    else Binomial(n - 1, k - 1) + Binomial(n - 1, k)
  }

  /** Sum over k < j of Binomial(n, k) * a^k. */
  function BinomialSum(n: nat, a: int, j: nat): int
  {
    if j == 0 then 0 else BinomialSum(n, a, j - 1) + Binomial(n, j - 1) * Pow(a, j - 1)
  }

  lemma {:induction false} BinomialBeyond(n: nat, k: int)
    requires k > n
    ensures Binomial(n, k) == 0
  {
    if n > 0 {
      BinomialBeyond(n - 1, k - 1);
      BinomialBeyond(n - 1, k);
    }
  }

  lemma {:induction false} BinomialAll(n: nat)
    ensures Binomial(n, n) == 1
  {
    if n > 0 {
      BinomialAll(n - 1);
      BinomialBeyond(n - 1, n);
    }
  }

  /** Absorption: k * (n choose k) == n * ((n-1) choose (k-1)). */
  lemma {:induction false} BinomialAbsorb(n: nat, k: int)
    requires n >= 1
    ensures k * Binomial(n, k) == n * Binomial(n - 1, k - 1)
  {
    if k > 0 {
      if n == 1 {
        if k > 1 {
          BinomialBeyond(0, k - 1);
          BinomialBeyond(1, k);
        }
      } else {
        BinomialAbsorb(n - 1, k - 1);
        BinomialAbsorb(n - 1, k);
        AbsorbStep(n, k, Binomial(n, k), Binomial(n - 1, k - 1), Binomial(n - 1, k),
                   Binomial(n - 2, k - 2), Binomial(n - 2, k - 1));
      }
    }
  }

  /** The ring identity behind one step of BinomialAbsorb. */
  lemma AbsorbStep(n: int, k: int, b: int, b1: int, b2: int, c1: int, c2: int)
    requires b == b1 + b2 && b1 == c1 + c2
    requires (k - 1) * b1 == (n - 1) * c1 && k * b2 == (n - 1) * c2
    ensures k * b == n * b1
  {
    calc {
      k * b;
      k * b1 + k * b2;
      (k - 1) * b1 + b1 + (n - 1) * c2;
      (n - 1) * c1 + b1 + (n - 1) * c2;
      (n - 1) * b1 + b1;
    }
  }

  /** Pascal's rule lifted to the partial sums. */
  lemma {:induction false} BinomialSumStep(n: nat, a: int, j: nat)
    ensures BinomialSum(n + 1, a, j + 1) == a * BinomialSum(n, a, j) + BinomialSum(n, a, j + 1)
  {
    if j > 0 {
      BinomialSumStep(n, a, j - 1);
      var c1, c2 := Binomial(n, j - 1), Binomial(n, j);
      assert Binomial(n + 1, j) == c1 + c2;
      assert Pow(a, j) == a * Pow(a, j - 1);
      SumStep(BinomialSum(n + 1, a, j), BinomialSum(n, a, j - 1), BinomialSum(n, a, j),
              a, c1, c2, Pow(a, j), Pow(a, j - 1));
    }
  }

  /** The ring identity behind one step of BinomialSumStep. */
  lemma SumStep(l: int, s1: int, s: int, a: int, c1: int, c2: int, pj: int, pj1: int)
    requires l == a * s1 + s && pj == a * pj1
    ensures l + (c1 + c2) * pj == a * (s1 + c1 * pj1) + (s + c2 * pj)
  {
    assert (c1 + c2) * pj == c1 * (a * pj1) + c2 * pj;
    assert a * (s1 + c1 * pj1) == a * s1 + a * c1 * pj1;
  }

  /** The binomial theorem for (a + 1)^n. */
  lemma {:induction false} BinomialTheorem(n: nat, a: int)
    ensures Pow(a + 1, n) == BinomialSum(n, a, n + 1)
  {
    if n > 0 {
      var t := BinomialSum(n - 1, a, n);
      assert Pow(a + 1, n) == (a + 1) * t by {
        BinomialTheorem(n - 1, a);
      }
      assert BinomialSum(n - 1, a, n + 1) == t by {
        BinomialBeyond(n - 1, n);
      }
      BinomialSumStep(n - 1, a, n);
      assert (a + 1) * t == a * t + t;
    }
  }

  /** A prime divides every binomial coefficient (m choose k) with 0 < k < m. */
  lemma PrimeDividesBinomial(m: nat, k: int)
    requires IsPrime(m) && 0 < k < m
    ensures Binomial(m, k) % m == 0
  {
    BinomialAbsorb(m, k);
    MultipleMod(Binomial(m - 1, k - 1), m);
    EuclidLemma(k, Binomial(m, k), m);
    ModSmall(k, m);
  }

  /** Modulo a prime m only the first term of the partial sums survives below m. */
  lemma BinomialSumMod(m: nat, a: int, j: nat)
    requires IsPrime(m) && 1 <= j <= m
    ensures BinomialSum(m, a, j) % m == 1
  {
    forall k | 0 < k < m
      ensures Binomial(m, k) % m == 0
    {
      PrimeDividesBinomial(m, k);
    }
    MiddleTermsVanish(m, a, j);
  }

  lemma {:induction false} MiddleTermsVanish(m: nat, a: int, j: nat)
    requires m > 1 && 1 <= j <= m
    requires forall k :: 0 < k < m ==> Binomial(m, k) % m == 0
    ensures BinomialSum(m, a, j) % m == 1
  {
    if j == 1 {
      assert BinomialSum(m, a, 1) == Binomial(m, 0) * Pow(a, 0);
      ModSmall(1, m);
    } else {
      MiddleTermsVanish(m, a, j - 1);
      var b, p := Binomial(m, j - 1), Pow(a, j - 1);
      assert b % m == 0;
      CongMul(b, p, 0, p, m);
      CongAdd(BinomialSum(m, a, j - 1), b * p, 1, 0, m);
    }
  }

  /** (a + 1)^m == a^m + 1 modulo a prime m. */
  lemma FreshmanDream(m: nat, a: int)
    requires IsPrime(m)
    ensures Pow(a + 1, m) % m == (Pow(a, m) + 1) % m
  {
    BinomialTheorem(m, a);
    BinomialSumMod(m, a, m);
    BinomialAll(m);
    CongAdd(BinomialSum(m, a, m), Pow(a, m), 1, Pow(a, m), m);
  }

  /** a^m == a modulo a prime m, for every natural a. */
  lemma {:induction false} FermatNat(m: nat, a: nat)
    requires IsPrime(m)
    ensures Pow(a, m) % m == a % m
  {
    if a == 0 {
      PowZero(m);
    } else {
      FermatNat(m, a - 1);
      FreshmanDream(m, a - 1);
      CongAdd(Pow(a - 1, m), 1, a - 1, 1, m);
    }
  }

  /** Fermat's little theorem in the form the inverse needs: for a not a
    * multiple of the prime m, a^(m-2) * a == 1 modulo m. */
  lemma FermatInverse(m: nat, a: int)
    requires IsPrime(m) && a % m != 0
    ensures (Pow(a, m - 2) * a) % m == 1
  {
    var r := a % m;
    FermatNat(m, r);
    ModSmall(r, m);
    ModSub(Pow(r, m), r, m);
    ModSmall(0, m);
    FermatCancel(r, m);
    PowAdd(r, m - 2, 1);
    assert Pow(r, m - 1) == Pow(r, m - 2) * r;
    PowMod(a, m - 2, m);
    ModMod(a, m);
    CongMul(Pow(a, m - 2), a, Pow(r, m - 2), r, m);
  }

  /** Cancels r from r^m == r to get r^(m-1) == 1, through Euclid's lemma. */
  lemma FermatCancel(r: int, m: nat)
    requires IsPrime(m) && 0 < r < m && (Pow(r, m) - r) % m == 0
    ensures Pow(r, m - 1) % m == 1
  {
    var s := Pow(r, m - 1);
    PowAdd(r, m - 1, 1);
    assert Pow(r, m) == s * r;
    assert Pow(r, m) - r == r * (s - 1);
    EuclidLemma(r, s - 1, m);
    ModSmall(r, m);
    assert s - 1 == m * ((s - 1) / m);
    ModAddMultiple((s - 1) / m, 1, m);
    ModSmall(1, m);
  }
}
