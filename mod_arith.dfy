/** Integer and modular arithmetic shared by every power-sum model: powers,
  * residues, greatest common divisors, Bezout coefficients and primality. */
module ModArith {

  /** a raised to the k-th power over the integers. */
  function Pow(a: int, k: nat): int
  {
    if k == 0 then 1 else a * Pow(a, k - 1)
  }

  /** m is prime: at least 2 and without a divisor strictly between 1 and m. */
  ghost predicate IsPrime(m: int)
  {
    m >= 2 && forall d :: 2 <= d < m ==> m % d != 0
  }

  /** Euclid's greatest common divisor on naturals. */
  function Gcd(a: nat, b: nat): nat
    decreases b
  {
    if b == 0 then a else Gcd(b, a % b)
  }

  // ---------------------------------------------------------------------
  // Division with remainder

  /** Quotient and remainder are unique: any decomposition x == m*q + s with
    * 0 <= s < m is the one Dafny's % and / compute. */
  lemma DivModUnique(x: int, m: int, q: int, s: int)
    requires m > 0 && 0 <= s < m && x == m * q + s
    ensures x % m == s && x / m == q
  {
    var d := x / m - q;
    assert m * (x / m) + x % m == x;
    assert m * d == s - x % m;
    MulBounds(m, d);
  }

  /** Sign bounds of a product with a positive factor. */
  lemma MulBounds(m: int, d: int)
    requires m > 0
    ensures d >= 1 ==> m * d >= m
    ensures d <= 0 ==> m * d <= 0
    ensures d <= -1 ==> m * d <= -m
  {
    if d >= 1 {
      assert m * d == m * (d - 1) + m;
    } else if d <= -1 {
      assert m * d == m * (d + 1) - m;
    }
  }

  /** Adding a multiple of m does not change the residue. */
  lemma ModAddMultiple(k: int, r: int, m: int)
    requires m > 0
    ensures (m * k + r) % m == r % m
  {
    var q, s := r / m, r % m;
    assert r == m * q + s;
    assert m * k + r == m * (k + q) + s by {
      assert m * (k + q) == m * k + m * q;
    }
    DivModUnique(m * k + r, m, k + q, s);
  }

  /** Residues of a sum. */
  lemma ModAdd(a: int, b: int, m: int)
    requires m > 0
    ensures (a + b) % m == (a % m + b % m) % m
  {
    var qa, ra, qb, rb := a / m, a % m, b / m, b % m;
    assert a == m * qa + ra && b == m * qb + rb;
    assert a + b == m * (qa + qb) + (ra + rb) by {
      assert m * (qa + qb) == m * qa + m * qb;
    }
    ModAddMultiple(qa + qb, ra + rb, m);
  }

  /** Residues of a difference. */
  lemma ModSub(a: int, b: int, m: int)
    requires m > 0
    ensures (a - b) % m == (a % m - b % m) % m
  {
    var qa, ra, qb, rb := a / m, a % m, b / m, b % m;
    assert a == m * qa + ra && b == m * qb + rb;
    assert a - b == m * (qa - qb) + (ra - rb) by {
      assert m * (qa - qb) == m * qa - m * qb;
    }
    ModAddMultiple(qa - qb, ra - rb, m);
  }

  /** Residues of a product. */
  lemma ModMul(a: int, b: int, m: int)
    requires m > 0
    ensures (a * b) % m == ((a % m) * (b % m)) % m
  {
    var qa, ra, qb, rb := a / m, a % m, b / m, b % m;
    assert a * b == m * (qa * b + ra * qb) + ra * rb by {
      assert a == m * qa + ra;
      assert b == m * qb + rb;
      calc {
        a * b;
        (m * qa + ra) * b;
        m * qa * b + ra * b;
        m * qa * b + ra * (m * qb + rb);
        m * (qa * b + ra * qb) + ra * rb;
      }
    }
    ModAddMultiple(qa * b + ra * qb, ra * rb, m);
  }

  /** Reducing a value that is already a residue changes nothing. */
  lemma ModSmall(a: int, m: int)
    requires 0 <= a < m
    ensures a % m == a
  {
    DivModUnique(a, m, 0, a);
  }

  /** The residue of a residue is itself. */
  lemma ModMod(a: int, m: int)
    requires m > 0
    ensures (a % m) % m == a % m
  {
    ModSmall(a % m, m);
  }

  /** Congruence is preserved by addition. */
  lemma CongAdd(a: int, b: int, c: int, d: int, m: int)
    requires m > 0 && a % m == c % m && b % m == d % m
    ensures (a + b) % m == (c + d) % m
  {
    ModAdd(a, b, m);
    ModAdd(c, d, m);
  }

  /** Congruence is preserved by subtraction. */
  lemma CongSub(a: int, b: int, c: int, d: int, m: int)
    requires m > 0 && a % m == c % m && b % m == d % m
    ensures (a - b) % m == (c - d) % m
  {
    ModSub(a, b, m);
    ModSub(c, d, m);
  }

  /** Congruence is preserved by multiplication. */
  lemma CongMul(a: int, b: int, c: int, d: int, m: int)
    requires m > 0 && a % m == c % m && b % m == d % m
    ensures (a * b) % m == (c * d) % m
  {
    ModMul(a, b, m);
    ModMul(c, d, m);
  }

  /** m divides a exactly when a has residue 0. */
  lemma MultipleMod(k: int, m: int)
    requires m > 0
    ensures (m * k) % m == 0
  {
    ModAddMultiple(k, 0, m);
  }

  // ---------------------------------------------------------------------
  // Powers

  lemma {:induction false} PowAdd(a: int, i: nat, j: nat)
    ensures Pow(a, i + j) == Pow(a, i) * Pow(a, j)
    decreases i
  {
    if i > 0 {
      PowAdd(a, i - 1, j);
      calc {
        Pow(a, i + j);
        a * Pow(a, i - 1 + j);
        a * (Pow(a, i - 1) * Pow(a, j));
        (a * Pow(a, i - 1)) * Pow(a, j);
      }
    }
  }

  lemma {:induction false} PowMul(a: int, b: int, k: nat)
    ensures Pow(a * b, k) == Pow(a, k) * Pow(b, k)
  {
    if k > 0 {
      PowMul(a, b, k - 1);
      calc {
        Pow(a * b, k);
        (a * b) * (Pow(a, k - 1) * Pow(b, k - 1));
        (a * Pow(a, k - 1)) * (b * Pow(b, k - 1));
      }
    }
  }

  /** Powers of congruent bases are congruent. */
  lemma {:induction false} PowMod(a: int, k: nat, m: int)
    requires m > 0
    ensures Pow(a % m, k) % m == Pow(a, k) % m
  {
    if k > 0 {
      PowMod(a, k - 1, m);
      ModMod(a, m);
      CongMul(a % m, Pow(a % m, k - 1), a, Pow(a, k - 1), m);
    }
  }

  lemma {:induction false} PowNonNeg(a: int, k: nat)
    requires a >= 0
    ensures Pow(a, k) >= 0
  {
    if k > 0 {
      PowNonNeg(a, k - 1);
    }
  }

  lemma {:induction false} PowZero(k: nat)
    requires k > 0
    ensures Pow(0, k) == 0
  {
  }

  // ---------------------------------------------------------------------
  // Greatest common divisors and Bezout coefficients

  /** Extended Euclid: returns (g, x, y) with a*x + b*y == g == Gcd(a, b). */
  function ExtGcd(a: nat, b: nat): (r: (nat, int, int))
    decreases b
  {
    if b == 0 then (a, 1, 0)
    else
      var t := ExtGcd(b, a % b);
      (t.0, t.2, t.1 - (a / b) * t.2)
  }

  lemma {:induction false} ExtGcdBezout(a: nat, b: nat)
    ensures ExtGcd(a, b).0 == Gcd(a, b)
    ensures a * ExtGcd(a, b).1 + b * ExtGcd(a, b).2 == Gcd(a, b)
    decreases b
  {
    if b != 0 {
      var r := a % b;
      var q := a / b;
      ExtGcdBezout(b, r);
      var t := ExtGcd(b, r);
      BezoutStep(a, b, q, r, t.1, t.2, t.0);
    }
  }

  /** One step of extended Euclid keeps the Bezout identity. */
  lemma BezoutStep(a: int, b: int, q: int, r: int, x: int, y: int, g: int)
    requires a == b * q + r && b * x + r * y == g
    ensures a * y + b * (x - q * y) == g
  {
    assert a * y == b * q * y + r * y;
    assert b * (x - q * y) == b * x - b * q * y;
  }

  /** Gcd(a, b) divides both arguments. */
  lemma {:induction false} GcdDivides(a: nat, b: nat)
    requires a > 0 || b > 0
    ensures Gcd(a, b) > 0 && a % Gcd(a, b) == 0 && b % Gcd(a, b) == 0
    decreases b
  {
    if b != 0 {
      GcdDivides(b, a % b);
      DividesCombination(a, b, a / b, a % b, Gcd(a, b));
    }
  }

  /** A common divisor of b and r divides b * q + r. */
  lemma DividesCombination(a: int, b: int, q: int, r: int, g: int)
    requires g > 0 && a == b * q + r && b % g == 0 && r % g == 0
    ensures a % g == 0
  {
    var kb, kr := b / g, r / g;
    assert b == g * kb && r == g * kr;
    assert b * q == g * (kb * q);
    assert a == g * (kb * q + kr);
    MultipleMod(kb * q + kr, g);
  }

  /** A residue that is invertible modulo m shares no factor with m. */
  lemma BezoutInverse(a: nat, m: nat)
    requires m > 1 && Gcd(a, m) == 1
    ensures (a * ExtGcd(a, m).1) % m == 1
  {
    ExtGcdBezout(a, m);
    var x, y := ExtGcd(a, m).1, ExtGcd(a, m).2;
    assert a * x == m * (-y) + 1;
    ModAddMultiple(-y, 1, m);
    ModSmall(1, m);
  }

  /** Euclid's lemma: a prime dividing a product divides one of its factors. */
  lemma EuclidLemma(u: int, v: int, m: int)
    requires IsPrime(m) && (u * v) % m == 0
    ensures u % m == 0 || v % m == 0
  {
    var r := u % m;
    if r != 0 {
      PrimeCoprime(r, m);
      ModSmall(r, m);
      CongMul(u, v, r, v, m);
      CoprimeCancel(r, v, m);
    }
  }

  /** A factor coprime to m cancels from a product that is a multiple of m. */
  lemma CoprimeCancel(r: nat, v: int, m: int)
    requires m > 1 && Gcd(r, m) == 1 && (r * v) % m == 0
    ensures v % m == 0
  {
    BezoutInverse(r, m);
    var s := ExtGcd(r, m).1;
    var rs, rv := r * s, r * v;
    assert (rv * s) % m == 0 by {
      CongMul(rv, s, 0, s, m);
    }
    assert (v * rs) % m == v % m by {
      ModSmall(1, m);
      CongMul(v, rs, v, 1, m);
    }
    assert v * rs == rv * s;
  }

  /** Every residue in 1..m-1 is coprime to a prime m. */
  lemma PrimeCoprime(r: nat, m: int)
    requires IsPrime(m) && 0 < r < m
    ensures Gcd(r, m) == 1
  {
    GcdDivides(r, m);
    var g := Gcd(r, m);
    GcdBound(r, m);
  }

  /** A common divisor of r > 0 is no larger than r. */
  lemma GcdBound(r: nat, m: nat)
    requires r > 0
    ensures Gcd(r, m) <= r
  {
    GcdDivides(r, m);
    var g := Gcd(r, m);
    var k := r / g;
    assert r == g * k;
    MulBounds(g, k);
    MulBounds(g, k - 1);
    assert g * k == g * (k - 1) + g;
  }
}
