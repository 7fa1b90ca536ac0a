/** The constants of the Montgomery multiplication demo: a 63-bit prime
  * modulus N, the radix R = 2^63, the inverse of R modulo N, the inverse
  * of N modulo R, and N' = R - N^-1, the negated inverse the reduction
  * step multiplies by. */
module Montgomery {
  import ModArith

  /** 2^63 - 25, the largest prime below 2^63. */
  const N: nat := 9223372036854775783
  /** 2^63. */
  const R: nat := 9223372036854775808

  /** crt.invert(a, b): from one run of extended Euclid, a's inverse
    * modulo b and b's inverse modulo a, each reduced. */
  function Invert(a: nat, b: nat): (r: (nat, nat))
    requires a > 1 && b > 1
    ensures r.0 < b && r.1 < a
  {
    var e := ModArith.ExtGcd(a, b);
    (e.1 % b, e.2 % a)
  }

  const RInv: nat := Invert(R, N).0
  const NInv: nat := Invert(R, N).1
  const NPrime: int := R - NInv

  /** When a and b share no factor, Invert returns the two inverses. */
  lemma InvertInverts(a: nat, b: nat)
    requires a > 1 && b > 1 && ModArith.Gcd(a, b) == 1
    ensures (a * Invert(a, b).0) % b == 1
    ensures (b * Invert(a, b).1) % a == 1
  {
    var e := ModArith.ExtGcd(a, b);
    var x, y := e.1, e.2;
    ModArith.ExtGcdBezout(a, b);
    assert a * x + b * y == 1;
    // a's inverse: a * x leaves 1 modulo b, and so does a * (x % b).
    ModArith.BezoutInverse(a, b);
    ModArith.ModMul(a, x, b);
    ModArith.ModMul(a, x % b, b);
    ModArith.ModMod(x, b);
    // b's inverse: b * y is a * (-x) + 1.
    assert b * y == a * (-x) + 1;
    ModArith.ModAddMultiple(-x, 1, a);
    ModArith.ModSmall(1, a);
    ModArith.ModMul(b, y, a);
    ModArith.ModMul(b, y % a, a);
    ModArith.ModMod(y, a);
  }

  /** If n * v leaves 1 modulo r then n * (r - v) leaves r - 1: r - v is
    * the negated inverse. */
  lemma NegatedInverse(n: int, r: int, v: int)
    requires r > 1 && (n * v) % r == 1
    ensures (n * (r - v)) % r == r - 1
  {
    assert n * (r - v) == r * n + (-(n * v));
    ModArith.ModAddMultiple(n, -(n * v), r);
    ModArith.ModSub(0, n * v, r);
    ModArith.ModSmall(0, r);
    ModArith.ModSmall(r - 1, r);
    ModArith.ModAddMultiple(-1, r - 1, r);
  }

  /** N is odd and shares no factor with R: Euclid reaches 1 in five
    * steps, through the remainders 25, 8 and 1. */
  lemma Coprime()
    ensures N % 2 == 1 && N == R - 25
    ensures ModArith.Gcd(R, N) == 1
  {
    calc {
      ModArith.Gcd(R, N);
      ModArith.Gcd(N, 25);
      ModArith.Gcd(25, 8);
      ModArith.Gcd(8, 1);
      ModArith.Gcd(1, 0);
      1;
    }
  }

  /** R is 2^63. */
  lemma RadixIsPowerOfTwo()
    ensures R == ModArith.Pow(2, 63)
  {
    ModArith.PowAdd(2, 31, 32);
    assert ModArith.Pow(2, 31) == 2147483648 by {
      ModArith.PowAdd(2, 15, 16);
      assert ModArith.Pow(2, 15) == 32768;
      assert ModArith.Pow(2, 16) == 65536;
    }
    assert ModArith.Pow(2, 32) == 4294967296 by {
      ModArith.PowAdd(2, 16, 16);
      assert ModArith.Pow(2, 16) == 65536;
    }
  }

  /** The three identities the script asserts before printing. */
  lemma ConstantsHold()
    ensures (R * RInv) % N == 1
    ensures (N * NInv) % R == 1
    ensures (N * NPrime) % R == R - 1
  {
    Coprime();
    InvertInverts(R, N);
    NegatedInverse(N, R, NInv);
  }
}
