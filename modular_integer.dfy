/** The C++ ModularInteger<T_NARROW, T_WIDE, MODULUS> value type.
  *
  * The struct holds one narrow unsigned value. Its operators compute in the
  * wide type, which is required to hold (MODULUS - 1)^2, so the intermediate
  * sums and products below never wrap. The modulus is passed explicitly, and
  * a compound operator such as `a += b` is the rebinding `a := Add(a, b, m)`. */
module ModularInteger {
  import opened ModArith
  import opened PowerSumMod
  import Fermat

  datatype ModInt = ModInt(value: int)

  /** A well-formed value: a residue modulo m. */
  predicate Valid(a: ModInt, m: int)
  {
    0 <= a.value < m
  }

  /** The default constructor. */
  function Zero(): (r: ModInt)
    ensures forall m :: m > 0 ==> Valid(r, m) && r.value % m == 0
  {
    ModInt(0)
  }

  /** The converting constructor: subtracts the modulus at most once. */
  function FromNarrow(n: int, m: int): (r: ModInt)
    requires m > 0 && n >= 0
    ensures r.value % m == n % m
    ensures n < 2 * m ==> Valid(r, m) && r.value == n % m
    ensures n >= m ==> r.value == n - m
  {
    if n >= m then
      ModAddMultiple(-1, n, m);
      ModInt(n - m)
    else
      ModSmall(n, m);
      ModInt(n)
  }

  /** The conversion to bool. */
  function ToBool(a: ModInt, m: int): (r: bool)
    requires m > 0 && Valid(a, m)
    ensures r <==> a.value % m != 0
  {
    ModSmall(a.value, m);
    a.value != 0
  }

  /** operator+= and operator+: the wide sum, then one conditional subtraction. */
  function Add(a: ModInt, b: ModInt, m: int): (r: ModInt)
    requires m > 0 && Valid(a, m) && Valid(b, m)
    ensures Valid(r, m) && r.value == (a.value + b.value) % m
  {
    var sum := a.value + b.value;
    if sum >= m then
      DivModUnique(sum, m, 1, sum - m);
      ModInt(sum - m)
    else
      ModSmall(sum, m);
      ModInt(sum)
  }

  /** operator-= and binary operator-: adds MODULUS - b, then one conditional
    * subtraction. */
  function Sub(a: ModInt, b: ModInt, m: int): (r: ModInt)
    requires m > 0 && Valid(a, m) && Valid(b, m)
    ensures Valid(r, m) && r.value == (a.value - b.value) % m
  {
    var diff := a.value + (m - b.value);
    if diff >= m then
      DivModUnique(a.value - b.value, m, 0, diff - m);
      ModInt(diff - m)
    else
      DivModUnique(a.value - b.value, m, -1, diff);
      ModInt(diff)
  }

  /** Unary operator-: zero stays zero, any other a becomes MODULUS - a. */
  function Neg(a: ModInt, m: int): (r: ModInt)
    requires m > 0 && Valid(a, m)
    ensures Valid(r, m) && r.value == (-a.value) % m
  {
    if a.value != 0 then
      DivModUnique(-a.value, m, -1, m - a.value);
      FromNarrow(m - a.value, m)
    else
      a
  }

  /** operator*= and operator*: the wide product reduced modulo MODULUS. */
  function Mul(a: ModInt, b: ModInt, m: int): (r: ModInt)
    requires m > 0
    ensures Valid(r, m) && r.value == (a.value * b.value) % m
  {
    ModInt((a.value * b.value) % m)
  }

  /** pow<POWER>(), by recursive square-and-multiply. */
  function PowT(a: ModInt, power: nat, m: int): (r: ModInt)
    requires m > 1 && Valid(a, m)
    ensures Valid(r, m) && r.value == Pow(a.value, power) % m
    decreases power
  {
    if power == 0 then
      FromNarrow(1, m)
    else if power == 1 then
      ModSmall(a.value, m);
      a
    else
      var half := PowT(a, power / 2, m);
      var sq := Mul(half, half, m);
      PowSquare(a.value, power / 2, m);
      if power % 2 == 1 then
        PowOddStep(a.value, power, m);
        Mul(sq, a, m)
      else
        sq
  }

  /** Squaring the residue of a^k gives the residue of a^(2k). */
  lemma PowSquare(a: int, k: nat, m: int)
    requires m > 0
    ensures ((Pow(a, k) % m) * (Pow(a, k) % m)) % m == Pow(a, 2 * k) % m
  {
    PowAdd(a, k, k);
    ModMul(Pow(a, k), Pow(a, k), m);
  }

  /** One more factor of a turns a^(2k) into a^(2k+1), for odd power == 2k + 1. */
  lemma PowOddStep(a: int, power: nat, m: int)
    requires m > 1 && 0 <= a < m && power % 2 == 1
    ensures ((Pow(a, 2 * (power / 2)) % m) * a) % m == Pow(a, power) % m
  {
    var k := 2 * (power / 2);
    assert power == k + 1;
    PowAdd(a, k, 1);
    ModSmall(a, m);
    ModMul(Pow(a, k), a, m);
  }

  /** inv() raises to the power MODULUS - 2. */
  function Inv(a: ModInt, m: int): (r: ModInt)
    requires m > 1 && Valid(a, m)
    ensures Valid(r, m) && r.value == Pow(a.value, m - 2) % m
  {
    PowT(a, m - 2, m)
  }

  /** For a prime modulus, Inv is the multiplicative inverse of every nonzero
    * value (Fermat's little theorem). */
  lemma InvIsInverse(a: ModInt, m: int)
    requires IsPrime(m) && Valid(a, m) && a.value != 0
    ensures Mul(Inv(a, m), a, m).value == 1
  {
    ModSmall(a.value, m);
    Fermat.FermatInverse(m, a.value);
    InvFromPower(a, m);
  }

  lemma InvFromPower(a: ModInt, m: int)
    requires m > 1 && Valid(a, m) && (Pow(a.value, m - 2) * a.value) % m == 1
    ensures Mul(Inv(a, m), a, m).value == 1
  {
    var e := Pow(a.value, m - 2);
    ModSmall(a.value, m);
    ModMod(e, m);
    CongMul(e % m, a.value, e, a.value, m);
  }

  /** Subtraction undoes addition on residues. */
  lemma SubAdd(a: ModInt, b: ModInt, m: int)
    requires m > 0 && Valid(a, m) && Valid(b, m)
    ensures Sub(Add(a, b, m), b, m) == a
  {
    ModSub(a.value + b.value, b.value, m);
    ModSmall(b.value, m);
    ModSmall(a.value, m);
  }

  /** Negation is subtraction from zero, and a + (-a) == 0. */
  lemma NegIsSubFromZero(a: ModInt, m: int)
    requires m > 0 && Valid(a, m)
    ensures Neg(a, m) == Sub(Zero(), a, m)
    ensures Add(a, Neg(a, m), m).value == 0
  {
    ModAdd(a.value, -a.value, m);
    ModSmall(a.value, m);
    ModSmall(0, m);
  }

  // ---------------------------------------------------------------------
  // Sequences of modular integers

  /** The values held by a sequence of modular integers. */
  function Values(s: seq<ModInt>): (r: seq<int>)
    ensures |r| == |s| && forall i :: 0 <= i < |s| ==> r[i] == s[i].value
  {
    seq(|s|, i requires 0 <= i < |s| => s[i].value)
  }

  predicate AllValid(s: seq<ModInt>, m: int)
  {
    forall i :: 0 <= i < |s| ==> Valid(s[i], m)
  }

  /** Entry i is ModularInteger(i + 1).inv(). */
  function FermatInverses(n: nat, m: int): (r: seq<int>)
    requires 1 < m && n < 2 * m
    ensures |r| == n && Residues(r, m)
  {
    seq(n, i requires 0 <= i < n => Inv(FromNarrow(i + 1, m), m).value)
  }

  /** For a prime modulus above n, every entry i of FermatInverses(n, m),
    * entry 0 included, is the inverse of i + 1; so the table is an inverse
    * table for the Newton recursion. */
  lemma FermatInversesTable(n: nat, m: int)
    requires IsPrime(m) && n < m
    ensures forall i :: 0 <= i < n ==> (FermatInverses(n, m)[i] * (i + 1)) % m == 1
    ensures InverseTable(FermatInverses(n, m), m, n)
  {
    var inv := FermatInverses(n, m);
    forall i | 0 <= i < n
      ensures (inv[i] * (i + 1)) % m == 1
    {
      var a := FromNarrow(i + 1, m);
      ModSmall(i + 1, m);
      InvIsInverse(a, m);
    }
  }
}
