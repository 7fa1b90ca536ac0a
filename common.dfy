/** Vocabulary shared by the models: optional values, bytes, fixed-width
  * unsigned integers with wrap-around, and the little- and big-endian
  * encodings of 32-bit words. */
module Common {

  datatype Option<T> = None | Some(value: T)

  type Byte = x: int | 0 <= x < 256

  const U32_LIMIT: int := 0x1_0000_0000
  const U32_MAX: int := 0xFFFF_FFFF
  const U64_LIMIT: int := 0x1_0000_0000_0000_0000

  /** An unsigned 32-bit value as an integer. */
  type U32 = x: int | 0 <= x < U32_LIMIT

  predicate IsU32(x: int)
  {
    0 <= x < U32_LIMIT
  }

  /** u32 wrapping_add / wrapping_sub: the result reduced modulo 2^32. */
  function WrapU32(x: int): (r: int)
    ensures IsU32(r)
    ensures IsU32(x) ==> r == x
  {
    x % U32_LIMIT
  }

  // ---------------------------------------------------------------------
  // 32-bit words as bytes

  /** The k low-order bytes of x, least significant first. */
  function LEBytes(x: int, k: nat): (b: seq<Byte>)
    requires 0 <= x
    ensures |b| == k
  {
    if k == 0 then [] else [x % 256] + LEBytes(x / 256, k - 1)
  }

  /** The natural number whose little-endian bytes are b. */
  function FromLEBytes(b: seq<Byte>): (x: int)
    ensures 0 <= x < Pow256(|b|)
  {
    if |b| == 0 then 0 else b[0] + 256 * FromLEBytes(b[1..])
  }

  function Pow256(k: nat): (r: int)
    ensures r >= 1
  {
    if k == 0 then 1 else 256 * Pow256(k - 1)
  }

  /** Writing x in k bytes and reading them back gives x when x fits. */
  lemma {:induction false} LEBytesRoundTrip(x: int, k: nat)
    requires 0 <= x < Pow256(k)
    ensures FromLEBytes(LEBytes(x, k)) == x
  {
    if k > 0 {
      LEBytesRoundTrip(x / 256, k - 1);
      assert LEBytes(x, k)[1..] == LEBytes(x / 256, k - 1);
    }
  }

  /** Reading k bytes and writing the value back gives the bytes. */
  lemma {:induction false} FromLEBytesRoundTrip(b: seq<Byte>)
    ensures LEBytes(FromLEBytes(b), |b|) == b
  {
    if |b| > 0 {
      FromLEBytesRoundTrip(b[1..]);
      var x := FromLEBytes(b);
      assert x % 256 == b[0] && x / 256 == FromLEBytes(b[1..]);
    }
  }

  /** Little-endian bytes of a u32 (Rust's to_le_bytes). */
  function LE32(x: int): (b: seq<Byte>)
    requires IsU32(x)
    ensures |b| == 4
  {
    LEBytes(x, 4)
  }

  /** The u32 read from four little-endian bytes (Rust's from_le_bytes). */
  function FromLE32(b: seq<Byte>): (x: int)
    requires |b| == 4
    ensures IsU32(x)
  {
    assert Pow256(4) == U32_LIMIT;
    FromLEBytes(b)
  }

  /** Big-endian bytes of a u32 (Rust's to_be_bytes). */
  function BE32(x: int): (b: seq<Byte>)
    requires IsU32(x)
    ensures |b| == 4
  {
    var l := LEBytes(x, 4);
    [l[3], l[2], l[1], l[0]]
  }

  /** The u32 read from four big-endian bytes (Rust's from_be_bytes). */
  function FromBE32(b: seq<Byte>): (x: int)
    requires |b| == 4
    ensures IsU32(x)
  {
    FromLE32([b[3], b[2], b[1], b[0]])
  }

  lemma LE32RoundTrip(x: int)
    requires IsU32(x)
    ensures FromLE32(LE32(x)) == x
  {
    assert Pow256(4) == U32_LIMIT;
    LEBytesRoundTrip(x, 4);
  }

  lemma FromLE32RoundTrip(b: seq<Byte>)
    requires |b| == 4
    ensures LE32(FromLE32(b)) == b
  {
    FromLEBytesRoundTrip(b);
  }

  lemma BE32RoundTrip(x: int)
    requires IsU32(x)
    ensures FromBE32(BE32(x)) == x
  {
    var l := LEBytes(x, 4);
    assert [BE32(x)[3], BE32(x)[2], BE32(x)[1], BE32(x)[0]] == l;
    LE32RoundTrip(x);
  }

  /** Every word of s is a u32. */
  predicate AllU32(s: seq<int>)
  {
    forall i :: 0 <= i < |s| ==> IsU32(s[i])
  }

  /** The words of s, each as four little-endian bytes, back to back. */
  function LEWords(s: seq<int>): (b: seq<Byte>)
    requires AllU32(s)
    ensures |b| == 4 * |s|
  {
    if |s| == 0 then [] else LEWords(s[..|s| - 1]) + LE32(s[|s| - 1])
  }

  /** The first n little-endian words stored in b. */
  function FromLEWords(b: seq<Byte>, n: nat): (s: seq<int>)
    requires 4 * n <= |b|
    ensures |s| == n && AllU32(s)
  {
    seq(n, i requires 0 <= i < n => FromLE32(b[4 * i .. 4 * i + 4]))
  }

  /** Word i of LEWords(s) sits at bytes 4i .. 4i+4. */
  lemma {:induction false} LEWordsAt(s: seq<int>, i: nat)
    requires AllU32(s) && i < |s|
    ensures LEWords(s)[4 * i .. 4 * i + 4] == LE32(s[i])
  {
    var n := |s| - 1;
    if i < n {
      LEWordsAt(s[..n], i);
      assert LEWords(s) == LEWords(s[..n]) + LE32(s[n]);
      assert LEWords(s)[4 * i .. 4 * i + 4] == LEWords(s[..n])[4 * i .. 4 * i + 4];
    } else {
      assert LEWords(s) == LEWords(s[..n]) + LE32(s[n]);
    }
  }

  /** Reading back the words written by LEWords gives the words. */
  lemma LEWordsRoundTrip(s: seq<int>)
    requires AllU32(s)
    ensures FromLEWords(LEWords(s), |s|) == s
  {
    forall i | 0 <= i < |s|
      ensures FromLEWords(LEWords(s), |s|)[i] == s[i]
    {
      LEWordsAt(s, i);
      LE32RoundTrip(s[i]);
    }
  }

  /** Sequence concatenation regroups freely. */
  lemma AppendAssoc<T>(a: seq<T>, b: seq<T>, c: seq<T>)
    ensures a + b + c == a + (b + c)
  {
  }
}
