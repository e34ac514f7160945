/**
 * Fixed-width machine integers of a 32-bit little-endian target, and the byte
 * images of multi-byte fields as they sit in memory.
 */
module ByteOrder {

  newtype byte = x: int | 0 <= x < 0x100
  newtype uint16 = x: int | 0 <= x < 0x1_0000
  newtype uint32 = x: int | 0 <= x < 0x1_0000_0000

  const UINT32_MODULUS: int := 0x1_0000_0000
  const INT32_MIN: int := -0x8000_0000
  const INT32_MAX: int := 0x7FFF_FFFF

  /** A C `int` seen as `unsigned` (what `%u` prints and `uint32_t` stores): reduction modulo 2^32. */
  function Unsigned32(v: int): (r: uint32)
    ensures 0 <= v < UINT32_MODULUS ==> r as int == v
    ensures (v - r as int) % UINT32_MODULUS == 0
  {
    (v % UINT32_MODULUS) as uint32
  }

  /** A `uint32_t` assigned to a 32-bit `int` (two's complement wrap-around). */
  function Signed32(u: uint32): (r: int)
    ensures INT32_MIN <= r <= INT32_MAX
    ensures (u as int - r) % UINT32_MODULUS == 0
    ensures r >= 0 <==> u as int <= INT32_MAX
  {
    if u as int <= INT32_MAX then u as int else u as int - UINT32_MODULUS
  }

  /** C's `/` on `int` by a positive divisor: the quotient truncated toward zero, so the remainder has the dividend's sign. */
  function TruncDiv(a: int, b: int): (r: int)
    requires b > 0
    ensures a >= 0 ==> 0 <= a - r * b < b
    ensures a < 0 ==> -b < a - r * b <= 0
  {
    if a >= 0 then a / b else -((-a) / b)
  }

  /** `uint32_t` increment, as `crc_hash++` performs it. */
  function Increment32(u: uint32): (r: uint32)
    ensures r as int == u as int + 1 || (u as int == UINT32_MODULUS - 1 && r == 0)
    ensures r != u
  {
    Unsigned32(u as int + 1)
  }

  function Pow256(k: nat): (r: nat)
    ensures r > 0
  {
    if k == 0 then 1 else 256 * Pow256(k - 1)
  }

  /** The low `width` bytes of n, least significant first. */
  function LeBytes(n: nat, width: nat): (r: seq<byte>)
    ensures |r| == width
  {
    if width == 0 then [] else [(n % 256) as byte] + LeBytes(n / 256, width - 1)
  }

  /** The number whose little-endian image is s. */
  function LeValue(s: seq<byte>): (r: nat)
    ensures r < Pow256(|s|)
  {
    if s == [] then 0
    else
      var rest := LeValue(s[1..]);
      assert rest <= Pow256(|s| - 1) - 1;
      assert 256 * rest <= 256 * Pow256(|s| - 1) - 256;
      s[0] as nat + 256 * rest
  }

  lemma {:induction false} LeValueOfBytes(n: nat, width: nat)
    requires n < Pow256(width)
    ensures LeValue(LeBytes(n, width)) == n
  {
    if width > 0 {
      var s := LeBytes(n, width);
      assert s[1..] == LeBytes(n / 256, width - 1);
      assert n / 256 < Pow256(width - 1);
      LeValueOfBytes(n / 256, width - 1);
    }
  }

  lemma {:induction false} LeBytesOfValue(s: seq<byte>)
    ensures LeBytes(LeValue(s), |s|) == s
  {
    if s != [] {
      var v := LeValue(s);
      var rest := LeValue(s[1..]);
      assert v == s[0] as nat + 256 * rest;
      assert v % 256 == s[0] as nat;
      assert v / 256 == rest;
      LeBytesOfValue(s[1..]);
    }
  }

  /** Slicing an image made of two parts back into its parts. */
  lemma AppendTake<T>(a: seq<T>, b: seq<T>)
    ensures (a + b)[..|a|] == a
  {
  }

  lemma AppendDrop<T>(a: seq<T>, b: seq<T>, k: nat)
    requires |a| <= k <= |a| + |b|
    ensures (a + b)[k..] == b[k - |a|..]
  {
  }

  lemma DropDrop<T>(s: seq<T>, i: nat, j: nat)
    requires i + j <= |s|
    ensures s[i..][j..] == s[i + j..]
  {
  }

  /** Two sequences that agree on adjacent slices agree on their union. */
  lemma JoinSlices<T>(a: seq<T>, b: seq<T>, i: nat, j: nat, k: nat)
    requires i <= j <= k <= |a| && k <= |b|
    requires a[i..j] == b[i..j] && a[j..k] == b[j..k]
    ensures a[i..k] == b[i..k]
  {
    forall t | i <= t < k
      ensures a[t] == b[t]
    {
      if t < j {
        assert a[t] == a[i..j][t - i] && b[t] == b[i..j][t - i];
      } else {
        assert a[t] == a[j..k][t - j] && b[t] == b[j..k][t - j];
      }
    }
  }
}
