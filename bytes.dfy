/**
 * The integer-to-byte conversions of the ICO encoder (src/script/index.js):
 * what a Uint8Array stores, the 32-bit operand conversion of `&` and `>>`,
 * and the little-endian splitting done by `to2Bytes` and `to4Bytes`, with
 * little-endian readers as their inverse.
 */
module Bytes {

  /** A value held by one element of a Uint8Array. */
  type Byte = x: int | 0 <= x < 256

  const TwoTo16: int := 0x1_0000
  const TwoTo31: int := 0x8000_0000
  const TwoTo32: int := 0x1_0000_0000

  /** ECMAScript ToUint8: the byte a Uint8Array element holds after it is assigned `v`. */
  function ToUint8(v: int): (b: Byte)
    ensures 0 <= v < 256 ==> b == v
  {
    v % 256
  }

  /** Element-wise ToUint8, as done by `Uint8Array.prototype.set` on a plain array. */
  function Uint8s(vs: seq<int>): (bs: seq<Byte>)
    ensures |bs| == |vs|
  {
    seq(|vs|, k requires 0 <= k < |vs| => ToUint8(vs[k]))
  }

  /** Values that already are bytes are stored unchanged. */
  lemma Uint8sOfBytes(bs: seq<Byte>)
    ensures Uint8s(bs) == bs
  {
  }

  /**
   * ECMAScript ToInt32: the conversion applied to the operands of `&` and `>>`.
   * It keeps the value modulo 2^32 and reads it as a two's-complement number.
   */
  function ToInt32(n: int): (x: int)
    ensures -TwoTo31 <= x < TwoTo31
    ensures x % TwoTo32 == n % TwoTo32
  {
    var m := n % 0x1_0000_0000;
    if m < 0x8000_0000 then m else m - 0x1_0000_0000
  }

  /*
   * On an int32 `x`, `x & 255` is the low eight bits of its two's-complement
   * form, which is `x % 256` with Dafny's Euclidean remainder, and `x >> k` is
   * an arithmetic shift, which is `x / 2^k` rounded down, which is Dafny's
   * Euclidean division by a positive divisor. So `to2Bytes` and `to4Bytes`
   * take the two or four lowest base-256 digits of ToInt32(n), least
   * significant first; To2BytesAsWritten and To4BytesAsWritten spell the
   * digits out the way the source writes them.
   */

  /** 256 to the power `k`. */
  function Pow256(k: nat): (p: nat)
    ensures p > 0
  {
    if k == 0 then 1 else 0x100 * Pow256(k - 1)
  }

  /** The `count` lowest base-256 digits of `x`, least significant first. */
  function LittleEndian(x: int, count: nat): (bs: seq<Byte>)
    ensures |bs| == count
  {
    seq(count, k requires 0 <= k < count => (x / Pow256(k)) % 0x100)
  }

  /** `to2Bytes(n)`: `[n & 255, (n >> 8) & 255]`. */
  function To2Bytes(n: int): (bs: seq<Byte>)
    ensures |bs| == 2
  {
    LittleEndian(ToInt32(n), 2)
  }

  /** `to4Bytes(n)`: `[n & 255, (n >> 8) & 255, (n >> 16) & 255, (n >> 24) & 255]`. */
  function To4Bytes(n: int): (bs: seq<Byte>)
    ensures |bs| == 4
  {
    LittleEndian(ToInt32(n), 4)
  }

  /** `to2Bytes` digit by digit, as the source computes it. */
  lemma To2BytesAsWritten(n: int)
    ensures To2Bytes(n) == [ToInt32(n) % 0x100, (ToInt32(n) / 0x100) % 0x100]
  {
    assert Pow256(1) == 0x100;
  }

  /** `to4Bytes` digit by digit, as the source computes it. */
  lemma To4BytesAsWritten(n: int)
    ensures To4Bytes(n) == [ToInt32(n) % 0x100, (ToInt32(n) / 0x100) % 0x100,
                            (ToInt32(n) / 0x1_0000) % 0x100, (ToInt32(n) / 0x100_0000) % 0x100]
  {
    assert Pow256(1) == 0x100 && Pow256(2) == 0x1_0000 && Pow256(3) == 0x100_0000;
  }

  /** The unsigned 16-bit little-endian value stored at `bs[p..p+2]`. */
  function ReadU16LE(bs: seq<Byte>, p: nat): (v: nat)
    requires p + 2 <= |bs|
    ensures v < TwoTo16
  {
    (bs[p] as int) + 0x100 * (bs[p + 1] as int)
  }

  /** The unsigned 32-bit little-endian value stored at `bs[p..p+4]`. */
  function ReadU32LE(bs: seq<Byte>, p: nat): (v: nat)
    requires p + 4 <= |bs|
    ensures v < TwoTo32
  {
    (bs[p] as int) + 0x100 * (bs[p + 1] as int)
      + 0x1_0000 * (bs[p + 2] as int) + 0x100_0000 * (bs[p + 3] as int)
  }

  /** A 16-bit value read inside a sequence is the one read from its two bytes alone. */
  lemma ReadU16LEAt(bs: seq<Byte>, p: nat, w: seq<Byte>)
    requires p + 2 <= |bs| && bs[p..p + 2] == w
    ensures ReadU16LE(bs, p) == ReadU16LE(w, 0)
  {
    assert bs[p] == w[0] && bs[p + 1] == w[1];
  }

  /** A 32-bit value read inside a sequence is the one read from its four bytes alone. */
  lemma ReadU32LEAt(bs: seq<Byte>, p: nat, w: seq<Byte>)
    requires p + 4 <= |bs| && bs[p..p + 4] == w
    ensures ReadU32LE(bs, p) == ReadU32LE(w, 0)
  {
    assert bs[p] == w[0] && bs[p + 1] == w[1] && bs[p + 2] == w[2] && bs[p + 3] == w[3];
  }

  /** Splitting any integer into two eight-bit digits of base 256, modulo 2^16. */
  lemma ByteDigits16(x: int)
    ensures x % TwoTo16 == x % 0x100 + 0x100 * ((x / 0x100) % 0x100)
  {
    DigitSplit(x, 0x100, 0x100);
  }

  /** Splitting any integer into four eight-bit digits of base 256, modulo 2^32. */
  lemma ByteDigits32(x: int)
    ensures x % TwoTo32 == x % 0x100 + 0x100 * ((x / 0x100) % 0x100)
                           + 0x1_0000 * ((x / 0x1_0000) % 0x100) + 0x100_0000 * ((x / 0x100_0000) % 0x100)
  {
    DigitSplit(x, 0x100, 0x100_0000);
    DigitSplit(x / 0x100, 0x100, 0x1_0000);
    DigitSplit(x / 0x1_0000, 0x100, 0x100);
    DigitSplit(x, 0x1_0000, 0x100);
  }

  /** Reading back what `to2Bytes` wrote gives the value modulo 2^16, for every integer. */
  lemma To2BytesRoundTrip(n: int)
    ensures ReadU16LE(To2Bytes(n), 0) == n % TwoTo16
    ensures 0 <= n < TwoTo16 ==> ReadU16LE(To2Bytes(n), 0) == n
  {
    var x := ToInt32(n);
    To2BytesAsWritten(n);
    ByteDigits16(x);
    ModOfMod(x, n);
    assert ReadU16LE(To2Bytes(n), 0) == x % TwoTo16;
    if 0 <= n < TwoTo16 {
      DivModUnique(n, TwoTo16, 0, n);
    }
  }

  /** Reading back what `to4Bytes` wrote gives the value modulo 2^32, for every integer. */
  lemma To4BytesRoundTrip(n: int)
    ensures ReadU32LE(To4Bytes(n), 0) == n % TwoTo32
    ensures 0 <= n < TwoTo32 ==> ReadU32LE(To4Bytes(n), 0) == n
  {
    var x := ToInt32(n);
    To4BytesAsWritten(n);
    ByteDigits32(x);
    assert ReadU32LE(To4Bytes(n), 0) == x % TwoTo32;
    if 0 <= n < TwoTo32 {
      DivModUnique(n, TwoTo32, 0, n);
    }
  }

  /** Two integers equal modulo 2^32 are equal modulo 2^16. */
  lemma ModOfMod(x: int, n: int)
    requires x % TwoTo32 == n % TwoTo32
    ensures x % TwoTo16 == n % TwoTo16
  {
    LowHalf(x);
    LowHalf(n);
  }

  /** The low 16 bits of a value are the low 16 bits of its low 32 bits. */
  lemma LowHalf(x: int)
    ensures (x % TwoTo32) % TwoTo16 == x % TwoTo16
  {
    DigitSplit(x, TwoTo16, TwoTo16);
    DivModUnique(x % TwoTo32, TwoTo16, (x / TwoTo16) % TwoTo16, x % TwoTo16);
  }

  /** The remainder by `b * m` is the last digit in base `b` followed by the remainder of the rest by `m`. */
  lemma DigitSplit(x: int, b: int, m: int)
    requires b > 0 && m > 0
    ensures b * m > 0
    ensures x % (b * m) == x % b + b * ((x / b) % m)
    ensures x / (b * m) == (x / b) / m
  {
    var q, r := x / b, x % b;
    var q1, r1 := q / m, q % m;
    MulAtLeast(b, m);
    assert x == (b * m) * q1 + (b * r1 + r) by {
      assert x == b * q + r;
      assert q == m * q1 + r1;
      assert b * q == b * (m * q1) + b * r1;
      assert b * (m * q1) == (b * m) * q1;
    }
    assert b * r1 + r < b * m by {
      MulAtLeast(b, m - r1);
      assert b * (m - r1) == b * m - b * r1;
    }
    assert 0 <= b * r1 by {
      if r1 > 0 {
        MulAtLeast(b, r1);
      }
    }
    DivModUnique(x, b * m, q1, b * r1 + r);
  }

  /** Euclidean division by a positive divisor has a unique quotient and remainder. */
  lemma DivModUnique(x: int, d: int, q: int, r: int)
    requires 0 < d && x == d * q + r && 0 <= r < d
    ensures x / d == q && x % d == r
  {
    var q0, r0 := x / d, x % d;
    assert d * q0 + r0 == x;
    if q > q0 {
      MulAtLeast(d, q - q0);
    } else if q < q0 {
      MulAtLeast(d, q0 - q);
    }
  }

  /** A positive multiple of a positive number is at least that number. */
  lemma MulAtLeast(d: int, k: int)
    requires d > 0 && k >= 1
    ensures d * k >= d
  {
    assert d * k == d * (k - 1) + d;
    assert d * (k - 1) >= 0;
  }
}
