/**
 * Bytes and fixed-width integers as `java.nio.ByteBuffer` in little-endian order
 * sees them: an 8-byte word is read as an unsigned value, `getLong` reinterprets it
 * as a two's-complement `long`, and a Java cast `(int)` keeps its low 32 bits.
 */
module Bytes {

  newtype byte = b: int | 0 <= b < 256

  const TWO_31: int := 0x8000_0000
  const TWO_32: int := 0x1_0000_0000
  const TWO_63: int := 0x8000_0000_0000_0000
  const TWO_64: int := 0x1_0000_0000_0000_0000

  function Pow256(k: nat): (r: nat)
    ensures r > 0
  {
    if k == 0 then 1 else 256 * Pow256(k - 1)
  }

  /** The little-endian unsigned value of `bs`: `bs[0]` is the least significant byte. */
  function LeValue(bs: seq<byte>): (r: nat)
    ensures r < Pow256(|bs|)
  {
    if bs == [] then 0 else bs[0] as nat + 256 * LeValue(bs[1..])
  }

  /** The `k` little-endian bytes of `n` (its value modulo 256^k). */
  function LeBytes(n: nat, k: nat): (bs: seq<byte>)
    ensures |bs| == k
  {
    if k == 0 then [] else [(n % 256) as byte] + LeBytes(n / 256, k - 1)
  }

  lemma {:induction false} LeValueOfLeBytes(n: nat, k: nat)
    requires n < Pow256(k)
    ensures LeValue(LeBytes(n, k)) == n
  {
    if k > 0 {
      LeValueOfLeBytes(n / 256, k - 1);
      assert LeBytes(n, k)[1..] == LeBytes(n / 256, k - 1);
    }
  }

  lemma {:induction false} LeBytesOfLeValue(bs: seq<byte>)
    ensures LeBytes(LeValue(bs), |bs|) == bs
  {
    if bs != [] {
      var n := LeValue(bs);
      assert n % 256 == bs[0] as nat && n / 256 == LeValue(bs[1..]);
      LeBytesOfLeValue(bs[1..]);
    }
  }

  /** The unsigned value of the 8-byte little-endian word at `pos`. */
  function Word(data: seq<byte>, pos: nat): (w: nat)
    requires pos + 8 <= |data|
    ensures w < TWO_64
  {
    assert Pow256(8) == TWO_64;
    LeValue(data[pos..pos + 8])
  }

  /** True when `x` fits a Java `int`. */
  predicate IsInt(x: int) {
    -TWO_31 <= x < TWO_31
  }

  /**
   * Java's `long` arithmetic and narrowing: the unique value in [-2^63, 2^63) that is
   * congruent to `x` modulo 2^64.
   */
  function ToLong(x: int): (r: int)
    ensures -TWO_63 <= r < TWO_63
  {
    var low := x % TWO_64;
    if low >= TWO_63 then low - TWO_64 else low
  }

  /** Java's cast `(int)`: the unique value in [-2^31, 2^31) congruent to `x` modulo 2^32. */
  function ToInt(x: int): (r: int)
    ensures IsInt(r)
  {
    var low := x % TWO_32;
    if low >= TWO_31 then low - TWO_32 else low
  }

  lemma IntUnchanged(x: int)
    requires IsInt(x)
    ensures ToInt(x) == x && ToLong(x) == x
  {
  }

  lemma LongUnchanged(x: int)
    requires -TWO_63 <= x < TWO_63
    ensures ToLong(x) == x
  {
  }

  /** Writing an `int` as a two's-complement 64-bit word and reading it back as `(int) getLong()` gives it back. */
  lemma IntThroughWord(x: int)
    requires IsInt(x)
    ensures 0 <= x % TWO_64 < TWO_64
    ensures ToInt(ToLong(x % TWO_64)) == x
  {
    if x < 0 {
      assert x % TWO_64 == x + TWO_64;
    }
  }
}
