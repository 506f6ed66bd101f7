/**
 * Fixed-width integers as the Go code uses them, and the big-endian byte
 * layout written by binary.BigEndian.PutUint64.
 */
module Bytes {

  type uint8 = x: int | 0 <= x < 0x100
  type uint32 = x: int | 0 <= x < 0x1_0000_0000
  type int32 = x: int | -0x8000_0000 <= x < 0x8000_0000
  type uint64 = x: int | 0 <= x < 0x1_0000_0000_0000_0000
  type int64 = x: int | -0x8000_0000_0000_0000 <= x < 0x8000_0000_0000_0000

  /** 256 to the power n: the number of distinct n-byte strings. */
  function Pow256(n: nat): (p: nat)
    ensures p > 0
  {
    if n == 0 then 1 else 256 * Pow256(n - 1)
  }

  lemma Pow256Widths()
    ensures Pow256(4) == 0x1_0000_0000
    ensures Pow256(8) == 0x1_0000_0000_0000_0000
  {
  }

  /** Go's conversion uint64(t) of an int64: reduction modulo 2^64. */
  function AsUint64(t: int64): (u: uint64)
    ensures t >= 0 ==> u == t
    ensures t < 0 ==> u == t + 0x1_0000_0000_0000_0000 && u >= 0x8000_0000_0000_0000
  {
    t % 0x1_0000_0000_0000_0000
  }

  /** The conversion is one-to-one on int64, so no two timestamps share a bit pattern. */
  lemma AsUint64Injective(a: int64, b: int64)
    requires AsUint64(a) == AsUint64(b)
    ensures a == b
  {
  }

  /** The two's-complement bit pattern of an int32. */
  function AsUint32(x: int32): (u: uint32)
    ensures x >= 0 ==> u == x
    ensures x < 0 ==> u >= 0x8000_0000
  {
    x % 0x1_0000_0000
  }

  /** Reads a 32-bit pattern back as a signed int32; the inverse of AsUint32. */
  function AsInt32(u: uint32): (x: int32)
    ensures AsUint32(x) == u
  {
    if u < 0x8000_0000 then u else u - 0x1_0000_0000
  }

  lemma AsInt32AsUint32(x: int32)
    ensures AsInt32(AsUint32(x)) == x
  {
  }

  /** n written as exactly `width` bytes, most significant byte first. */
  function BigEndian(n: nat, width: nat): (s: seq<uint8>)
    requires n < Pow256(width)
    ensures |s| == width
  {
    if width == 0 then [] else BigEndian(n / 256, width - 1) + [n % 256]
  }

  /** The number whose big-endian representation is s. */
  function FromBigEndian(s: seq<uint8>): (n: nat)
    ensures n < Pow256(|s|)
  {
    if s == [] then 0 else FromBigEndian(s[..|s| - 1]) * 256 + s[|s| - 1]
  }

  /** Reading back what BigEndian wrote gives the original number. */
  lemma {:induction false} FromBigEndianOfBigEndian(n: nat, width: nat)
    requires n < Pow256(width)
    ensures FromBigEndian(BigEndian(n, width)) == n
  {
    if width > 0 {
      var s := BigEndian(n, width);
      assert s[..|s| - 1] == BigEndian(n / 256, width - 1);
      FromBigEndianOfBigEndian(n / 256, width - 1);
    }
  }

  /** Every byte string of length w is the big-endian form of exactly one number below 256^w. */
  lemma {:induction false} BigEndianOfFromBigEndian(s: seq<uint8>)
    ensures BigEndian(FromBigEndian(s), |s|) == s
  {
    if s != [] {
      var n := FromBigEndian(s);
      var init := s[..|s| - 1];
      assert n / 256 == FromBigEndian(init) && n % 256 == s[|s| - 1];
      BigEndianOfFromBigEndian(init);
      assert s == init + [s[|s| - 1]];
    }
  }

}
