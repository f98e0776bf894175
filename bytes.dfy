/** Fixed-width integers of the host (u32, u64, s32) and their little-endian
    byte images, as the program-cache file stores them. */
module Bytes {

  const U32_LIMIT: int := 0x1_0000_0000
  const U64_LIMIT: int := 0x1_0000_0000_0000_0000

  type u32 = x: int | 0 <= x < 0x1_0000_0000
  type u64 = x: int | 0 <= x < 0x1_0000_0000_0000_0000
  type s32 = x: int | -0x8000_0000 <= x < 0x8000_0000

  /** An octet of a file. */
  type byte = x: int | 0 <= x < 256

  function Min(a: int, b: int): int { if a <= b then a else b }

  /** 256 to the power n: the number of values an n-byte field can hold. */
  function Pow256(n: nat): (r: nat)
    ensures r >= 1
  {
    if n == 0 then 1 else 256 * Pow256(n - 1)
  }

  /** The `width` low-order bytes of `x`, least significant first. */
  function ToLE(x: nat, width: nat): (r: seq<byte>)
    ensures |r| == width
  {
    if width == 0 then [] else [x % 256] + ToLE(x / 256, width - 1)
  }

  /** The number whose little-endian image is `s`. */
  function FromLE(s: seq<byte>): (r: nat)
    ensures r < Pow256(|s|)
  {
    if s == [] then 0 else s[0] + 256 * FromLE(s[1..])
  }

  /** Reading back a field that was written whole gives the value written. */
  lemma {:induction false} FromLEToLE(x: nat, width: nat)
    requires x < Pow256(width)
    ensures FromLE(ToLE(x, width)) == x
  {
    if width > 0 {
      var t := ToLE(x, width);
      assert t[1..] == ToLE(x / 256, width - 1);
      FromLEToLE(x / 256, width - 1);
      calc {
        FromLE(t);
        t[0] + 256 * FromLE(t[1..]);
        x % 256 + 256 * (x / 256);
      }
    }
  }

  lemma DivModByte(x: int, low: int, high: int)
    requires 0 <= low < 256 && x == low + 256 * high
    ensures x % 256 == low && x / 256 == high
  {
  }

  /** A four-byte field read as an unsigned 32-bit value. */
  function DecodeU32(s: seq<byte>): u32
    requires |s| == 4
  {
    assert Pow256(4) == U32_LIMIT;
    FromLE(s)
  }

  /** An eight-byte field read as an unsigned 64-bit value. */
  function DecodeU64(s: seq<byte>): u64
    requires |s| == 8
  {
    assert Pow256(8) == U64_LIMIT;
    FromLE(s)
  }

  /** Decoding the image of a value gives the value. */
  lemma DecodeToLE32(x: u32)
    ensures DecodeU32(ToLE(x, 4)) == x
  {
    assert Pow256(4) == U32_LIMIT;
    FromLEToLE(x, 4);
  }

  lemma DecodeToLE64(x: u64)
    ensures DecodeU64(ToLE(x, 8)) == x
  {
    assert Pow256(8) == U64_LIMIT;
    FromLEToLE(x, 8);
  }

  /** Every byte string is the image of the number it encodes. */
  lemma {:induction false} ToLEFromLE(s: seq<byte>)
    ensures ToLE(FromLE(s), |s|) == s
  {
    if s != [] {
      ToLEFromLE(s[1..]);
      var x, rest := FromLE(s), FromLE(s[1..]);
      DivModByte(x, s[0], rest);
      assert ToLE(x, |s|) == [s[0]] + ToLE(rest, |s| - 1);
    }
  }

  /** A u32 reinterpreted as a two's-complement s32 (the bytes of an s32 field). */
  function AsS32(x: u32): (r: s32)
    ensures r >= 0 <==> x < 0x8000_0000
    ensures r % U32_LIMIT == x
  {
    if x < 0x8000_0000 then x else x - U32_LIMIT
  }

  /** The destination of a read after only `src` arrived: the delivered bytes
      overwrite its start and the rest keeps what it held before. */
  function Overlay(dst: seq<byte>, src: seq<byte>): (r: seq<byte>)
    requires |src| <= |dst|
    ensures |r| == |dst|
    ensures forall i :: 0 <= i < |src| ==> r[i] == src[i]
    ensures forall i :: |src| <= i < |dst| ==> r[i] == dst[i]
  {
    src + dst[|src|..]
  }

  /** Bytes of a zero field are all zero. */
  lemma {:induction false} ToLEZero(width: nat)
    ensures forall i :: 0 <= i < width ==> ToLE(0, width)[i] == 0
  {
    if width > 0 {
      ToLEZero(width - 1);
    }
  }

  /** Zero bytes read as the number 0. */
  lemma {:induction false} FromLEZeros(z: seq<byte>)
    requires forall i :: 0 <= i < |z| ==> z[i] == 0
    ensures FromLE(z) == 0
  {
    if z != [] {
      FromLEZeros(z[1..]);
    }
  }

  /** Zeros past the top of a little-endian number do not change it. */
  lemma {:induction false} FromLEZeroPad(s: seq<byte>, z: seq<byte>)
    requires forall i :: 0 <= i < |z| ==> z[i] == 0
    ensures FromLE(s + z) == FromLE(s)
  {
    if s == [] {
      assert s + z == z;
      FromLEZeros(z);
    } else {
      assert (s + z)[1..] == s[1..] + z;
      FromLEZeroPad(s[1..], z);
    }
  }

  /** A zeroed variable that received only `src` holds the number `src` encodes. */
  lemma OverlayZeros(src: seq<byte>, width: nat)
    requires |src| <= width
    ensures FromLE(Overlay(ToLE(0, width), src)) == FromLE(src)
  {
    ToLEZero(width);
    FromLEZeroPad(src, ToLE(0, width)[|src|..]);
  }

  /** Three bytes or fewer hold a number below 2^24. */
  lemma ShortFieldBound(s: seq<byte>)
    requires |s| <= 3
    ensures FromLE(s) < 0x100_0000
  {
    assert Pow256(3) == 0x100_0000;
    if |s| < 3 {
      assert Pow256(|s|) <= Pow256(2) == 0x1_0000;
    }
  }

  lemma ModSmall(n: int)
    requires 0 <= n < U32_LIMIT
    ensures n % U32_LIMIT == n
  {
  }

  lemma ModBelow(n: nat)
    ensures n % U32_LIMIT <= n
  {
  }

  /** `std::vector::resize`: keep the first `n` elements, pad with zeros. */
  function Resize(v: seq<byte>, n: nat): (r: seq<byte>)
    ensures |r| == n
    ensures forall i :: 0 <= i < n && i < |v| ==> r[i] == v[i]
    ensures forall i :: |v| <= i < n ==> r[i] == 0
  {
    if n <= |v| then v[..n] else v + seq(n - |v|, _ => 0)
  }
}
