/** Machine-width integers and their big-endian byte fields. */
module Bytes {

  type byte = x: int | 0 <= x < 0x100
  type u16 = x: int | 0 <= x < 0x1_0000
  type u32 = x: int | 0 <= x < 0x1_0000_0000

  function U16FromBytes(hi: byte, lo: byte): u16 {
    0x100 * hi + lo
  }

  function U32FromBytes(b3: byte, b2: byte, b1: byte, b0: byte): u32 {
    0x100_0000 * b3 + 0x1_0000 * b2 + 0x100 * b1 + b0
  }

  /** The cast of a size to 32 bits. */
  function Truncate32(n: nat): u32 {
    n % 0x1_0000_0000
  }

  lemma Truncation(n: nat)
    ensures Truncate32(n) == n <==> n < 0x1_0000_0000
  {
  }

  /** The byte of `v` selected by a mask of eight bits and a right shift by `8 * i`. */
  function ByteAt(v: u32, i: nat): byte
    requires i < 4
  {
    match i
    case 0 => v % 0x100
    case 1 => v / 0x100 % 0x100
    case 2 => v / 0x1_0000 % 0x100
    case 3 => v / 0x100_0000
  }

  /** Splitting a 16-bit field into its bytes loses nothing. */
  lemma U16RoundTrip(v: u16)
    ensures U16FromBytes(ByteAt(v, 1), ByteAt(v, 0)) == v
  {
  }

  /** Splitting a 32-bit field into its bytes loses nothing. */
  lemma U32RoundTrip(v: u32)
    ensures U32FromBytes(ByteAt(v, 3), ByteAt(v, 2), ByteAt(v, 1), ByteAt(v, 0)) == v
  {
    assert v / 0x100 == 0x100 * (v / 0x1_0000) + v / 0x100 % 0x100;
    assert v / 0x1_0000 == 0x100 * (v / 0x100_0000) + v / 0x1_0000 % 0x100;
  }

  /** `std::vector::resize`: keeps the common prefix and fills with zeroes. */
  function Resize(s: seq<byte>, n: nat): (r: seq<byte>)
    ensures |r| == n
    ensures forall i :: 0 <= i < n ==> r[i] == if i < |s| then s[i] else 0
  {
    if n <= |s| then s[..n] else s + seq(n - |s|, _ => 0)
  }
}
