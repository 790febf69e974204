/** Machine integers and native (little-endian) field access on byte buffers.
    Every Darwin target the crate builds for (x86_64, arm64) is little-endian,
    so "native order" reads the least significant byte first. */
module Bytes {

  type uint8 = x: int | 0 <= x < 0x100
  type uint16 = x: int | 0 <= x < 0x1_0000
  type uint32 = x: int | 0 <= x < 0x1_0000_0000
  type int32 = x: int | -0x8000_0000 <= x < 0x8000_0000

  /** The 16-bit value stored at `b[at..at+2]`, least significant byte first. */
  function ReadU16(b: seq<uint8>, at: nat): uint16
    requires at + 2 <= |b|
  {
    b[at] as int + 0x100 * (b[at + 1] as int)
  }

  /** The two bytes that store `v` in native order. */
  function U16Bytes(v: uint16): (r: seq<uint8>)
    ensures |r| == 2
    ensures ReadU16(r, 0) == v
  {
    [v % 0x100, v / 0x100]
  }

  /** The 32-bit value stored at `b[at..at+4]`: low half first. */
  function ReadU32(b: seq<uint8>, at: nat): uint32
    requires at + 4 <= |b|
  {
    ReadU16(b, at) + 0x1_0000 * ReadU16(b, at + 2)
  }

  /** The four bytes that store `v` in native order. */
  function U32Bytes(v: uint32): (r: seq<uint8>)
    ensures |r| == 4
    ensures ReadU32(r, 0) == v
  {
    var r := U16Bytes(v % 0x1_0000) + U16Bytes(v / 0x1_0000);
    assert ReadU16(r, 2) == ReadU16(U16Bytes(v / 0x1_0000), 0);
    r
  }

  /** Reading a field back from its stored bytes loses nothing: the bytes
      are determined by the value read from them. */
  lemma U16BytesOfRead(b: seq<uint8>, at: nat)
    requires at + 2 <= |b|
    ensures U16Bytes(ReadU16(b, at)) == b[at..at + 2]
  {
    var v := ReadU16(b, at);
    assert v % 0x100 == b[at] && v / 0x100 == b[at + 1];
  }

  lemma U32BytesOfRead(b: seq<uint8>, at: nat)
    requires at + 4 <= |b|
    ensures U32Bytes(ReadU32(b, at)) == b[at..at + 4]
  {
    var v := ReadU32(b, at);
    var lo, hi := ReadU16(b, at), ReadU16(b, at + 2);
    assert v % 0x1_0000 == lo && v / 0x1_0000 == hi;
    U16BytesOfRead(b, at);
    U16BytesOfRead(b, at + 2);
    assert b[at..at + 4] == b[at..at + 2] + b[at + 2..at + 4];
  }

  /** Reading at an offset inside a concatenation reads the part that holds it. */
  lemma ReadU16Shift(a: seq<uint8>, b: seq<uint8>, at: nat)
    requires at + 2 <= |b|
    ensures ReadU16(a + b, |a| + at) == ReadU16(b, at)
  {
    assert (a + b)[|a| + at] == b[at];
    assert (a + b)[|a| + at + 1] == b[at + 1];
  }

  lemma ReadU32Shift(a: seq<uint8>, b: seq<uint8>, at: nat)
    requires at + 4 <= |b|
    ensures ReadU32(a + b, |a| + at) == ReadU32(b, at)
  {
    ReadU16Shift(a, b, at);
    ReadU16Shift(a, b, at + 2);
  }

  lemma ReadU16Prefix(a: seq<uint8>, b: seq<uint8>, at: nat)
    requires at + 2 <= |a|
    ensures ReadU16(a + b, at) == ReadU16(a, at)
  {
    assert (a + b)[at] == a[at];
    assert (a + b)[at + 1] == a[at + 1];
  }

  lemma ReadU32Prefix(a: seq<uint8>, b: seq<uint8>, at: nat)
    requires at + 4 <= |a|
    ensures ReadU32(a + b, at) == ReadU32(a, at)
  {
    ReadU16Prefix(a, b, at);
    ReadU16Prefix(a, b, at + 2);
  }

  /** Two's-complement reinterpretation of a 32-bit word as `i32`. */
  function AsI32(u: uint32): (s: int32)
    ensures AsU32(s) == u
  {
    if u < 0x8000_0000 then u else u - 0x1_0000_0000
  }

  /** Two's-complement reinterpretation of an `i32` as a 32-bit word. */
  function AsU32(s: int32): (u: uint32)
    ensures u % 0x1_0000_0000 == s % 0x1_0000_0000
  {
    if 0 <= s then s else s + 0x1_0000_0000
  }

  /** `n` zero bytes. */
  function Zeros(n: nat): (r: seq<uint8>)
    ensures |r| == n
    ensures forall i :: 0 <= i < n ==> r[i] == 0
  {
    seq(n, i => 0)
  }
}
