/** Bytes and the big-endian integer fields shared by the wire protocol and the log. */
module Bytes {

  type byte = x: int | 0 <= x < 0x100
  type u16 = x: int | 0 <= x < 0x1_0000
  type u32 = x: int | 0 <= x < 0x1_0000_0000
  type u64 = x: int | 0 <= x < 0x1_0000_0000_0000_0000

  const MAX_U64: u64 := 0xffff_ffff_ffff_ffff

  /** The largest size_t of the 64-bit targets. */
  const SIZE_MAX: nat := 0xffff_ffff_ffff_ffff

  function PutU16(v: u16): (s: seq<byte>)
    ensures |s| == 2
  {
    [v / 0x100, v % 0x100]
  }

  function PutU32(v: u32): (s: seq<byte>)
    ensures |s| == 4
  {
    PutU16(v / 0x1_0000) + PutU16(v % 0x1_0000)
  }

  function PutU64(v: u64): (s: seq<byte>)
    ensures |s| == 8
  {
    PutU32(v / 0x1_0000_0000) + PutU32(v % 0x1_0000_0000)
  }

  function GetU16(s: seq<byte>): u16
    requires |s| == 2
  {
    var hi: int, lo: int := s[0], s[1];
    hi * 0x100 + lo
  }

  function GetU32(s: seq<byte>): u32
    requires |s| == 4
  {
    var hi: int, lo: int := GetU16(s[..2]), GetU16(s[2..]);
    hi * 0x1_0000 + lo
  }

  function GetU64(s: seq<byte>): u64
    requires |s| == 8
  {
    var hi: int, lo: int := GetU32(s[..4]), GetU32(s[4..]);
    hi * 0x1_0000_0000 + lo
  }

  // Network byte order: the most significant digit comes first.

  lemma U32Order(a: byte, b: byte, c: byte, d: byte)
    ensures 0x100_0000 * a + 0x1_0000 * b + 0x100 * c + d < 0x1_0000_0000
    ensures PutU32(0x100_0000 * a + 0x1_0000 * b + 0x100 * c + d) == [a, b, c, d]
  {
    var v, hi, lo := 0x100_0000 * a + 0x1_0000 * b + 0x100 * c + d, 0x100 * a + b, 0x100 * c + d;
    assert v / 0x1_0000 == hi && v % 0x1_0000 == lo;
    assert PutU16(hi) == [a, b] && PutU16(lo) == [c, d];
  }

  lemma U64Order(hi: u32, lo: u32)
    ensures 0x1_0000_0000 * hi + lo <= MAX_U64
    ensures PutU64(0x1_0000_0000 * hi + lo) == PutU32(hi) + PutU32(lo)
  {
    hide PutU32;
    var v := 0x1_0000_0000 * hi + lo;
    assert v / 0x1_0000_0000 == hi && v % 0x1_0000_0000 == lo;
  }

  // Reading a field back gives the number written, and writing what was read
  // gives back the same bytes.

  lemma U16RoundTrip(v: u16)
    ensures GetU16(PutU16(v)) == v
  {
  }

  lemma U16Canonical(s: seq<byte>)
    requires |s| == 2
    ensures PutU16(GetU16(s)) == s
  {
  }

  lemma U32RoundTrip(v: u32)
    ensures GetU32(PutU32(v)) == v
  {
    var hi, lo := v / 0x1_0000, v % 0x1_0000;
    U16RoundTrip(hi);
    U16RoundTrip(lo);
    assert PutU32(v)[..2] == PutU16(hi) && PutU32(v)[2..] == PutU16(lo);
  }

  lemma U32Canonical(s: seq<byte>)
    requires |s| == 4
    ensures PutU32(GetU32(s)) == s
  {
    U16Canonical(s[..2]);
    U16Canonical(s[2..]);
    var hi: int, lo: int := GetU16(s[..2]), GetU16(s[2..]);
    assert (hi * 0x1_0000 + lo) / 0x1_0000 == hi;
    assert s == s[..2] + s[2..];
  }

  lemma U64RoundTrip(v: u64)
    ensures GetU64(PutU64(v)) == v
  {
    var hi, lo := v / 0x1_0000_0000, v % 0x1_0000_0000;
    U32RoundTrip(hi);
    U32RoundTrip(lo);
    assert PutU64(v)[..4] == PutU32(hi) && PutU64(v)[4..] == PutU32(lo);
  }

  lemma U64Canonical(s: seq<byte>)
    requires |s| == 8
    ensures PutU64(GetU64(s)) == s
  {
    U32Canonical(s[..4]);
    U32Canonical(s[4..]);
    var hi: int, lo: int := GetU32(s[..4]), GetU32(s[4..]);
    assert (hi * 0x1_0000_0000 + lo) / 0x1_0000_0000 == hi;
    assert s == s[..4] + s[4..];
  }
}
