/**
 * Bytes of a login-accounting file and the fixed-width integers stored in
 * them. Every multi-byte integer of both record layouts is little-endian
 * (the C++ decoder is read on a little-endian host; the Python layout is a
 * LittleEndianStructure).
 */
module Bytes {

  /** One octet of the input file. */
  type uint8 = x: int | 0 <= x < 0x100

  predicate IsU16(v: int) { 0 <= v < 0x1_0000 }
  predicate IsU32(v: int) { 0 <= v < 0x1_0000_0000 }
  predicate IsI16(v: int) { -0x8000 <= v < 0x8000 }
  predicate IsI32(v: int) { -0x8000_0000 <= v < 0x8000_0000 }

  /** The unsigned value of two little-endian bytes. */
  function LoadU16(s: seq<uint8>): (v: int)
    requires |s| == 2
    ensures IsU16(v)
  {
    var b0: int, b1: int := s[0], s[1];
    b0 + 0x100 * b1
  }

  /** The two little-endian bytes of an unsigned 16-bit value. */
  function StoreU16(v: int): (s: seq<uint8>)
    requires IsU16(v)
    ensures |s| == 2 && LoadU16(s) == v
  {
    [v % 0x100, v / 0x100]
  }

  /** The unsigned value of four little-endian bytes. */
  function LoadU32(s: seq<uint8>): (v: int)
    requires |s| == 4
    ensures IsU32(v)
  {
    var b0: int, b1: int, b2: int, b3: int := s[0], s[1], s[2], s[3];
    b0 + 0x100 * b1 + 0x1_0000 * b2 + 0x100_0000 * b3
  }

  /** The four little-endian bytes of an unsigned 32-bit value. */
  function StoreU32(v: int): (s: seq<uint8>)
    requires IsU32(v)
    ensures |s| == 4 && LoadU32(s) == v
  {
    var q1 := v / 0x100;
    var q2 := q1 / 0x100;
    [v % 0x100, q1 % 0x100, q2 % 0x100, q2 / 0x100]
  }

  /** Loading loses nothing: the bytes are recovered from the value. */
  lemma StoreLoadU16(s: seq<uint8>)
    requires |s| == 2
    ensures StoreU16(LoadU16(s)) == s
  {
  }

  lemma StoreLoadU32(s: seq<uint8>)
    requires |s| == 4
    ensures StoreU32(LoadU32(s)) == s
  {
    var v := LoadU32(s);
    var b1: int, b2: int, b3: int := s[1], s[2], s[3];
    assert v / 0x100 == b1 + 0x100 * b2 + 0x1_0000 * b3;
    assert v / 0x100 / 0x100 == b2 + 0x100 * b3;
  }

  /** Two's-complement view of a 16-bit pattern (C `short`). */
  function ToI16(u: int): (i: int)
    requires IsU16(u)
    ensures IsI16(i) && (i < 0 <==> u >= 0x8000) && (i - u) % 0x1_0000 == 0
  {
    if u < 0x8000 then u else u - 0x1_0000
  }

  function FromI16(i: int): (u: int)
    requires IsI16(i)
    ensures IsU16(u) && ToI16(u) == i
  {
    if i < 0 then i + 0x1_0000 else i
  }

  /** Two's-complement view of a 32-bit pattern (C `int32_t`). */
  function ToI32(u: int): (i: int)
    requires IsU32(u)
    ensures IsI32(i) && (i < 0 <==> u >= 0x8000_0000) && (i - u) % 0x1_0000_0000 == 0
  {
    if u < 0x8000_0000 then u else u - 0x1_0000_0000
  }

  function FromI32(i: int): (u: int)
    requires IsI32(i)
    ensures IsU32(u) && ToI32(u) == i
  {
    if i < 0 then i + 0x1_0000_0000 else i
  }

  /** `n` zero bytes: a zero-initialised buffer, or a window that holds no text. */
  function Zeros(n: nat): (z: seq<uint8>)
    ensures |z| == n && forall i :: 0 <= i < n ==> z[i] == 0
  {
    seq(n, _ => 0)
  }

  /** Two sequences that agree on a slice agree at each index of it. */
  lemma AgreeOn(e: seq<uint8>, r: seq<uint8>, lo: nat, hi: nat)
    requires lo <= hi <= |e| && hi <= |r| && e[lo..hi] == r[lo..hi]
    ensures forall i :: lo <= i < hi ==> e[i] == r[i]
  {
    forall i | lo <= i < hi ensures e[i] == r[i] {
      assert e[i] == e[lo..hi][i - lo];
    }
  }

  /** A slice of a slice is a slice of the whole. */
  lemma SliceOfSlice(s: seq<uint8>, lo: nat, hi: nat, i: nat, j: nat)
    requires lo <= hi <= |s| && i <= j <= hi - lo
    ensures s[lo + i..lo + j] == s[lo..hi][i..j]
  {
    assert forall k :: 0 <= k < j - i ==> s[lo + i..lo + j][k] == s[lo..hi][i..j][k];
  }
}
