/** Little-endian integers in a hive's byte buffer, and the alignment helpers every cell size goes through. */
module Bytes {
  type Byte = x: int | 0 <= x < 256
  type Word = x: int | 0 <= x < 0x1_0000_0000
  type Half = x: int | 0 <= x < 0x1_0000

  const MAX_I32 := 0x7FFF_FFFF
  const MIN_I32 := -0x8000_0000

  /** Rounds up to the next multiple of 8, as every cell size is. */
  function Align8(n: int): (r: int)
    ensures r % 8 == 0 && n <= r < n + 8
  {
    (n + 7) / 8 * 8
  }

  lemma AlignedIs(n: int)
    requires n % 8 == 0
    ensures Align8(n) == n
  {
  }

  /** Rounds up to the next multiple of 4096, as every HBIN size is. */
  function AlignHbin(n: int): (r: int)
    ensures r % 4096 == 0 && n <= r < n + 4096
  {
    (n + 4095) / 4096 * 4096
  }

  /** Where a cell ends: the keys of the end map, one without and one with the code's own rounding. */
  function End(off: int, size: int): int {
    off + size
  }

  function AlignedEnd(off: int, size: int): int {
    off + Align8(size)
  }

  function Abs(v: int): int {
    if v < 0 then -v else v
  }

  function GetU32(data: seq<Byte>, off: int): Word
    requires 0 <= off && off + 4 <= |data|
  {
    var b0: int, b1: int, b2: int, b3: int := data[off], data[off + 1], data[off + 2], data[off + 3];
    b0 + 0x100 * b1 + 0x1_0000 * b2 + 0x100_0000 * b3
  }

  function GetU16(data: seq<Byte>, off: int): Half
    requires 0 <= off && off + 2 <= |data|
  {
    var b0: int, b1: int := data[off], data[off + 1];
    b0 + 0x100 * b1
  }

  function PutU32(data: seq<Byte>, off: int, v: Word): seq<Byte>
    requires 0 <= off && off + 4 <= |data|
  {
    data[off := v % 0x100][off + 1 := v / 0x100 % 0x100][off + 2 := v / 0x1_0000 % 0x100][off + 3 := v / 0x100_0000]
  }

  /** The two's complement reading of a 32-bit word. */
  function GetI32(data: seq<Byte>, off: int): (v: int)
    requires 0 <= off && off + 4 <= |data|
    ensures MIN_I32 <= v <= MAX_I32
  {
    var u := GetU32(data, off);
    if u > MAX_I32 then u - 0x1_0000_0000 else u
  }

  function PutI32(data: seq<Byte>, off: int, v: int): seq<Byte>
    requires 0 <= off && off + 4 <= |data|
    requires MIN_I32 <= v <= MAX_I32
  {
    PutU32(data, off, if v < 0 then v + 0x1_0000_0000 else v)
  }

  /** Two buffers of one length that differ at most in the four bytes at `off`. */
  ghost predicate SameBut4(a: seq<Byte>, b: seq<Byte>, off: int) {
    |a| == |b| && forall i :: 0 <= i < |a| && !(off <= i < off + 4) ==> a[i] == b[i]
  }

  lemma PutU32Reads(data: seq<Byte>, off: int, v: Word)
    requires 0 <= off && off + 4 <= |data|
    ensures SameBut4(data, PutU32(data, off, v), off)
    ensures GetU32(PutU32(data, off, v), off) == v
  {
    var d := PutU32(data, off, v);
    assert d[off] == v % 0x100 && d[off + 1] == v / 0x100 % 0x100
        && d[off + 2] == v / 0x1_0000 % 0x100 && d[off + 3] == v / 0x100_0000;
    assert v / 0x100 == v / 0x1_0000 * 0x100 + v / 0x100 % 0x100;
    assert v / 0x1_0000 == v / 0x100_0000 * 0x100 + v / 0x1_0000 % 0x100;
  }

  /** A signed word reads back, and a word anywhere else reads as before. */
  lemma PutI32Reads(data: seq<Byte>, off: int, v: int)
    requires 0 <= off && off + 4 <= |data|
    requires MIN_I32 <= v <= MAX_I32
    ensures SameBut4(data, PutI32(data, off, v), off)
    ensures GetI32(PutI32(data, off, v), off) == v
  {
    PutU32Reads(data, off, if v < 0 then v + 0x1_0000_0000 else v);
  }

  lemma SameBut4Reads(a: seq<Byte>, b: seq<Byte>, off: int, p: int)
    requires SameBut4(a, b, off)
    requires 0 <= p && p + 4 <= |a| && (p + 4 <= off || off + 4 <= p)
    ensures GetU32(a, p) == GetU32(b, p) && GetI32(a, p) == GetI32(b, p)
  {
  }

  lemma SliceReads(data: seq<Byte>, lo: int, hi: int, off: int)
    requires 0 <= lo <= hi <= |data| && 0 <= off && off + 4 <= hi - lo
    ensures GetI32(data[lo..hi], off) == GetI32(data, lo + off)
  {
  }
}
