/** The iterators that seed the free lists: hive/hbin.go and hive/cell_iter.go. */
module HiveIter {
  import opened Bytes
  import opened Space
  import opened HiveImage

  datatype Scan<T> = Item(value: T) | Eof | Corrupt

  /** Strictly parses one HBIN header: signature, size, alignment, bounds. */
  function ParseHBINAt(data: seq<Byte>, abs: int): (r: Scan<Bin>)
    requires 0 <= abs
    ensures r.Item? ==> BinAt(data, r.value) && r.value.start == abs && abs < r.value.end <= |data|
    ensures r.Item? ==> abs % 4096 == 0 && r.value.end % 4096 == 0
    ensures !r.Eof?
  {
    if abs + HBIN_HEADER > |data| || !HasSignature(data, abs) then Corrupt
    else
      var sz := GetU32(data, abs + HBIN_SIZE_FIELD);
      if sz == 0 || abs % 4096 != 0 || sz % 4096 != 0 || abs + sz > |data| then Corrupt
      else Item(Bin(abs, abs + sz))
  }

  /** What lies at the cursor. Bytes that do not start an HBIN end the iteration; a broken one is an error. */
  function HBINAt(data: seq<Byte>, next: int): Scan<Bin>
    requires 0 <= next
  {
    if next + HBIN_HEADER > |data| || !HasSignature(data, next) then Eof else ParseHBINAt(data, next)
  }

  /** An aligned HBIN inside the file is recognised for exactly what it is. */
  lemma HBINRecognised(data: seq<Byte>, b: Bin)
    requires BinAt(data, b) && b.start % 4096 == 0 && b.end % 4096 == 0 && b.start < b.end <= |data|
    ensures HBINAt(data, b.start) == Item(b)
  {
    assert (b.end - b.start) % 4096 == 0;
  }

  class HBINIterator {
    const data: seq<Byte>
    var next: nat
    var done: bool

    constructor (data: seq<Byte>)
      ensures this.data == data && next == 4096 && !done
    {
      this.data, next, done := data, 4096, false;
    }

    method Next() returns (r: Scan<Bin>)
      modifies this
      ensures r == if old(done) then Eof else HBINAt(data, old(next))
      ensures r.Item? ==> if r.value.end >= |data| then done else !done && next == r.value.end
      ensures !r.Item? ==> done
    {
      if done {
        return Eof;
      }
      r := HBINAt(data, next);
      if !r.Item? || r.value.end >= |data| {
        done := true;
      } else {
        next := r.value.end;
      }
    }
  }

  /** Where the cell after the one at `off` starts. */
  function NextOff(off: int, raw: int): int {
    Align8(off + Abs(raw))
  }

  datatype RawCell = RawCell(off: int, size: int)

  class CellIterator {
    const buf: seq<Byte>  // one HBIN, header included
    var off: int
    var done: bool

    constructor (buf: seq<Byte>)
      ensures this.buf == buf && off == HBIN_HEADER && !done
    {
      this.buf, off, done := buf, HBIN_HEADER, false;
    }

    /** The cell at the cursor. A zero or overflowing size is corruption in the first cell and the end of the
        cells anywhere else. */
    method Next() returns (r: Scan<RawCell>)
      requires 0 <= off
      modifies this
      ensures old(done) ==> r == Eof
      ensures !r.Item? ==> done
      ensures !old(done) && old(off) < |buf| < old(off) + 4 ==> r.Corrupt?
      ensures !old(done) && old(off) + 4 <= |buf| ==> (r.Corrupt? <==>
          old(off) == HBIN_HEADER && !(0 < Abs(GetI32(buf, old(off))) <= |buf| - old(off)))
      ensures old(done) || |buf| <= old(off) ==> r.Eof?
      ensures r.Item? ==> !old(done) && r.value.off == old(off) && old(off) + 4 <= |buf|
      ensures r.Item? ==> r.value.size == GetI32(buf, old(off)) && old(off) + Abs(r.value.size) <= |buf|
      ensures r.Item? ==> r.value.size != 0 && off >= 0
      ensures r.Item? && !done ==> off == NextOff(old(off), r.value.size) <= |buf|
      ensures r.Item? && done ==> NextOff(old(off), r.value.size) > |buf|
      ensures !old(done) && old(off) + 4 <= |buf| && 0 < Abs(GetI32(buf, old(off))) <= |buf| - old(off) ==> r.Item?
    {
      if done || off >= |buf| {
        done := true;
        return Eof;
      }
      if off + 4 > |buf| {
        done := true;
        return Corrupt;
      }
      var raw := GetI32(buf, off);
      var size := Abs(raw);
      if size == 0 || off + size > |buf| {
        done := true;
        return if off == HBIN_HEADER then Corrupt else Eof;
      }
      r := Item(RawCell(off, raw));
      var nextOff := NextOff(off, raw);
      if nextOff > |buf| {
        done := true;
      } else {
        off := nextOff;
      }
    }
  }
}
