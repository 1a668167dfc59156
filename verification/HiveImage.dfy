/** A hive's bytes and the cell map they encode. */
module HiveImage {
  import opened Bytes
  import opened Space

  const DATA_SIZE_FIELD := 0x28
  const HBIN_SIZE_FIELD := 8

  /** The header at `o` holds the cell's signed size. */
  ghost predicate HeaderAt(data: seq<Byte>, cells: Cells, o: int) {
    o in cells ==> 0 <= o && o + 4 <= |data| && GetI32(data, o) == cells[o]
  }

  ghost predicate Backed(data: seq<Byte>, cells: Cells) {
    forall o {:trigger HeaderAt(data, cells, o)} :: HeaderAt(data, cells, o)
  }

  /** An HBIN's signature and size field. */
  predicate BinAt(data: seq<Byte>, b: Bin) {
    && 0 <= b.start && b.start + HBIN_HEADER <= |data|
    && HasSignature(data, b.start)
    && GetU32(data, b.start + HBIN_SIZE_FIELD) == b.end - b.start
  }

  predicate HasSignature(data: seq<Byte>, at: int)
    requires 0 <= at && at + 4 <= |data|
  {
    data[at] == 0x68 && data[at + 1] == 0x62 && data[at + 2] == 0x69 && data[at + 3] == 0x6E
  }

  ghost predicate BinsAt(data: seq<Byte>, bins: seq<Bin>) {
    forall b :: b in bins ==> BinAt(data, b)
  }

  /** A well-formed hive: HBINs back to back up to the end of the file, each exactly tiled, at most 2 GB - 1. */
  ghost predicate Image(data: seq<Byte>, bins: seq<Bin>, cells: Cells) {
    && |data| == HiveEnd(bins) <= MAX_I32
    && Tiles(bins, cells) && Backed(data, cells) && BinsAt(data, bins)
  }

  /** The base block's data size field counts everything behind the base block. */
  predicate SizeFieldOk(data: seq<Byte>) {
    |data| >= 4096 && GetU32(data, DATA_SIZE_FIELD) == |data| - 4096
  }

  ghost predicate Misses(cells: Cells, p: int, x: int) {
    p in cells && p != x ==> p + 4 <= x || x + 4 <= p
  }

  /** Four bytes of cell space that no other cell's header overlaps. */
  ghost predicate Clear(bins: seq<Bin>, cells: Cells, x: int) {
    && (exists b :: b in bins && FirstCell(b) <= x && x + 4 <= b.end)
    && (forall p {:trigger Misses(cells, p, x)} :: Misses(cells, p, x))
  }

  lemma CellIsClear(bins: seq<Bin>, cells: Cells, o: int)
    requires Tiles(bins, cells) && o in cells
    ensures Clear(bins, cells, o)
  {
    var h := House(bins, cells, o);
    assert CellOk(bins, cells, o);
    forall p ensures Misses(cells, p, o) {
      assert Before(cells, p, o) && Before(cells, o, p) && CellOk(bins, cells, p);
    }
  }

  lemma TailIsClear(bins: seq<Bin>, cells: Cells, o: int, need: int)
    requires Tiles(bins, cells) && o in cells && MIN_CELL <= need <= Abs(cells[o]) - MIN_CELL
    ensures Clear(bins, cells, End(o, need))
  {
    var h := House(bins, cells, o);
    forall p ensures Misses(cells, p, End(o, need)) {
      assert Before(cells, p, o) && Before(cells, o, p) && CellOk(bins, cells, p);
    }
  }

  /** Writing one header backs the cell map with that cell set, and nothing else moves. */
  lemma HeaderWritten(data: seq<Byte>, bins: seq<Bin>, cells: Cells, x: int, v: int)
    requires BinsOk(bins) && |data| == HiveEnd(bins) && Backed(data, cells) && BinsAt(data, bins)
    requires Clear(bins, cells, x) && MIN_I32 <= v <= MAX_I32
    ensures 4096 + HBIN_HEADER <= x && x + 4 <= |data|
    ensures Backed(PutI32(data, x, v), cells[x := v]) && BinsAt(PutI32(data, x, v), bins)
    ensures SizeFieldOk(data) ==> SizeFieldOk(PutI32(data, x, v))
  {
    var h :| h in bins && FirstCell(h) <= x && x + 4 <= h.end;
    BinsBelowEnd(bins, h);
    var d, c := PutI32(data, x, v), cells[x := v];
    PutI32Reads(data, x, v);
    forall o ensures HeaderAt(d, c, o) {
      assert HeaderAt(data, cells, o) && Misses(cells, o, x);
      if o in cells && o != x {
        SameBut4Reads(data, d, x, o);
      }
    }
    forall b | b in bins ensures BinAt(d, b) {
      BinsApart(bins, b, h);
      SameBut4Reads(data, d, x, b.start + HBIN_SIZE_FIELD);
    }
    SameBut4Reads(data, d, x, DATA_SIZE_FIELD);
  }

  // ----- Growing the file by one HBIN -----

  /** Everything before the new HBIN is as it was, but for the data size field. */
  ghost predicate Extends(data: seq<Byte>, d: seq<Byte>) {
    && |data| <= |d|
    && forall i :: 0 <= i < |data| && !(DATA_SIZE_FIELD <= i < DATA_SIZE_FIELD + 4) ==> d[i] == data[i]
  }

  function BlankBytes(n: nat): (z: seq<Byte>)
    ensures |z| == n
  {
    seq(n, _ => 0)
  }

  /** Append an HBIN's worth of zeros, and write its signature, its own offset and its size. */
  function WithBinHeader(data: seq<Byte>, size: Word): (d: seq<Byte>)
    requires HBIN_HEADER <= size && 4096 <= |data| && |data| + size <= MAX_I32
  {
    var at := |data|;
    var d := data + BlankBytes(size);
    var d := d[at := 0x68][at + 1 := 0x62][at + 2 := 0x69][at + 3 := 0x6E];
    var d := PutU32(d, at + 4, at - 4096);
    PutU32(d, at + HBIN_SIZE_FIELD, size)
  }

  lemma BinHeaderWritten(data: seq<Byte>, size: Word)
    requires HBIN_HEADER <= size && 4096 <= |data| && |data| + size <= MAX_I32
    ensures var d := WithBinHeader(data, size);
      && |d| == |data| + size && data == d[..|data|]
      && BinAt(d, BinAfter(|data|, size)) && GetU32(d, |data| + 4) == |data| - 4096
  {
    var at := |data|;
    var d0 := data + BlankBytes(size);
    var d1 := d0[at := 0x68][at + 1 := 0x62][at + 2 := 0x69][at + 3 := 0x6E];
    var d2 := PutU32(d1, at + 4, at - 4096);
    PutU32Reads(d1, at + 4, at - 4096);
    PutU32Reads(d2, at + HBIN_SIZE_FIELD, size);
    SameBut4Reads(d2, WithBinHeader(data, size), at + HBIN_SIZE_FIELD, at + 4);
  }

  /** Bytes read the same behind the base block of an extended file. */
  lemma ExtendsReads(data: seq<Byte>, d: seq<Byte>, p: int)
    requires Extends(data, d) && 4096 <= p && p + 4 <= |data|
    ensures GetU32(d, p) == GetU32(data, p) && GetI32(d, p) == GetI32(data, p)
  {
  }

  lemma ExtendsImage(data: seq<Byte>, d: seq<Byte>, bins: seq<Bin>, cells: Cells)
    requires Extends(data, d) && Tiles(bins, cells) && |data| == HiveEnd(bins)
    requires Backed(data, cells) && BinsAt(data, bins)
    ensures Backed(d, cells) && BinsAt(d, bins)
  {
    CellsBelowEnd(bins, cells);
    forall o ensures HeaderAt(d, cells, o) {
      assert HeaderAt(data, cells, o);
      if o in cells { ExtendsReads(data, d, o); }
    }
    forall b | b in bins ensures BinAt(d, b) {
      BinsBelowEnd(bins, b);
      ExtendsReads(data, d, b.start + HBIN_SIZE_FIELD);
    }
  }

  /** BumpDataSize: the data size field counted up, in 32 bits. */
  function Bumped(data: seq<Byte>, delta: Word): seq<Byte>
    requires 4096 <= |data|
  {
    PutU32(data, DATA_SIZE_FIELD, (GetU32(data, DATA_SIZE_FIELD) + delta) % 0x1_0000_0000)
  }

  lemma BumpedKeeps(data: seq<Byte>, delta: Word)
    requires 4096 <= |data|
    ensures |Bumped(data, delta)| == |data| && Extends(data, Bumped(data, delta))
    ensures GetU32(Bumped(data, delta), DATA_SIZE_FIELD) == (GetU32(data, DATA_SIZE_FIELD) + delta) % 0x1_0000_0000
  {
    PutU32Reads(data, DATA_SIZE_FIELD, (GetU32(data, DATA_SIZE_FIELD) + delta) % 0x1_0000_0000);
  }

  /** The new HBIN with its header and its one free cell, before the size field is counted up. */
  function WithBin(data: seq<Byte>, size: Word): (d: seq<Byte>)
    requires HBIN_HEADER + 4 <= size && 4096 <= |data| && |data| + size <= MAX_I32
    ensures |d| == |data| + size
  {
    BinHeaderWritten(data, size);
    PutI32(WithBinHeader(data, size), |data| + HBIN_HEADER, size - HBIN_HEADER)
  }

  lemma WithBinKeeps(data: seq<Byte>, size: Word)
    requires HBIN_HEADER + 4 <= size && 4096 <= |data| && |data| + size <= MAX_I32
    ensures var d, b := WithBin(data, size), BinAfter(|data|, size);
      data == d[..|data|] && BinAt(d, b) && GetI32(d, FirstCell(b)) == size - HBIN_HEADER
  {
    BinHeaderWritten(data, size);
    var d0, f := WithBinHeader(data, size), |data| + HBIN_HEADER;
    PutI32Reads(d0, f, size - HBIN_HEADER);
    SameBut4Reads(d0, WithBin(data, size), f, |data| + HBIN_SIZE_FIELD);
    assert forall i :: 0 <= i < |data| ==> d0[..|data|][i] == d0[i];
  }

  /** The bytes of a hive grown by one HBIN. */
  function GrownBytes(data: seq<Byte>, size: Word): seq<Byte>
    requires HBIN_HEADER + 4 <= size && 4096 <= |data| && |data| + size <= MAX_I32
  {
    Bumped(WithBin(data, size), size)
  }

  lemma GrownExtends(data: seq<Byte>, size: Word)
    requires HBIN_HEADER + 4 <= size && 4096 <= |data| && |data| + size <= MAX_I32
    ensures var d, b := GrownBytes(data, size), BinAfter(|data|, size);
      && |d| == b.end && Extends(data, d)
      && BinAt(d, b) && GetI32(d, FirstCell(b)) == b.end - FirstCell(b)
  {
    var d1 := WithBin(data, size);
    WithBinKeeps(data, size);
    BumpedKeeps(d1, size);
    ExtendsReads(d1, GrownBytes(data, size), |data| + HBIN_SIZE_FIELD);
    ExtendsReads(d1, GrownBytes(data, size), |data| + HBIN_HEADER);
    assert forall i :: 0 <= i < |data| ==> d1[..|data|][i] == d1[i];
  }

  lemma GrownSizeField(data: seq<Byte>, size: Word)
    requires HBIN_HEADER + 4 <= size && 4096 <= |data| && |data| + size <= MAX_I32 && SizeFieldOk(data)
    ensures SizeFieldOk(GrownBytes(data, size))
  {
    WithBinKeeps(data, size);
    PrefixReads(data, WithBin(data, size), DATA_SIZE_FIELD);
    BumpedCounts(WithBin(data, size), size, |data| - 4096);
  }

  lemma BumpedCounts(data: seq<Byte>, delta: Word, was: int)
    requires 4096 <= |data| && GetU32(data, DATA_SIZE_FIELD) == was && 0 <= was + delta <= MAX_I32
    ensures |Bumped(data, delta)| == |data| && GetU32(Bumped(data, delta), DATA_SIZE_FIELD) == was + delta
  {
    BumpedKeeps(data, delta);
  }

  lemma PrefixReads(data: seq<Byte>, d: seq<Byte>, p: int)
    requires |data| <= |d| && data == d[..|data|] && 0 <= p && p + 4 <= |data|
    ensures GetU32(d, p) == GetU32(data, p)
  {
    assert forall i :: 0 <= i < |data| ==> data[i] == d[i];
  }

  lemma GrownImage(data: seq<Byte>, bins: seq<Bin>, cells: Cells, size: Word)
    requires Image(data, bins, cells) && size % 4096 == 0 && 4096 <= size && |data| + size <= MAX_I32
    ensures 4096 <= |data|
    ensures var b := BinAfter(|data|, size);
      NextBin(bins, b) && Image(GrownBytes(data, size), bins + [b], Opened(cells, b))
    ensures Extends(data, GrownBytes(data, size)) && (SizeFieldOk(data) ==> SizeFieldOk(GrownBytes(data, size)))
  {
    NextBinIs(bins, size);
    GrownExtends(data, size);
    if SizeFieldOk(data) {
      GrownSizeField(data, size);
    }
    ExtendedImage(data, GrownBytes(data, size), bins, cells, BinAfter(|data|, size));
  }

  lemma ExtendedImage(data: seq<Byte>, d: seq<Byte>, bins: seq<Bin>, cells: Cells, b: Bin)
    requires Image(data, bins, cells) && Extends(data, d) && NextBin(bins, b) && |d| == b.end <= MAX_I32
    requires BinAt(d, b) && GetI32(d, FirstCell(b)) == b.end - FirstCell(b)
    ensures Image(d, bins + [b], Opened(cells, b))
  {
    ExtendsImage(data, d, bins, cells);
    OpenedTiles(bins, cells, b);
    OpenedBacked(d, cells, b);
    forall x | x in bins + [b] ensures BinAt(d, x) {
    }
  }

  lemma OpenedBacked(d: seq<Byte>, cells: Cells, b: Bin)
    requires Backed(d, cells) && 0 <= FirstCell(b) && FirstCell(b) + 4 <= |d|
    requires GetI32(d, FirstCell(b)) == b.end - FirstCell(b)
    ensures Backed(d, Opened(cells, b))
  {
    forall o ensures HeaderAt(d, Opened(cells, b), o) {
      assert HeaderAt(d, cells, o);
    }
  }

  lemma NextBinIs(bins: seq<Bin>, size: int)
    requires BinsOk(bins) && size % 4096 == 0 && 4096 <= size
    ensures 4096 <= HiveEnd(bins) && NextBin(bins, BinAfter(HiveEnd(bins), size))
  {
    if |bins| > 0 {
      BinsBelowEnd(bins, bins[|bins| - 1]);
    }
  }
}
