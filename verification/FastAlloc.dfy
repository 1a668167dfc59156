/** The cell allocator of hive/alloc/fastalloc.go over a hive's bytes. */
module FastAlloc {
  import opened Bytes
  import opened SizeClasses
  import opened Space
  import opened HiveImage
  import opened LargeList
  import opened FreeIndex
  import opened AllocSteps
  import opened HiveIter

  /** The end map agrees with the free cells except for the cell at `off`, which is between two owners. */
  ghost predicate EndsBut(endIdx: map<int, int>, cells: Cells, off: int)
    requires off in cells
  {
    Ends(Without(endIdx, Stop(cells, off)), Without(FreePart(cells), off))
  }

  /** The end map names the cell at `off`, or nothing, where that cell stops. */
  ghost predicate NamesOnly(endIdx: map<int, int>, cells: Cells, off: int)
    requires off in cells
  {
    Stop(cells, off) in endIdx ==> endIdx[Stop(cells, off)] == off
  }

  lemma FreeEnds(bins: seq<Bin>, cells: Cells, endIdx: map<int, int>, off: int)
    requires Tiles(bins, cells) && IsFree(cells, off) && Ends(endIdx, FreePart(cells))
    ensures EndsBut(endIdx, cells, off) && EndsBut(Without(endIdx, Stop(cells, off)), cells, off)
    ensures NamesOnly(endIdx, cells, off) && NamesOnly(Without(endIdx, Stop(cells, off)), cells, off)
  {
    EndsRemove(endIdx, FreePart(cells), off);
    var e := Stop(cells, off);
    assert Without(Without(endIdx, e), e) == Without(endIdx, e);
  }

  /** A cell freed but not yet listed leaves the end map of the others alone. */
  lemma FlippedEnds(bins: seq<Bin>, cells: Cells, endIdx: map<int, int>, off: int)
    requires Tiles(bins, cells) && Live(cells, off) && Ends(endIdx, FreePart(cells))
    ensures Stop(Flipped(cells, off), off) !in endIdx
    ensures FreePart(cells) == Without(FreePart(Flipped(cells, off)), off)
  {
    var c, e := Flipped(cells, off), Stop(cells, off);
    if e in endIdx {
      OneStop(bins, cells, endIdx[e], off);
    }
    assert FreePart(cells) == Without(FreePart(c), off);
  }

  /** Merging two neighbours, one of them in no list, takes the other's end along and no more. */
  lemma MergedEnds(bins: seq<Bin>, cells: Cells, endIdx: map<int, int>, a: int, b: int, cur: int, other: int)
    requires Tiles(bins, cells) && IsFree(cells, a) && IsFree(cells, b) && Stop(cells, a) == b
    requires (cur == a && other == b) || (cur == b && other == a)
    requires Ends(endIdx, Without(FreePart(cells), cur)) && Stop(cells, cur) !in endIdx
    ensures a != b
    ensures var c, x := Merged(cells, a, b), Without(endIdx, End(other, cells[other]));
      && Stop(c, a) !in x && Ends(x, Without(FreePart(c), a))
      && Without(FreePart(c), a) == Without(Without(FreePart(cells), cur), other)
  {
    MergedHoused(bins, cells, a, b);
    EndsRemove(endIdx, Without(FreePart(cells), cur), other);
    assert Without(FreePart(Merged(cells, a, b)), a) == Without(Without(FreePart(cells), cur), other);
  }

  /** The end map finds the free cell that stops where the freed one starts, exactly when there is one. */
  lemma PredecessorFound(bins: seq<Bin>, before: Cells, endIdx: map<int, int>, off: int)
    requires Tiles(bins, before) && Live(before, off)
    requires Ends(endIdx, Without(FreePart(FreedForward(before, off)), off))
    ensures off !in endIdx ==> BlockStart(before, off) == off
    ensures off in endIdx ==> endIdx[off] == BlockStart(before, off) != off
    ensures off in endIdx ==> StopsAt(FreedForward(before, off), endIdx[off], off)
  {
    var c := FreedForward(before, off);
    FreedForwardTiles(bins, before, off);
    if off in endIdx {
      var p := endIdx[off];
      assert StopsAt(c, p, off) && p != off;
      StopsBefore(bins, c, p, off);
      OneStopsAt(bins, before, p, BlockStart(before, off), off);
    } else {
      forall p ensures !StopsAt(before, p, off) {
        if StopsAt(before, p, off) {
          StopsBefore(bins, before, p, off);
          if StopsAt(c, p, off) && p in Without(FreePart(c), off) {
            assert false;
          }
          assert false;
        }
      }
    }
  }

  /** Two cells with one stop are one cell. */
  lemma OneStop(bins: seq<Bin>, cells: Cells, p: int, q: int)
    requires Tiles(bins, cells) && p in cells && q in cells && Stop(cells, p) == Stop(cells, q)
    ensures p == q
  {
    assert Before(cells, p, q) && Before(cells, q, p) && CellOk(bins, cells, p) && CellOk(bins, cells, q);
  }

  /** Passing a cell lists it if it is free, and its end is new. */
  lemma BelowFree(bins: seq<Bin>, cells: Cells, endIdx: map<int, int>, o: int)
    requires Tiles(bins, cells) && o in cells && Ends(endIdx, FreePart(Below(cells, o)))
    ensures cells[o] > 0 ==>
      && FreePart(Below(cells, Stop(cells, o))) == FreePart(Below(cells, o))[o := cells[o]]
      && Ends(endIdx[End(o, cells[o]) := o], FreePart(Below(cells, Stop(cells, o))))
    ensures cells[o] < 0 ==> FreePart(Below(cells, Stop(cells, o))) == FreePart(Below(cells, o))
  {
    CellBytes(bins, cells, o);
    BelowStop(cells, o);
    var listed, e := FreePart(Below(cells, o)), Stop(cells, o);
    if cells[o] > 0 {
      forall k | k in listed ensures End(k, listed[k]) != e {
        assert Before(cells, k, o);
      }
      assert Without(endIdx, e) == endIdx;
      EndsInsert(endIdx, listed, o, cells[o]);
    }
  }

  /** In a well-formed hive the HBIN iterator finds the next HBIN where the last one ends. */
  lemma NextIsNext(data: seq<Byte>, bs: seq<Bin>, cells: Cells, k: int)
    requires Image(data, bs, cells) && 0 <= k < |bs|
    ensures HBINAt(data, HiveEnd(bs[..k])) == Item(bs[k]) && bs[k].start == HiveEnd(bs[..k])
    ensures bs[k].end <= |data| && (bs[k].end == |data| <==> k == |bs| - 1)
    ensures bs[k].end == HiveEnd(bs[..k + 1])
  {
    assert bs[k] in bs;
    BinsBelowEnd(bs, bs[k]);
    HBINRecognised(data, bs[k]);
    if k < |bs| - 1 {
      BinsSorted(bs, k, |bs| - 1);
    }
  }

  function At(b: Bin, off: int): int {
    b.start + off
  }

  /** In a well-formed hive the cell iterator reads each cell of an HBIN and steps to the next. */
  lemma CellReads(data: seq<Byte>, bs: seq<Bin>, cells: Cells, b: Bin, off: int)
    requires Image(data, bs, cells) && b in bs && At(b, off) in cells && 0 <= off < b.end - b.start
    ensures b.end <= |data| && FirstCell(b) <= At(b, off) && off + 4 <= b.end - b.start
    ensures GetI32(data[b.start..b.end], off) == cells[At(b, off)]
    ensures off < NextOff(off, cells[At(b, off)]) == off + Abs(cells[At(b, off)]) <= b.end - b.start
    ensures At(b, NextOff(off, cells[At(b, off)])) == Stop(cells, At(b, off))
    ensures Stop(cells, At(b, off)) in cells || Stop(cells, At(b, off)) == b.end
  {
    var at := At(b, off);
    BinsBelowEnd(bs, b);
    SuccessorInBin(bs, cells, at, b);
    CellBytes(bs, cells, at);
    NextIsStop(b, off, cells[at]);
    HeaderReads(data, cells, b, off);
  }

  lemma HeaderReads(data: seq<Byte>, cells: Cells, b: Bin, off: int)
    requires Backed(data, cells) && At(b, off) in cells && 0 <= b.start && 0 <= off
    requires off + 4 <= b.end - b.start && b.end <= |data|
    ensures GetI32(data[b.start..b.end], off) == cells[At(b, off)]
  {
    assert HeaderAt(data, cells, At(b, off));
    SliceReads(data, b.start, b.end, off);
  }

  lemma NextIsStop(b: Bin, off: int, raw: int)
    requires b.start % 8 == 0 && At(b, off) % 8 == 0 && Abs(raw) % 8 == 0
    ensures NextOff(off, raw) == off + Abs(raw) && At(b, NextOff(off, raw)) == End(At(b, off), Abs(raw))
  {
    assert off == At(b, off) - b.start;
    AlignedIs(off + Abs(raw));
  }

  /** A new HBIN's free cell is in no list and stops past every other cell. */
  lemma OpenedDetached(bins: seq<Bin>, cells: Cells, endIdx: map<int, int>, b: Bin)
    requires Tiles(bins, cells) && NextBin(bins, b) && Ends(endIdx, FreePart(cells))
    ensures var c, f := Opened(cells, b), FirstCell(b);
      IsFree(c, f) && FreePart(cells) == Without(FreePart(c), f) && EndsBut(endIdx, c, f)
  {
    var c, f := Opened(cells, b), FirstCell(b);
    OpenedTiles(bins, cells, b);
    CellsBelowEnd(bins, cells);
    assert FreePart(cells) == Without(FreePart(c), f);
    assert Stop(c, f) == b.end;
    forall k | k in FreePart(cells) ensures End(k, FreePart(cells)[k]) != b.end {
      assert Stop(cells, k) <= HiveEnd(bins);
    }
    assert Without(endIdx, b.end) == endIdx;
  }

  lemma SmallCells(data: seq<Byte>, bins: seq<Bin>, cells: Cells)
    requires Image(data, bins, cells)
    ensures forall o :: o in FreePart(cells) ==> FreePart(cells)[o] < MAX_I32
  {
    CellsBelowEnd(bins, cells);
  }

  lemma MergedWritten(data: seq<Byte>, bins: seq<Bin>, cells: Cells, a: int, b: int, size: int)
    requires Image(data, bins, cells) && IsFree(cells, a) && IsFree(cells, b) && Stop(cells, a) == b
    requires size == cells[a] + cells[b]
    ensures 0 <= a && a + 4 <= |data| && 0 < size <= MAX_I32
    ensures var d := PutI32(data, a, size);
      && Backed(d, Merged(cells, a, b)) && BinsAt(d, bins) && SameBut4(data, d, a)
      && (SizeFieldOk(data) ==> SizeFieldOk(d))
  {
    CellsBelowEnd(bins, cells);
    CellIsClear(bins, cells, a);
    HeaderWritten(data, bins, cells, a, size);
    PutI32Reads(data, a, size);
    var d := PutI32(data, a, size);
    forall o ensures HeaderAt(d, Merged(cells, a, b), o) {
      assert HeaderAt(d, cells[a := size], o);
    }
  }

  lemma SplitWritten(data: seq<Byte>, bins: seq<Bin>, cells: Cells, off: int, need: int, rem: int)
    requires Image(data, bins, cells) && IsFree(cells, off) && need % 8 == 0
    requires MIN_CELL <= need && MIN_CELL <= rem == cells[off] - need
    ensures var t, c := End(off, need), Taken(cells, off, need);
      && 0 <= off && off + 4 <= t && t + 4 <= |data| && cells[off] <= MAX_I32
      && var d := PutI32(PutI32(data, off, -need), t, rem);
      && Backed(d, c) && BinsAt(d, bins) && OnlyHeaders(data, d, off, t)
      && (SizeFieldOk(data) ==> SizeFieldOk(d))
  {
    var t := End(off, need);
    CellsBelowEnd(bins, cells);
    CellIsClear(bins, cells, off);
    TailIsClear(bins, cells, off, need);
    HeaderWritten(data, bins, cells, off, -need);
    var d, c := PutI32(data, off, -need), cells[off := -need];
    PutI32Reads(data, off, -need);
    forall p ensures Misses(c, p, t) { assert Misses(cells, p, t); }
    HeaderWritten(d, bins, c, t, rem);
    PutI32Reads(d, t, rem);
  }

  lemma SplitDetached(bins: seq<Bin>, cells: Cells, endIdx: map<int, int>, off: int, need: int)
    requires Tiles(bins, cells) && IsFree(cells, off) && EndsBut(endIdx, cells, off) && need % 8 == 0
    requires MIN_CELL <= need <= cells[off] - MIN_CELL
    ensures var t, c := End(off, need), Taken(cells, off, need);
      && IsFree(c, t) && c[t] == cells[off] - need && EndsBut(endIdx, c, t)
      && Without(FreePart(c), t) == Without(FreePart(cells), off)
  {
    var t, c := End(off, need), Taken(cells, off, need);
    SplitTiles(bins, cells, off, need);
    assert Without(FreePart(c), t) == Without(FreePart(cells), off);
    assert Stop(c, t) == Stop(cells, off);
  }

  lemma WholeTaken(bins: seq<Bin>, cells: Cells, endIdx: map<int, int>, off: int)
    requires Tiles(bins, cells) && IsFree(cells, off) && EndsBut(endIdx, cells, off) && NamesOnly(endIdx, cells, off)
    ensures FreePart(Flipped(cells, off)) == Without(FreePart(cells), off)
    ensures Ends(endIdx, FreePart(Flipped(cells, off))) <==> Stop(cells, off) !in endIdx
  {
    var c, e := Flipped(cells, off), Stop(cells, off);
    assert FreePart(c) == Without(FreePart(cells), off);
    if e !in endIdx {
      assert Without(endIdx, e) == endIdx;
    }
  }

  class FastAllocator {
    var data: seq<Byte>
    var bins: seq<Bin>
    const idx: FreeCellIndex  // freeLists, largeFree, byOff and endIdx
    var bytesAllocated: int
    var bytesFreed: int
    ghost var cells: Cells  // what the bytes encode

    ghost function View(): HiveState
      reads this
    {
      HiveState(data, bins, cells, bytesAllocated, bytesFreed)
    }

    ghost predicate Core()
      reads this, idx, idx.Repr, idx.large
    {
      && this !in idx.Repr && idx.Valid()
      && Image(data, bins, cells)
    }

    ghost predicate Valid()
      reads this, idx, idx.Repr, idx.large
    {
      Core() && idx.listed == FreePart(cells) && Ends(idx.endIdx, FreePart(cells))
    }

    /** Valid but for the free cell at `off`, which is in no list. */
    ghost predicate Detached(off: int)
      reads this, idx, idx.Repr, idx.large
    {
      && Core() && IsFree(cells, off)
      && idx.listed == Without(FreePart(cells), off) && EndsBut(idx.endIdx, cells, off)
    }

    /** NewFast on a well-formed hive: the iterators find every HBIN and list every free cell. */
    constructor NewFast(data: seq<Byte>, bounds: seq<int>, ghost bs: seq<Bin>, ghost cs: Cells)
      requires Image(data, bs, cs) && Increasing(bounds)
      ensures Valid() && fresh(idx) && fresh(idx.Repr)
      ensures this.data == data && bins == bs && cells == cs && idx.bounds == bounds
      ensures bytesAllocated == 0 && bytesFreed == 0
    {
      this.data, bins, cells := data, [], cs;
      bytesAllocated, bytesFreed := 0, 0;
      idx := new FreeCellIndex(bounds);
      new;
      InitializeFreeLists(bs);
    }

    /** The free cells below `x` are listed, and no others. */
    ghost predicate ListedBelow(x: int)
      reads this, idx, idx.Repr, idx.large
    {
      && this !in idx.Repr && idx.Valid()
      && idx.listed == FreePart(Below(cells, x)) && Ends(idx.endIdx, idx.listed)
    }

    method InitializeFreeLists(ghost bs: seq<Bin>)
      requires Image(data, bs, cells) && bins == [] && idx.listed == map[] && idx.endIdx == map[]
      requires this !in idx.Repr && idx.Valid()
      modifies this, idx.Repr
      ensures Valid() && fresh(idx.Repr - old(idx.Repr)) && bins == bs
      ensures data == old(data) && cells == old(cells)
      ensures bytesAllocated == old(bytesAllocated) && bytesFreed == old(bytesFreed)
    {
      var it := new HBINIterator(data);
      assert Below(cells, 4096) == map[] by { CellsBelowEnd(bs, cells); }
      assert bs[..0] == [];
      var more := true;
      while more
        invariant fresh(it) && it.data == data == old(data) && cells == old(cells)
        invariant bytesAllocated == old(bytesAllocated) && bytesFreed == old(bytesFreed)
        invariant it !in idx.Repr && fresh(idx.Repr - old(idx.Repr)) && ListedBelow(HiveEnd(bins))
        invariant if more then Scanned(it, bs) else bins == bs
        decreases |bs| - |bins|, more
      {
        more := ScanNextHBIN(it, bs);
      }
      assert Below(cells, |data|) == cells by { CellsBelowEnd(bs, cells); }
    }

    /** The HBINs before the cursor are indexed and their free cells listed. */
    ghost predicate Scanned(it: HBINIterator, bs: seq<Bin>)
      reads this, idx, idx.Repr, idx.large, it
    {
      && ListedBelow(HiveEnd(bins)) && |bins| <= |bs| && bins == bs[..|bins|]
      && if |bins| < |bs| || bs == [] then !it.done && it.next == HiveEnd(bins) else it.done
    }

    method ScanNextHBIN(it: HBINIterator, ghost bs: seq<Bin>) returns (more: bool)
      requires Image(data, bs, cells) && it.data == data && Scanned(it, bs) && it !in idx.Repr
      modifies this`bins, idx.Repr, it
      ensures fresh(idx.Repr - old(idx.Repr)) && ListedBelow(HiveEnd(bins))
      ensures more ==> Scanned(it, bs) && |bins| == |old(bins)| + 1
      ensures !more ==> bins == bs
    {
      if |bins| < |bs| {
        NextIsNext(data, bs, cells, |bins|);
      }
      var hb := it.Next();
      more := hb.Item?;
      if more {
        ScanHBIN(bs, hb.value);
        assert bs[..|bins| + 1] == bins + [hb.value];
        bins := bins + [hb.value];
      }
    }

    /** The cells before the cursor are listed when free, and the cursor is on a cell or at the end. */
    ghost predicate ScannedTo(cit: CellIterator, b: Bin)
      reads this, idx, idx.Repr, idx.large, cit
    {
      && 0 <= cit.off && !cit.done && ListedBelow(At(b, cit.off))
      && (At(b, cit.off) == b.end || (At(b, cit.off) < b.end && At(b, cit.off) in cells))
    }

    /** Lists the free cells of one HBIN. */
    method ScanHBIN(ghost bs: seq<Bin>, b: Bin)
      requires Image(data, bs, cells) && b in bs && ListedBelow(b.start)
      modifies idx.Repr
      ensures fresh(idx.Repr - old(idx.Repr)) && ListedBelow(b.end)
    {
      BinsBelowEnd(bs, b);
      BelowHeader(bs, cells, b);
      assert StartsBin(cells, b);
      var cit := new CellIterator(data[b.start..b.end]);
      var more := true;
      while more
        invariant fresh(cit) && cit !in idx.Repr && cit.buf == data[b.start..b.end]
        invariant fresh(idx.Repr - old(idx.Repr)) && (more ==> ScannedTo(cit, b)) && (!more ==> ListedBelow(b.end))
        decreases if more then 1 + b.end - At(b, cit.off) else 0
      {
        more := ScanNextCell(cit, bs, b);
      }
    }

    method ScanNextCell(cit: CellIterator, ghost bs: seq<Bin>, b: Bin) returns (more: bool)
      requires Image(data, bs, cells) && b in bs && cit !in idx.Repr && 0 <= b.start <= b.end <= |data|
      requires ScannedTo(cit, b) && cit.buf == data[b.start..b.end]
      modifies idx.Repr, cit
      ensures fresh(idx.Repr - old(idx.Repr))
      ensures more ==> ScannedTo(cit, b) && At(b, cit.off) > old(At(b, cit.off))
      ensures !more ==> ListedBelow(b.end)
    {
      if At(b, cit.off) < b.end {
        CellReads(data, bs, cells, b, cit.off);
      }
      var c := cit.Next();
      more := c.Item?;
      if more {
        ListScanned(bs, At(b, c.value.off), c.value.size);
      }
    }

    /** The scan has reached the cell at `o`. */
    method ListScanned(ghost bs: seq<Bin>, o: int, raw: int)
      requires Image(data, bs, cells) && o in cells && cells[o] == raw && ListedBelow(o)
      modifies idx.Repr
      ensures fresh(idx.Repr - old(idx.Repr)) && ListedBelow(Stop(cells, o))
    {
      CellsBelowEnd(bs, cells);
      CellBytes(bs, cells, o);
      BelowFree(bs, cells, idx.endIdx, o);
      if raw > 0 {
        idx.InsertFreeCell(o, raw, |data|);
      }
    }

    /** Valid but for the free cell at `off`, which is in no list, and whose end is in no map. */
    ghost predicate Loose(off: int)
      reads this, idx, idx.Repr, idx.large
    {
      && Core() && IsFree(cells, off)
      && idx.listed == Without(FreePart(cells), off)
      && Ends(idx.endIdx, Without(FreePart(cells), off)) && Stop(cells, off) !in idx.endIdx
    }

    /** The HBIN a file offset lies in, by binary search. */
    method FindHBINBounds(off: int) returns (found: bool, b: Bin)
      requires BinsOk(bins)
      ensures found ==> b in bins && b.start <= off < b.end
      ensures !found ==> forall x :: x in bins ==> !(x.start <= off < x.end)
    {
      var lo, hi := 0, |bins| - 1;
      while lo <= hi
        invariant 0 <= lo <= hi + 1 <= |bins|
        invariant forall i :: 0 <= i < |bins| && (i < lo || hi < i) ==> !(bins[i].start <= off < bins[i].end)
      {
        var mid := (lo + hi) / 2;
        var x := bins[mid];
        forall i | 0 <= i < |bins| && i != mid
          ensures i < mid ==> bins[i].end <= x.start
          ensures mid < i ==> x.end <= bins[i].start
        {
          if i < mid { BinsSorted(bins, i, mid); } else { BinsSorted(bins, mid, i); }
        }
        if off < x.start {
          hi := mid - 1;
        } else if off >= x.end {
          lo := mid + 1;
        } else {
          return true, x;
        }
      }
      found, b := false, Bin(0, 0);
    }

    /** Lists the free cell at `off`. */
    method Attach(off: int, size: int)
      requires Detached(off) && cells[off] == size
      modifies idx.Repr
      ensures Valid() && fresh(idx.Repr - old(idx.Repr))
    {
      CellsBelowEnd(bins, cells);
      EndsInsert(idx.endIdx, Without(FreePart(cells), off), off, size);
      idx.InsertFreeCell(off, size, |data|);
      assert Without(FreePart(cells), off)[off := size] == FreePart(cells);
    }

    /** Appends an HBIN of exactly `hbinSize` bytes whose payload is one listed free cell; refused past 2 GB - 1. */
    method GrowByHBINSize(hbinSize: int) returns (ok: bool)
      requires Valid() && hbinSize % 4096 == 0 && 4096 <= hbinSize <= MAX_I32
      modifies this`data, this`bins, this`cells, idx.Repr
      ensures Valid() && fresh(idx.Repr - old(idx.Repr))
      ensures ok <==> |old(data)| + hbinSize <= MAX_I32
      ensures !ok ==> data == old(data) && bins == old(bins) && cells == old(cells)
      ensures ok ==> var b := BinAfter(|old(data)|, hbinSize);
        bins == old(bins) + [b] && cells == Opened(old(cells), b) && Extends(old(data), data)
      ensures SizeFieldOk(old(data)) ==> SizeFieldOk(data)
    {
      ok := |data| + hbinSize <= MAX_I32;
      if ok {
        AppendHBIN(hbinSize);
      }
    }

    method AppendHBIN(hbinSize: int)
      requires Valid() && hbinSize % 4096 == 0 && 4096 <= hbinSize && |data| + hbinSize <= MAX_I32
      modifies this`data, this`bins, this`cells, idx.Repr
      ensures Valid() && fresh(idx.Repr - old(idx.Repr))
      ensures var b := BinAfter(|old(data)|, hbinSize);
        bins == old(bins) + [b] && cells == Opened(old(cells), b) && Extends(old(data), data)
      ensures SizeFieldOk(old(data)) ==> SizeFieldOk(data)
    {
      var b := BinAfter(|data|, hbinSize);
      GrownImage(data, bins, cells, hbinSize);
      OpenedDetached(bins, cells, idx.endIdx, b);
      data, bins, cells := GrownBytes(data, hbinSize), bins + [b], Opened(cells, b);
      Attach(FirstCell(b), b.end - FirstCell(b));
    }

    /** What the search of Alloc leaves: a cell that fits, out of its list, or a hive that may not grow. */
    ghost predicate Chosen(s: HiveState, order: seq<int>, n: int, ok: bool, off: int, size: int)
      reads this, idx, idx.Repr, idx.large
    {
      if !ok then
        Valid() && Answered(idx.bounds, s, View(), order, n, NoGrowth, off, true)
      else
        && Detached(off) && NamesOnly(idx.endIdx, cells, off) && size == cells[off] >= n
        && Found(idx.bounds, s, View(), order, n, off)
        && (Stop(cells, off) in idx.endIdx <==> !Classed(idx.bounds, FreePart(cells), off))
    }

    /** The search of Alloc, growing the hive when nothing fits: the chosen cell leaves its list. */
    method FindCell(need: int) returns (ok: bool, off: int, size: int)
      requires Valid() && need % 8 == 0 && MIN_CELL <= need && GrowthFor(need) <= MAX_I32
      modifies this`data, this`bins, this`cells, idx.Repr
      ensures fresh(idx.Repr - old(idx.Repr))
      ensures SizeFieldOk(old(data)) ==> SizeFieldOk(data)
      ensures Chosen(old(View()), Starts(old(idx.large.spine)), need, ok, off, size)
    {
      ok, off, size := Search(need);
      if ok {
        return;
      }
      ghost var s, order := View(), Starts(idx.large.spine);
      ok := GrowByHBINSize(GrowthFor(need));
      if !ok {
        RefusedAnswer(idx.bounds, s, View(), order, need, off);
        return;
      }
      ok, off, size := Search(need);
      OpenedFits(old(bins), old(cells), BinAfter(|old(data)|, GrowthFor(need)), need);
      OnlyOpenedFits(old(cells), BinAfter(|old(data)|, GrowthFor(need)), need, off);
    }

    method Search(need: int) returns (found: bool, off: int, size: int)
      requires Valid() && MIN_CELL <= need
      modifies idx.Repr
      ensures idx.Repr == old(idx.Repr)
      ensures found <==> !NothingFits(cells, need)
      ensures !found ==> Valid()
      ensures found ==> Detached(off) && NamesOnly(idx.endIdx, cells, off) && size == cells[off] >= need
      ensures found ==> GoodChoice(idx.bounds, FreePart(cells), off, need)
      ensures found && !Classed(idx.bounds, FreePart(cells), off) ==>
        FirstFit(Starts(old(idx.large.spine)), FreePart(cells), need, off)
      ensures found ==> (Stop(cells, off) in idx.endIdx <==> !Classed(idx.bounds, FreePart(cells), off))
    {
      SmallCells(data, bins, cells);
      ghost var fromLarge;
      found, off, size, fromLarge := idx.TakeFit(need);
      if !found {
        assert forall o :: IsFree(cells, o) ==> o in FreePart(cells);
      } else {
        assert IsFree(cells, off);
        FreeEnds(bins, cells, old(idx.endIdx), off);
        CellBytes(bins, cells, off);
        AlignedIs(size);
        assert AlignedEnd(off, size) == Stop(cells, off);
      }
    }

    /** Alloc once the cell is chosen: writes the headers and lists the tail. */
    method Commit(off: int, size: int, need: int)
      requires Detached(off) && NamesOnly(idx.endIdx, cells, off)
      requires size == cells[off] && need % 8 == 0 && MIN_CELL <= need <= size
      modifies this`data, this`cells, this`bytesAllocated, idx.Repr
      ensures Core() && fresh(idx.Repr - old(idx.Repr)) && idx.listed == FreePart(cells)
      ensures cells == Taken(old(cells), off, need)
      ensures Ends(idx.endIdx, FreePart(cells)) <==>
              (size - need >= MIN_CELL || Stop(old(cells), off) !in old(idx.endIdx))
      ensures bytesAllocated == old(bytesAllocated) + Granted(old(cells), off, need)
      ensures OnlyHeaders(old(data), data, off, End(off, need))
      ensures SizeFieldOk(old(data)) ==> SizeFieldOk(data)
    {
      if size - need >= MIN_CELL {
        Split(off, size, need);
        bytesAllocated := bytesAllocated + need;
      } else {
        TakeWhole(off, size);
        bytesAllocated := bytesAllocated + size;
      }
    }

    method Split(off: int, size: int, need: int)
      requires Detached(off) && size == cells[off] && need % 8 == 0 && MIN_CELL <= need <= size - MIN_CELL
      modifies this`data, this`cells, idx.Repr
      ensures Valid() && fresh(idx.Repr - old(idx.Repr))
      ensures cells == Taken(old(cells), off, need)
      ensures OnlyHeaders(old(data), data, off, End(off, need))
      ensures SizeFieldOk(old(data)) ==> SizeFieldOk(data)
    {
      var tailOff, rem := End(off, need), size - need;
      TakenTiles(bins, cells, off, need);
      SplitWritten(data, bins, cells, off, need, rem);
      SplitDetached(bins, cells, idx.endIdx, off, need);
      data, cells := PutI32(PutI32(data, off, -need), tailOff, rem), Taken(cells, off, need);
      Attach(tailOff, rem);
    }

    method TakeWhole(off: int, size: int)
      requires Detached(off) && NamesOnly(idx.endIdx, cells, off) && size == cells[off]
      modifies this`data, this`cells
      ensures Core() && idx.listed == FreePart(cells)
      ensures cells == Flipped(old(cells), off)
      ensures Ends(idx.endIdx, FreePart(cells)) <==> Stop(old(cells), off) !in idx.endIdx
      ensures SameBut4(old(data), data, off)
      ensures SizeFieldOk(old(data)) ==> SizeFieldOk(data)
    {
      CellsBelowEnd(bins, cells);
      CellIsClear(bins, cells, off);
      FlippedTiles(bins, cells, off);
      HeaderWritten(data, bins, cells, off, -size);
      PutI32Reads(data, off, -size);
      WholeTaken(bins, cells, idx.endIdx, off);
      data, cells := PutI32(data, off, -size), Flipped(cells, off);
    }

    /** Alloc: the payload of an allocated cell of at least `need` bytes, header included. The end map stays exact
        but for a request above the last class boundary that takes a whole large block. */
    method Alloc(need: int) returns (r: AllocResult, ghost off: int)
      requires Valid() && GrowthFor(need) <= MAX_I32
      modifies this, idx.Repr
      ensures Core() && fresh(idx.Repr - old(idx.Repr)) && idx.listed == FreePart(cells)
      ensures r.TooSmall? <==> need < 4
      ensures r.TooSmall? ==> View() == old(View())
      ensures need >= 4 ==> Step(old(View()), AllocEvent(Align8(need), r), View())
      ensures !r.Ok? ==> Valid()
      ensures r.Ok? ==> var base := Base(old(data), old(bins), old(cells), Align8(need)).1;
        && off == Absolute(r.ref) && GoodChoice(idx.bounds, FreePart(base), off, Align8(need))
        && Searched(idx.bounds, old(cells), base, Starts(old(idx.large.spine)), Align8(need), off)
      ensures need >= 4 && ClassOf(idx.bounds, Align8(need)) < |idx.bounds| ==> Valid()
      ensures need >= 4 ==>
        (Valid() <==> !TakesWhole(idx.bounds, old(idx.listed), Starts(old(idx.large.spine)), Align8(need)))
      ensures SizeFieldOk(old(data)) ==> SizeFieldOk(data)
    {
      if need < 4 {
        r, off := TooSmall, 0;
      } else {
        ghost var s, order := View(), Starts(idx.large.spine);
        r, off := AllocAligned(Align8(need));
        WholeToldBefore(idx.bounds, s, View(), order, Align8(need), r, off, Valid());
      }
    }

    /** Takes the chosen cell and gives its payload. */
    method Grant(ok: bool, off: int, size: int, n: int, ghost s: HiveState, ghost order: seq<int>)
      returns (r: AllocResult)
      requires n % 8 == 0 && MIN_CELL <= n && Chosen(s, order, n, ok, off, size)
      modifies this`data, this`cells, this`bytesAllocated, idx.Repr
      ensures Core() && fresh(idx.Repr - old(idx.Repr)) && idx.listed == FreePart(cells)
      ensures Answered(idx.bounds, s, View(), order, n, r, off, Valid())
      ensures SizeFieldOk(old(data)) ==> SizeFieldOk(data)
    {
      if !ok {
        return NoGrowth;
      }
      ghost var m := View();
      Commit(off, size, n);
      r := Ok(off - BASE, off + 4, off + if size - n >= MIN_CELL then n else size);
      GrantedAnswer(idx.bounds, s, m, View(), order, n, off, r, Valid());
    }

    method AllocAligned(n: int) returns (r: AllocResult, ghost off: int)
      requires Valid() && n % 8 == 0 && MIN_CELL <= n && GrowthFor(n) <= MAX_I32
      modifies this, idx.Repr
      ensures Core() && fresh(idx.Repr - old(idx.Repr)) && idx.listed == FreePart(cells)
      ensures Answered(idx.bounds, old(View()), View(), Starts(old(idx.large.spine)), n, r, off, Valid())
      ensures SizeFieldOk(old(data)) ==> SizeFieldOk(data)
    {
      ghost var s, order := View(), Starts(idx.large.spine);
      var ok, at, size := FindCell(n);
      r := Grant(ok, at, size, n, s, order);
      off := at;
    }

    /** The header of the cell at `off` turns positive; the cell is free but in no list yet. */
    method Flip(off: int) returns (size: int)
      requires Valid() && Live(cells, off)
      modifies this`data, this`cells
      ensures Loose(off) && size == cells[off] && cells == Flipped(old(cells), off)
      ensures SameBut4(old(data), data, off)
      ensures SizeFieldOk(old(data)) ==> SizeFieldOk(data)
    {
      CellsBelowEnd(bins, cells);
      CellIsClear(bins, cells, off);
      assert HeaderAt(data, cells, off);
      var raw := GetI32(data, off);
      size := Abs(raw);
      FlippedTiles(bins, cells, off);
      FlippedEnds(bins, cells, idx.endIdx, off);
      HeaderWritten(data, bins, cells, off, size);
      PutI32Reads(data, off, size);
      data, cells := PutI32(data, off, size), Flipped(cells, off);
    }

    /** The free cells at `a` and `b` become one, at `a`, in no list; one of them, `cur`, was in none before. */
    method Merge(a: int, b: int, size: int, cur: int, other: int, otherSize: int)
      requires Loose(cur) && IsFree(cells, a) && IsFree(cells, b) && Stop(cells, a) == b
      requires (cur == a && other == b) || (cur == b && other == a)
      requires size == cells[a] + cells[b] && otherSize == cells[other]
      modifies this`data, this`cells, idx.Repr
      ensures Loose(a) && cells == Merged(old(cells), a, b) && cells[a] == size
      ensures idx.Repr == old(idx.Repr) && SameBut4(old(data), data, a)
      ensures SizeFieldOk(old(data)) ==> SizeFieldOk(data)
    {
      MergedWritten(data, bins, cells, a, b, size);
      MergedEnds(bins, cells, idx.endIdx, a, b, cur, other);
      MergedTiles(bins, cells, a, b);
      idx.RemoveFreeCell(other, otherSize);
      data, cells := PutI32(data, a, size), Merged(cells, a, b);
    }

    /** Free: the cell at `ref` becomes free together with the free cells next to it in its HBIN. */
    method Free(ref: int) returns (ok: bool)
      requires Valid()
      requires Absolute(ref) + 4 > |data| || Live(cells, Absolute(ref))
      modifies this, idx.Repr
      ensures Valid() && fresh(idx.Repr - old(idx.Repr))
      ensures ok <==> Absolute(ref) + 4 <= |old(data)|
      ensures if ok then Step(old(View()), FreeEvent(Absolute(ref)), View()) else View() == old(View())
      ensures SizeFieldOk(old(data)) ==> SizeFieldOk(data)
    {
      var off := Absolute(ref);
      ok := off + 4 <= |data|;
      if ok {
        var sz := Release(off);
        bytesFreed := bytesFreed + sz;
      }
    }

    method Release(off: int) returns (size: int)
      requires Valid() && Live(cells, off)
      modifies this`data, this`cells, idx.Repr
      ensures Valid() && fresh(idx.Repr - old(idx.Repr))
      ensures cells == Freed(old(cells), off) && size == -old(cells)[off]
      ensures OnlyHeaders(old(data), data, off, BlockStart(old(cells), off))
      ensures SizeFieldOk(old(data)) ==> SizeFieldOk(data)
    {
      ghost var d0 := data;
      size := Flip(off);
      ghost var d1 := data;
      var sz := MergeForward(off, size, old(cells));
      ghost var d2 := data;
      var lo;
      lo, sz := MergeBackward(off, sz, old(cells));
      ThreeWrites(d0, d1, d2, data, off, lo);
      LooseIsDetached(lo);
      Attach(lo, sz);
    }

    lemma LooseIsDetached(off: int)
      requires Loose(off)
      ensures Detached(off)
    {
      assert Without(idx.endIdx, Stop(cells, off)) == idx.endIdx;
    }

    /** Swallows the cell behind `off` when it is free and in the same HBIN. */
    method MergeForward(off: int, size: int, ghost before: Cells) returns (sz: int)
      requires Loose(off) && Tiles(bins, before) && Live(before, off)
      requires cells == Flipped(before, off) && size == cells[off]
      modifies this`data, this`cells, idx.Repr
      ensures Loose(off) && idx.Repr == old(idx.Repr)
      ensures cells == FreedForward(before, off) && sz == cells[off]
      ensures SameBut4(old(data), data, off)
      ensures SizeFieldOk(old(data)) ==> SizeFieldOk(data)
    {
      sz := size;
      var found, hb := FindHBINBounds(off);
      assert found by {
        var h := House(bins, cells, off);
      }
      CellBytes(bins, cells, off);
      CellsBelowEnd(bins, cells);
      SuccessorInBin(bins, cells, off, hb);
      AlignedIs(sz);
      BinsBelowEnd(bins, hb);
      var next := AlignedEnd(off, sz);
      assert next == Stop(cells, off) == Stop(before, off);
      if next + 4 <= |data| && next < hb.end {
        assert HeaderAt(data, cells, next);
        var nextSize := GetI32(data, next);
        if nextSize > 0 {
          sz := sz + nextSize;
          Merge(off, next, sz, off, next, nextSize);
        }
      }
    }

    /** Is swallowed by the free cell the end map finds before `off`. */
    method MergeBackward(off: int, size: int, ghost before: Cells) returns (lo: int, sz: int)
      requires Loose(off) && Tiles(bins, before) && Live(before, off)
      requires cells == FreedForward(before, off) && size == cells[off]
      modifies this`data, this`cells, idx.Repr
      ensures Loose(lo) && idx.Repr == old(idx.Repr)
      ensures cells == Freed(before, off) && lo == BlockStart(before, off) && sz == cells[lo]
      ensures SameBut4(old(data), data, lo)
      ensures SizeFieldOk(old(data)) ==> SizeFieldOk(data)
    {
      lo, sz := off, size;
      FreedTiles(bins, before, off);
      PredecessorFound(bins, before, idx.endIdx, off);
      if off in idx.endIdx {
        var prevOff := idx.endIdx[off];
        CellsBelowEnd(bins, cells);
        assert HeaderAt(data, cells, prevOff);
        var prevSize := GetI32(data, prevOff);
        if prevSize > 0 {
          sz := prevSize + sz;
          Merge(prevOff, off, sz, off, prevOff, prevSize);
          lo := prevOff;
        }
      }
    }
  }

  lemma TwoStarts(spine: seq<LargeBlock>, off: int)
    requires forall i, j :: 0 <= i < j < |spine| ==> spine[i].off != spine[j].off
    ensures |spine| >= 2 ==> exists i :: 0 <= i < |spine| && spine[i].off != off
  {
    if |spine| >= 2 && spine[0].off == off {
      assert spine[1].off != off;
    }
  }

  lemma OneBlock(bounds: seq<int>, spine: seq<LargeBlock>, off: int, size: int)
    requires LargeAgrees(bounds, spine, map[off := size]) && ClassOf(bounds, size) == |bounds|
    ensures Starts(spine) == [off]
  {
    assert off in map[off := size];
    var b :| b in spine && b.off == off;
    forall i | 0 <= i < |spine| ensures spine[i].off == off {
      assert spine[i] in spine;
    }
    TwoStarts(spine, off);
  }

  /** A hive whose one HBIN has one free cell. */
  method FreshHive(bounds: seq<int>, hbinSize: Word) returns (fa: FastAllocator)
    requires hbinSize % 4096 == 0 && 4096 <= hbinSize && 4096 + hbinSize <= MAX_I32 && Increasing(bounds)
    requires forall i :: 0 <= i < |bounds| ==> bounds[i] < hbinSize - HBIN_HEADER
    ensures fresh(fa) && fresh(fa.idx) && fresh(fa.idx.Repr) && fa.Valid() && fa.idx.bounds == bounds
    ensures fa.idx.listed == map[4128 := hbinSize - HBIN_HEADER]
  {
    var b := BinAfter(4096, hbinSize);
    UnclassedRequestsMayNotSplit(bounds, hbinSize);
    fa := new FastAllocator.NewFast(OneBin(hbinSize), bounds, [b], Opened(map[], b));
  }

  /** The one free cell of a hive, too large for a class, is asked for: it is given whole, and its end stays in the map
      of ends. */
  method TakeOnlyBlock(fa: FastAllocator, size: int) returns (r: AllocResult)
    requires fa.Valid() && fa.idx.listed == map[4128 := size] && size % 8 == 0 && MIN_CELL <= size
    requires (forall i :: 0 <= i < |fa.idx.bounds| ==> fa.idx.bounds[i] < size) && GrowthFor(size) <= MAX_I32
    modifies fa, fa.idx.Repr
    ensures !fa.Valid()
  {
    FreshTakesWhole(fa.idx.bounds, fa.idx.large.spine, size);
    AlignedIs(size);
    ghost var off;
    r, off := fa.Alloc(size);
  }

  lemma FreshTakesWhole(bounds: seq<int>, spine: seq<LargeBlock>, size: int)
    requires LargeAgrees(bounds, spine, map[4128 := size]) && forall i :: 0 <= i < |bounds| ==> bounds[i] < size
    ensures TakesWhole(bounds, map[4128 := size], Starts(spine), size)
  {
    assert InClass(bounds, size, ClassOf(bounds, size));
    OneBlock(bounds, spine, 4128, size);
    assert FirstAt([4128], map[4128 := size], size, 0);
  }
}
