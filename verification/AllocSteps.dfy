/** What one call of the allocator does to a hive, and what every run of calls keeps. */
module AllocSteps {
  import opened Bytes
  import opened SizeClasses
  import opened Space
  import opened HiveImage
  import opened FreeIndex

  const BASE := 4096

  /** The file offset of a cell reference. */
  function Absolute(ref: int): int {
    ref + BASE
  }

  /** The HBIN Grow appends for a request: four times the request and the HBIN header, in whole pages. */
  function GrowthFor(need: int): int {
    AlignHbin(Align8(need) * 4 + HBIN_HEADER)
  }

  ghost predicate NothingFits(cells: Cells, need: int) {
    forall o :: IsFree(cells, o) ==> cells[o] < need
  }

  /** A cell from the classes is near best over all classes; one from the large list means no class had a fit. */
  ghost predicate GoodChoice(bounds: seq<int>, listed: map<int, int>, off: int, need: int) {
    if Classed(bounds, listed, off) then NearBest(bounds, listed, off, need)
    else NoFitBelow(bounds, listed, |bounds|, need)
  }

  /** The hive grew by one HBIN exactly when nothing fitted before; it failed exactly when that would pass 2 GB - 1. */
  ghost predicate GrewFor(data: seq<Byte>, bins: seq<Bin>, cells: Cells,
                          data': seq<Byte>, bins': seq<Bin>, cells': Cells, need: int, ok: bool) {
    var size := GrowthFor(need);
    var b := BinAfter(|data|, size);
    && (ok <==> !NothingFits(cells, need) || |data| + size <= MAX_I32)
    && if ok && NothingFits(cells, need)
       then bins' == bins + [b] && cells' == Opened(cells, b) && Extends(data, data')
       else data' == data && bins' == bins && cells' == cells
  }

  /** The new HBIN's cell holds the request. */
  lemma OpenedFits(bins: seq<Bin>, cells: Cells, b: Bin, need: int)
    requires MIN_CELL <= need && b.end == b.start + GrowthFor(need)
    ensures !NothingFits(Opened(cells, b), need)
  {
    assert IsFree(Opened(cells, b), FirstCell(b));
  }

  /** Nothing else does, where nothing fitted before. */
  lemma OnlyOpenedFits(cells: Cells, b: Bin, need: int, off: int)
    requires NothingFits(cells, need) && MIN_CELL <= need && b.end == b.start + GrowthFor(need)
    requires IsFree(Opened(cells, b), off) && need <= Opened(cells, b)[off]
    ensures 4 * need <= Opened(cells, b)[off]
  {
    assert off != FirstCell(b) ==> IsFree(cells, off);
  }

  /** Two buffers that differ at most in the headers at `a` and `b`. */
  ghost predicate OnlyHeaders(data: seq<Byte>, d: seq<Byte>, a: int, b: int) {
    |data| == |d| && forall i :: 0 <= i < |data| && !(a <= i < a + 4) && !(b <= i < b + 4) ==> d[i] == data[i]
  }

  datatype AllocResult =
    | Ok(ref: int, lo: int, hi: int)  // the reference, and the payload's bounds in the file
    | TooSmall                        // ErrNeedSmall
    | NoGrowth                        // the hive would pass 2 GB - 1

  /** The hive an allocation takes its cell from: the old one, or the old one grown when nothing fits. */
  ghost function Base(data: seq<Byte>, bins: seq<Bin>, cells: Cells, n: int): (seq<Bin>, Cells) {
    var b := BinAfter(|data|, GrowthFor(n));
    if NothingFits(cells, n) then (bins + [b], Opened(cells, b)) else (bins, cells)
  }

  predicate WithinHeader(i: int, at: int) {
    at <= i < at + 4
  }

  /** Byte `i` stays, unless it is of the size field or of one of the two headers written. */
  ghost predicate ByteKept(data: seq<Byte>, data': seq<Byte>, off: int, n: int, i: int) {
    0 <= i < |data| ==>
      || WithinHeader(i, DATA_SIZE_FIELD) || WithinHeader(i, off) || WithinHeader(i, End(off, n))
      || (i < |data'| && data'[i] == data[i])
  }

  /** What a request of `n` aligned bytes does: it takes a fitting free cell of the (possibly grown) hive and writes
      nothing but headers in it, or changes nothing when the hive cannot grow. */
  ghost predicate Allocated(data: seq<Byte>, bins: seq<Bin>, cells: Cells,
                            data': seq<Byte>, bins': seq<Bin>, cells': Cells, n: int, r: AllocResult) {
    var base := Base(data, bins, cells, n).1;
    match r
    case TooSmall => false
    case NoGrowth =>
      && NothingFits(cells, n) && |data| + GrowthFor(n) > MAX_I32
      && data' == data && bins' == bins && cells' == cells
    case Ok(ref, lo, hi) =>
      var off := ref + BASE;
      && IsFree(base, off) && base[off] >= n
      && cells' == Taken(base, off, n) && bins' == Base(data, bins, cells, n).0
      && lo == off + 4 && hi == off + Granted(base, off, n)
      && |data| <= |data'|
      && forall i {:trigger ByteKept(data, data', off, n, i)} :: ByteKept(data, data', off, n, i)
  }

  /** The request takes all of a block of the large list. */
  ghost predicate WholeLarge(bounds: seq<int>, base: Cells, off: int, n: int) {
    off in base && !Classed(bounds, FreePart(base), off) && base[off] - n < MIN_CELL
  }

  /** The request has no class, and the first block of the large list that is not below it is exactly as large. */
  ghost predicate TakesWhole(bounds: seq<int>, listed: map<int, int>, order: seq<int>, n: int) {
    ClassOf(bounds, n) == |bounds| && exists k :: FirstAt(order, listed, n, k) && listed[order[k]] == n
  }

  lemma NothingTaken(bounds: seq<int>, cells: Cells, order: seq<int>, n: int)
    requires NothingFits(cells, n)
    ensures !TakesWhole(bounds, FreePart(cells), order, n)
  {
    forall k ensures !FirstAt(order, FreePart(cells), n, k) {
      if FirstAt(order, FreePart(cells), n, k) {
        assert IsFree(cells, order[k]);
      }
    }
  }

  lemma FirstUnique(order: seq<int>, listed: map<int, int>, n: int, k: int, l: int)
    requires FirstAt(order, listed, n, k) && FirstAt(order, listed, n, l)
    ensures k == l
  {
  }

  /** What the search takes: when nothing fits, of the grown hive; from the large list, the first that fits. */
  ghost predicate Searched(bounds: seq<int>, cells: Cells, base: Cells, order: seq<int>, n: int, off: int) {
    && IsFree(base, off) && base[off] >= n
    && (NothingFits(cells, n) ==> base[off] >= 4 * n)
    && (!NothingFits(cells, n) ==>
          base == cells && (Classed(bounds, FreePart(cells), off) || FirstFit(order, FreePart(cells), n, off)))
  }

  /** Whether a block is taken whole can be told before the call. */
  lemma WholeLargeIff(bounds: seq<int>, cells: Cells, base: Cells, order: seq<int>, n: int, off: int)
    requires MIN_CELL <= n && n % 8 == 0 && off in base && base[off] % 8 == 0
    requires Searched(bounds, cells, base, order, n, off)
    ensures WholeLarge(bounds, base, off, n) <==> TakesWhole(bounds, FreePart(cells), order, n)
  {
    var listed := FreePart(cells);
    if NothingFits(cells, n) {
      NothingTaken(bounds, cells, order, n);
    } else if Classed(bounds, listed, off) {
      ClassOfMonotone(bounds, n, listed[off]);
    } else {
      var k :| FirstAt(order, listed, n, k) && order[k] == off;
      if TakesWhole(bounds, listed, order, n) {
        var l :| FirstAt(order, listed, n, l) && listed[order[l]] == n;
        FirstUnique(order, listed, n, k, l);
      }
    }
  }

  /** The bytes of an empty hive grown by one HBIN. */
  function OneBin(hbinSize: Word): seq<Byte>
    requires HBIN_HEADER + 4 <= hbinSize && 4096 + hbinSize <= MAX_I32
  {
    GrownBytes(BlankBytes(4096), hbinSize)
  }

  /** A hive of one HBIN whose payload is one free cell above the last class: a request for all of it takes it whole. */
  lemma UnclassedRequestsMayNotSplit(bounds: seq<int>, hbinSize: Word)
    requires hbinSize % 4096 == 0 && 4096 <= hbinSize && 4096 + hbinSize <= MAX_I32
    requires forall i :: 0 <= i < |bounds| ==> bounds[i] < hbinSize - HBIN_HEADER
    ensures var b, size := BinAfter(4096, hbinSize), hbinSize - HBIN_HEADER;
      && Image(OneBin(hbinSize), [b], Opened(map[], b)) && FreePart(Opened(map[], b)) == map[4128 := size]
      && TakesWhole(bounds, map[4128 := size], [4128], size)
  {
    var size, b := hbinSize - HBIN_HEADER, BinAfter(4096, hbinSize);
    EmptyImage();
    GrownImage(BlankBytes(4096), [], map[], hbinSize);
    assert [] + [b] == [b];
    assert FirstAt([4128], map[4128 := size], size, 0);
    assert InClass(bounds, size, ClassOf(bounds, size));
  }

  lemma EmptyImage()
    ensures Image(BlankBytes(4096), [], map[])
  {
  }

  // ----- Runs -----

  datatype HiveState = HiveState(data: seq<Byte>, bins: seq<Bin>, cells: Cells, bytesAllocated: int, bytesFreed: int)

  datatype Event =
    | AllocEvent(n: int, r: AllocResult)        // an aligned request and its answer
    | FreeEvent(off: int)                       // the cell freed
    | WriteEvent(off: int, at: int, v: Byte)    // the owner of a live cell writes into its payload

  /** The headers in the bytes are those of the cell map. */
  ghost predicate Encoded(s: HiveState) {
    |s.data| == HiveEnd(s.bins) <= MAX_I32 && Backed(s.data, s.cells) && BinsAt(s.data, s.bins)
  }

  ghost predicate Step(s: HiveState, e: Event, t: HiveState) {
    match e
    case AllocEvent(n, r) =>
      && n % 8 == 0 && MIN_CELL <= n && Encoded(t)
      && Allocated(s.data, s.bins, s.cells, t.data, t.bins, t.cells, n, r)
      && t.bytesAllocated == s.bytesAllocated + (if r.Ok? then r.hi - r.lo + 4 else 0) && t.bytesFreed == s.bytesFreed
    case FreeEvent(off) =>
      && Live(s.cells, off) && Encoded(t)
      && t.bins == s.bins && t.cells == Freed(s.cells, off)
      && OnlyHeaders(s.data, t.data, off, BlockStart(s.cells, off))
      && t.bytesAllocated == s.bytesAllocated && t.bytesFreed == s.bytesFreed - s.cells[off]
    case WriteEvent(off, at, v) =>
      && Live(s.cells, off) && 0 <= off && off + 4 <= at < Stop(s.cells, off) && at < |s.data|
      && t == s.(data := s.data[at := v])
  }

  /** The free cell at `off` is taken, its payload is given, and nothing but headers is written. */
  ghost predicate TakenFrom(m: HiveState, t: HiveState, n: int, off: int, r: AllocResult) {
    && IsFree(m.cells, off) && n <= m.cells[off] && OnlyHeaders(m.data, t.data, off, End(off, n))
    && r.Ok? && off == Absolute(r.ref) && r.lo == off + 4 && r.hi == off + Granted(m.cells, off, n)
    && t.bins == m.bins && t.cells == Taken(m.cells, off, n) && Encoded(t)
    && t.bytesAllocated == m.bytesAllocated + Granted(m.cells, off, n) && t.bytesFreed == m.bytesFreed
  }

  /** A chosen cell of the (possibly grown) hive, taken, is an allocation step. */
  lemma AllocStepIs(s: HiveState, m: HiveState, t: HiveState, n: int, off: int, r: AllocResult)
    requires GrewFor(s.data, s.bins, s.cells, m.data, m.bins, m.cells, n, true) && n % 8 == 0 && MIN_CELL <= n
    requires m.bytesAllocated == s.bytesAllocated && m.bytesFreed == s.bytesFreed && TakenFrom(m, t, n, off, r)
    ensures Step(s, AllocEvent(n, r), t) && Base(s.data, s.bins, s.cells, n) == (m.bins, m.cells)
    ensures r.Ok? && off == Absolute(r.ref)
  {
    forall i ensures ByteKept(s.data, t.data, off, n, i) {
    }
  }

  lemma ThreeWrites(a: seq<Byte>, b: seq<Byte>, c: seq<Byte>, d: seq<Byte>, off: int, lo: int)
    requires SameBut4(a, b, off) && SameBut4(b, c, off) && SameBut4(c, d, lo)
    ensures OnlyHeaders(a, d, off, lo)
  {
  }

  ghost predicate Sound(s: HiveState) {
    Image(s.data, s.bins, s.cells)
  }

  ghost predicate Run(states: seq<HiveState>, events: seq<Event>) {
    && |states| == |events| + 1
    && forall i :: 0 <= i < |events| ==> Step(states[i], events[i], states[i + 1])
  }

  /** Used bytes change by what is allocated less what is freed. */
  ghost predicate Balanced(s: HiveState, t: HiveState) {
    UsedBytes(t.cells) - UsedBytes(s.cells) == (t.bytesAllocated - s.bytesAllocated) - (t.bytesFreed - s.bytesFreed)
  }

  lemma WriteKeeps(s: HiveState, off: int, at: int, v: Byte)
    requires Image(s.data, s.bins, s.cells)
    requires Live(s.cells, off) && 0 <= off && off + 4 <= at < Stop(s.cells, off) && at < |s.data|
    ensures Image(s.data[at := v], s.bins, s.cells)
  {
    var d := s.data[at := v];
    var h := House(s.bins, s.cells, off);
    forall o ensures HeaderAt(d, s.cells, o) {
      assert HeaderAt(s.data, s.cells, o) && Before(s.cells, o, off) && Before(s.cells, off, o);
      assert CellOk(s.bins, s.cells, o);
    }
    forall b | b in s.bins ensures BinAt(d, b) {
      BinsApart(s.bins, b, h);
    }
  }

  /** Before a cell is taken, the hive it is taken from is tiled, and coalesced if it was. */
  lemma BaseKeeps(s: HiveState, n: int)
    requires Sound(s) && n % 8 == 0 && MIN_CELL <= n
    requires NothingFits(s.cells, n) ==> |s.data| + GrowthFor(n) <= MAX_I32
    ensures var base := Base(s.data, s.bins, s.cells, n);
      && Tiles(base.0, base.1)
      && UsedBytes(base.1) == UsedBytes(s.cells)
      && (Coalesced(s.cells) ==> Coalesced(base.1))
      && (forall p :: Live(s.cells, p) ==> Live(base.1, p) && base.1[p] == s.cells[p])
  {
    if NothingFits(s.cells, n) {
      var b := BinAfter(|s.data|, GrowthFor(n));
      GrowthIsPages(n);
      NextBinIs(s.bins, GrowthFor(n));
      OpenedTiles(s.bins, s.cells, b);
      OpenedUses(s.cells, b);
      if Coalesced(s.cells) {
        OpenedCoalesced(s.bins, s.cells, b);
      }
    }
  }

  lemma GrowthIsPages(n: int)
    requires MIN_CELL <= n
    ensures GrowthFor(n) % 4096 == 0 && 4096 <= GrowthFor(n)
  {
  }

  lemma AllocKeeps(s: HiveState, n: int, r: AllocResult, t: HiveState)
    requires Sound(s) && Step(s, AllocEvent(n, r), t) && r.Ok?
    ensures Sound(t) && Balanced(s, t) && (Coalesced(s.cells) ==> Coalesced(t.cells))
  {
    var base, off := Base(s.data, s.bins, s.cells, n), r.ref + BASE;
    BaseKeeps(s, n);
    TakenTiles(base.0, base.1, off, n);
    if base.1[off] - n >= MIN_CELL {
      SplitTiles(base.0, base.1, off, n);
    }
    TakenUses(base.1, off, n);
    if Coalesced(s.cells) {
      TakenCoalesced(base.0, base.1, off, n);
    }
  }

  lemma FreeKeeps(s: HiveState, off: int, t: HiveState)
    requires Sound(s) && Step(s, FreeEvent(off), t)
    ensures Sound(t) && Balanced(s, t) && (Coalesced(s.cells) ==> Coalesced(t.cells))
  {
    FreedTiles(s.bins, s.cells, off);
    FreedUses(s.bins, s.cells, off);
    if Coalesced(s.cells) {
      FreedCoalesced(s.bins, s.cells, off);
    }
  }

  /** The search has chosen the cell at `off`, growing the hive if nothing fitted. */
  ghost predicate Found(bounds: seq<int>, s: HiveState, m: HiveState, order: seq<int>, n: int, off: int) {
    && GrewFor(s.data, s.bins, s.cells, m.data, m.bins, m.cells, n, true)
    && m.bytesAllocated == s.bytesAllocated && m.bytesFreed == s.bytesFreed
    && GoodChoice(bounds, FreePart(m.cells), off, n) && Searched(bounds, s.cells, m.cells, order, n, off)
  }

  /** The answer to an aligned request, and whether all indexes are exact after it. */
  ghost predicate Answered(bounds: seq<int>, s: HiveState, t: HiveState, order: seq<int>, n: int, r: AllocResult,
                           off: int, exact: bool)
  {
    && !r.TooSmall? && Step(s, AllocEvent(n, r), t)
    && if r.Ok? then
         var base := Base(s.data, s.bins, s.cells, n).1;
         && off == Absolute(r.ref) && GoodChoice(bounds, FreePart(base), off, n)
         && Searched(bounds, s.cells, base, order, n, off)
         && (exact <==> !WholeLarge(bounds, base, off, n))
       else exact && NothingFits(s.cells, n)
  }

  lemma RefusedAnswer(bounds: seq<int>, s: HiveState, t: HiveState, order: seq<int>, n: int, off: int)
    requires GrewFor(s.data, s.bins, s.cells, t.data, t.bins, t.cells, n, false) && n % 8 == 0 && MIN_CELL <= n
    requires t.bytesAllocated == s.bytesAllocated && t.bytesFreed == s.bytesFreed && Encoded(t)
    ensures Answered(bounds, s, t, order, n, NoGrowth, off, true)
  {
  }

  lemma GrantedAnswer(bounds: seq<int>, s: HiveState, m: HiveState, t: HiveState, order: seq<int>, n: int, off: int,
                      r: AllocResult, exact: bool)
    requires Found(bounds, s, m, order, n, off) && n % 8 == 0 && MIN_CELL <= n && TakenFrom(m, t, n, off, r)
    requires exact <==> !WholeLarge(bounds, m.cells, off, n)
    ensures Answered(bounds, s, t, order, n, r, off, exact)
  {
    AllocStepIs(s, m, t, n, off, r);
  }

  /** Whether the answer to a request takes a large block whole is told by the lists before it. */
  lemma WholeToldBefore(bounds: seq<int>, s: HiveState, t: HiveState, order: seq<int>, n: int, r: AllocResult, off: int,
                        exact: bool)
    requires Sound(s) && n % 8 == 0 && MIN_CELL <= n && Answered(bounds, s, t, order, n, r, off, exact)
    ensures exact <==> !TakesWhole(bounds, FreePart(s.cells), order, n)
  {
    if r.Ok? {
      BaseKeeps(s, n);
      var base := Base(s.data, s.bins, s.cells, n);
      CellBytes(base.0, base.1, off);
      WholeLargeIff(bounds, s.cells, base.1, order, n, off);
    } else {
      NothingTaken(bounds, s.cells, order, n);
    }
  }

  /** Every step keeps the HBINs exactly tiled, conserves bytes, and never leaves two free cells touching. */
  lemma StepKeeps(s: HiveState, e: Event, t: HiveState)
    requires Sound(s) && Step(s, e, t)
    ensures Sound(t) && Balanced(s, t) && (Coalesced(s.cells) ==> Coalesced(t.cells))
  {
    match e {
      case AllocEvent(n, r) =>
        if r.Ok? {
          AllocKeeps(s, n, r, t);
        }
      case FreeEvent(off) => FreeKeeps(s, off, t);
      case WriteEvent(off, at, v) => WriteKeeps(s, off, at, v);
    }
  }

  /** A request that has a size class never takes all of a large block: the block is at least 8 bytes larger. */
  lemma ClassedRequestsSplit(bounds: seq<int>, base: Cells, off: int, n: int)
    requires Increasing(bounds) && n % 8 == 0 && MIN_CELL <= n && ClassOf(bounds, n) < |bounds|
    requires off in base && base[off] % 8 == 0 && n <= base[off]
    ensures !WholeLarge(bounds, base, off, n)
  {
    if base[off] - n < MIN_CELL {
      assert base[off] == n;
    }
  }

  /** So does every run; and free and used bytes always make up all HBIN payloads. */
  lemma {:induction false} RunKeeps(states: seq<HiveState>, events: seq<Event>)
    requires Run(states, events) && Sound(states[0])
    ensures var s, t := states[0], states[|events|];
      && Sound(t) && Balanced(s, t) && (Coalesced(s.cells) ==> Coalesced(t.cells))
      && FreeBytes(t.cells) + UsedBytes(t.cells) == Capacity(t.bins)
  {
    if |events| > 0 {
      var n := |events| - 1;
      RunKeeps(states[..|events|], events[..n]);
      StepKeeps(states[n], events[n], states[n + 1]);
    }
    TilingFills(states[|events|].bins, states[|events|].cells);
  }

  /** `p` is the same live cell with the same payload in both states. */
  ghost predicate Undisturbed(s: HiveState, t: HiveState, p: int) {
    && Live(s.cells, p) && Live(t.cells, p) && t.cells[p] == s.cells[p]
    && 0 <= p && Stop(s.cells, p) <= |s.data| && Stop(s.cells, p) <= |t.data|
    && forall i :: p + 4 <= i < Stop(s.cells, p) ==> t.data[i] == s.data[i]
  }

  ghost predicate Touches(e: Event, p: int) {
    (e.FreeEvent? && e.off == p) || (e.WriteEvent? && e.off == p)
  }

  /** A header at `x` lies outside the payload of `p`. */
  ghost predicate Outside(cells: Cells, p: int, x: int) {
    p in cells ==> x + 4 <= p + 4 || Stop(cells, p) <= x
  }

  lemma OtherHeadersOutside(bins: seq<Bin>, cells: Cells, p: int, o: int)
    requires Tiles(bins, cells) && p in cells && o in cells && p != o
    ensures Outside(cells, p, o)
  {
    assert Before(cells, p, o) && Before(cells, o, p) && CellOk(bins, cells, o) && CellOk(bins, cells, p);
  }

  lemma TailOutside(bins: seq<Bin>, cells: Cells, p: int, o: int, n: int)
    requires Tiles(bins, cells) && Live(cells, p) && IsFree(cells, o) && n % 8 == 0 && 0 <= n <= cells[o]
    ensures Outside(cells, p, End(o, n))
  {
    assert Before(cells, p, o) && Before(cells, o, p) && CellOk(bins, cells, o) && CellOk(bins, cells, p);
  }

  lemma TakenKeepsLive(bins: seq<Bin>, cells: Cells, o: int, n: int, p: int)
    requires Tiles(bins, cells) && Live(cells, p) && IsFree(cells, o) && n % 8 == 0 && MIN_CELL <= n <= cells[o]
    ensures Live(Taken(cells, o, n), p) && Taken(cells, o, n)[p] == cells[p]
  {
    if cells[o] - n >= MIN_CELL {
      SplitTiles(bins, cells, o, n);
    }
  }

  lemma AllocMisses(s: HiveState, n: int, r: AllocResult, t: HiveState, p: int)
    requires Sound(s) && Step(s, AllocEvent(n, r), t) && r.Ok? && Live(s.cells, p)
    ensures Undisturbed(s, t, p)
  {
    var base, off := Base(s.data, s.bins, s.cells, n), r.ref + BASE;
    BaseKeeps(s, n);
    CellsBelowEnd(s.bins, s.cells);
    OtherHeadersOutside(base.0, base.1, p, off);
    TailOutside(base.0, base.1, p, off, n);
    TakenKeepsLive(base.0, base.1, off, n, p);
    forall i | p + 4 <= i < Stop(s.cells, p) ensures t.data[i] == s.data[i] {
      assert ByteKept(s.data, t.data, off, n, i);
    }
  }

  lemma FreedKeepsLive(bins: seq<Bin>, cells: Cells, o: int, p: int)
    requires Tiles(bins, cells) && Live(cells, o) && Live(cells, p) && p != o
    ensures Live(Freed(cells, o), p) && Freed(cells, o)[p] == cells[p]
  {
    FreedTiles(bins, cells, o);
  }

  lemma FreeMisses(s: HiveState, off: int, t: HiveState, p: int)
    requires Sound(s) && Step(s, FreeEvent(off), t) && Live(s.cells, p) && p != off
    ensures Undisturbed(s, t, p)
  {
    var lo := BlockStart(s.cells, off);
    CellsBelowEnd(s.bins, s.cells);
    FreedTiles(s.bins, s.cells, off);
    OtherHeadersOutside(s.bins, s.cells, p, off);
    OtherHeadersOutside(s.bins, s.cells, p, lo);
    FreedKeepsLive(s.bins, s.cells, off, p);
  }

  lemma WriteMisses(s: HiveState, off: int, at: int, v: Byte, t: HiveState, p: int)
    requires Sound(s) && Step(s, WriteEvent(off, at, v), t) && Live(s.cells, p) && p != off
    ensures Undisturbed(s, t, p)
  {
    CellsBelowEnd(s.bins, s.cells);
    assert Before(s.cells, p, off) && Before(s.cells, off, p);
  }

  /** A live cell that no event of a run frees or writes keeps its place, its size and its payload. */
  lemma {:induction false} LiveCellsKept(states: seq<HiveState>, events: seq<Event>, p: int)
    requires Run(states, events) && Sound(states[0]) && Live(states[0].cells, p)
    requires forall i :: 0 <= i < |events| ==> !Touches(events[i], p)
    ensures Undisturbed(states[0], states[|events|], p)
  {
    if |events| == 0 {
      CellsBelowEnd(states[0].bins, states[0].cells);
    } else {
      var n := |events| - 1;
      var s, t := states[n], states[n + 1];
      RunKeeps(states[..|events|], events[..n]);
      LiveCellsKept(states[..|events|], events[..n], p);
      assert !Touches(events[n], p);
      match events[n] {
        case AllocEvent(k, r) =>
          if r.Ok? {
            AllocMisses(s, k, r, t, p);
          }
        case FreeEvent(off) => FreeMisses(s, off, t, p);
        case WriteEvent(off, at, v) => WriteMisses(s, off, at, v, t, p);
      }
    }
  }

  /** Two live cells never overlap, and none crosses an HBIN. */
  lemma LiveCellsApart(s: HiveState, p: int, q: int)
    requires Sound(s) && Live(s.cells, p) && Live(s.cells, q) && p != q
    ensures Stop(s.cells, p) <= q || Stop(s.cells, q) <= p
    ensures Housed(s.bins, p, Stop(s.cells, p))
  {
    assert Before(s.cells, p, q) && Before(s.cells, q, p) && CellOk(s.bins, s.cells, p);
  }
}
