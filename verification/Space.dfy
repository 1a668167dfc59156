/** What the allocator's bytes mean: HBINs exactly tiled by cells. A cell map takes the start of every cell to
    its signed size header, negative for allocated and positive for free. */
module Space {
  import opened Bytes

  const HBIN_HEADER := 32
  const MIN_CELL := 8

  datatype Bin = Bin(start: int, end: int)

  type Cells = map<int, int>

  function HiveEnd(bins: seq<Bin>): int {
    if bins == [] then 4096 else bins[|bins| - 1].end
  }

  /** HBINs follow each other from offset 4096 on, in whole pages. */
  ghost predicate BinsOk(bins: seq<Bin>) {
    forall i :: 0 <= i < |bins| ==>
      && bins[i].start == HiveEnd(bins[..i])
      && bins[i].start % 4096 == 0 && bins[i].end % 4096 == 0
      && 4096 <= bins[i].start && bins[i].start + 4096 <= bins[i].end
  }

  function FirstCell(b: Bin): int {
    b.start + HBIN_HEADER
  }

  ghost predicate Housed(bins: seq<Bin>, o: int, end: int) {
    exists b :: b in bins && FirstCell(b) <= o && end <= b.end
  }

  ghost predicate IsBinEnd(bins: seq<Bin>, e: int) {
    exists b :: b in bins && b.end == e
  }

  function Stop(cells: Cells, o: int): int
    requires o in cells
  {
    End(o, Abs(cells[o]))
  }

  /** An aligned cell inside one HBIN. */
  ghost predicate CellOk(bins: seq<Bin>, cells: Cells, o: int) {
    o in cells ==>
      && o % 8 == 0 && cells[o] % 8 == 0 && MIN_CELL <= Abs(cells[o])
      && Housed(bins, o, Stop(cells, o))
  }

  ghost predicate Shaped(bins: seq<Bin>, cells: Cells) {
    forall o {:trigger CellOk(bins, cells, o)} :: CellOk(bins, cells, o)
  }

  /** The cell at `o` stops before the one at `p` starts. */
  ghost predicate Before(cells: Cells, o: int, p: int) {
    o in cells && p in cells && o < p ==> Stop(cells, o) <= p
  }

  ghost predicate Follows(bins: seq<Bin>, cells: Cells, o: int) {
    o in cells ==> Stop(cells, o) in cells || IsBinEnd(bins, Stop(cells, o))
  }

  ghost predicate StartsBin(cells: Cells, b: Bin) {
    FirstCell(b) in cells
  }

  ghost predicate Chained(bins: seq<Bin>, cells: Cells) {
    && (forall b {:trigger StartsBin(cells, b)} :: b in bins ==> StartsBin(cells, b))
    && (forall o {:trigger Follows(bins, cells, o)} :: Follows(bins, cells, o))
  }

  ghost predicate Disjoint(cells: Cells) {
    forall o, p {:trigger Before(cells, o, p)} :: Before(cells, o, p)
  }

  /** Every HBIN is exactly tiled: cells are aligned, inside one HBIN, do not overlap, and each is followed by
      a cell or by the end of its HBIN. */
  ghost predicate Tiles(bins: seq<Bin>, cells: Cells) {
    BinsOk(bins) && Shaped(bins, cells) && Chained(bins, cells) && Disjoint(cells)
  }

  ghost function FreePart(cells: Cells): map<int, int> {
    map o | o in cells && cells[o] > 0 :: cells[o]
  }

  predicate Live(cells: Cells, o: int) {
    o in cells && cells[o] < 0
  }

  predicate IsFree(cells: Cells, o: int) {
    o in cells && cells[o] > 0
  }

  predicate Touching(cells: Cells, o: int) {
    IsFree(cells, o) && IsFree(cells, Stop(cells, o))
  }

  /** No two free cells touch. */
  ghost predicate Coalesced(cells: Cells) {
    forall o {:trigger Touching(cells, o)} :: !Touching(cells, o)
  }

  // ----- HBINs -----

  lemma {:induction false} BinsSorted(bins: seq<Bin>, i: int, j: int)
    requires BinsOk(bins) && 0 <= i < j < |bins|
    ensures bins[i].end <= bins[j].start
  {
    assert bins[j].start == HiveEnd(bins[..j]) == bins[j - 1].end;
    if i < j - 1 {
      BinsSorted(bins, i, j - 1);
    }
  }

  lemma BinsBelowEnd(bins: seq<Bin>, b: Bin)
    requires BinsOk(bins) && b in bins
    ensures b.start % 8 == 0 && b.end % 8 == 0
    ensures 4096 <= b.start && b.start + 4096 <= b.end <= HiveEnd(bins)
  {
    var i :| 0 <= i < |bins| && bins[i] == b;
    if i < |bins| - 1 {
      BinsSorted(bins, i, |bins| - 1);
    }
  }

  /** Two HBINs are the same or apart. */
  lemma BinsApart(bins: seq<Bin>, a: Bin, b: Bin)
    requires BinsOk(bins) && a in bins && b in bins
    ensures a == b || a.end <= b.start || b.end <= a.start
  {
    var i :| 0 <= i < |bins| && bins[i] == a;
    var j :| 0 <= j < |bins| && bins[j] == b;
    if i < j {
      BinsSorted(bins, i, j);
    } else if j < i {
      BinsSorted(bins, j, i);
    }
  }

  /** A cell that starts in an HBIN lies wholly in its payload. */
  lemma HouseIs(bins: seq<Bin>, cells: Cells, o: int, b: Bin)
    requires BinsOk(bins) && Shaped(bins, cells) && o in cells && b in bins && b.start <= o < b.end
    ensures FirstCell(b) <= o && Stop(cells, o) <= b.end
  {
    assert CellOk(bins, cells, o);
    var h :| h in bins && FirstCell(h) <= o && Stop(cells, o) <= h.end;
    BinsApart(bins, h, b);
  }

  /** The HBIN a cell lies in. */
  lemma House(bins: seq<Bin>, cells: Cells, o: int) returns (b: Bin)
    requires BinsOk(bins) && Shaped(bins, cells) && o in cells
    ensures b in bins && FirstCell(b) <= o < Stop(cells, o) <= b.end
  {
    assert CellOk(bins, cells, o);
    b :| b in bins && FirstCell(b) <= o && Stop(cells, o) <= b.end;
  }

  /** No cell starts at the end of an HBIN, and no HBIN ends inside another. */
  lemma NoCellAtBinEnd(bins: seq<Bin>, cells: Cells, b: Bin)
    requires BinsOk(bins) && Shaped(bins, cells) && b in bins
    ensures b.end !in cells
  {
    if b.end in cells {
      var h := House(bins, cells, b.end);
      BinsApart(bins, h, b);
    }
  }

  lemma OneEndInBin(bins: seq<Bin>, b: Bin, e: int)
    requires BinsOk(bins) && b in bins && IsBinEnd(bins, e) && b.start < e <= b.end
    ensures e == b.end
  {
    var k :| k in bins && k.end == e;
    BinsApart(bins, k, b);
    BinsBelowEnd(bins, k);
  }

  /** A cell's successor is a cell exactly when the cell does not end its HBIN. */
  lemma SuccessorInBin(bins: seq<Bin>, cells: Cells, o: int, b: Bin)
    requires Tiles(bins, cells) && o in cells && b in bins && b.start <= o < b.end
    ensures FirstCell(b) <= o && Stop(cells, o) <= b.end
    ensures Stop(cells, o) in cells <==> Stop(cells, o) < b.end
  {
    HouseIs(bins, cells, o, b);
    assert Follows(bins, cells, o);
    NoCellAtBinEnd(bins, cells, b);
    var n := Stop(cells, o);
    if n == b.end {
      assert n !in cells;
    } else if n !in cells {
      OneEndInBin(bins, b, n);
    }
  }

  // ----- Taking, freeing and growing, on cell maps -----

  /** Allocating `need` bytes from the free cell at `o`: the tail stays free when it can hold a cell. */
  function Taken(cells: Cells, o: int, need: int): Cells
    requires o in cells
  {
    if cells[o] - need >= MIN_CELL
    then cells[o := -need][End(o, need) := cells[o] - need]
    else cells[o := -cells[o]]
  }

  /** The free cell that stops where `o` starts, if there is one. */
  ghost predicate StopsAt(cells: Cells, p: int, o: int) {
    IsFree(cells, p) && Stop(cells, p) == o
  }

  /** Where the free block around `o` starts once `o` is freed. */
  ghost function BlockStart(cells: Cells, o: int): int {
    if exists p :: StopsAt(cells, p, o) then (var p :| StopsAt(cells, p, o); p) else o
  }

  /** The last cell of that block. */
  function BlockLast(cells: Cells, o: int): int
    requires o in cells
  {
    if IsFree(cells, Stop(cells, o)) then Stop(cells, o) else o
  }

  /** Freeing `o`: one free cell from the start of the free neighbour before it to the stop of the one after it. */
  ghost function Freed(cells: Cells, o: int): Cells
    requires Live(cells, o)
  {
    var lo, last := BlockStart(cells, o), BlockLast(cells, o);
    (cells - {o, last})[lo := Stop(cells, last) - lo]
  }

  /** Growing by one HBIN whose payload is one free cell. */
  function Opened(cells: Cells, b: Bin): Cells {
    cells[FirstCell(b) := b.end - FirstCell(b)]
  }

  // The same, in the steps the code takes.

  function Flipped(cells: Cells, o: int): Cells
    requires o in cells
  {
    cells[o := -cells[o]]
  }

  function Merged(cells: Cells, a: int, b: int): Cells
    requires a in cells && b in cells
  {
    (cells - {b})[a := cells[a] + cells[b]]
  }

  lemma FlippedTiles(bins: seq<Bin>, cells: Cells, o: int)
    requires Tiles(bins, cells) && o in cells
    ensures Tiles(bins, Flipped(cells, o))
  {
    var c := Flipped(cells, o);
    forall p ensures CellOk(bins, c, p) { assert CellOk(bins, cells, p); }
    forall p ensures Follows(bins, c, p) { assert Follows(bins, cells, p); }
    forall p, q ensures Before(c, p, q) { assert Before(cells, p, q); }
    forall b | b in bins ensures StartsBin(c, b) { assert StartsBin(cells, b); }
  }

  lemma MergedTiles(bins: seq<Bin>, cells: Cells, a: int, b: int)
    requires Tiles(bins, cells) && IsFree(cells, a) && IsFree(cells, b) && Stop(cells, a) == b
    ensures Tiles(bins, Merged(cells, a, b))
  {
    var c := Merged(cells, a, b);
    MergedHoused(bins, cells, a, b);
    MergedChained(bins, cells, a, b);
    forall p, q ensures Before(c, p, q) {
      assert Before(cells, p, q) && Before(cells, b, q) && Before(cells, a, q);
    }
  }

  lemma MergedHoused(bins: seq<Bin>, cells: Cells, a: int, b: int)
    requires Tiles(bins, cells) && IsFree(cells, a) && IsFree(cells, b) && Stop(cells, a) == b
    ensures Shaped(bins, Merged(cells, a, b)) && Stop(Merged(cells, a, b), a) == Stop(cells, b) > b > a
  {
    var c := Merged(cells, a, b);
    var h := House(bins, cells, a);
    NoCellAtBinEnd(bins, cells, h);
    if b == h.end {
      assert false;
    }
    HouseIs(bins, cells, b, h);
    assert CellOk(bins, cells, a) && CellOk(bins, cells, b);
    forall p ensures CellOk(bins, c, p) { assert CellOk(bins, cells, p); }
  }

  lemma MergedChained(bins: seq<Bin>, cells: Cells, a: int, b: int)
    requires Tiles(bins, cells) && IsFree(cells, a) && IsFree(cells, b) && Stop(cells, a) == b
    ensures Chained(bins, Merged(cells, a, b))
  {
    var c := Merged(cells, a, b);
    MergedHoused(bins, cells, a, b);
    forall p ensures Follows(bins, c, p) {
      assert Follows(bins, cells, p) && Follows(bins, cells, b) && Before(cells, p, a) && Before(cells, a, p);
      assert CellOk(bins, cells, p);
      if p in c && p != a && Stop(cells, p) == b {
        assert false;
      }
    }
    var h := House(bins, cells, a);
    forall x | x in bins ensures StartsBin(c, x) {
      assert StartsBin(cells, x);
      BinsApart(bins, h, x);
      if FirstCell(x) == b {
        assert false;
      }
    }
  }

  lemma TakenTiles(bins: seq<Bin>, cells: Cells, o: int, need: int)
    requires Tiles(bins, cells) && IsFree(cells, o) && need % 8 == 0 && MIN_CELL <= need <= cells[o]
    ensures Tiles(bins, Taken(cells, o, need))
  {
    if cells[o] - need < MIN_CELL {
      FlippedTiles(bins, cells, o);
    } else {
      SplitTiles(bins, cells, o, need);
    }
  }

  lemma SplitTiles(bins: seq<Bin>, cells: Cells, o: int, need: int)
    requires Tiles(bins, cells) && IsFree(cells, o) && need % 8 == 0 && MIN_CELL <= need <= cells[o] - MIN_CELL
    ensures Tiles(bins, Taken(cells, o, need))
    ensures End(o, need) !in cells
  {
    var c := Taken(cells, o, need);
    var t := End(o, need);
    var h := House(bins, cells, o);
    assert CellOk(bins, cells, o) && Before(cells, o, t);
    assert Stop(c, o) == t && Stop(c, t) == Stop(cells, o);
    forall p ensures CellOk(bins, c, p) { assert CellOk(bins, cells, p); }
    forall p ensures Follows(bins, c, p) { assert Follows(bins, cells, p) && Follows(bins, cells, o); }
    forall b | b in bins ensures StartsBin(c, b) { assert StartsBin(cells, b); }
    SplitDisjoint(cells, o, need);
  }

  lemma SplitDisjoint(cells: Cells, o: int, need: int)
    requires Disjoint(cells) && IsFree(cells, o) && MIN_CELL <= need <= cells[o] - MIN_CELL
    requires End(o, need) !in cells
    ensures Disjoint(Taken(cells, o, need))
  {
    var c := Taken(cells, o, need);
    forall p, q ensures Before(c, p, q) {
      assert Before(cells, p, q) && Before(cells, o, q) && Before(cells, p, o) && Before(cells, o, p);
    }
  }

  /** The next HBIN of a hive: whole pages, right behind the last one. */
  predicate NextBin(bins: seq<Bin>, b: Bin) {
    b.start == HiveEnd(bins) && b.start % 4096 == 0 && b.end % 4096 == 0 && b.start + 4096 <= b.end
  }

  /** An HBIN of `size` bytes behind `len` bytes. */
  function BinAfter(len: int, size: int): Bin {
    Bin(len, len + size)
  }

  lemma OpenedTiles(bins: seq<Bin>, cells: Cells, b: Bin)
    requires Tiles(bins, cells) && NextBin(bins, b)
    ensures Tiles(bins + [b], Opened(cells, b))
    ensures FirstCell(b) !in cells
  {
    OpenedBins(bins, b);
    CellsBelowEnd(bins, cells);
    OpenedShaped(bins, cells, b);
    OpenedChained(bins, cells, b);
    var c := Opened(cells, b);
    forall p, q ensures Before(c, p, q) { assert Before(cells, p, q); }
  }

  lemma OpenedShaped(bins: seq<Bin>, cells: Cells, b: Bin)
    requires Tiles(bins, cells) && NextBin(bins, b) && FirstCell(b) !in cells
    ensures Shaped(bins + [b], Opened(cells, b))
  {
    var bs, c := bins + [b], Opened(cells, b);
    PayloadAligned(b);
    forall p ensures CellOk(bs, c, p) {
      assert CellOk(bins, cells, p);
      if p in cells {
        var h := House(bins, cells, p);
        assert h in bs;
      } else if p == FirstCell(b) {
        assert b in bs && Stop(c, p) == b.end;
      }
    }
  }

  lemma PayloadAligned(b: Bin)
    requires b.start % 4096 == 0 && b.end % 4096 == 0
    ensures FirstCell(b) % 8 == 0 && (b.end - FirstCell(b)) % 8 == 0
  {
  }

  lemma OpenedChained(bins: seq<Bin>, cells: Cells, b: Bin)
    requires Tiles(bins, cells) && NextBin(bins, b) && FirstCell(b) !in cells
    ensures Chained(bins + [b], Opened(cells, b))
  {
    var bs, c := bins + [b], Opened(cells, b);
    assert b in bs && Stop(c, FirstCell(b)) == b.end;
    forall p ensures Follows(bs, c, p) {
      assert Follows(bins, cells, p);
      if p in cells && Stop(cells, p) !in cells {
        var h :| h in bins && h.end == Stop(cells, p);
        assert h in bs;
      }
    }
    forall x | x in bs ensures StartsBin(c, x) { assert x in bins ==> StartsBin(cells, x); }
  }

  lemma OpenedBins(bins: seq<Bin>, b: Bin)
    requires BinsOk(bins) && NextBin(bins, b)
    ensures BinsOk(bins + [b])
  {
    var bs := bins + [b];
    forall i | 0 <= i < |bs| ensures bs[..i] == if i < |bins| then bins[..i] else bins {
    }
    if |bins| > 0 {
      BinsBelowEnd(bins, bins[|bins| - 1]);
    }
  }

  lemma CellsBelowEnd(bins: seq<Bin>, cells: Cells)
    requires BinsOk(bins) && Shaped(bins, cells)
    ensures forall o :: o in cells ==> 4096 + HBIN_HEADER <= o && o + MIN_CELL <= Stop(cells, o) <= HiveEnd(bins)
  {
    forall o | o in cells ensures 4096 + HBIN_HEADER <= o && o + MIN_CELL <= Stop(cells, o) <= HiveEnd(bins) {
      var h := House(bins, cells, o);
      BinsBelowEnd(bins, h);
      assert CellOk(bins, cells, o);
    }
  }

  /** What is found at the start of a block is the one cell that stops there. */
  lemma OneStopsAt(bins: seq<Bin>, cells: Cells, p: int, q: int, o: int)
    requires Tiles(bins, cells) && StopsAt(cells, p, o) && StopsAt(cells, q, o)
    ensures p == q
  {
    assert Before(cells, p, q) && Before(cells, q, p);
    assert CellOk(bins, cells, p) && CellOk(bins, cells, q);
  }

  /** The steps of Free: turn the header, swallow the free successor, be swallowed by the free predecessor. */
  ghost function FreedForward(cells: Cells, o: int): Cells
    requires Live(cells, o)
  {
    var c := Flipped(cells, o);
    var n := Stop(cells, o);
    if IsFree(cells, n) then Merged(c, o, n) else c
  }

  lemma FreedForwardTiles(bins: seq<Bin>, cells: Cells, o: int)
    requires Tiles(bins, cells) && Live(cells, o)
    ensures Tiles(bins, FreedForward(cells, o))
    ensures IsFree(FreedForward(cells, o), o)
    ensures Stop(FreedForward(cells, o), o) == Stop(cells, BlockLast(cells, o))
    ensures forall p :: p < o ==> (StopsAt(FreedForward(cells, o), p, o) <==> StopsAt(cells, p, o))
  {
    var c := Flipped(cells, o);
    var n := Stop(cells, o);
    FlippedTiles(bins, cells, o);
    assert CellOk(bins, cells, o);
    if IsFree(cells, n) {
      assert Stop(c, n) == Stop(cells, n);
      MergedTiles(bins, c, o, n);
      MergedHoused(bins, c, o, n);
    }
  }

  /** A cell that stops where another starts lies before it. */
  lemma StopsBefore(bins: seq<Bin>, cells: Cells, p: int, o: int)
    requires Tiles(bins, cells) && StopsAt(cells, p, o)
    ensures p < o
  {
    assert CellOk(bins, cells, p);
  }

  lemma FreedTiles(bins: seq<Bin>, cells: Cells, o: int)
    requires Tiles(bins, cells) && Live(cells, o)
    ensures Tiles(bins, Freed(cells, o))
    ensures BlockStart(cells, o) == o ==> Freed(cells, o) == FreedForward(cells, o)
    ensures BlockStart(cells, o) != o ==> var p := BlockStart(cells, o);
      && StopsAt(cells, p, o) && p < o && p in FreedForward(cells, o)
      && Freed(cells, o) == Merged(FreedForward(cells, o), p, o)
  {
    FreedForwardTiles(bins, cells, o);
    var p, f := BlockStart(cells, o), FreedForward(cells, o);
    assert CellOk(bins, cells, o);
    if p != o {
      StopsBefore(bins, cells, p, o);
      assert StopsAt(f, p, o);
      MergedTiles(bins, f, p, o);
      MergedHoused(bins, f, p, o);
      assert Merged(f, p, o) == Freed(cells, o);
    } else {
      assert f == Freed(cells, o);
    }
  }

  // ----- Coalescing is complete -----

  lemma TakenCoalesced(bins: seq<Bin>, cells: Cells, o: int, need: int)
    requires Tiles(bins, cells) && IsFree(cells, o) && need % 8 == 0 && MIN_CELL <= need <= cells[o]
    requires Coalesced(cells)
    ensures Coalesced(Taken(cells, o, need))
  {
    var c := Taken(cells, o, need);
    if cells[o] - need >= MIN_CELL {
      SplitTiles(bins, cells, o, need);
    }
    forall p ensures !Touching(c, p) {
      assert !Touching(cells, p) && !Touching(cells, o);
      assert Before(cells, o, p) && Before(cells, p, o);
      assert CellOk(bins, cells, p) && CellOk(bins, cells, o);
    }
  }

  lemma FreedCoalesced(bins: seq<Bin>, cells: Cells, o: int)
    requires Tiles(bins, cells) && Live(cells, o) && Coalesced(cells)
    ensures Coalesced(Freed(cells, o))
  {
    var c, lo, last := Freed(cells, o), BlockStart(cells, o), BlockLast(cells, o);
    FreedTiles(bins, cells, o);
    FreedForwardTiles(bins, cells, o);
    assert CellOk(bins, cells, o) && CellOk(bins, cells, last) && CellOk(bins, c, lo);
    assert Stop(c, lo) == Stop(cells, last);
    forall p ensures !Touching(c, p) {
      assert !Touching(cells, p) && !Touching(cells, o) && !Touching(cells, last) && !Touching(cells, lo);
      if p != lo && p in cells && StopsAt(cells, p, lo) && lo == o {
        assert false;
      }
    }
  }

  lemma OpenedCoalesced(bins: seq<Bin>, cells: Cells, b: Bin)
    requires Tiles(bins, cells) && NextBin(bins, b) && Coalesced(cells)
    ensures Coalesced(Opened(cells, b))
  {
    var c := Opened(cells, b);
    CellsBelowEnd(bins, cells);
    forall p ensures !Touching(c, p) {
      assert !Touching(cells, p);
    }
  }

  // ----- Bytes are conserved -----

  function Pos(v: int): int {
    if v > 0 then v else 0
  }

  function Neg(v: int): int {
    if v < 0 then -v else 0
  }

  ghost function Sum(m: Cells, w: int -> int): int
    decreases |m|
  {
    if exists k :: k in m then (var k :| k in m; Sum(m - {k}, w) + w(m[k])) else 0
  }

  /** The sum does not depend on the order. */
  lemma {:induction false} SumSplit(m: Cells, w: int -> int, k: int)
    requires k in m
    ensures Sum(m, w) == Sum(m - {k}, w) + w(m[k])
    decreases |m|
  {
    var j :| j in m && Sum(m, w) == Sum(m - {j}, w) + w(m[j]);
    if j != k {
      SumSplit(m - {j}, w, k);
      SumSplit(m - {k}, w, j);
      assert m - {j} - {k} == m - {k} - {j};
    }
  }

  lemma SumPut(m: Cells, w: int -> int, k: int, v: int)
    ensures Sum(m[k := v], w) == Sum(m - {k}, w) + w(v)
  {
    var p := m[k := v];
    SumSplit(p, w, k);
    assert p - {k} == m - {k};
  }

  ghost function FreeBytes(cells: Cells): int {
    Sum(cells, Pos)
  }

  ghost function UsedBytes(cells: Cells): int {
    Sum(cells, Neg)
  }

  /** The bytes an HBIN table has for cells. */
  function Capacity(bins: seq<Bin>): int {
    if bins == [] then 0 else Capacity(bins[..|bins| - 1]) + bins[|bins| - 1].end - FirstCell(bins[|bins| - 1])
  }

  /** What Alloc hands out: the request, or all of a cell too small to split. */
  function Granted(cells: Cells, o: int, need: int): int
    requires o in cells
  {
    if cells[o] - need >= MIN_CELL then need else cells[o]
  }

  lemma TakenUses(cells: Cells, o: int, need: int)
    requires IsFree(cells, o) && 0 < need <= cells[o]
    requires End(o, need) !in cells || cells[o] - need < MIN_CELL
    ensures UsedBytes(Taken(cells, o, need)) == UsedBytes(cells) + Granted(cells, o, need)
  {
    SumSplit(cells, Neg, o);
    if cells[o] - need >= MIN_CELL {
      var t, c := End(o, need), cells[o := -need];
      SumPut(cells, Neg, o, -need);
      SumPut(c, Neg, t, cells[o] - need);
      assert c - {t} == c;
    } else {
      SumPut(cells, Neg, o, -cells[o]);
    }
  }

  lemma FlippedUses(cells: Cells, o: int)
    requires Live(cells, o)
    ensures UsedBytes(Flipped(cells, o)) == UsedBytes(cells) + cells[o]
  {
    SumSplit(cells, Neg, o);
    SumPut(cells, Neg, o, -cells[o]);
  }

  lemma MergedUses(cells: Cells, a: int, b: int)
    requires IsFree(cells, a) && IsFree(cells, b) && a != b
    ensures UsedBytes(Merged(cells, a, b)) == UsedBytes(cells)
  {
    SumPut(cells - {b}, Neg, a, cells[a] + cells[b]);
    SumSplit(cells, Neg, b);
    SumSplit(cells - {b}, Neg, a);
  }

  lemma FreedUses(bins: seq<Bin>, cells: Cells, o: int)
    requires Tiles(bins, cells) && Live(cells, o)
    ensures UsedBytes(Freed(cells, o)) == UsedBytes(cells) + cells[o]
  {
    FlippedUses(cells, o);
    FreedTiles(bins, cells, o);
    FreedForwardTiles(bins, cells, o);
    var c, n, p := Flipped(cells, o), Stop(cells, o), BlockStart(cells, o);
    assert CellOk(bins, cells, o);
    if IsFree(cells, n) {
      MergedUses(c, o, n);
    }
    if p != o {
      MergedUses(FreedForward(cells, o), p, o);
    }
  }

  lemma OpenedUses(cells: Cells, b: Bin)
    requires FirstCell(b) !in cells && FirstCell(b) <= b.end
    ensures UsedBytes(Opened(cells, b)) == UsedBytes(cells)
  {
    var f := FirstCell(b);
    SumPut(cells, Neg, f, b.end - f);
    assert cells - {f} == cells;
  }

  /** The cells that start below `x`. */
  ghost function Below(cells: Cells, x: int): Cells {
    map o | o in cells && o < x :: cells[o]
  }

  /** Nothing starts between a cell and its stop. */
  lemma BelowStop(cells: Cells, o: int)
    requires Disjoint(cells) && o in cells && cells[o] != 0
    ensures Below(cells, Stop(cells, o)) == Below(cells, o)[o := cells[o]]
  {
    var n := Stop(cells, o);
    forall p | p in cells && p != o ensures p < n <==> p < o {
      assert Before(cells, o, p);
    }
  }

  /** No cell starts in an HBIN's header. */
  lemma BelowHeader(bins: seq<Bin>, cells: Cells, b: Bin)
    requires Tiles(bins, cells) && b in bins
    ensures Below(cells, FirstCell(b)) == Below(cells, b.start)
  {
    forall p | p in cells && b.start <= p < FirstCell(b) ensures false {
      var h := House(bins, cells, p);
      BinsApart(bins, h, b);
    }
  }

  lemma CellBytes(bins: seq<Bin>, cells: Cells, o: int)
    requires Shaped(bins, cells) && o in cells
    ensures o % 8 == 0 && cells[o] % 8 == 0 && Abs(cells[o]) % 8 == 0 && MIN_CELL <= Abs(cells[o])
    ensures Stop(cells, o) == o + Abs(cells[o])
  {
    assert CellOk(bins, cells, o);
  }

  // ----- A tiling leaves no byte over -----

  lemma {:induction false} SumParts(m: Cells)
    ensures Sum(m, Abs) == Sum(m, Pos) + Sum(m, Neg)
    decreases |m|
  {
    if k :| k in m {
      SumSplit(m, Abs, k);
      SumSplit(m, Pos, k);
      SumSplit(m, Neg, k);
      SumParts(m - {k});
    }
  }

  /** From a cell of an HBIN on, the cells fill it to its end. */
  lemma {:induction false} BinFills(bins: seq<Bin>, cells: Cells, b: Bin, at: int)
    requires Tiles(bins, cells) && b in bins && (at == b.end || (at in cells && b.start <= at < b.end))
    ensures Sum(Below(cells, b.end), Abs) == Sum(Below(cells, at), Abs) + b.end - at
    decreases b.end - at
  {
    if at != b.end {
      SuccessorInBin(bins, cells, at, b);
      CellBytes(bins, cells, at);
      BelowStop(cells, at);
      SumPut(Below(cells, at), Abs, at, cells[at]);
      assert Below(cells, at) - {at} == Below(cells, at);
      assert Follows(bins, cells, at);
      var n := Stop(cells, at);
      if n != b.end && n !in cells {
        OneEndInBin(bins, b, n);
      }
      BinFills(bins, cells, b, n);
    }
  }

  lemma {:induction false} BinsFill(bins: seq<Bin>, cells: Cells, k: int)
    requires Tiles(bins, cells) && 0 <= k <= |bins|
    ensures Sum(Below(cells, HiveEnd(bins[..k])), Abs) == Capacity(bins[..k])
  {
    if k == 0 {
      CellsBelowEnd(bins, cells);
      assert Below(cells, 4096) == map[];
    } else {
      var b := bins[k - 1];
      assert b in bins && StartsBin(cells, b) && bins[..k][..k - 1] == bins[..k - 1];
      BinsFill(bins, cells, k - 1);
      BelowHeader(bins, cells, b);
      BinsBelowEnd(bins, b);
      BinFills(bins, cells, b, FirstCell(b));
    }
  }

  /** In every tiling, free and used bytes make up all HBIN payloads. */
  lemma TilingFills(bins: seq<Bin>, cells: Cells)
    requires Tiles(bins, cells)
    ensures FreeBytes(cells) + UsedBytes(cells) == Capacity(bins)
  {
    BinsFill(bins, cells, |bins|);
    assert bins[..|bins|] == bins;
    CellsBelowEnd(bins, cells);
    assert Below(cells, HiveEnd(bins)) == cells;
    SumParts(cells);
  }
}
