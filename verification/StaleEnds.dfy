/** What Free makes of the cells when the map of ends is not exact. It stops being so when a large block is given whole:
    the block's end stays in the map, and a later Free takes it for the end of whatever free cell starts where the block
    did (hive/alloc/fastalloc.go). */
module StaleEnds {
  import opened Bytes
  import opened Space
  import opened FreeIndex
  import opened FastAlloc

  /** The cells by their headers, and the map of ends, exact or not. */
  datatype State = State(cells: Cells, ends: map<int, int>)

  function Listed(s: State, o: int): State
    requires o in s.cells
  {
    s.(ends := s.ends[Stop(s.cells, o) := o])
  }

  /** Alloc once the free cell at `o` is chosen: a class takes the cell's end out of the map, the list of large blocks
      does not. */
  function Take(s: State, o: int, need: int, fromLarge: bool): State
    requires o in s.cells
  {
    var e := Stop(s.cells, o);
    var ends := if fromLarge then s.ends else Without(s.ends, e);
    State(Taken(s.cells, o, need), if s.cells[o] - need >= MIN_CELL then ends[e := End(o, need)] else ends)
  }

  /** The first half of Free: the free cell behind, with its own end. */
  function FreeForward(s: State, o: int): State
    requires Live(s.cells, o)
  {
    var c := Flipped(s.cells, o);
    var n := Stop(c, o);
    if IsFree(c, n) then State(Merged(c, o, n), Without(s.ends, Stop(c, n))) else State(c, s.ends)
  }

  /** Free: the cell that the map of ends names before `o` is merged if its header says that it is free. */
  function Free(s: State, o: int): State
    requires Live(s.cells, o)
  {
    var f := FreeForward(s, o);
    if o in f.ends && IsFree(f.cells, f.ends[o]) then
      var p := f.ends[o];
      Listed(State(Merged(f.cells, p, o), Without(f.ends, Stop(f.cells, p))), p)
    else
      Listed(f, o)
  }

  // ----- With an exact map -----

  /** With an exact map of ends Free merges the cell with its free neighbours, and the map stays exact. */
  lemma FreeIsExact(bins: seq<Bin>, s: State, o: int)
    requires Tiles(bins, s.cells) && Live(s.cells, o) && Ends(s.ends, FreePart(s.cells))
    ensures Free(s, o).cells == Freed(s.cells, o) && Ends(Free(s, o).ends, FreePart(Free(s, o).cells))
  {
    var f := FreeForward(s, o);
    ForwardIsExact(bins, s, o);
    FreedTiles(bins, s.cells, o);
    PredecessorFound(bins, s.cells, f.ends, o);
    if o in f.ends {
      var p := f.ends[o];
      FreedForwardTiles(bins, s.cells, o);
      MergedEnds(bins, f.cells, f.ends, p, o, o, p);
      ListedIsExact(State(Merged(f.cells, p, o), Without(f.ends, Stop(f.cells, p))), p);
    } else {
      ListedIsExact(f, o);
    }
  }

  lemma ForwardIsExact(bins: seq<Bin>, s: State, o: int)
    requires Tiles(bins, s.cells) && Live(s.cells, o) && Ends(s.ends, FreePart(s.cells))
    ensures var f := FreeForward(s, o);
      && f.cells == FreedForward(s.cells, o) && IsFree(f.cells, o) && Stop(f.cells, o) !in f.ends
      && Ends(f.ends, Without(FreePart(f.cells), o))
  {
    var c := Flipped(s.cells, o);
    var n := Stop(c, o);
    assert CellOk(bins, s.cells, o);
    FlippedTiles(bins, s.cells, o);
    FlippedEnds(bins, s.cells, s.ends, o);
    if IsFree(c, n) {
      assert n != o;
      MergedEnds(bins, c, s.ends, o, n, o, n);
    }
  }

  lemma ListedIsExact(s: State, o: int)
    requires IsFree(s.cells, o) && Stop(s.cells, o) !in s.ends && Ends(s.ends, Without(FreePart(s.cells), o))
    ensures Ends(Listed(s, o).ends, FreePart(s.cells))
  {
    var e := Stop(s.cells, o);
    assert Without(s.ends, e) == s.ends && s.cells[o] == Abs(s.cells[o]);
    EndsInsert(s.ends, Without(FreePart(s.cells), o), o, s.cells[o]);
    assert Without(FreePart(s.cells), o)[o := s.cells[o]] == FreePart(s.cells);
  }

  // ----- Cells by where they start and stop -----

  /** The cell at `o` stops at `e`, and is free or not. */
  predicate Spans(s: State, o: int, e: int, free: bool) {
    o in s.cells && s.cells[o] == if free then e - o else o - e
  }

  /** Nothing but the end `g` is told differently. */
  ghost predicate SameEnds(s: State, t: State, g: int) {
    forall x :: x != g ==> (x in t.ends <==> x in s.ends) && (x in s.ends ==> t.ends[x] == s.ends[x])
  }

  lemma TakePart(s: State, o: int, m: int, g: int, fromLarge: bool)
    requires Spans(s, o, g, true) && o < m && m + MIN_CELL <= g
    ensures Take(s, o, m - o, fromLarge).cells == s.cells[o := o - m][m := g - m]
    ensures SameEnds(s, Take(s, o, m - o, fromLarge), g)
  {
    assert Stop(s.cells, o) == g && End(o, m - o) == m;
  }

  lemma TakeAll(s: State, o: int, g: int, fromLarge: bool)
    requires Spans(s, o, g, true) && o < g
    ensures Take(s, o, g - o, fromLarge).cells == s.cells[o := o - g]
    ensures SameEnds(s, Take(s, o, g - o, fromLarge), g) && (fromLarge ==> Take(s, o, g - o, fromLarge).ends == s.ends)
  {
    assert Stop(s.cells, o) == g;
  }

  /** Nothing to merge with. */
  lemma FreeAlone(s: State, o: int, g: int)
    requires Spans(s, o, g, false) && o < g && !IsFree(s.cells, g)
    requires o in s.ends ==> s.ends[o] != o && !IsFree(s.cells, s.ends[o])
    ensures Free(s, o).cells == s.cells[o := g - o] && SameEnds(s, Free(s, o), g)
  {
    var c := Flipped(s.cells, o);
    assert Stop(c, o) == g;
  }

  /** A free cell behind, and no end that the map knows at `o`. */
  lemma FreeWithNext(s: State, o: int, e: int, g: int)
    requires Spans(s, o, e, false) && Spans(s, e, g, true) && o < e < g && o !in s.ends
    ensures Free(s, o).cells == (s.cells - {e})[o := g - o] && SameEnds(s, Free(s, o), g)
  {
    var c := Flipped(s.cells, o);
    assert Stop(c, o) == e && Stop(c, e) == g;
    assert Merged(c, o, e)[o] == g - o;
  }

  /** The map names a free cell at `e`, which in truth stops at `m`. */
  lemma FreeWithStale(s: State, o: int, m: int, e: int, g: int)
    requires Spans(s, e, g, false) && Spans(s, o, m, true) && o < m <= e < g && !IsFree(s.cells, g)
    requires e in s.ends && s.ends[e] == o
    ensures Free(s, e).cells == (s.cells - {e})[o := (m - o) + (g - e)]
  {
    var c := Flipped(s.cells, e);
    assert Stop(c, e) == g;
  }

  // ----- The run -----

  datatype Call = Alloc(at: int, need: int, fromLarge: bool) | Release(at: int)

  predicate Possible(s: State, c: Call) {
    match c
    case Alloc(o, need, _) => IsFree(s.cells, o) && MIN_CELL <= need <= s.cells[o]
    case Release(o) => Live(s.cells, o)
  }

  function After(s: State, c: Call): State
    requires Possible(s, c)
  {
    match c
    case Alloc(o, need, fromLarge) => Take(s, o, need, fromLarge)
    case Release(o) => Free(s, o)
  }

  /** The calls lead from `s` to `t`. */
  ghost predicate Leads(s: State, calls: seq<Call>, t: State)
    decreases |calls|
  {
    if calls == [] then s == t else Possible(s, calls[0]) && Leads(After(s, calls[0]), calls[1..], t)
  }

  lemma {:induction false} LeadsConcat(s: State, a: seq<Call>, m: State, b: seq<Call>, t: State)
    requires Leads(s, a, m) && Leads(m, b, t)
    ensures Leads(s, a + b, t)
    decreases |a|
  {
    if a == [] {
      assert a + b == b;
    } else {
      LeadsConcat(After(s, a[0]), a[1..], m, b, t);
      assert (a + b)[1..] == a[1..] + b;
    }
  }

  lemma LeadsOne(s: State, c: Call)
    requires Possible(s, c)
    ensures Leads(s, [c], After(s, c))
  {
    assert [c][1..] == [];
  }

  /** A free block from `o` to `e` and a live cell from there to `g`, and nothing free around them. */
  ghost predicate AtStart(s: State, o: int, m: int, e: int, g: int) {
    && o + MIN_CELL <= m && m + MIN_CELL <= e && e + MIN_CELL <= g
    && Spans(s, o, e, true) && Spans(s, e, g, false) && !IsFree(s.cells, g)
    && e in s.ends && s.ends[e] == o && o !in s.ends
  }

  /** One free cell from `o` to `g`, and the end `e` of a block that is no more. */
  ghost predicate Stale(s: State, o: int, e: int, g: int) {
    Spans(s, o, g, true) && !IsFree(s.cells, g) && e in s.ends && s.ends[e] == o && o !in s.ends
  }

  /** The block is given whole, from the list of large blocks; then both cells are freed. */
  function WholeRun(o: int, e: int): seq<Call> {
    [Alloc(o, e - o, true)] + [Release(e)] + [Release(o)]
  }

  lemma EndGoesStale(s: State, o: int, m: int, e: int, g: int) returns (t: State)
    requires AtStart(s, o, m, e, g)
    ensures Leads(s, WholeRun(o, e), t) && Stale(t, o, e, g)
  {
    TakeAll(s, o, e, true);
    var a := Take(s, o, e - o, true);
    LeadsOne(s, Alloc(o, e - o, true));
    FreeAlone(a, e, g);
    var b := Free(a, e);
    LeadsOne(a, Release(e));
    LeadsConcat(s, [Alloc(o, e - o, true)], a, [Release(e)], b);
    FreeWithNext(b, o, e, g);
    t := Free(b, o);
    LeadsOne(b, Release(o));
    LeadsConcat(s, [Alloc(o, e - o, true)] + [Release(e)], b, [Release(o)], t);
  }

  /** The free cell is given in three parts, the second one up to `e`. */
  function PartsRun(o: int, m: int, e: int, g: int, large: (bool, bool, bool)): seq<Call> {
    [Alloc(o, m - o, large.0)] + [Alloc(m, e - m, large.1)] + [Alloc(e, g - e, large.2)]
  }

  lemma PartsGiven(s: State, o: int, m: int, e: int, g: int, large: (bool, bool, bool)) returns (t: State)
    requires o + MIN_CELL <= m && m + MIN_CELL <= e && e + MIN_CELL <= g && Stale(s, o, e, g)
    ensures Leads(s, PartsRun(o, m, e, g, large), t)
    ensures Spans(t, o, m, false) && Spans(t, m, e, false) && Spans(t, e, g, false) && !IsFree(t.cells, g)
    ensures e in t.ends && t.ends[e] == o && o !in t.ends
  {
    var c0, c1, c2 := Alloc(o, m - o, large.0), Alloc(m, e - m, large.1), Alloc(e, g - e, large.2);
    TakePart(s, o, m, g, large.0);
    var a := After(s, c0);
    LeadsOne(s, c0);
    TakePart(a, m, e, g, large.1);
    var b := After(a, c1);
    LeadsOne(a, c1);
    LeadsConcat(s, [c0], a, [c1], b);
    TakeAll(b, e, g, large.2);
    t := After(b, c2);
    LeadsOne(b, c2);
    LeadsConcat(s, [c0] + [c1], b, [c2], t);
  }

  /** The first and the third are freed: the stale end makes them one free cell, over the second. */
  lemma PartsFreed(s: State, o: int, m: int, e: int, g: int) returns (t: State)
    requires o < m < e < g && Spans(s, o, m, false) && Spans(s, m, e, false) && Spans(s, e, g, false)
    requires !IsFree(s.cells, g) && e in s.ends && s.ends[e] == o && o !in s.ends
    ensures Leads(s, [Release(o)] + [Release(e)], t)
    ensures o in t.cells && t.cells[o] == (m - o) + (g - e) && Spans(t, m, e, false)
  {
    FreeAlone(s, o, m);
    var a := Free(s, o);
    LeadsOne(s, Release(o));
    FreeWithStale(a, o, m, e, g);
    t := Free(a, e);
    LeadsOne(a, Release(e));
    LeadsConcat(s, [Release(o)], a, [Release(e)], t);
  }

  function StaleRun(o: int, m: int, e: int, g: int, large: (bool, bool, bool, bool)): seq<Call> {
    WholeRun(o, e) + PartsRun(o, m, e, g, (large.0, large.1, large.2)) + ([Release(o)] + [Release(e)]) +
    [Alloc(o, (m - o) + (g - e), large.3)]
  }

  lemma RealStart(bins: seq<Bin>, s: State, o: int, m: int, e: int, g: int)
    requires Tiles(bins, s.cells) && Coalesced(s.cells) && Ends(s.ends, FreePart(s.cells))
    requires IsFree(s.cells, o) && Stop(s.cells, o) == e && Live(s.cells, e) && Stop(s.cells, e) == g
    requires !IsFree(s.cells, g) && o + MIN_CELL <= m && m + MIN_CELL <= e
    ensures AtStart(s, o, m, e, g)
  {
    assert CellOk(bins, s.cells, o) && CellOk(bins, s.cells, e);
    assert o in FreePart(s.cells) && End(o, s.cells[o]) == e;
    if o in s.ends {
      assert Touching(s.cells, s.ends[o]);
    }
  }

  /** After a large block is given whole, two live cells come to overlap: from every well-formed state with an exact map
      of ends, a free block from `o` to `e` and a live cell from there to `g`, if later requests are given the cells
      that were freed, of whatever list. */
  lemma StaleEndOverlaps(bins: seq<Bin>, s: State, o: int, m: int, e: int, g: int, large: (bool, bool, bool, bool))
    returns (t: State)
    requires Tiles(bins, s.cells) && Coalesced(s.cells) && Ends(s.ends, FreePart(s.cells))
    requires IsFree(s.cells, o) && Stop(s.cells, o) == e && Live(s.cells, e) && Stop(s.cells, e) == g
    requires !IsFree(s.cells, g) && o + MIN_CELL <= m && m + MIN_CELL <= e
    ensures Leads(s, StaleRun(o, m, e, g, large), t)
    ensures Live(t.cells, o) && Live(t.cells, m) && o < m < Stop(t.cells, o)
  {
    RealStart(bins, s, o, m, e, g);
    var parts := (large.0, large.1, large.2);
    var a := EndGoesStale(s, o, m, e, g);
    var b := PartsGiven(a, o, m, e, g, parts);
    LeadsConcat(s, WholeRun(o, e), a, PartsRun(o, m, e, g, parts), b);
    var c := PartsFreed(b, o, m, e, g);
    LeadsConcat(s, WholeRun(o, e) + PartsRun(o, m, e, g, parts), b, [Release(o)] + [Release(e)], c);
    var last := Alloc(o, (m - o) + (g - e), large.3);
    TakeAll(c, o, o + ((m - o) + (g - e)), large.3);
    t := After(c, last);
    LeadsOne(c, last);
    LeadsConcat(s, WholeRun(o, e) + PartsRun(o, m, e, g, parts) + ([Release(o)] + [Release(e)]), c, [last], t);
  }
}
