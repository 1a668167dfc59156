/** Cells by kind, and subkey lists: leaf lists, and lists of leaf lists above 1024 entries (hive/subkeys/writer.go,
    freeSubkeyList in hive/edit/nkedit.go). The cells of a value's data are bytes. */
module HiveCells {
  import opened Bytes

  const INVALID := 0xFFFFFFFF
  const RI_THRESHOLD := 1024
  const CHUNK := 1024

  datatype Cell =
    | Leaf(refs: seq<int>)                                          // subkey list: key cells
    | Indirect(chunks: seq<int>)                                    // subkey list: leaf lists
    | Key(parent: int, name: string, subkeyCount: nat, subkeyList: int, valueCount: nat, valueList: int)
    | ValueList(vks: seq<int>)
    | ValueKey(name: string, typ: Word, dataLen: nat, dataRef: int, small: seq<Byte>)
    | Raw(payload: seq<Byte>)                                       // a value's data, or part of its big-data form

  type Cells = map<int, Cell>

  predicate LeafAt(cells: Cells, r: int) {
    r in cells && cells[r].Leaf?
  }

  /** The entries of leaf after leaf. */
  function Gathered(cells: Cells, chunks: seq<int>): seq<int>
    requires forall i :: 0 <= i < |chunks| ==> LeafAt(cells, chunks[i])
  {
    if chunks == [] then []
    else
      assert LeafAt(cells, chunks[|chunks| - 1]);
      Gathered(cells, chunks[..|chunks| - 1]) + cells[chunks[|chunks| - 1]].refs
  }

  predicate Distinct(s: seq<int>) {
    forall i, j :: 0 <= i < j < |s| ==> s[i] != s[j]
  }

  function Members(s: seq<int>): set<int> {
    set c | c in s
  }

  /** A list that can be read: none, a leaf, or leaves of its own. */
  ghost predicate Listed(cells: Cells, ref: int) {
    && INVALID !in cells
    && (ref != INVALID ==>
          && ref in cells && (cells[ref].Leaf? || cells[ref].Indirect?)
          && (cells[ref].Indirect? ==>
                && Distinct(cells[ref].chunks)
                && forall i :: 0 <= i < |cells[ref].chunks| ==> LeafAt(cells, cells[ref].chunks[i])))
  }

  ghost function Entries(cells: Cells, ref: int): seq<int>
    requires Listed(cells, ref)
  {
    if ref == INVALID then []
    else match cells[ref]
      case Leaf(refs) => refs
      case Indirect(chunks) => Gathered(cells, chunks)
  }

  /** The cells a list is made of. */
  ghost function Owned(cells: Cells, ref: int): set<int> {
    if ref !in cells then {}
    else match cells[ref]
      case Indirect(chunks) => {ref} + Members(chunks)
      case _ => {ref}
  }

  ghost predicate Agree(a: Cells, b: Cells, s: set<int>) {
    forall r :: r in s ==> r in a && r in b && a[r] == b[r]
  }

  lemma {:induction false} GatheredFrame(a: Cells, b: Cells, chunks: seq<int>)
    requires forall i :: 0 <= i < |chunks| ==> LeafAt(a, chunks[i]) && chunks[i] in b && b[chunks[i]] == a[chunks[i]]
    ensures Gathered(a, chunks) == Gathered(b, chunks)
  {
    if chunks != [] {
      GatheredFrame(a, b, chunks[..|chunks| - 1]);
    }
  }

  /** A list depends on its own cells only. */
  lemma ListFrame(a: Cells, b: Cells, ref: int)
    requires Listed(a, ref) && INVALID !in b && Agree(a, b, Owned(a, ref))
    ensures Listed(b, ref) && Entries(b, ref) == Entries(a, ref) && Owned(b, ref) == Owned(a, ref)
  {
    if ref != INVALID && a[ref].Indirect? {
      GatheredFrame(a, b, a[ref].chunks);
    }
  }

  /** The cells `held` are gone and the list `ref` is there instead, in cells of its own. */
  ghost predicate Swapped(a: Cells, b: Cells, held: set<int>, ref: int) {
    && INVALID !in b
    && b.Keys == (a.Keys - held) + Owned(b, ref) && Owned(b, ref) !! (a.Keys - held)
    && Agree(a, b, a.Keys - held)
  }

  // ----- The form of a written list -----

  function Least(a: int, b: int): int {
    if a < b then a else b
  }

  /** Leaf `i` has 1024 entries, the last one what is left. */
  ghost predicate ChunkAt(cells: Cells, chunks: seq<int>, refs: seq<int>, i: int) {
    0 <= i < |chunks| ==>
      && i * CHUNK < |refs| && chunks[i] in cells
      && cells[chunks[i]] == Leaf(refs[i * CHUNK..Least(i * CHUNK + CHUNK, |refs|)])
  }

  ghost predicate Chunked(cells: Cells, chunks: seq<int>, refs: seq<int>) {
    && |refs| <= |chunks| * CHUNK
    && forall i {:trigger ChunkAt(cells, chunks, refs, i)} :: ChunkAt(cells, chunks, refs, i)
  }

  /** No list for no entries, one leaf for up to 1024, and above that leaves of 1024 under a list of lists. */
  ghost predicate AsWritten(cells: Cells, ref: int)
    requires Listed(cells, ref)
  {
    var refs := Entries(cells, ref);
    if refs == [] then ref == INVALID
    else if |refs| <= RI_THRESHOLD then ref != INVALID && cells[ref] == Leaf(refs)
    else ref != INVALID && cells[ref].Indirect? && Chunked(cells, cells[ref].chunks, refs)
  }

  lemma ChunkedFrame(a: Cells, b: Cells, chunks: seq<int>, refs: seq<int>)
    requires Chunked(a, chunks, refs) && Agree(a, b, Members(chunks))
    ensures Chunked(b, chunks, refs)
  {
    forall i ensures ChunkAt(b, chunks, refs, i) {
      assert ChunkAt(a, chunks, refs, i);
      if 0 <= i < |chunks| {
        var r := chunks[i];
        assert r in Members(chunks);
      }
    }
  }

  lemma WrittenFrame(a: Cells, b: Cells, ref: int)
    requires Listed(a, ref) && AsWritten(a, ref) && INVALID !in b && Agree(a, b, Owned(a, ref))
    ensures Listed(b, ref) && AsWritten(b, ref)
  {
    ListFrame(a, b, ref);
    if ref != INVALID && a[ref].Indirect? && |Entries(a, ref)| > RI_THRESHOLD {
      ChunkedFrame(a, b, a[ref].chunks, Entries(a, ref));
    }
  }

  /** `chunks` are new leaves, after the cells `a`, of the first `end` entries. */
  ghost predicate ChunksWritten(a: Cells, b: Cells, chunks: seq<int>, refs: seq<int>, end: int) {
    && 0 <= end <= |refs| && end == Least(|chunks| * CHUNK, |refs|)
    && Distinct(chunks) && (forall i :: 0 <= i < |chunks| ==> LeafAt(b, chunks[i]) && chunks[i] !in a)
    && Gathered(b, chunks) == refs[..end]
    && b.Keys == a.Keys + Members(chunks) && Agree(a, b, a.Keys)
    && forall i {:trigger ChunkAt(b, chunks, refs, i)} :: ChunkAt(b, chunks, refs, i)
  }

  lemma NextChunk(a: Cells, b: Cells, c: Cells, chunks: seq<int>, refs: seq<int>, ref: int, i: int)
    requires ChunksWritten(a, b, chunks, refs, i) && i < |refs| && ref !in b
    requires c == b[ref := Leaf(refs[i..Least(i + CHUNK, |refs|)])]
    ensures ChunksWritten(a, c, chunks + [ref], refs, Least(i + CHUNK, |refs|))
  {
    var end, more := Least(i + CHUNK, |refs|), chunks + [ref];
    assert more[..|chunks|] == chunks && more[|chunks|] == ref && refs[..end] == refs[..i] + refs[i..end];
    GatheredFrame(b, c, chunks);
    forall k | 0 <= k < |chunks| ensures chunks[k] != ref {
      assert LeafAt(b, chunks[k]);
    }
    assert Members(more) == Members(chunks) + {ref};
    NextChunkAt(b, c, chunks, refs, ref, i);
  }

  lemma NextChunkAt(b: Cells, c: Cells, chunks: seq<int>, refs: seq<int>, ref: int, i: int)
    requires i == Least(|chunks| * CHUNK, |refs|) < |refs| && ref !in b
    requires c == b[ref := Leaf(refs[i..Least(i + CHUNK, |refs|)])]
    requires forall k {:trigger ChunkAt(b, chunks, refs, k)} :: ChunkAt(b, chunks, refs, k)
    ensures forall k {:trigger ChunkAt(c, chunks + [ref], refs, k)} :: ChunkAt(c, chunks + [ref], refs, k)
  {
    forall k ensures ChunkAt(c, chunks + [ref], refs, k) {
      assert ChunkAt(b, chunks, refs, k);
    }
  }

  class CellStore {
    var cells: Cells
    var next: int
    const encode: Cell -> seq<Byte>  // the bytes of cells of the other kinds

    ghost predicate Valid()
      reads this
    {
      INVALID !in cells && 0 < next && forall r :: r in cells ==> 0 < r < next
    }

    constructor (encode: Cell -> seq<Byte>)
      ensures Valid() && cells == map[] && this.encode == encode
    {
      cells, next, this.encode := map[], 1, encode;
    }

    /** How many more cells for bytes there is room for. */
    function Room(): nat
      reads this`next
    {
      if next < INVALID then INVALID - next else 0
    }

    /** Makes sure of the space for `n` more cells, of `total` bytes together. */
    method Reserve(total: int, n: nat) returns (ok: bool)
      ensures ok <==> n <= Room()
    {
      ok := n <= Room();
    }

    /** A cell for `n` bytes: the payload is as long as the rounding of cell sizes leaves it, and holds what was
        there. */
    method AllocRaw(n: nat) returns (ref: Word, payload: seq<Byte>)
      requires Valid() && 0 < Room()
      modifies this
      ensures Valid() && ref !in old(cells) && ref != INVALID && ref != 0 && Room() == old(Room()) - 1
      ensures |payload| == Align8(4 + n) - 4 && cells == old(cells)[ref := Raw(payload)]
    {
      ref, next := next, next + 1;
      var zeros: seq<Byte> := seq(Align8(4 + n) - 4, _ => 0);
      assert |zeros| == Align8(4 + n) - 4;
      payload :| |payload| == Align8(4 + n) - 4;
      cells := cells[ref := Raw(payload)];
    }

    /** A cell that is not in use. */
    method Alloc(c: Cell) returns (ref: int)
      requires Valid()
      modifies this
      ensures Valid() && ref !in old(cells) && ref != INVALID && ref != 0
      ensures cells == old(cells)[ref := c] && Room() >= old(Room()) - 1
    {
      ref := if next == INVALID then INVALID + 1 else next;
      next := ref + 1;
      cells := cells[ref := c];
    }

    /** One leaf list, or leaves of 1024 entries under a list of lists. */
    method WriteRaw(refs: seq<int>) returns (ref: int)
      requires Valid()
      modifies this
      ensures Valid() && Listed(cells, ref) && Entries(cells, ref) == refs && AsWritten(cells, ref)
      ensures ref == INVALID <==> refs == []
      ensures cells.Keys == old(cells).Keys + Owned(cells, ref) && Owned(cells, ref) !! old(cells).Keys
      ensures Agree(old(cells), cells, old(cells).Keys)
    {
      if |refs| == 0 { return INVALID; }
      if |refs| <= RI_THRESHOLD {
        ref := Alloc(Leaf(refs));
        return;
      }
      var chunks := WriteChunks(refs);
      ghost var mid := cells;
      ref := Alloc(Indirect(chunks));
      GatheredFrame(mid, cells, chunks);
      ChunkedFrame(mid, cells, chunks, refs);
    }

    method WriteChunks(refs: seq<int>) returns (chunks: seq<int>)
      requires Valid()
      modifies this
      ensures Valid() && Distinct(chunks)
      ensures forall i :: 0 <= i < |chunks| ==> LeafAt(cells, chunks[i]) && chunks[i] !in old(cells)
      ensures Gathered(cells, chunks) == refs && Chunked(cells, chunks, refs)
      ensures cells.Keys == old(cells).Keys + Members(chunks)
      ensures Agree(old(cells), cells, old(cells).Keys)
    {
      chunks := [];
      var i := 0;
      while i < |refs|
        invariant Valid() && ChunksWritten(old(cells), cells, chunks, refs, i)
      {
        var end := Least(i + CHUNK, |refs|);
        ghost var before := cells;
        var ref := Alloc(Leaf(refs[i..end]));
        NextChunk(old(cells), before, cells, chunks, refs, ref, i);
        chunks := chunks + [ref];
        i := end;
      }
      assert refs[..i] == refs;
    }

    method Read(ref: int) returns (refs: seq<int>)
      requires Listed(cells, ref) && ref != INVALID
      ensures refs == Entries(cells, ref)
    {
      match cells[ref] {
        case Leaf(rs) => refs := rs;
        case Indirect(chunks) =>
          refs := [];
          for i := 0 to |chunks|
            invariant refs == Gathered(cells, chunks[..i])
          {
            assert chunks[..i + 1][..i] == chunks[..i];
            refs := refs + cells[chunks[i]].refs;
          }
          assert chunks[..|chunks|] == chunks;
      }
    }

    /** Frees a cell if it is in use. */
    method TryFree(ref: int) returns (ok: bool)
      requires Valid()
      modifies this`cells
      ensures Valid() && cells == old(cells) - {ref} && (ok <==> ref in old(cells))
    {
      ok := ref in cells;
      cells := cells - {ref};
    }

    method Free(ref: int)
      requires Valid() && ref in cells
      modifies this`cells
      ensures Valid() && cells == old(cells) - {ref}
    {
      cells := cells - {ref};
    }

    /** Changes a cell in place. */
    method Write(ref: int, c: Cell)
      requires Valid() && ref in cells
      modifies this`cells
      ensures Valid() && cells == old(cells)[ref := c]
    {
      cells := cells[ref := c];
    }

    /** Every cell of the list is freed, each once: a freed cell cannot be freed again. */
    method FreeSubkeyList(ref: int)
      requires Valid() && Listed(cells, ref) && ref != INVALID
      modifies this
      ensures Valid() && cells == old(cells) - Owned(old(cells), ref)
    {
      match cells[ref] {
        case Leaf(_) => Free(ref);
        case Indirect(chunks) =>
          for i := 0 to |chunks|
            invariant Valid() && cells == old(cells) - Members(chunks[..i])
          {
            assert chunks[i] !in chunks[..i];
            Free(chunks[i]);
            assert Members(chunks[..i + 1]) == Members(chunks[..i]) + {chunks[i]};
          }
          assert chunks[..|chunks|] == chunks;
          Free(ref);
      }
    }

    /** The old list is freed first, so that its space can be used again. */
    method Replace(oldRef: int, refs: seq<int>) returns (ref: int)
      requires Valid() && Listed(cells, oldRef)
      modifies this
      ensures Valid() && Listed(cells, ref) && Entries(cells, ref) == refs && (ref == INVALID <==> refs == [])
      ensures AsWritten(cells, ref)
      ensures Swapped(old(cells), cells, Owned(old(cells), oldRef), ref)
    {
      if oldRef != INVALID {
        FreeSubkeyList(oldRef);
      }
      ref := WriteRaw(refs);
    }
  }
}
