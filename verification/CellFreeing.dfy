/** Freeing the cells of a value's data, for keys and for values: whether data is big data is told by its first two
    bytes (hive/edit/common.go). */
module CellFreeing {
  import opened Bytes
  import opened HiveCells
  import opened BigDataCodec
  import opened Subtrees

  /** The payload of any cell. */
  function PayloadOf(cells: Cells, encode: Cell -> seq<Byte>, r: int): seq<Byte>
    requires r in cells
  {
    if cells[r].Raw? then cells[r].payload else encode(cells[r])
  }

  /** Bytes that are followed as a big-data header. */
  predicate Follows(b: seq<Byte>) {
    StartsDb(b) && |b| >= DB_HEADER && IsRef(GetU32(b, 4))
  }

  /** The blocks that the cell at `bl` lists, if there is one with room for so many. */
  function ListedBlocks(cells: Cells, encode: Cell -> seq<Byte>, bl: int, count: nat): seq<int> {
    if bl in cells && |PayloadOf(cells, encode, bl)| >= count * 4 then
      Words(PayloadOf(cells, encode, bl), count)
    else
      []
  }

  function RealRefs(refs: seq<int>): set<int> {
    set r | r in refs && IsRef(r)
  }

  /** The cells that are freed for the data in the cell `ref`, those among them that are there. */
  function FreedBy(cells: Cells, encode: Cell -> seq<Byte>, ref: int): set<int>
    requires ref in cells
  {
    var b := PayloadOf(cells, encode, ref);
    if Follows(b) then
      var bl := GetU32(b, 4);
      {ref, bl} + RealRefs(ListedBlocks(cells, encode, bl, GetU16(b, 2)))
    else {ref}
  }

  method FreeBlocks(store: CellStore, payload: seq<Byte>, count: Half)
    requires store.Valid() && count * 4 <= |payload|
    modifies store`cells
    ensures store.Valid() && store.cells == old(store.cells) - RealRefs(Words(payload, count))
  {
    ghost var blocks := Words(payload, count);
    for i := 0 to count
      invariant store.Valid() && store.cells == old(store.cells) - RealRefs(blocks[..i])
    {
      var blockRef := GetU32(payload, i * 4);
      assert blocks[..i + 1] == blocks[..i] + [blocks[i]] && blockRef == blocks[i];
      assert RealRefs(blocks[..i + 1]) == RealRefs(blocks[..i]) + if IsRef(blockRef) then {blockRef} else {};
      if IsRef(blockRef) {
        var _ := store.TryFree(blockRef);
      }
    }
    assert blocks[..count] == blocks;
  }

  /** Frees the data of a value and, if that fails, the one cell: all the callers do. */
  method FreeData(store: CellStore, ref: int)
    requires store.Valid() && ref in store.cells
    modifies store`cells
    ensures store.Valid() && store.cells == old(store.cells) - FreedBy(old(store.cells), store.encode, ref)
  {
    var ok := FreeBigDataIfNeeded(store, ref);
    if !ok {
      var _ := store.TryFree(ref);
    }
  }

  /** Frees the cell, and what it leads to if its bytes begin as a big-data header. */
  method FreeBigDataIfNeeded(store: CellStore, ref: int) returns (ok: bool)
    requires store.Valid() && ref in store.cells
    modifies store`cells
    ensures store.Valid()
    ensures var b := PayloadOf(old(store.cells), store.encode, ref);
      if StartsDb(b) && |b| < DB_HEADER then !ok && store.cells == old(store.cells)
      else store.cells == old(store.cells) - FreedBy(old(store.cells), store.encode, ref)
  {
    var payload := PayloadOf(store.cells, store.encode, ref);
    if StartsDb(payload) {
      if |payload| < DB_HEADER { return false; }
      var count, blocklistRef := GetU16(payload, 2), GetU32(payload, 4);
      if IsRef(blocklistRef) {
        if blocklistRef in store.cells {
          var blocklist := PayloadOf(store.cells, store.encode, blocklistRef);
          if |blocklist| >= count as int * 4 {
            FreeBlocks(store, blocklist, count);
          }
        }
        var _ := store.TryFree(blocklistRef);
      }
    }
    ok := store.TryFree(ref);
  }

  // ----- What is freed is what is owned -----

  /** One cell of data that is not followed as a big-data header, or big data. */
  predicate PlainData(cells: Cells, ref: int, data: set<int>) {
    data == {ref} ==> ref in cells && cells[ref].Raw? && !Follows(cells[ref].payload)
  }

  predicate PlainValue(cells: Cells, v: ValueT) {
    && v.vk in cells && cells[v.vk].ValueKey?
    && (cells[v.vk].dataLen > INLINE ==> PlainData(cells, cells[v.vk].dataRef, v.data))
  }

  lemma OwnedFreed(cells: Cells, encode: Cell -> seq<Byte>, len: nat, ref: int, data: set<int>)
    requires len > INLINE && DataIs(cells, len, ref, data) && PlainData(cells, ref, data)
    ensures FreedBy(cells, encode, ref) == data
  {
    if BigIs(cells, ref, data) {
      var h := ReadDBHeader(cells[ref].payload);
      var blocks := Words(cells[h.blocklist].payload, h.count);
      assert ref in data && h.blocklist in data && Follows(cells[ref].payload);
      assert RealRefs(blocks) == Members(blocks);
    }
  }

  /** Of the data in one cell, only that cell is freed. */
  ghost predicate OnlyOwn(cells: Cells, encode: Cell -> seq<Byte>, ref: int, b: seq<Byte>) {
    RawAt(cells, ref) && cells[ref].payload == b ==> cells - FreedBy(cells, encode, ref) == cells - {ref}
  }

  /** Whatever else the hive holds, exactly the data's one cell is freed, if and only if its bytes are not followed. */
  lemma OneCellIff(encode: Cell -> seq<Byte>, b: seq<Byte>)
    ensures (forall cells, ref {:trigger OnlyOwn(cells, encode, ref, b)} :: OnlyOwn(cells, encode, ref, b)) <==>
            !Follows(b)
  {
    if Follows(b) {
      var bl := GetU32(b, 4);
      var ref := if bl == 1 then 2 else 1;
      var cells := map[ref := Raw(b), bl := Raw([])];
      assert bl in cells - {ref} && bl !in cells - FreedBy(cells, encode, ref);
      assert !OnlyOwn(cells, encode, ref, b);
    }
  }

  /** Twelve bytes of data that name cell 9, which is another's: it is freed with them. */
  lemma StrayDatum(encode: Cell -> seq<Byte>, other: Cell)
    ensures var b: seq<Byte> := [100, 98, 1, 0, 9, 0, 0, 0, 0, 0, 0, 0]; var cells := map[5 := Raw(b), 9 := other];
      && DataIs(cells, 12, 5, {5}) && Follows(b) && 9 in FreedBy(cells, encode, 5)
  {
    var b: seq<Byte> := [100, 98, 1, 0, 9, 0, 0, 0, 0, 0, 0, 0];
    assert GetU32(b, 4) == 9;
  }

  // ----- Values and subtrees -----

  lemma PlainFrame(a: Cells, b: Cells, v: ValueT)
    requires ValueIs(a, v) && PlainValue(a, v) && Agree(a, b, ValueCells(v))
    ensures PlainValue(b, v)
  {
    assert v.vk in ValueCells(v);
    var ref := a[v.vk].dataRef;
    if a[v.vk].dataLen > INLINE && v.data == {ref} {
      assert ref in ValueCells(v);
    }
  }

  /** No value of the subtree is kept in one cell whose bytes are followed. */
  ghost predicate Plainly(cells: Cells, t: KeyT) {
    && (forall i :: 0 <= i < |t.values| ==> PlainValue(cells, t.values[i]))
    && forall i :: 0 <= i < |t.subs| ==> Plainly(cells, t.subs[i])
  }

  lemma {:induction false} PlainlyFrame(a: Cells, b: Cells, t: KeyT, parent: int)
    requires Represents(a, t, parent) && Plainly(a, t) && Agree(a, b, AllCells(t))
    ensures Plainly(b, t)
    decreases t
  {
    forall i | 0 <= i < |t.values| ensures PlainValue(b, t.values[i]) {
      assert forall c :: c in ValueCells(t.values[i]) ==> c in ValuesCells(t.values);
      PlainFrame(a, b, t.values[i]);
    }
    forall i | 0 <= i < |t.subs| ensures Plainly(b, t.subs[i]) {
      assert forall c :: c in AllCells(t.subs[i]) ==> c in AllCells(t);
      PlainlyFrame(a, b, t.subs[i], t.nk);
    }
  }
}
