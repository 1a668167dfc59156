/** Values above 16344 bytes: a header, a list of blocks, and the blocks (hive/bigdata/writer.go,
    hive/bigdata/db.go). */
module BigData {
  import opened Bytes
  import opened HiveCells
  import opened BigDataCodec
  import opened Limits
  import opened Subtrees

  function BlocksFor(len: nat): nat {
    (len + MAX_BLOCK - 1) / MAX_BLOCK
  }

  /** What goes to block `i`. */
  function Chunk(data: seq<Byte>, i: nat): seq<Byte>
    requires i * MAX_BLOCK < |data|
  {
    data[i * MAX_BLOCK..Least(i * MAX_BLOCK + MAX_BLOCK, |data|)]
  }

  /** A cell whose payload begins with the chunk. */
  ghost predicate BlockHas(cells: Cells, ref: int, chunk: seq<Byte>) {
    RawAt(cells, ref) && |chunk| <= |cells[ref].payload| && cells[ref].payload[..|chunk|] == chunk
  }

  ghost predicate BlockOf(cells: Cells, refs: seq<int>, data: seq<Byte>, i: int) {
    0 <= i < |refs| ==> i * MAX_BLOCK < |data| && BlockHas(cells, refs[i], Chunk(data, i))
  }

  /** Block after block has the first chunks of the data. */
  ghost predicate BlocksHave(cells: Cells, refs: seq<int>, data: seq<Byte>) {
    forall i {:trigger BlockOf(cells, refs, data, i)} :: BlockOf(cells, refs, data, i)
  }

  lemma BlocksFrame(a: Cells, b: Cells, refs: seq<int>, data: seq<Byte>)
    requires BlocksHave(a, refs, data) && Agree(a, b, Members(refs))
    ensures BlocksHave(b, refs, data)
  {
    forall i ensures BlockOf(b, refs, data, i) {
      assert BlockOf(a, refs, data, i);
      if 0 <= i < |refs| {
        var r := refs[i];
        assert r in Members(refs);
      }
    }
  }

  /** Big data at `ref` holds `data`; `owned` are its cells. */
  ghost predicate Holds(cells: Cells, ref: int, data: seq<Byte>, owned: set<int>) {
    && BigIs(cells, ref, owned)
    && var h := ReadDBHeader(cells[ref].payload);
       h.count == BlocksFor(|data|) && BlocksHave(cells, Words(cells[h.blocklist].payload, h.count), data)
  }

  lemma HoldsFrame(a: Cells, b: Cells, ref: int, data: seq<Byte>, owned: set<int>)
    requires Holds(a, ref, data, owned) && Agree(a, b, owned)
    ensures Holds(b, ref, data, owned)
  {
    var h := ReadDBHeader(a[ref].payload);
    assert ref in owned && h.blocklist in owned;
    BigFrame(a, b, ref, owned);
    BlocksFrame(a, b, Words(a[h.blocklist].payload, h.count), data);
  }

  // ----- Reading back -----

  /** ReadDBHeader, ReadBlocklist, and the blocks joined and cut to the length: the data that was stored. */
  method ReadBack(cells: Cells, ref: int, len: nat, ghost data: seq<Byte>, ghost owned: set<int>)
    returns (r: seq<Byte>)
    requires Holds(cells, ref, data, owned) && |data| == len
    ensures r == data
  {
    var h := ReadDBHeader(cells[ref].payload);
    var refs := ReadBlocklist(cells[h.blocklist].payload, h.count);
    r := [];
    for i := 0 to h.count
      invariant r == data[..Least(i * MAX_BLOCK, len)]
    {
      assert BlockOf(cells, refs.refs, data, i);
      var take := Least(MAX_BLOCK, len - |r|);
      assert Chunk(data, i) == data[|r|..|r| + take];
      r := r + cells[refs.refs[i]].payload[..take];
    }
    assert data[..len] == data;
  }

  // ----- The space to reserve -----

  /** What the allocator takes for a cell of `payload` bytes. */
  function CellNeed(payload: nat): nat {
    Align8(4 + payload)
  }

  /** All blocks of `len` bytes of data. */
  function ChunksNeed(len: nat): nat {
    if len == 0 then 0 else CellNeed(Least(len, MAX_BLOCK)) + ChunksNeed(len - Least(len, MAX_BLOCK))
  }

  function TotalNeed(len: nat): nat {
    CellNeed(DB_HEADER) + CellNeed(4 * BlocksFor(len)) + ChunksNeed(len)
  }

  lemma {:induction false} ChunksNeedBound(len: nat)
    ensures ChunksNeed(len) <= BlocksFor(len) * 16352
  {
    if len > MAX_BLOCK {
      ChunksNeedBound(len - MAX_BLOCK);
      assert BlocksFor(len) == BlocksFor(len - MAX_BLOCK) + 1;
    }
  }

  /** The sum never leaves 32 signed bits. */
  method CalculateTotalNeed(len: nat) returns (total: int)
    requires BlocksFor(len) <= MAX_BLOCKS
    ensures total == TotalNeed(len) <= MAX_I32
  {
    ChunksNeedBound(len);
    total := Align8(4 + DB_HEADER);
    total := total + Align8(4 + BlocksFor(len) * 4);
    var remaining := len;
    while remaining > 0
      invariant 0 <= remaining <= len && total + ChunksNeed(remaining) == TotalNeed(len) && total >= 0
    {
      var chunk := remaining;
      if chunk > MAX_BLOCK { chunk := MAX_BLOCK; }
      total := total + Align8(4 + chunk);
      remaining := remaining - chunk;
    }
  }

  predicate AllRaw(cells: Cells, refs: seq<int>) {
    forall i :: 0 <= i < |refs| ==> RawAt(cells, refs[i])
  }

  /** What the cells written take, headers and all. */
  function CellsTake(cells: Cells, refs: seq<int>): nat
    requires AllRaw(cells, refs)
  {
    if refs == [] then 0
    else
      assert RawAt(cells, refs[|refs| - 1]);
      CellsTake(cells, refs[..|refs| - 1]) + |cells[refs[|refs| - 1]].payload| + 4
  }

  lemma {:induction false} CellsTakeFrame(a: Cells, b: Cells, refs: seq<int>)
    requires AllRaw(a, refs) && Agree(a, b, Members(refs))
    ensures AllRaw(b, refs) && CellsTake(b, refs) == CellsTake(a, refs)
  {
    forall i | 0 <= i < |refs| ensures RawAt(b, refs[i]) {
      assert refs[i] in Members(refs);
    }
    if refs != [] {
      assert Members(refs[..|refs| - 1]) <= Members(refs);
      CellsTakeFrame(a, b, refs[..|refs| - 1]);
    }
  }

  lemma CellsTakeOneMore(a: Cells, b: Cells, refs: seq<int>, ref: int)
    requires AllRaw(a, refs) && Agree(a, b, Members(refs)) && RawAt(b, ref)
    ensures AllRaw(b, refs + [ref]) && CellsTake(b, refs + [ref]) == CellsTake(a, refs) + |b[ref].payload| + 4
  {
    CellsTakeFrame(a, b, refs);
    assert (refs + [ref])[..|refs|] == refs;
  }

  // ----- Store -----

  datatype StoreResult = Stored(ref: int) | EmptyData | TooManyBlocks | NoRoom

  /** Every block is as short as the rounding of cell sizes makes it. */
  ghost predicate Snug(cells: Cells, refs: seq<int>, len: nat) {
    forall i :: 0 <= i < |refs| ==>
      i * MAX_BLOCK < len && RawAt(cells, refs[i]) &&
      |cells[refs[i]].payload| == CellNeed(Least(MAX_BLOCK, len - i * MAX_BLOCK)) - 4
  }

  /** `refs` are new cells, after the cells `a`, that have the first chunks of `data`. */
  ghost predicate Written(a: Cells, b: Cells, refs: seq<int>, data: seq<Byte>) {
    && Distinct(refs) && BlocksHave(b, refs, data) && |refs| <= BlocksFor(|data|)
    && b.Keys == a.Keys + Members(refs) && Members(refs) !! a.Keys && Agree(a, b, a.Keys)
  }

  lemma NewRef(refs: seq<int>, ref: int, keys: set<int>)
    requires Distinct(refs) && ref !in keys && Members(refs) <= keys
    ensures Distinct(refs + [ref]) && Members(refs + [ref]) == Members(refs) + {ref} && ref !in Members(refs)
  {
    assert ref !in Members(refs);
  }

  lemma WrittenNext(a: Cells, b: Cells, c: Cells, refs: seq<int>, data: seq<Byte>, ref: int)
    requires Written(a, b, refs, data) && ref !in b && |refs| < BlocksFor(|data|)
    requires ref in c && c == b[ref := c[ref]] && BlockHas(c, ref, Chunk(data, |refs|))
    ensures Written(a, c, refs + [ref], data)
  {
    NewRef(refs, ref, b.Keys);
    forall i ensures BlockOf(c, refs + [ref], data, i) {
      assert BlockOf(b, refs, data, i);
    }
  }

  lemma ChunkNext(len: nat, start: nat, end: nat)
    requires start < len && end == Least(start + MAX_BLOCK, len)
    ensures ChunksNeed(len - start) == CellNeed(end - start) + ChunksNeed(len - end)
  {
    assert Least(len - start, MAX_BLOCK) == end - start;
  }

  lemma SnugNext(b: Cells, c: Cells, refs: seq<int>, len: nat, ref: int)
    requires Snug(b, refs, len) && ref !in b && ref in c && c == b[ref := c[ref]] && RawAt(c, ref)
    requires |refs| * MAX_BLOCK < len && |c[ref].payload| == CellNeed(Least(MAX_BLOCK, len - |refs| * MAX_BLOCK)) - 4
    ensures Snug(c, refs + [ref], len)
  {
  }

  function StartOf(i: nat, len: nat): nat {
    Least(i * MAX_BLOCK, len)
  }

  /** The blocks written and those still to be written together take what is reserved for all. */
  ghost predicate Taking(cells: Cells, refs: seq<int>, len: nat) {
    && Snug(cells, refs, len) && AllRaw(cells, refs)
    && CellsTake(cells, refs) + ChunksNeed(len - StartOf(|refs|, len)) == ChunksNeed(len)
  }

  ghost predicate Midway(a: Cells, b: Cells, refs: seq<int>, data: seq<Byte>) {
    Written(a, b, refs, data) && Taking(b, refs, |data|)
  }

  lemma TakingNext(b: Cells, c: Cells, refs: seq<int>, len: nat, ref: int, chunk: nat)
    requires Taking(b, refs, len) && ref !in b && ref in c && c == b[ref := c[ref]] && RawAt(c, ref)
    requires |refs| * MAX_BLOCK < len && chunk == Least(MAX_BLOCK, len - |refs| * MAX_BLOCK)
    requires |c[ref].payload| == CellNeed(chunk) - 4
    requires ChunksNeed(len - StartOf(|refs|, len)) == CellNeed(chunk) + ChunksNeed(len - StartOf(|refs| + 1, len))
    ensures Taking(c, refs + [ref], len)
  {
    SnugNext(b, c, refs, len, ref);
    CellsTakeOneMore(b, c, refs, ref);
  }

  lemma MidwayNext(a: Cells, b: Cells, c: Cells, refs: seq<int>, data: seq<Byte>, ref: int)
    requires Midway(a, b, refs, data) && ref !in b && |refs| < BlocksFor(|data|)
    requires ref in c && c == b[ref := c[ref]] && BlockHas(c, ref, Chunk(data, |refs|))
    requires |c[ref].payload| == CellNeed(|Chunk(data, |refs|)|) - 4
    ensures Midway(a, c, refs + [ref], data)
  {
    WrittenNext(a, b, c, refs, data, ref);
    ChunkTakes(data, |refs|);
    TakingNext(b, c, refs, |data|, ref, |Chunk(data, |refs|)|);
  }

  lemma ChunkTakes(data: seq<Byte>, i: nat)
    requires i < BlocksFor(|data|)
    ensures ChunksNeed(|data| - StartOf(i, |data|))
         == CellNeed(|Chunk(data, i)|) + ChunksNeed(|data| - StartOf(i + 1, |data|))
  {
    ChunkNext(|data|, StartOf(i, |data|), StartOf(i + 1, |data|));
  }

  /** Chunk after chunk goes to a cell of its own; together the cells take what was reserved for them. */
  method WriteBlocks(store: CellStore, data: seq<Byte>) returns (refs: seq<Word>)
    requires store.Valid() && BlocksFor(|data|) <= store.Room()
    modifies store
    ensures store.Valid() && store.Room() == old(store.Room()) - |refs|
    ensures |refs| == BlocksFor(|data|) && Written(old(store.cells), store.cells, refs, data)
    ensures Snug(store.cells, refs, |data|)
    ensures AllRaw(store.cells, refs) && CellsTake(store.cells, refs) == ChunksNeed(|data|)
  {
    refs := [];
    var i, start := 0, 0;
    while i < BlocksFor(|data|)
      invariant store.Valid() && store.Room() == old(store.Room()) - i
      invariant |refs| == i <= BlocksFor(|data|) && start == StartOf(i, |data|)
      invariant Midway(old(store.cells), store.cells, refs, data)
    {
      var end := start + MAX_BLOCK;
      if end > |data| { end := |data|; }
      refs := WriteDataBlock(store, refs, data[start..end], old(store.cells), data);
      i, start := i + 1, end;
    }
  }

  /** One chunk in a new cell. */
  method WriteDataBlock(store: CellStore, refs: seq<Word>, chunk: seq<Byte>, ghost a: Cells, ghost data: seq<Byte>)
    returns (r: seq<Word>)
    requires store.Valid() && 0 < store.Room() && Midway(a, store.cells, refs, data)
    requires |refs| < BlocksFor(|data|) && chunk == Chunk(data, |refs|)
    modifies store
    ensures store.Valid() && store.Room() == old(store.Room()) - 1
    ensures Midway(a, store.cells, r, data) && |r| == |refs| + 1
  {
    ghost var b := store.cells;
    var ref, payload := store.AllocRaw(|chunk|);
    store.Write(ref, Raw(chunk + payload[|chunk|..]));
    assert (chunk + payload[|chunk|..])[..|chunk|] == chunk;
    MidwayNext(a, b, store.cells, refs, data, ref);
    r := refs + [ref];
  }

  method WriteBlocklistCell(store: CellStore, blockRefs: seq<Word>) returns (ref: Word)
    requires store.Valid() && 0 < store.Room()
    modifies store
    ensures store.Valid() && store.Room() == old(store.Room()) - 1 && ref !in old(store.cells)
    ensures RawAt(store.cells, ref)
    ensures store.cells == old(store.cells)[ref := store.cells[ref]]
    ensures |blockRefs| * 4 <= |store.cells[ref].payload| && Words(store.cells[ref].payload, |blockRefs|) == blockRefs
  {
    var payload;
    ref, payload := store.AllocRaw(|blockRefs| * 4);
    var buf := new Byte[|payload|](i requires 0 <= i < |payload| => payload[i]);
    var _ := WriteBlocklist(buf, blockRefs);
    store.Write(ref, Raw(buf[..]));
  }

  method WriteHeaderCell(store: CellStore, count: Half, blocklist: Word) returns (ref: Word)
    requires store.Valid() && 0 < store.Room()
    modifies store
    ensures store.Valid() && store.Room() == old(store.Room()) - 1 && ref !in old(store.cells)
    ensures RawAt(store.cells, ref)
    ensures store.cells == old(store.cells)[ref := store.cells[ref]]
    ensures ReadDBHeader(store.cells[ref].payload) == Header(count, blocklist, 0)
    ensures |store.cells[ref].payload| == DB_HEADER
  {
    var payload;
    ref, payload := store.AllocRaw(DB_HEADER);
    var buf := new Byte[|payload|](i requires 0 <= i < |payload| => payload[i]);
    var _ := WriteDBHeader(buf, count, blocklist);
    store.Write(ref, Raw(buf[..]));
  }

  /** The data in a big-data form as it is written: with no more space than cell sizes are rounded to. */
  ghost predicate HoldsSnug(cells: Cells, ref: int, data: seq<Byte>, owned: set<int>) {
    && Holds(cells, ref, data, owned) && |cells[ref].payload| == DB_HEADER
    && var h := ReadDBHeader(cells[ref].payload); Snug(cells, Words(cells[h.blocklist].payload, h.count), |data|)
  }

  /** The block list and the header are written after the blocks. */
  lemma StoredHolds(a: Cells, b: Cells, c: Cells, d: Cells, refs: seq<Word>, data: seq<Byte>, bl: Word, db: Word)
    requires Written(a, b, refs, data) && Snug(b, refs, |data|) && |refs| == BlocksFor(|data|) <= MAX_BLOCKS
    requires bl !in b && RawAt(c, bl) && c == b[bl := c[bl]]
    requires |refs| * 4 <= |c[bl].payload| && Words(c[bl].payload, |refs|) == refs
    requires db !in c && RawAt(d, db) && d == c[db := d[db]]
    requires ReadDBHeader(d[db].payload) == Header(|refs|, bl, 0) && |d[db].payload| == DB_HEADER
    ensures var owned := {db, bl} + Members(refs);
      && HoldsSnug(d, db, data, owned) && owned !! a.Keys && d.Keys == a.Keys + owned && Agree(a, d, a.Keys)
  {
    forall i | 0 <= i < |refs| ensures RawAt(d, refs[i]) && refs[i] in b && d[refs[i]] == b[refs[i]] {
      assert BlockOf(b, refs, data, i);
    }
    BlocksFrame(b, d, refs, data);
  }

  /** Stores data as big data, in new cells of its own; space is reserved for all of them first. */
  method Store(store: CellStore, data: seq<Byte>) returns (r: StoreResult, ghost owned: set<int>)
    requires store.Valid()
    modifies store
    ensures store.Valid()
    ensures r.EmptyData? <==> data == []
    ensures r.TooManyBlocks? <==> |data| > MAX_BLOCKS * MAX_BLOCK
    ensures r.NoRoom? <==> 0 < |data| <= MAX_BLOCKS * MAX_BLOCK && old(store.Room()) < BlocksFor(|data|) + 2
    ensures !r.Stored? ==> store.cells == old(store.cells) && store.Room() == old(store.Room())
    ensures r.Stored? ==> store.Room() == old(store.Room()) - BlocksFor(|data|) - 2
    ensures r.Stored? ==>
      && HoldsSnug(store.cells, r.ref, data, owned) && owned !! old(store.cells).Keys
      && store.cells.Keys == old(store.cells).Keys + owned
      && Agree(old(store.cells), store.cells, old(store.cells).Keys)
  {
    owned := {};
    if |data| == 0 { return EmptyData, owned; }
    if BlocksFor(|data|) > MAX_BLOCKS { return TooManyBlocks, owned; }
    var totalNeed := CalculateTotalNeed(|data|);
    var ok := store.Reserve(totalNeed, BlocksFor(|data|) + 2);
    if !ok { return NoRoom, owned; }
    var blockRefs := WriteBlocks(store, data);
    ghost var b := store.cells;
    var bl := WriteBlocklistCell(store, blockRefs);
    ghost var c := store.cells;
    var db := WriteHeaderCell(store, |blockRefs|, bl);
    owned := {db, bl} + Members(blockRefs);
    StoredHolds(old(store.cells), b, c, store.cells, blockRefs, data, bl, db);
    r := Stored(db);
  }

  /** What is stored is read back. */
  method RoundTrip(store: CellStore, data: seq<Byte>) returns (r: seq<Byte>)
    requires store.Valid() && 0 < |data| <= MAX_BLOCKS * MAX_BLOCK && BlocksFor(|data|) + 2 <= store.Room()
    modifies store
    ensures r == data
  {
    var st, owned := Store(store, data);
    r := ReadBack(store.cells, st.ref, |data|, data, owned);
  }
}
