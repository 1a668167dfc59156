/** How the reader puts big data together: it takes the last four bytes of every block for padding
    (valueDB in internal/reader/reader.go). */
module BigDataRead {
  import opened Bytes
  import opened HiveCells
  import opened BigDataCodec
  import opened Limits
  import opened Subtrees
  import opened BigData

  const BLOCK_PADDING := 4

  datatype DbRead = Whole(data: seq<Byte>) | Mismatch(got: seq<Byte>)

  /** The length of the last block's data. */
  function LastChunk(len: nat): int
    requires len > 0
  {
    len - (BlocksFor(len) - 1) * MAX_BLOCK
  }

  /** The rounding of cell sizes leaves the last block as much space as the reader cuts off, or it is not cut. */
  predicate ReadsWhole(len: nat)
    requires len > 0
  {
    var last := LastChunk(len);
    last <= BLOCK_PADDING || last % 8 == 0 || last % 8 > 4
  }

  function Trimmed(block: seq<Byte>): seq<Byte> {
    if |block| > BLOCK_PADDING then block[..|block| - BLOCK_PADDING] else block
  }

  function Cut(block: seq<Byte>, n: nat): seq<Byte> {
    if |block| > n then block[..n] else block
  }

  /** What the reader takes of block `i`: all of its chunk, or less of the last one. */
  lemma TakenOf(cells: Cells, refs: seq<int>, data: seq<Byte>, i: nat)
    requires i < |refs| == BlocksFor(|data|) && BlocksHave(cells, refs, data) && Snug(cells, refs, |data|)
    requires RawAt(cells, refs[i])
    ensures var got := data[..StartOf(i, |data|)] + Cut(Trimmed(cells[refs[i]].payload), |data| - StartOf(i, |data|));
      && (i < |refs| - 1 || ReadsWhole(|data|) ==> got == data[..StartOf(i + 1, |data|)])
      && (i == |refs| - 1 && !ReadsWhole(|data|) ==> got < data)
  {
    assert BlockOf(cells, refs, data, i);
    var chunk, p, start := Chunk(data, i), cells[refs[i]].payload, StartOf(i, |data|);
    assert |p| == Align8(4 + |chunk|) - 4 && start + |chunk| == StartOf(i + 1, |data|);
    var t := Cut(Trimmed(p), |data| - start);
    if |t| >= |chunk| {
      assert |t| == |chunk| && t == chunk;
    } else {
      assert t == chunk[..|t|];
    }
    if i < |refs| - 1 {
      assert |chunk| == MAX_BLOCK && |p| == MAX_BLOCK + 4;
    } else {
      assert |chunk| == LastChunk(|data|);
    }
  }

  /** Reads stored data whole if and only if the last block's data is at most four bytes, or ends at a multiple of eight
      bytes or more than four bytes behind one; other data is refused as too short. */
  method ValueDB(cells: Cells, ref: int, expectedLen: nat, ghost data: seq<Byte>, ghost owned: set<int>)
    returns (r: DbRead)
    requires HoldsSnug(cells, ref, data, owned) && |data| == expectedLen > 0
    ensures r.Whole? <==> ReadsWhole(|data|)
    ensures r.Whole? ==> r.data == data
    ensures r.Mismatch? ==> r.got < data
  {
    var h := ReadDBHeader(cells[ref].payload);
    var refs := Words(cells[h.blocklist].payload, h.count);
    var result: seq<Byte> := [];
    var i := 0;
    while i < |refs|
      invariant 0 <= i <= |refs|
      invariant i < |refs| || ReadsWhole(|data|) ==> result == data[..StartOf(i, |data|)]
      invariant i == |refs| && !ReadsWhole(|data|) ==> result < data
    {
      TakenOf(cells, refs, data, i);
      result := result + Cut(Trimmed(cells[refs[i]].payload), expectedLen - |result|);
      i := i + 1;
      if |result| >= expectedLen { break; }
    }
    r := if |result| == expectedLen then Whole(result) else Mismatch(result);
  }

  /** Stored and read. */
  method StoreAndRead(store: CellStore, data: seq<Byte>) returns (r: DbRead)
    requires store.Valid() && 0 < |data| <= MAX_BLOCKS * MAX_BLOCK && BlocksFor(|data|) + 2 <= store.Room()
    modifies store
    ensures r.Whole? <==> ReadsWhole(|data|)
    ensures r.Whole? ==> r.data == data
  {
    var st, owned := Store(store, data);
    r := ValueDB(store.cells, st.ref, |data|, data, owned);
  }

  /** The shortest big data that is stored and not read back. */
  lemma FirstUnread(len: nat)
    requires MAX_BLOCK < len
    ensures !ReadsWhole(16353) && (!ReadsWhole(len) ==> 16353 <= len)
  {
    assert BlocksFor(16353) == 2;
    if len < 16353 {
      assert BlocksFor(len) == 2 && LastChunk(len) <= 8;
    }
  }
}
