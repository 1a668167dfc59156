/** Key subtrees over cells: which cells and index entries belong to a key and everything below it. */
module Subtrees {
  import opened HiveCells
  import opened BigDataCodec

  /** A value: its cell, its name, and the cells of its data. */
  datatype ValueT = ValueT(vk: int, name: string, data: set<int>)

  /** A key with everything below it; `list` and `valueList` are the cells of its two lists. */
  datatype KeyT = KeyT(nk: int, name: string, list: set<int>, valueList: set<int>, values: seq<ValueT>, subs: seq<KeyT>)

  /** What an index entry is found by. */
  datatype Edge = Edge(parent: int, name: string)

  const INLINE := 4

  function ValueCells(v: ValueT): set<int> {
    {v.vk} + v.data
  }

  function ValuesCells(vs: seq<ValueT>): set<int> {
    set i, c | 0 <= i < |vs| && c in ValueCells(vs[i]) :: c
  }

  function OwnCells(t: KeyT): set<int> {
    {t.nk} + t.list + t.valueList + ValuesCells(t.values)
  }

  /** Every cell of the subtree. */
  function AllCells(t: KeyT): set<int> {
    OwnCells(t) + set i, c | 0 <= i < |t.subs| && c in AllCells(t.subs[i]) :: c
  }

  function SubCells(ts: seq<KeyT>): set<int> {
    set i, c | 0 <= i < |ts| && c in AllCells(ts[i]) :: c
  }

  /** The index entries of the subtree's keys. */
  function KeyEdges(t: KeyT, parent: int): set<Edge> {
    {Edge(parent, t.name)} + set i, e | 0 <= i < |t.subs| && e in KeyEdges(t.subs[i], t.nk) :: e
  }

  function SubKeyEdges(ts: seq<KeyT>, parent: int): set<Edge> {
    set i, e | 0 <= i < |ts| && e in KeyEdges(ts[i], parent) :: e
  }

  function OwnValueEdges(nk: int, vs: seq<ValueT>): set<Edge> {
    set v | v in vs :: Edge(nk, v.name)
  }

  /** The index entries of the subtree's values. */
  function ValueEdges(t: KeyT): set<Edge> {
    OwnValueEdges(t.nk, t.values) + set i, e | 0 <= i < |t.subs| && e in ValueEdges(t.subs[i]) :: e
  }

  function SubValueEdges(ts: seq<KeyT>): set<Edge> {
    set i, e | 0 <= i < |ts| && e in ValueEdges(ts[i]) :: e
  }

  // ----- Cells that hold a subtree -----

  predicate IsRef(r: int) {
    r != 0 && r != INVALID
  }

  predicate RawAt(cells: Cells, r: int) {
    IsRef(r) && r in cells && cells[r].Raw?
  }

  /** The cells of big data: a header, its block list, and the blocks the list names. */
  ghost predicate BigIs(cells: Cells, ref: int, data: set<int>) {
    && RawAt(cells, ref)
    && var h := ReadDBHeader(cells[ref].payload);
       && h.Header? && RawAt(cells, h.blocklist) && h.blocklist != ref && h.count * 4 <= |cells[h.blocklist].payload|
       && var blocks := Words(cells[h.blocklist].payload, h.count);
          && Distinct(blocks) && (forall i :: 0 <= i < h.count ==> RawAt(cells, blocks[i]))
          && ref !in Members(blocks) && h.blocklist !in Members(blocks)
          && data == {ref, h.blocklist} + Members(blocks)
  }

  /** Data of more than four bytes is in cells of its own: one that has all of it, or big data. */
  ghost predicate DataIs(cells: Cells, len: nat, ref: int, data: set<int>) {
    if len <= INLINE then data == {}
    else (RawAt(cells, ref) && len <= |cells[ref].payload| && data == {ref}) || BigIs(cells, ref, data)
  }

  ghost predicate ValueIs(cells: Cells, v: ValueT) {
    && IsRef(v.vk) && v.vk in cells && cells[v.vk].ValueKey? && cells[v.vk].name == v.name
    && DataIs(cells, cells[v.vk].dataLen, cells[v.vk].dataRef, v.data)
  }

  ghost predicate ValueListIs(cells: Cells, count: nat, ref: int, vs: seq<ValueT>, list: set<int>) {
    && count == |vs|
    && if count == 0 then list == {} else
         && IsRef(ref) && list == {ref} && ref in cells && cells[ref].ValueList? && |cells[ref].vks| == |vs|
         && forall i :: 0 <= i < |vs| ==> cells[ref].vks[i] == vs[i].vk
  }

  ghost predicate SubkeyListIs(cells: Cells, count: nat, ref: int, ts: seq<KeyT>, list: set<int>) {
    && count == |ts| && (count == 0 <==> ref == INVALID)
    && Listed(cells, ref) && Owned(cells, ref) == list && |Entries(cells, ref)| == |ts|
    && forall i :: 0 <= i < |ts| ==> Entries(cells, ref)[i] == ts[i].nk
  }

  ghost predicate ValuesAre(cells: Cells, t: KeyT) {
    && IsRef(t.nk) && t.nk in cells && cells[t.nk].Key?
    && ValueListIs(cells, cells[t.nk].valueCount, cells[t.nk].valueList, t.values, t.valueList)
    && forall i :: 0 <= i < |t.values| ==> ValueIs(cells, t.values[i])
  }

  /** The key's own cells are as its node says. */
  ghost predicate NodeIs(cells: Cells, t: KeyT, parent: int) {
    && ValuesAre(cells, t)
    && var k := cells[t.nk];
       && k.parent == parent && k.name == t.name
       && SubkeyListIs(cells, k.subkeyCount, k.subkeyList, t.subs, t.list)
  }

  ghost predicate Represents(cells: Cells, t: KeyT, parent: int) {
    NodeIs(cells, t, parent) && forall i :: 0 <= i < |t.subs| ==> Represents(cells, t.subs[i], t.nk)
  }

  /** No cell belongs to two things. */
  ghost predicate Apart(t: KeyT) {
    && t.nk !in t.list + t.valueList + ValuesCells(t.values)
    && t.list !! t.valueList && t.list + t.valueList !! ValuesCells(t.values)
    && (forall i :: 0 <= i < |t.values| ==> t.values[i].vk !in t.values[i].data)
    && (forall i, j :: 0 <= i < j < |t.values| ==> ValueCells(t.values[i]) !! ValueCells(t.values[j]))
    && (forall i :: 0 <= i < |t.subs| ==> OwnCells(t) !! AllCells(t.subs[i]))
    && (forall i, j :: 0 <= i < j < |t.subs| ==> AllCells(t.subs[i]) !! AllCells(t.subs[j]))
    && forall i :: 0 <= i < |t.subs| ==> Apart(t.subs[i])
  }

  // ----- A subtree depends on its own cells only -----

  lemma BigFrame(a: Cells, b: Cells, ref: int, data: set<int>)
    requires BigIs(a, ref, data) && Agree(a, b, data)
    ensures BigIs(b, ref, data)
  {
    var h := ReadDBHeader(a[ref].payload);
    assert ref in data && h.blocklist in data;
    var blocks := Words(a[h.blocklist].payload, h.count);
    forall i | 0 <= i < h.count ensures blocks[i] in data {
    }
  }

  lemma DataFrame(a: Cells, b: Cells, len: nat, ref: int, data: set<int>)
    requires DataIs(a, len, ref, data) && Agree(a, b, data)
    ensures DataIs(b, len, ref, data)
  {
    if len > INLINE {
      if BigIs(a, ref, data) {
        BigFrame(a, b, ref, data);
      } else {
        assert ref in data;
      }
    }
  }

  lemma ValueFrame(a: Cells, b: Cells, v: ValueT)
    requires ValueIs(a, v) && Agree(a, b, ValueCells(v))
    ensures ValueIs(b, v)
  {
    assert v.vk in ValueCells(v);
    DataFrame(a, b, a[v.vk].dataLen, a[v.vk].dataRef, v.data);
  }

  lemma ValuesFrame(a: Cells, b: Cells, vs: seq<ValueT>)
    requires (forall i :: 0 <= i < |vs| ==> ValueIs(a, vs[i])) && Agree(a, b, ValuesCells(vs))
    ensures forall i :: 0 <= i < |vs| ==> ValueIs(b, vs[i])
  {
    forall i | 0 <= i < |vs| ensures ValueIs(b, vs[i]) {
      assert forall c :: c in ValueCells(vs[i]) ==> c in ValuesCells(vs);
      ValueFrame(a, b, vs[i]);
    }
  }

  lemma ValuesAreFrame(a: Cells, b: Cells, t: KeyT)
    requires ValuesAre(a, t) && Agree(a, b, {t.nk} + t.valueList + ValuesCells(t.values))
    ensures ValuesAre(b, t)
  {
    assert t.nk in {t.nk} + t.valueList + ValuesCells(t.values);
    ValuesFrame(a, b, t.values);
  }

  lemma NodeFrame(a: Cells, b: Cells, t: KeyT, parent: int)
    requires NodeIs(a, t, parent) && Agree(a, b, OwnCells(t)) && INVALID !in b
    ensures NodeIs(b, t, parent)
  {
    assert t.nk in OwnCells(t);
    var k := a[t.nk];
    ListFrame(a, b, k.subkeyList);
    ValuesAreFrame(a, b, t);
  }

  lemma {:induction false} TreeFrame(a: Cells, b: Cells, t: KeyT, parent: int)
    requires Represents(a, t, parent) && Agree(a, b, AllCells(t)) && INVALID !in b
    ensures Represents(b, t, parent)
    decreases t
  {
    NodeFrame(a, b, t, parent);
    forall i | 0 <= i < |t.subs| ensures Represents(b, t.subs[i], t.nk) {
      assert forall c :: c in AllCells(t.subs[i]) ==> c in AllCells(t);
      TreeFrame(a, b, t.subs[i], t.nk);
    }
  }
}
