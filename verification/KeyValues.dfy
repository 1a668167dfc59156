/** The values of one key in cells: what the value list, the value cells and their data hold as one map, and what an
    edit of the list keeps. */
module KeyValues {
  import opened HiveCells
  import opened Subtrees
  import opened Limits
  import opened Registry
  import BigData

  /** The map of a key's values, and the cells behind it: the cell of the list, and the values in list order. */
  datatype KeyState = KeyState(list: set<int>, vs: seq<ValueT>, m: Values)

  /** A value cell holds type and data: inline, in one cell, or as big data. */
  ghost predicate Stored(cells: Cells, v: ValueT, x: Value) {
    && ValueIs(cells, v)
    && var k := cells[v.vk];
       && k.typ == x.typ && k.dataLen == |x.data|
       && if k.dataLen <= INLINE then k.small == x.data
          else if k.dataLen <= MAX_EXTERNAL then v.data == {k.dataRef} && BigData.BlockHas(cells, k.dataRef, x.data)
          else BigData.Holds(cells, k.dataRef, x.data, v.data) && |cells[k.dataRef].payload| <= MAX_EXTERNAL
  }

  lemma StoredFrame(a: Cells, b: Cells, v: ValueT, x: Value)
    requires Stored(a, v, x) && Agree(a, b, ValueCells(v))
    ensures Stored(b, v, x)
  {
    ValueFrame(a, b, v);
    assert v.vk in ValueCells(v);
    if |x.data| > MAX_EXTERNAL {
      BigData.HoldsFrame(a, b, a[v.vk].dataRef, x.data, v.data);
      assert a[v.vk].dataRef in v.data;
    } else if |x.data| > INLINE {
      assert a[v.vk].dataRef in v.data;
    }
  }

  function NamesOf(vs: seq<ValueT>): set<Name> {
    set i | 0 <= i < |vs| :: vs[i].name
  }

  predicate DistinctNames(vs: seq<ValueT>) {
    forall i, j :: 0 <= i < j < |vs| ==> vs[i].name != vs[j].name
  }

  /** A key seen without its subkeys. */
  function Bare(nk: int, s: KeyState): KeyT {
    KeyT(nk, "", {}, s.list, s.vs, [])
  }

  /** The cells hold exactly the values of the map, each once, and no cell is used twice. */
  ghost predicate KeyOk(cells: Cells, nk: int, s: KeyState) {
    && ValuesAre(cells, Bare(nk, s)) && Apart(Bare(nk, s))
    && DistinctNames(s.vs) && s.m.Keys == NamesOf(s.vs)
    && forall i :: 0 <= i < |s.vs| ==> s.vs[i].name in s.m && Stored(cells, s.vs[i], s.m[s.vs[i].name])
  }

  /** The index finds exactly the key's values. */
  ghost predicate IndexOk(vkIdx: map<Edge, int>, nk: int, vs: seq<ValueT>) {
    && (forall n :: Edge(nk, n) in vkIdx <==> n in NamesOf(vs))
    && forall i :: 0 <= i < |vs| ==> Edge(nk, vs[i].name) in vkIdx && vkIdx[Edge(nk, vs[i].name)] == vs[i].vk
  }

  lemma {:induction false} NamesCount(vs: seq<ValueT>)
    requires DistinctNames(vs)
    ensures |NamesOf(vs)| == |vs|
  {
    if vs != [] {
      var before, last := vs[..|vs| - 1], vs[|vs| - 1];
      NamesCount(before);
      assert forall i :: 0 <= i < |before| ==> before[i] == vs[i];
      assert NamesOf(vs) == NamesOf(before) + {last.name};
      assert last.name !in NamesOf(before);
    }
  }

  /** The key's value count is the size of the map. */
  lemma CountIsSize(cells: Cells, nk: int, s: KeyState)
    requires KeyOk(cells, nk, s)
    ensures cells[nk].valueCount == |s.m|
  {
    NamesCount(s.vs);
    assert |s.m| == |s.m.Keys|;
  }

  /** A value kept from before, or a new one in new cells. */
  ghost predicate KeptOrNew(a: Cells, b: Cells, s: KeyState, s': KeyState, added: set<int>, v: ValueT) {
    || (v in s.vs && Agree(a, b, ValueCells(v)) && v.name in s.m && v.name in s'.m && s'.m[v.name] == s.m[v.name])
    || (ValueCells(v) <= added && v.vk !in v.data && v.name in s'.m && Stored(b, v, s'.m[v.name]))
  }

  /** After an edit the key has a new list, and its values are kept or new. */
  ghost predicate Edited(a: Cells, b: Cells, nk: int, s: KeyState, s': KeyState, added: set<int>) {
    && added !! a.Keys && s'.list <= added && nk in b && b[nk].Key?
    && ValueListIs(b, b[nk].valueCount, b[nk].valueList, s'.vs, s'.list)
    && DistinctNames(s'.vs) && s'.m.Keys == NamesOf(s'.vs)
    && forall i :: 0 <= i < |s'.vs| ==>
         KeptOrNew(a, b, s, s', added, s'.vs[i]) && (s'.vs[i] in s.vs || ValueCells(s'.vs[i]) !! s'.list)
  }

  lemma KeptStored(a: Cells, b: Cells, nk: int, s: KeyState, s': KeyState, added: set<int>, v: ValueT)
    requires KeyOk(a, nk, s) && KeptOrNew(a, b, s, s', added, v) && added !! a.Keys
    ensures v.name in s'.m && Stored(b, v, s'.m[v.name]) && v.vk !in v.data
    ensures v in s.vs ==> ValueCells(v) <= a.Keys - {nk}
    ensures v !in s.vs ==> ValueCells(v) <= added
  {
    if v in s.vs {
      var i :| 0 <= i < |s.vs| && s.vs[i] == v;
      InValuesCells(s.vs, i);
      ValueInKeys(a, v);
      assert v.vk in ValueCells(v);
      StoredFrame(a, b, v, s.m[v.name]);
    }
  }

  lemma InValuesCells(vs: seq<ValueT>, i: nat)
    requires i < |vs|
    ensures ValueCells(vs[i]) <= ValuesCells(vs)
  {
    forall c | c in ValueCells(vs[i]) ensures c in ValuesCells(vs) {
    }
  }

  lemma ValueInKeys(cells: Cells, v: ValueT)
    requires ValueIs(cells, v)
    ensures ValueCells(v) <= cells.Keys
  {
  }

  lemma KeptApart(a: Cells, b: Cells, nk: int, s: KeyState, s': KeyState, added: set<int>, v: ValueT, w: ValueT)
    requires KeyOk(a, nk, s) && KeptOrNew(a, b, s, s', added, v) && KeptOrNew(a, b, s, s', added, w) && added !! a.Keys
    requires v != w && (v !in s.vs && w !in s.vs ==> ValueCells(v) !! ValueCells(w))
    ensures ValueCells(v) !! ValueCells(w)
  {
    KeptStored(a, b, nk, s, s', added, v);
    KeptStored(a, b, nk, s, s', added, w);
    if v in s.vs && w in s.vs {
      var k :| 0 <= k < |s.vs| && s.vs[k] == v;
      var l :| 0 <= l < |s.vs| && s.vs[l] == w;
      OldApart(Bare(nk, s), k, l);
    }
  }

  lemma OldApart(t: KeyT, k: nat, l: nat)
    requires Apart(t) && k < |t.values| && l < |t.values| && k != l
    ensures ValueCells(t.values[k]) !! ValueCells(t.values[l])
  {
    if k < l {
      assert ValueCells(t.values[k]) !! ValueCells(t.values[l]);
    } else {
      assert ValueCells(t.values[l]) !! ValueCells(t.values[k]);
    }
  }

  /** An edit leaves the key well formed. */
  lemma EditedOk(a: Cells, b: Cells, nk: int, s: KeyState, s': KeyState, added: set<int>)
    requires KeyOk(a, nk, s) && Edited(a, b, nk, s, s', added)
    requires forall k, l :: 0 <= k < l < |s'.vs| && s'.vs[k] !in s.vs && s'.vs[l] !in s.vs ==>
      ValueCells(s'.vs[k]) !! ValueCells(s'.vs[l])
    ensures KeyOk(b, nk, s')
  {
    assert nk in a && nk !in added;
    forall i | 0 <= i < |s'.vs|
      ensures s'.vs[i].name in s'.m && Stored(b, s'.vs[i], s'.m[s'.vs[i].name]) && s'.vs[i].vk !in s'.vs[i].data
      ensures nk !in ValueCells(s'.vs[i]) && s'.list !! ValueCells(s'.vs[i])
    {
      KeptStored(a, b, nk, s, s', added, s'.vs[i]);
    }
    forall i, j | 0 <= i < j < |s'.vs| ensures ValueCells(s'.vs[i]) !! ValueCells(s'.vs[j]) {
      KeptApart(a, b, nk, s, s', added, s'.vs[i], s'.vs[j]);
    }
  }
}
