/** Deleting a key with everything below it, in immediate mode (DeleteKey in hive/edit/nkedit.go,
    hive/edit/common.go). */
module KeyDelete {
  import opened HiveCells
  import opened Subtrees
  import opened CellFreeing

  lemma Minus(a: Cells, s: set<int>, t: set<int>)
    ensures (a - s) - t == a - (s + t)
  {
  }

  lemma EdgesMinus(a: map<Edge, int>, s: set<Edge>, t: set<Edge>)
    ensures (a - s) - t == a - (s + t)
  {
  }

  /** The next value is still there once the values before it are gone. */
  lemma NextValue(cells: Cells, t: KeyT, i: nat)
    requires Apart(t) && i < |t.values|
    requires forall k :: 0 <= k < |t.values| ==> ValueIs(cells, t.values[k]) && PlainValue(cells, t.values[k])
    ensures ValueIs(cells - ValuesCells(t.values[..i]), t.values[i])
    ensures PlainValue(cells - ValuesCells(t.values[..i]), t.values[i])
    ensures ValuesCells(t.values[..i + 1]) == ValuesCells(t.values[..i]) + ValueCells(t.values[i])
    ensures OwnValueEdges(t.nk, t.values[..i + 1]) ==
      OwnValueEdges(t.nk, t.values[..i]) + {Edge(t.nk, t.values[i].name)}
  {
    var before, v, after := t.values[..i], t.values[i], t.values[..i + 1];
    assert after == before + [v];
    forall c ensures c in ValuesCells(after) <==> c in ValuesCells(before) || c in ValueCells(v) {
      if c in ValueCells(v) { assert after[i] == v; }
      if c in ValuesCells(before) {
        var k :| 0 <= k < i && c in ValueCells(before[k]);
        assert after[k] == before[k];
      }
    }
    forall c | c in ValueCells(v) ensures c in cells && c !in ValuesCells(before) {
      ValueInCells(cells, v, c);
    }
    ValueFrame(cells, cells - ValuesCells(before), v);
    PlainFrame(cells, cells - ValuesCells(before), v);
    assert OwnValueEdges(t.nk, after) == OwnValueEdges(t.nk, before) + {Edge(t.nk, v.name)};
  }

  lemma BeforeApart(t: KeyT, i: nat)
    requires Apart(t) && i < |t.subs|
    ensures SubCells(t.subs[..i]) !! AllCells(t.subs[i])
  {
    forall c | c in SubCells(t.subs[..i]) ensures c !in AllCells(t.subs[i]) {
      var k :| 0 <= k < i && c in AllCells(t.subs[..i][k]);
      assert AllCells(t.subs[k]) !! AllCells(t.subs[i]);
    }
  }

  /** The next subtree is still there once those before it are gone. */
  lemma NextSub(cells: Cells, t: KeyT, parent: int, i: nat)
    requires Represents(cells, t, parent) && Apart(t) && Plainly(cells, t) && i < |t.subs|
    ensures Represents(cells - SubCells(t.subs[..i]), t.subs[i], t.nk)
    ensures Plainly(cells - SubCells(t.subs[..i]), t.subs[i])
  {
    BeforeApart(t, i);
    TreeInCells(cells, t.subs[i], t.nk);
    PlainlyFrame(cells, cells - SubCells(t.subs[..i]), t.subs[i], t.nk);
    TreeFrame(cells, cells - SubCells(t.subs[..i]), t.subs[i], t.nk);
  }

  lemma OneMoreSub(t: KeyT, i: nat)
    requires i < |t.subs|
    ensures SubCells(t.subs[..i + 1]) == SubCells(t.subs[..i]) + AllCells(t.subs[i])
    ensures SubKeyEdges(t.subs[..i + 1], t.nk) == SubKeyEdges(t.subs[..i], t.nk) + KeyEdges(t.subs[i], t.nk)
    ensures SubValueEdges(t.subs[..i + 1]) == SubValueEdges(t.subs[..i]) + ValueEdges(t.subs[i])
  {
    assert t.subs[..i + 1] == t.subs[..i] + [t.subs[i]];
    SubCellsSplit(t.subs[..i], t.subs[i]);
    SubKeyEdgesSplit(t.subs[..i], t.subs[i], t.nk);
    SubValueEdgesSplit(t.subs[..i], t.subs[i]);
  }

  lemma SubCellsSplit(before: seq<KeyT>, s: KeyT)
    ensures SubCells(before + [s]) == SubCells(before) + AllCells(s)
  {
    var after := before + [s];
    forall c ensures c in SubCells(after) <==> c in SubCells(before) || c in AllCells(s) {
      if c in AllCells(s) { assert c in AllCells(after[|before|]); }
      if c in SubCells(before) {
        var k :| 0 <= k < |before| && c in AllCells(before[k]);
        assert c in AllCells(after[k]);
      }
    }
  }

  lemma SubKeyEdgesSplit(before: seq<KeyT>, s: KeyT, parent: int)
    ensures SubKeyEdges(before + [s], parent) == SubKeyEdges(before, parent) + KeyEdges(s, parent)
  {
    var after := before + [s];
    forall e ensures e in SubKeyEdges(after, parent) <==> e in SubKeyEdges(before, parent) || e in KeyEdges(s, parent) {
      if e in KeyEdges(s, parent) { assert e in KeyEdges(after[|before|], parent); }
      if e in SubKeyEdges(before, parent) {
        var k :| 0 <= k < |before| && e in KeyEdges(before[k], parent);
        assert e in KeyEdges(after[k], parent);
      }
    }
  }

  lemma SubValueEdgesSplit(before: seq<KeyT>, s: KeyT)
    ensures SubValueEdges(before + [s]) == SubValueEdges(before) + ValueEdges(s)
  {
    var after := before + [s];
    forall e ensures e in SubValueEdges(after) <==> e in SubValueEdges(before) || e in ValueEdges(s) {
      if e in ValueEdges(s) { assert e in ValueEdges(after[|before|]); }
      if e in SubValueEdges(before) {
        var k :| 0 <= k < |before| && e in ValueEdges(before[k]);
        assert e in ValueEdges(after[k]);
      }
    }
  }

  lemma {:induction false} TreeInCells(cells: Cells, t: KeyT, parent: int)
    requires Represents(cells, t, parent)
    ensures AllCells(t) <= cells.Keys
    decreases t
  {
    forall c | c in AllCells(t) ensures c in cells {
      if c in ValuesCells(t.values) {
        var i :| 0 <= i < |t.values| && c in ValueCells(t.values[i]);
        ValueInCells(cells, t.values[i], c);
      } else if c !in OwnCells(t) {
        var i :| 0 <= i < |t.subs| && c in AllCells(t.subs[i]);
        TreeInCells(cells, t.subs[i], t.nk);
      } else if c in t.list {
        assert c in Owned(cells, cells[t.nk].subkeyList);
      }
    }
  }

  /** The list outlives the subtrees it names. */
  lemma ListStays(a: Cells, t: KeyT, parent: int)
    requires Represents(a, t, parent) && Apart(t)
    ensures var (b, ref) := (a - SubCells(t.subs), a[t.nk].subkeyList); Listed(b, ref) && Owned(b, ref) == t.list
  {
    var b := a - SubCells(t.subs);
    forall c | c in t.list ensures c in a && c !in SubCells(t.subs) {
      TreeInCells(a, t, parent);
      assert c in OwnCells(t);
    }
    ListFrame(a, b, a[t.nk].subkeyList);
  }

  /** With the subkeys and their list gone, the key's values are still there. */
  lemma AfterSubkeys(a: Cells, b: Cells, t: KeyT, parent: int)
    requires Represents(a, t, parent) && Apart(t) && Plainly(a, t)
    requires b == a || b == a - (SubCells(t.subs) + t.list)
    ensures ValuesAre(b, t) && b.Keys >= OwnCells(t) - t.list
    ensures forall i :: 0 <= i < |t.values| ==> PlainValue(b, t.values[i])
  {
    TreeInCells(a, t, parent);
    ValuesAreFrame(a, b, t);
    forall i | 0 <= i < |t.values| ensures PlainValue(b, t.values[i]) {
      assert forall c :: c in ValueCells(t.values[i]) ==> c in ValuesCells(t.values);
      PlainFrame(a, b, t.values[i]);
    }
  }

  lemma ValueInCells(cells: Cells, v: ValueT, c: int)
    requires ValueIs(cells, v) && c in ValueCells(v)
    ensures c in cells
  {
  }

  datatype DeleteResult = Deleted | InvalidRef | CannotDeleteRoot | HasSubkeys

  function Without(refs: seq<int>, r: int): seq<int> {
    if refs == [] then []
    else
      var rest, last := Without(refs[..|refs| - 1], r), refs[|refs| - 1];
      if last == r then rest else rest + [last]
  }

  /** Of all cells there were, exactly `gone` and the head of the old list of the key at `parent` are gone, and only the
      parent's own cell is changed: it has a new list, in new cells, without `nk`. */
  ghost predicate Relisted(a: Cells, b: Cells, parent: int, nk: int, gone: set<int>)
    requires parent in a && a[parent].Key? && Listed(a, a[parent].subkeyList)
  {
    var head := a[parent].subkeyList;
    && parent in b && b[parent].Key?
    && var list := b[parent].subkeyList;
       && Listed(b, list) && Entries(b, list) == Without(Entries(a, head), nk) && AsWritten(b, list)
       && (list == INVALID <==> |Entries(b, list)| == 0)
       && b[parent] == a[parent].(subkeyCount := |Entries(b, list)|, subkeyList := list)
       && Owned(b, list) !! a.Keys - gone
       && b.Keys == (a.Keys - gone - {head}) + Owned(b, list)
       && Agree(a, b, a.Keys - gone - {head, parent})
  }

  /** All but the key's own cell. */
  function Under(t: KeyT): set<int> {
    SubCells(t.subs) + t.list + ValuesCells(t.values) + t.valueList
  }

  lemma KeyEdgesIs(t: KeyT, parent: int)
    ensures KeyEdges(t, parent) == SubKeyEdges(t.subs, t.nk) + {Edge(parent, t.name)}
  {
  }

  lemma UnderIs(t: KeyT)
    requires Apart(t)
    ensures AllCells(t) == Under(t) + {t.nk} && t.nk !in Under(t)
  {
    forall i | 0 <= i < |t.subs| ensures t.nk !in AllCells(t.subs[i]) {
      assert t.nk in OwnCells(t);
    }
  }

  /** Without subkeys there is nothing to take away. */
  lemma NoSubkeys(cells: Cells, t: KeyT, parent: int, nkIdx: map<Edge, int>, vkIdx: map<Edge, int>)
    requires NodeIs(cells, t, parent) && (cells[t.nk].subkeyCount == 0 || cells[t.nk].subkeyList == INVALID)
    ensures cells == cells - (SubCells(t.subs) + t.list)
    ensures nkIdx == nkIdx - SubKeyEdges(t.subs, t.nk) && vkIdx == vkIdx - SubValueEdges(t.subs)
  {
    assert t.list == {} && t.subs == [];
  }

  /** One more subtree is gone. */
  lemma SubGone(t: KeyT, i: nat, cells: Cells, nkIdx: map<Edge, int>, vkIdx: map<Edge, int>)
    requires i < |t.subs|
    ensures (cells - SubCells(t.subs[..i])) - AllCells(t.subs[i]) == cells - SubCells(t.subs[..i + 1])
    ensures (nkIdx - SubKeyEdges(t.subs[..i], t.nk)) - KeyEdges(t.subs[i], t.nk) ==
      nkIdx - SubKeyEdges(t.subs[..i + 1], t.nk)
    ensures (vkIdx - SubValueEdges(t.subs[..i])) - ValueEdges(t.subs[i]) == vkIdx - SubValueEdges(t.subs[..i + 1])
  {
    OneMoreSub(t, i);
    Minus(cells, SubCells(t.subs[..i]), AllCells(t.subs[i]));
    EdgesMinus(nkIdx, SubKeyEdges(t.subs[..i], t.nk), KeyEdges(t.subs[i], t.nk));
    EdgesMinus(vkIdx, SubValueEdges(t.subs[..i]), ValueEdges(t.subs[i]));
  }

  /** The first `i` subtrees are gone, with their index entries. */
  ghost predicate SubsGone(t: KeyT, i: nat, cells0: Cells, nkIdx0: map<Edge, int>, vkIdx0: map<Edge, int>,
                           cells: Cells, nkIdx: map<Edge, int>, vkIdx: map<Edge, int>)
  {
    && i <= |t.subs| && cells == cells0 - SubCells(t.subs[..i])
    && nkIdx == nkIdx0 - SubKeyEdges(t.subs[..i], t.nk) && vkIdx == vkIdx0 - SubValueEdges(t.subs[..i])
  }

  /** The subtrees and the list, then the values. */
  lemma BelowMinus(t: KeyT, cells: Cells, vkIdx: map<Edge, int>)
    requires Apart(t) && t.nk in cells
    ensures (cells - (SubCells(t.subs) + t.list)) - (ValuesCells(t.values) + t.valueList) == cells - Under(t)
    ensures (vkIdx - SubValueEdges(t.subs)) - OwnValueEdges(t.nk, t.values) == vkIdx - ValueEdges(t)
    ensures t.nk in cells - Under(t)
  {
    Minus(cells, SubCells(t.subs) + t.list, ValuesCells(t.values) + t.valueList);
    EdgesMinus(vkIdx, SubValueEdges(t.subs), OwnValueEdges(t.nk, t.values));
    assert SubCells(t.subs) + t.list + (ValuesCells(t.values) + t.valueList) == Under(t);
    assert ValueEdges(t) == SubValueEdges(t.subs) + OwnValueEdges(t.nk, t.values);
    UnderIs(t);
  }

  /** Once everything below the key is gone, its parent's cells are still there. */
  lemma BelowGone(a: Cells, b: Cells, p: KeyT, pp: int, under: set<int>)
    requires NodeIs(a, p, pp) && OwnCells(p) <= a.Keys && OwnCells(p) !! under && INVALID !in a && b == a - under
    ensures NodeIs(b, p, pp) && a[p.nk] == b[p.nk]
    ensures Entries(b, b[p.nk].subkeyList) == Entries(a, a[p.nk].subkeyList)
  {
    NodeFrame(a, b, p, pp);
    assert p.nk in OwnCells(p);
    ListFrame(a, b, a[p.nk].subkeyList);
  }

  /** What a key and its parent hold apart. */
  lemma ChildApart(a: Cells, p: KeyT, i: nat, pp: int)
    requires Represents(a, p, pp) && Apart(p) && i < |p.subs|
    ensures var t := p.subs[i];
      && Represents(a, t, p.nk) && Apart(t) && NodeIs(a, p, pp)
      && OwnCells(p) <= a.Keys && OwnCells(p) !! AllCells(t) && t.nk in a && t.nk in AllCells(t)
      && p.nk in OwnCells(p) && a[p.nk].subkeyList in OwnCells(p) && a[p.nk].subkeyList != INVALID
  {
    TreeInCells(a, p, pp);
    var head := a[p.nk].subkeyList;
    assert head in Owned(a, head);
  }

  /** Freeing the cells below a key, relisting its parent and freeing the key, seen as one step. */
  lemma RelistedAfter(a: Cells, b: Cells, c: Cells, parent: int, nk: int, under: set<int>)
    requires b == a - under && parent in b && b[parent].Key? && Listed(a, a[parent].subkeyList)
    requires Listed(b, a[parent].subkeyList) && Entries(b, a[parent].subkeyList) == Entries(a, a[parent].subkeyList)
    requires nk in b && nk != parent && nk != a[parent].subkeyList && a[parent].subkeyList in b
    requires Relisted(b, c, parent, nk, {}) && INVALID !in c
    ensures Relisted(a, c - {nk}, parent, nk, under + {nk})
  {
    var list := c[parent].subkeyList;
    assert nk !in Owned(c, list);
    ListFrame(c, c - {nk}, list);
    WrittenFrame(c, c - {nk}, list);
    assert a.Keys - (under + {nk}) == b.Keys - {nk};
  }

  class TreeEditor {
    const store: CellStore
    const root: int
    var nkIdx: map<Edge, int>
    var vkIdx: map<Edge, int>

    constructor (s: CellStore, root: int, nkIdx: map<Edge, int>, vkIdx: map<Edge, int>)
      ensures store == s && this.root == root && this.nkIdx == nkIdx && this.vkIdx == vkIdx
    {
      store, this.root, this.nkIdx, this.vkIdx := s, root, nkIdx, vkIdx;
    }

    /** What goes with one value. */
    ghost function ValueFreed(vkRef: int): set<int>
      reads store
      requires vkRef in store.cells && store.cells[vkRef].ValueKey?
      requires store.cells[vkRef].dataLen > INLINE ==> store.cells[vkRef].dataRef in store.cells
    {
      {vkRef} +
      if store.cells[vkRef].dataLen > INLINE then FreedBy(store.cells, store.encode, store.cells[vkRef].dataRef)
                else {}
    }

    /** Exactly the value's cells go, unless its data is in one cell whose bytes are followed. */
    method DeleteSingleValue(parentNK: int, vkRef: int, ghost v: ValueT)
      requires store.Valid() && ValueIs(store.cells, v) && v.vk == vkRef && v.vk !in v.data
      modifies this`vkIdx, store
      ensures store.Valid() && store.cells == old(store.cells) - old(ValueFreed(vkRef))
      ensures PlainValue(old(store.cells), v) ==> store.cells == old(store.cells) - ValueCells(v)
      ensures vkIdx == old(vkIdx) - {Edge(parentNK, v.name)}
    {
      var vk := store.cells[vkRef];
      if vk.dataLen > INLINE && IsRef(vk.dataRef) {
        if PlainValue(store.cells, v) {
          OwnedFreed(store.cells, store.encode, vk.dataLen, vk.dataRef, v.data);
        }
        FreeData(store, vk.dataRef);
      }
      vkIdx := vkIdx - {Edge(parentNK, vk.name)};
      var _ := store.TryFree(vkRef);
    }

    /** The values of a key, each with its data, and then the list of them. */
    method DeleteAllValues(nkRef: int, ghost t: KeyT)
      requires store.Valid() && ValuesAre(store.cells, t) && Apart(t) && nkRef == t.nk
      requires forall i :: 0 <= i < |t.values| ==> PlainValue(store.cells, t.values[i])
      modifies this`vkIdx, store
      ensures store.Valid() && store.cells == old(store.cells) - (ValuesCells(t.values) + t.valueList)
      ensures vkIdx == old(vkIdx) - OwnValueEdges(t.nk, t.values)
    {
      var nk := store.cells[nkRef];
      if nk.valueCount == 0 {
        return;
      }
      ghost var cells0 := store.cells;
      var vks := store.cells[nk.valueList].vks;
      for i := 0 to |vks|
        invariant store.Valid() && store.cells == cells0 - ValuesCells(t.values[..i])
        invariant vkIdx == old(vkIdx) - OwnValueEdges(t.nk, t.values[..i])
      {
        NextValue(cells0, t, i);
        DeleteSingleValue(nkRef, vks[i], t.values[i]);
        Minus(cells0, ValuesCells(t.values[..i]), ValueCells(t.values[i]));
        EdgesMinus(old(vkIdx), OwnValueEdges(t.nk, t.values[..i]), {Edge(t.nk, t.values[i].name)});
      }
      assert t.values[..|vks|] == t.values;
      if nk.valueList != INVALID {
        store.Free(nk.valueList);
      }
    }

    /** Everything below a key, and then the list of its subkeys, once. */
    method DeleteSubkeys(parentRef: int, ghost t: KeyT, ghost parent: int)
      requires store.Valid() && Represents(store.cells, t, parent) && Apart(t) && Plainly(store.cells, t)
      requires parentRef == t.nk
      modifies this`nkIdx, this`vkIdx, store
      ensures store.Valid() && store.cells == old(store.cells) - (SubCells(t.subs) + t.list)
      ensures nkIdx == old(nkIdx) - SubKeyEdges(t.subs, t.nk) && vkIdx == old(vkIdx) - SubValueEdges(t.subs)
      decreases t, 1
    {
      var subkeyList := store.cells[parentRef].subkeyList;
      ghost var cells0, nkIdx0, vkIdx0 := store.cells, nkIdx, vkIdx;
      if subkeyList == INVALID {
        NoSubkeys(cells0, t, parent, nkIdx, vkIdx);
        return;
      }
      var entries := store.Read(subkeyList);
      for i := 0 to |entries|
        invariant store.Valid() && SubsGone(t, i, cells0, nkIdx0, vkIdx0, store.cells, nkIdx, vkIdx)
      {
        DeleteNextSub(parentRef, entries[i], t, parent, i, cells0, nkIdx0, vkIdx0);
      }
      assert t.subs[..|entries|] == t.subs;
      ListStays(cells0, t, parent);
      store.FreeSubkeyList(subkeyList);
      Minus(cells0, SubCells(t.subs), t.list);
    }

    method DeleteNextSub(parentRef: int, nkRef: int, ghost t: KeyT, ghost parent: int, ghost i: nat,
                         ghost cells0: Cells, ghost nkIdx0: map<Edge, int>, ghost vkIdx0: map<Edge, int>)
      requires store.Valid() && SubsGone(t, i, cells0, nkIdx0, vkIdx0, store.cells, nkIdx, vkIdx)
      requires Represents(cells0, t, parent) && Apart(t) && Plainly(cells0, t)
      requires i < |t.subs| && parentRef == t.nk && nkRef == t.subs[i].nk
      modifies this`nkIdx, this`vkIdx, store
      ensures store.Valid() && SubsGone(t, i + 1, cells0, nkIdx0, vkIdx0, store.cells, nkIdx, vkIdx)
      decreases t, 0
    {
      NextSub(cells0, t, parent, i);
      SubGone(t, i, cells0, nkIdx0, vkIdx0);
      DeleteSubtreeNoParentUpdate(parentRef, nkRef, t.subs[i]);
    }

    /** A key and everything below it: exactly the cells and the index entries of the subtree go. */
    method DeleteSubtreeNoParentUpdate(parentRef: int, nkRef: int, ghost t: KeyT)
      requires store.Valid() && Represents(store.cells, t, parentRef) && Apart(t) && Plainly(store.cells, t)
      requires nkRef == t.nk
      modifies this`nkIdx, this`vkIdx, store
      ensures store.Valid() && store.cells == old(store.cells) - AllCells(t)
      ensures nkIdx == old(nkIdx) - KeyEdges(t, parentRef) && vkIdx == old(vkIdx) - ValueEdges(t)
      decreases t, 3
    {
      ghost var cells0 := store.cells;
      UnderIs(t);
      var name := store.cells[nkRef].name;
      DeleteBelow(nkRef, t, parentRef);
      nkIdx := nkIdx - {Edge(parentRef, name)};
      store.Free(nkRef);
      Minus(cells0, Under(t), {nkRef});
    }

    /** The subkeys and the values of a key. */
    method DeleteBelow(nkRef: int, ghost t: KeyT, ghost parent: int)
      requires store.Valid() && Represents(store.cells, t, parent) && Apart(t) && Plainly(store.cells, t)
      requires nkRef == t.nk
      modifies this`nkIdx, this`vkIdx, store
      ensures store.Valid() && store.cells == old(store.cells) - Under(t) && nkRef in store.cells
      ensures nkIdx == old(nkIdx) - SubKeyEdges(t.subs, t.nk) && vkIdx == old(vkIdx) - ValueEdges(t)
      decreases t, 2
    {
      ghost var cells0, vkIdx0 := store.cells, vkIdx;
      if store.cells[nkRef].subkeyCount > 0 {
        DeleteSubkeys(nkRef, t, parent);
      } else {
        NoSubkeys(cells0, t, parent, nkIdx, vkIdx);
      }
      AfterSubkeys(cells0, store.cells, t, parent);
      DeleteAllValues(nkRef, t);
      BelowMinus(t, cells0, vkIdx0);
    }

    /** The list without one key, written anew; an empty list is none. */
    method RemoveByRef(listRef: int, targetRef: int) returns (newRef: int, count: nat)
      requires store.Valid() && Listed(store.cells, listRef) && listRef != INVALID
      modifies store
      ensures store.Valid() && Listed(store.cells, newRef) && (newRef == INVALID <==> count == 0)
      ensures Entries(store.cells, newRef) == Without(Entries(old(store.cells), listRef), targetRef)
      ensures AsWritten(store.cells, newRef)
      ensures count == |Entries(store.cells, newRef)|
      ensures store.cells.Keys == old(store.cells).Keys + Owned(store.cells, newRef)
      ensures Owned(store.cells, newRef) !! old(store.cells).Keys
      ensures Agree(old(store.cells), store.cells, old(store.cells).Keys)
    {
      var entries := store.Read(listRef);
      var kept := [];
      for i := 0 to |entries|
        invariant kept == Without(entries[..i], targetRef)
      {
        assert entries[..i + 1][..i] == entries[..i];
        if entries[i] != targetRef {
          kept := kept + [entries[i]];
        }
      }
      assert entries[..|entries|] == entries;
      newRef := store.WriteRaw(kept);
      count := |kept|;
    }

    /** The parent gets a new list without the key. Of the old list only the head cell is freed. */
    method RemoveFromParentSubkeyList(parentRef: int, nkRef: int)
      requires store.Valid() && parentRef in store.cells && store.cells[parentRef].Key?
      requires Listed(store.cells, store.cells[parentRef].subkeyList) && store.cells[parentRef].subkeyList != INVALID
      modifies store
      ensures store.Valid() && Relisted(old(store.cells), store.cells, parentRef, nkRef, {})
    {
      var listRef := store.cells[parentRef].subkeyList;
      ghost var cells0 := store.cells;
      var newRef, newCount := RemoveByRef(listRef, nkRef);
      ghost var cells1 := store.cells;
      store.Write(parentRef, store.cells[parentRef].(subkeyCount := newCount, subkeyList := newRef));
      if listRef != newRef {
        store.Free(listRef);
      }
      if newRef != INVALID {
        WrittenFrame(cells1, store.cells, newRef);
        ListFrame(cells1, store.cells, newRef);
      }
    }

    method DeleteFromParent(nkRef: int, ghost p: KeyT, ghost i: nat, ghost pp: int)
      requires store.Valid() && i < |p.subs| && nkRef == p.subs[i].nk && Represents(store.cells, p, pp) && Apart(p)
      requires Plainly(store.cells, p.subs[i])
      modifies this`nkIdx, this`vkIdx, store
      ensures store.Valid() && Relisted(old(store.cells), store.cells, p.nk, nkRef, AllCells(p.subs[i]))
      ensures nkIdx == old(nkIdx) - KeyEdges(p.subs[i], p.nk) && vkIdx == old(vkIdx) - ValueEdges(p.subs[i])
    {
      ghost var t := p.subs[i];
      ghost var cells0, nkIdx0 := store.cells, nkIdx;
      ChildApart(cells0, p, i, pp);
      var nk := store.cells[nkRef];
      DeleteBelow(nkRef, t, p.nk);
      UnderIs(t);
      ghost var cells1 := store.cells;
      BelowGone(cells0, cells1, p, pp, Under(t));
      RemoveFromParentSubkeyList(nk.parent, nkRef);
      EdgesMinus(nkIdx0, SubKeyEdges(t.subs, t.nk), {Edge(nk.parent, nk.name)});
      KeyEdgesIs(t, p.nk);
      nkIdx := nkIdx - {Edge(nk.parent, nk.name)};
      ghost var cells2 := store.cells;
      store.Free(nkRef);
      RelistedAfter(cells0, cells1, cells2, p.nk, nkRef, Under(t));
    }

    /** Deletes the `i`-th subkey of `p` with everything below it. */
    method DeleteKey(nkRef: int, recursive: bool, ghost p: KeyT, ghost i: nat, ghost pp: int) returns (r: DeleteResult)
      requires store.Valid()
      requires IsRef(nkRef) && nkRef != root ==>
        && i < |p.subs| && nkRef == p.subs[i].nk && Represents(store.cells, p, pp) && Apart(p)
        && Plainly(store.cells, p.subs[i])
      modifies this`nkIdx, this`vkIdx, store
      ensures store.Valid()
      ensures r == (if !IsRef(nkRef) then InvalidRef else if nkRef == root then CannotDeleteRoot
                    else if !recursive && p.subs[i].subs != [] then HasSubkeys else Deleted)
      ensures r != Deleted ==> store.cells == old(store.cells) && nkIdx == old(nkIdx) && vkIdx == old(vkIdx)
      ensures r == Deleted ==> Relisted(old(store.cells), store.cells, p.nk, nkRef, AllCells(p.subs[i]))
      ensures r == Deleted ==>
        nkIdx == old(nkIdx) - KeyEdges(p.subs[i], p.nk) && vkIdx == old(vkIdx) - ValueEdges(p.subs[i])
    {
      if !IsRef(nkRef) { return InvalidRef; }
      if nkRef == root { return CannotDeleteRoot; }
      assert Represents(store.cells, p.subs[i], p.nk);
      if !recursive && store.cells[nkRef].subkeyCount > 0 { return HasSubkeys; }
      DeleteFromParent(nkRef, p, i, pp);
      r := Deleted;
    }
  }
}
