/** The key editor's subkey lists, immediate and deferred (hive/edit/nkedit.go). */
module ListEditing {
  import opened SubkeyList
  import opened LazyMerge
  import opened HiveCells
  import opened PendingLists
  import opened DeferredLists
  import opened ListSteps
  import opened Registry

  class ListEditor {
    const store: CellStore
    var names: Names
    var nks: map<int, Parent>
    var deferredMode: bool
    var deferred: map<int, Pending>
    ghost var owner: map<int, int>

    ghost function View(): Lists
      reads this, store
    {
      Lists(names, store.cells, nks, deferred, owner)
    }

    /** Pending raw children are those of a list that is still there. */
    ghost predicate Valid()
      reads this, store
    {
      && store.Valid() && View().Ok() && (!deferredMode ==> deferred == map[])
      && forall p :: p in deferred && deferred[p].batch.raw != [] ==> deferred[p].oldListRef != INVALID
    }

    /** An editor over a hive's keys and their lists. */
    constructor (s: CellStore, names: Names, nks: map<int, Parent>, ghost owner: map<int, int>)
      requires s.Valid() && Lists(names, s.cells, nks, map[], owner).Ok()
      ensures Valid() && store == s && View() == Lists(names, s.cells, nks, map[], owner) && !deferredMode
    {
      store, deferredMode, deferred := s, false, map[];
      this.names, this.nks, this.owner := names, nks, owner;
    }

    // ----- New children -----

    /** The entries of a list that can be read. */
    method ReadEntries(refs: seq<int>) returns (es: seq<Entry>)
      ensures es == Readable(names, refs)
    {
      es := [];
      for i := 0 to |refs|
        invariant es == Readable(names, refs[..i])
      {
        assert refs[..i + 1][..i] == refs[..i];
        if refs[i] in names { es := es + [Entry(names[refs[i]], refs[i])]; }
      }
      assert refs[..|refs|] == refs;
    }

    /** What is pending for a parent once its list is read: raw for the first new child, with names if children were
        deleted from it. */
    method PendingOf(parentRef: int) returns (dp: Pending)
      requires Valid() && parentRef in nks
      ensures dp.batch == Opened(names, View().ListOf(parentRef), BatchOf(View().Of(parentRef)))
      ensures dp.oldListRef == Head(nks[parentRef], View().Of(parentRef))
      ensures dp.batch.raw != [] ==> dp.oldListRef != INVALID
    {
      assert View().OneOk(parentRef);
      var nk := nks[parentRef];
      if parentRef in deferred && deferred[parentRef].batch.loaded {
        return deferred[parentRef];
      }
      var oldListRef, raw := INVALID, [];
      if nk.count > 0 {
        oldListRef := nk.listRef;
        if oldListRef != INVALID {
          raw := store.Read(oldListRef);
        }
      }
      if parentRef in deferred {
        var children := ReadEntries(raw);
        dp := Pending(deferred[parentRef].batch.(children := children, loaded := true), oldListRef);
      } else {
        dp := Pending(Batch([], raw, {}, true), oldListRef);
      }
    }

    /** Accumulates the child in memory: it counts as inserted, unless its cell is that of a deleted child. */
    method InsertDeferredChild(parentRef: int, e: Entry)
      requires Valid() && parentRef in nks && deferredMode
      requires e.ref in names && names[e.ref] == e.name && !HasName(View().Children(parentRef), e.name)
      modifies this`deferred
      ensures Valid()
      ensures deferred.Keys == old(deferred).Keys + {parentRef}
      ensures forall q :: q in old(deferred) && q != parentRef ==> deferred[q] == old(deferred)[q]
      ensures deferred[parentRef].batch
           == WithChild(names, old(View().ListOf(parentRef)), BatchOf(old(View().Of(parentRef))), e)
      ensures View().Children(parentRef) ==
        if e.ref in Marked(old(deferred), parentRef) then old(View().Children(parentRef))
                                            else Inserted(old(View().Children(parentRef)), e)
      ensures forall q :: q in nks && q != parentRef ==> View().Children(q) == old(View().Children(q))
      ensures forall q :: Marked(deferred, q) == Marked(old(deferred), q)
    {
      ghost var a := View();
      assert a.OneOk(parentRef);
      var dp := PendingOf(parentRef);
      deferred := deferred[parentRef := dp.(batch := dp.batch.(children := dp.batch.children + [e]))];
      ChildPending(a, View(), parentRef, e);
    }

    /** Reads, changes, frees and rewrites the parent's list. */
    method InsertImmediateChild(parentRef: int, e: Entry)
      requires Valid() && parentRef in nks && !deferredMode
      requires e.ref in names && names[e.ref] == e.name && !HasName(View().Children(parentRef), e.name)
      modifies this`nks, this`owner, store
      ensures Valid() && nks.Keys == old(nks.Keys)
      ensures View().Children(parentRef) == Inserted(old(View().Children(parentRef)), e)
      ensures forall q :: q in nks && q != parentRef ==> View().Children(q) == old(View().Children(q))
    {
      ghost var a := View();
      assert a.OneOk(parentRef);
      var oldListRef, existing: seq<Entry> := INVALID, [];
      var nk := nks[parentRef];
      if nk.count > 0 && nk.listRef != INVALID {
        oldListRef := nk.listRef;
        var raw := store.Read(nk.listRef);
        existing := Named(names, raw);
      }
      ContentSorted(names, store.cells, nk, None);
      assert existing == a.Children(parentRef);
      InsertedOne(names, existing, e);
      var newList := Insert(existing, e);
      Rewrite(parentRef, oldListRef, newList);
    }

    /** Frees the old list, if any, and writes the new one. */
    method Rewrite(parentRef: int, oldListRef: int, es: seq<Entry>)
      requires Valid() && parentRef in nks && !deferredMode && oldListRef == nks[parentRef].listRef
      requires Sorted(es) && NamesRight(names, es)
      modifies this`nks, this`owner, store
      ensures Valid() && nks.Keys == old(nks.Keys)
      ensures View().Children(parentRef) == es
      ensures forall q :: q in nks && q != parentRef ==> View().Children(q) == old(View().Children(q))
    {
      ghost var a := View();
      assert a.OneOk(parentRef);
      var newListRef := store.Replace(oldListRef, EntryRefs(es));
      nks := nks[parentRef := Parent(|es|, newListRef)];
      owner := Reowned(store.cells, owner, Owned(store.cells, newListRef), parentRef);
      RewrittenOk(a, View(), parentRef, es);
    }

    /** A new key below a parent, in either mode: the parent has it among its children, unless its cell is that of a
        sibling whose deletion is still to be flushed. */
    method CreateKey(parentRef: int, name: string, nkRef: int)
      requires Valid() && parentRef in nks && nkRef !in names && nkRef !in nks
      requires !HasName(View().Children(parentRef), name)
      modifies this`names, this`nks, this`deferred, this`owner, store
      ensures Valid() && nks.Keys == old(nks.Keys) + {nkRef} && names == old(names)[nkRef := name]
      ensures CreatedAs(old(View()), View(), NewKey(parentRef, name, nkRef))
      ensures forall q :: Marked(deferred, q) == Marked(old(deferred), q)
    {
      ghost var a := View();
      names, nks := names[nkRef := name], nks[nkRef := Parent(0, INVALID)];
      ghost var m := View();
      AddedOk(a, m, nkRef, name);
      if deferredMode {
        InsertDeferredChild(parentRef, Entry(name, nkRef));
      } else {
        InsertImmediateChild(parentRef, Entry(name, nkRef));
      }
      CreatedAll(a, m, View(), NewKey(parentRef, name, nkRef));
    }

    /** A batch of new keys, none in the cell of a deleted sibling, and the flush: whatever the mode, every parent ends
        with its new children inserted one by one in order of name, on disk. */
    method Build(batch: seq<NewKey>)
      requires Valid() && Buildable(names, View().All(), batch) && NoneReused(deferred, batch)
      modifies this`names, this`nks, this`deferred, this`owner, store
      ensures Valid() && deferred == map[]
      ensures nks.Keys == Grown(old(View().All()), batch).Keys
      ensures forall q :: q in nks ==> DiskIs(names, store.cells, nks[q], Grown(old(View().All()), batch)[q])
    {
      CreateAll(batch);
      var _ := FlushDeferredSubkeys();
    }

    method CreateAll(batch: seq<NewKey>)
      requires Valid() && Buildable(names, View().All(), batch) && NoneReused(deferred, batch)
      modifies this`names, this`nks, this`deferred, this`owner, store
      ensures Valid() && View().All() == Grown(old(View().All()), batch)
    {
      ghost var all := View().All();
      for i := 0 to |batch|
        invariant Valid() && View().All() == Grown(all, batch[..i])
        invariant forall r :: r in names ==> r in old(names) || exists k :: 0 <= k < i && batch[k].ref == r
        invariant forall q :: Marked(deferred, q) == Marked(old(deferred), q)
      {
        var k := batch[i];
        assert batch[..i + 1][..i] == batch[..i];
        assert Fits(old(names), all, batch, i);
        CreateKey(k.parent, k.name, k.ref);
      }
      assert batch[..|batch|] == batch;
    }

    // ----- Flushing -----

    method SortChildren(children: seq<Entry>) returns (sorted: seq<Entry>)
      ensures Ordered(sorted) && multiset(sorted) == multiset(children)
    {
      var a := new Entry[|children|](i requires 0 <= i < |children| => children[i]);
      assert a[..] == children;
      SortEntries(a);
      sorted := a[..];
    }

    method KeepRefs(refs: seq<int>, deleted: set<int>) returns (kept: seq<int>)
      ensures kept == KeptRefs(refs, deleted)
    {
      kept := [];
      for i := 0 to |refs|
        invariant kept == KeptRefs(refs[..i], deleted)
      {
        assert refs[..i + 1][..i] == refs[..i];
        if refs[i] !in deleted { kept := kept + [refs[i]]; }
      }
      assert refs[..|refs|] == refs;
    }

    method KeepEntries(es: seq<Entry>, deleted: set<int>) returns (kept: seq<Entry>)
      ensures kept == KeptEntries(es, deleted)
    {
      kept := [];
      for i := 0 to |es|
        invariant kept == KeptEntries(es[..i], deleted)
      {
        assert es[..i + 1][..i] == es[..i];
        if es[i].ref !in deleted { kept := kept + [es[i]]; }
      }
      assert es[..|es|] == es;
    }

    /** The references a loaded parent's new list has: new children merged with raw ones as they came, or all sorted. */
    method MergePending(b: Batch) returns (refs: seq<int>)
      requires b.loaded && BatchOk(names, [], Some(b))
      ensures refs == Flushed(names, [], b)
    {
      if b.raw != [] && b.deleted == {} {
        refs := MergeRawAndNewEntries(names, b.raw, b.children);
      } else {
        var children := KeepEntries(b.children, b.deleted);
        var sorted := SortChildren(children);
        assert Named(names, b.raw) == [];
        PendingSorted(children, sorted);
        refs := EntryRefs(sorted);
      }
    }

    /** Writes out what is pending for one parent. The new list is known in every case; it shows the children the parent
        was to have exactly when the new ones come in order where they are merged. */
    method FlushDeferredParent(parentRef: int)
      requires store.Valid() && View().Ok()
      modifies this`nks, this`deferred, this`owner, store
      ensures store.Valid() && nks.Keys == old(nks.Keys)
      ensures FlushStep(old(View()), View(), parentRef)
    {
      ghost var a := View();
      assert a.OneOk(parentRef);
      if parentRef !in deferred { return; }
      var dp, nk := deferred[parentRef], nks[parentRef];
      var refs, oldListRef := [], dp.oldListRef;
      if !dp.batch.loaded {
        oldListRef := nk.listRef;
        if oldListRef != INVALID {
          var raw := store.Read(oldListRef);
          refs := KeepRefs(raw, dp.batch.deleted);
        }
      } else {
        refs := MergePending(dp.batch);
      }
      var newListRef := store.Replace(oldListRef, refs);
      nks := nks[parentRef := Parent(|refs|, newListRef)];
      deferred := deferred - {parentRef};
      owner := Reowned(store.cells, owner, Owned(store.cells, newListRef), parentRef);
      FlushedOkIff(a, View(), parentRef);
    }

    /** The first pass for one parent: its new children are sorted and its old list is freed. */
    method FreeOldList(parentRef: int)
      requires store.Valid() && View().Ok() && parentRef in deferred
      requires deferred[parentRef].batch.raw != [] ==> deferred[parentRef].oldListRef != INVALID
      modifies this`deferred, this`owner, store
      ensures store.Valid() && SameAll(old(View()), View()) && deferred.Keys == old(deferred.Keys)
      ensures forall q :: q in deferred && q != parentRef ==> deferred[q] == old(deferred)[q]
      ensures InOrderToMerge(deferred[parentRef].batch)
    {
      ghost var a := View();
      assert a.OneOk(parentRef);
      var dp := deferred[parentRef];
      if dp.oldListRef != INVALID {
        var sorted := SortChildren(dp.batch.children);
        store.FreeSubkeyList(dp.oldListRef);
        deferred := deferred[parentRef := Pending(dp.batch.(children := sorted), INVALID)];
        owner := Reowned(store.cells, owner, {}, parentRef);
        FreedOk(a, View(), parentRef);
      }
    }

    method DeferredKeys() returns (parents: seq<int>)
      ensures Members(parents) == deferred.Keys && Distinct(parents) && |parents| == |deferred|
    {
      parents := [];
      var left := deferred.Keys;
      while left != {}
        invariant left <= deferred.Keys && Members(parents) == deferred.Keys - left
        invariant Distinct(parents)
        invariant |parents| + |left| == |deferred|
      {
        SomeMember(left);
        var p :| p in left;
        assert p !in Members(parents);
        assert Members(parents + [p]) == Members(parents) + {p};
        left, parents := left - {p}, parents + [p];
      }
    }

    /** Everything pending is on disk, in the order one-at-a-time insertion gives; nothing is left pending, every old
        list is freed, and no list cell is lost or shared. */
    method FlushDeferredSubkeys() returns (flushed: nat)
      requires Valid()
      modifies this`nks, this`deferred, this`owner, store
      ensures Valid() && deferred == map[] && flushed == |old(deferred)| && SameAll(old(View()), View())
      ensures forall q :: q in nks ==> DiskIs(names, store.cells, nks[q], old(View().Children(q)))
    {
      flushed := 0;
      ghost var a := View();
      if deferredMode && |deferred| > 0 {
        var parents := DeferredKeys();
        FreeOldLists(parents);
        ghost var b := View();
        flushed := FlushParents(parents);
        SameAllTransitive(a, b, View());
      }
      SettledOnDisk(a, View());
    }

    /** Pass 1. */
    method FreeOldLists(parents: seq<int>)
      requires Valid() && Members(parents) == deferred.Keys && Distinct(parents)
      modifies this`deferred, this`owner, store
      ensures store.Valid() && SameAll(old(View()), View()) && deferred.Keys == old(deferred.Keys)
      ensures forall p :: p in deferred ==> InOrderToMerge(deferred[p].batch)
    {
      ghost var a := View();
      for i := 0 to |parents|
        invariant store.Valid() && SameAll(a, View()) && deferred.Keys == a.deferred.Keys
        invariant forall p :: p in Members(parents[..i]) ==> InOrderToMerge(deferred[p].batch)
        invariant forall p :: p in deferred && p !in Members(parents[..i]) ==> deferred[p] == a.deferred[p]
      {
        ghost var b := View();
        NextMember(parents, i);
        FreeOldList(parents[i]);
        SameAllTransitive(a, b, View());
      }
      assert parents[..|parents|] == parents;
    }

    /** Pass 2. */
    method FlushParents(parents: seq<int>) returns (flushed: nat)
      requires store.Valid() && View().Ok() && Members(parents) == deferred.Keys && Distinct(parents)
      requires forall p :: p in deferred ==> InOrderToMerge(deferred[p].batch)
      modifies this`nks, this`deferred, this`owner, store
      ensures store.Valid() && SameAll(old(View()), View()) && deferred == map[] && flushed == |parents|
    {
      flushed := 0;
      ghost var a := View();
      for i := 0 to |parents|
        invariant store.Valid() && SameAll(a, View()) && flushed == i
        invariant deferred == a.deferred - Members(parents[..i])
      {
        ghost var b := View();
        NextMember(parents, i);
        FlushDeferredParent(parents[i]);
        SameAllTransitive(a, b, View());
        MinusNext(a.deferred, parents, i);
        flushed := flushed + 1;
      }
      assert parents[..|parents|] == parents;
    }

    // ----- Deleting -----

    /** Marks a child for deletion. */
    method RemoveDeferredChild(parentRef: int, childRef: int)
      modifies this`deferred
      ensures parentRef in deferred && deferred == old(deferred)[parentRef := deferred[parentRef]]
      ensures parentRef !in old(deferred) ==> deferred[parentRef] == Pending(CutOff(childRef), INVALID)
      ensures parentRef in old(deferred) ==> deferred[parentRef].oldListRef == old(deferred)[parentRef].oldListRef
      ensures parentRef in old(deferred) ==> var was, now := old(deferred)[parentRef].batch, deferred[parentRef].batch;
        now.raw == was.raw && now.loaded == was.loaded && now.deleted == was.deleted + {childRef} &&
        KeptEntries(now.children, now.deleted) == KeptEntries(was.children, now.deleted)
    {
      var dp := if parentRef in deferred then deferred[parentRef] else Pending(Batch([], [], {}, false), INVALID);
      var b := dp.batch.(deleted := dp.batch.deleted + {childRef});
      if b.loaded {
        var i := 0;
        while i < |b.children| && b.children[i].ref != childRef
          invariant 0 <= i <= |b.children|
        {
          i := i + 1;
        }
        if i < |b.children| {
          OneLess(b.children, i, b.deleted);
          b := b.(children := b.children[..i] + b.children[i + 1..]);
        }
      }
      deferred := deferred[parentRef := dp.(batch := b)];
    }

    /** What is pending for the key and then for its parent goes to disk. */
    method FlushBeforeDelete(parentRef: int, nk: int)
      requires Valid() && parentRef in nks && nk in nks && nk != parentRef && View().Children(nk) == []
      modifies this`nks, this`deferred, this`owner, store
      ensures store.Valid() && FlushedBoth(old(View()), View(), nk, parentRef)
    {
      ghost var a := View();
      FlushDeferredParent(nk);
      ghost var b := View();
      FirstFlush(a, b, nk, parentRef);
      FlushDeferredParent(parentRef);
      BothFlushed(a, b, View(), nk, parentRef);
    }

    /** The deletion of a key that has no children left, in deferred mode: what is pending for it and for its parent is
        flushed, its cell is freed, and its parent's entry for it is marked. The parent loses exactly this child if its
        new children had come in order where they are merged. */
    method DetachKey(parentRef: int, nk: int)
      requires Valid() && deferredMode && parentRef in nks && nk in nks && nk != parentRef
      requires View().Children(nk) == [] && OnlyBelow(View(), parentRef, nk)
      modifies this`names, this`nks, this`deferred, this`owner, store
      ensures names == old(names) - {nk} && nks.Keys == old(nks.Keys) - {nk}
      ensures deferred == (old(deferred) - {nk})[parentRef := Pending(CutOff(nk), INVALID)]
      ensures Listed(store.cells, nks[parentRef].listRef)
      ensures Entries(store.cells, nks[parentRef].listRef) == FlushedList(old(View()), parentRef)
      ensures (parentRef in old(deferred) ==> InOrderToMerge(old(deferred)[parentRef].batch)) ==>
        Valid() && TakenFrom(old(View()), View(), parentRef, nk)
    {
      ghost var a := View();
      FlushBeforeDelete(parentRef, nk);
      ghost var c := View();
      names, nks := names - {nk}, nks - {nk};
      RemoveDeferredChild(parentRef, nk);
      DetachedAfter(a, c, View(), parentRef, nk);
    }
  }
}
