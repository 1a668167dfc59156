/** What each step of the key editor's subkey lists does to all parents (hive/edit/nkedit.go). */
module ListSteps {
  import opened SubkeyList
  import opened LazyMerge
  import opened HiveCells
  import opened PendingLists
  import opened DeferredLists
  import opened Registry

  lemma ContentSorted(names: Names, cells: Cells, nk: Parent, d: Option<Pending>)
    requires ParentOk(names, cells, nk, d)
    ensures var es := ChildrenOf(names, cells, nk, d); Sorted(es) && NamesRight(names, es)
  {
    if d.Some? && d.value.batch.loaded {
      var es, kept := Named(names, d.value.batch.raw), KeptEntries(d.value.batch.children, d.value.batch.deleted);
      InsertedAllSorted(es, kept);
      InsertedRight(names, es, kept);
    }
  }

  lemma InsertedOne(names: Names, es: seq<Entry>, e: Entry)
    requires Sorted(es) && NamesRight(names, es) && !HasName(es, e.name) && e.ref in names && names[e.ref] == e.name
    ensures WithEntry(es, e) == Inserted(es, e) && Sorted(Inserted(es, e)) && NamesRight(names, Inserted(es, e))
  {
    assert [e][..0] == [];
    assert InsertedAll(es, [e]) == Inserted(es, e);
    InsertedRight(names, es, [e]);
    InsertedSorted(es, e);
  }

  /** A list written for a parent with nothing pending. */
  lemma WrittenOk(names: Names, cells: Cells, es: seq<Entry>, nk: Parent)
    requires Listed(cells, nk.listRef) && Entries(cells, nk.listRef) == EntryRefs(es)
    requires Sorted(es) && NamesRight(names, es)
    requires nk.count == |es| && (nk.listRef == INVALID <==> es == [])
    ensures ParentOk(names, cells, nk, None) && ChildrenOf(names, cells, nk, None) == es
  {
    EntryRefsNamed(names, es);
  }

  // ----- New keys -----

  /** A new key without children. */
  lemma AddedOne(a: Lists, b: Lists, ref: int, name: string, q: int)
    requires a.Ok() && ref !in a.names && ref !in a.nks
    requires b == a.(names := a.names[ref := name], nks := a.nks[ref := Parent(0, INVALID)])
    ensures b.OneOk(q) && b.Of(q) == a.Of(q)
    ensures q in a.nks ==> SameChildren(a, b, q)
  {
    assert a.OneOk(q);
    if q in a.nks {
      ParentFrame(a.names, a.cells, b.names, b.cells, a.nks[q], a.Of(q));
    } else if q == ref {
      assert forall r :: r in a.owner ==> a.owner[r] in a.nks;
    }
  }

  lemma AddedOk(a: Lists, b: Lists, ref: int, name: string)
    requires a.Ok() && ref !in a.names && ref !in a.nks
    requires b == a.(names := a.names[ref := name], nks := a.nks[ref := Parent(0, INVALID)])
    ensures b.Ok() && b.Children(ref) == [] && forall q :: q in a.nks ==> b.Children(q) == a.Children(q)
  {
    forall q ensures b.OneOk(q) && (q in a.nks ==> SameChildren(a, b, q)) {
      AddedOne(a, b, ref, name, q);
    }
    assert b.OneOk(ref);
  }

  datatype NewKey = NewKey(parent: int, name: string, ref: int)

  function GrownBy(all: map<int, seq<Entry>>, k: NewKey): map<int, seq<Entry>> {
    var children := if k.parent in all then all[k.parent] else [];
    all[k.parent := Inserted(children, Entry(k.name, k.ref))][k.ref := []]
  }

  /** The children of every parent after keys are created one by one. */
  function Grown(all: map<int, seq<Entry>>, batch: seq<NewKey>): map<int, seq<Entry>> {
    if batch == [] then all
    else GrownBy(Grown(all, batch[..|batch| - 1]), batch[|batch| - 1])
  }

  /** The cells of deleted children still to be taken off the list of `p`. */
  function Marked(deferred: map<int, Pending>, p: int): set<int> {
    if p in deferred then deferred[p].batch.deleted else {}
  }

  /** The children of every parent after `k` is created: a key in the cell of a deleted sibling is not listed. */
  ghost predicate CreatedAs(a: Lists, b: Lists, k: NewKey)
    requires a.Ok() && b.Ok()
  {
    b.All() == if k.ref in Marked(a.deferred, k.parent) then a.All()[k.ref := []] else GrownBy(a.All(), k)
  }

  lemma CreatedAll(a: Lists, m: Lists, b: Lists, k: NewKey)
    requires a.Ok() && m.Ok() && b.Ok() && k.parent in a.nks && k.ref !in a.nks && m.deferred == a.deferred
    requires m.nks.Keys == a.nks.Keys + {k.ref} && b.nks.Keys == m.nks.Keys
    requires m.Children(k.ref) == [] && forall q :: q in a.nks ==> m.Children(q) == a.Children(q)
    requires b.Children(k.parent) == if k.ref in Marked(m.deferred, k.parent) then m.Children(k.parent)
                                     else Inserted(m.Children(k.parent), Entry(k.name, k.ref))
    requires forall q :: q in m.nks && q != k.parent ==> b.Children(q) == m.Children(q)
    ensures CreatedAs(a, b, k)
  {
    forall q | q in a.nks && q != k.parent ensures b.Children(q) == a.Children(q) {
      assert b.Children(q) == m.Children(q) && m.Children(q) == a.Children(q);
    }
    assert b.Children(k.ref) == m.Children(k.ref);
    if k.ref in Marked(a.deferred, k.parent) {
      assert forall q :: q in b.nks ==> b.All()[q] == a.All()[k.ref := []][q];
    } else {
      GrownIs(a.All(), b.All(), k);
    }
  }

  lemma GrownIs(x: map<int, seq<Entry>>, z: map<int, seq<Entry>>, k: NewKey)
    requires k.parent in x && k.ref !in x && z.Keys == x.Keys + {k.ref}
    requires z[k.parent] == Inserted(x[k.parent], Entry(k.name, k.ref)) && z[k.ref] == []
    requires forall q :: q in x && q != k.parent ==> z[q] == x[q]
    ensures z == GrownBy(x, k)
  {
    var g := GrownBy(x, k);
    assert k.parent != k.ref && g.Keys == x.Keys + {k.ref};
    assert forall q :: q in g ==> g[q] == z[q];
  }

  /** The `i`-th new key has a parent by then, a new reference, and a name that is new below its parent. */
  ghost predicate Fits(names: Names, all: map<int, seq<Entry>>, batch: seq<NewKey>, i: int)
    requires 0 <= i < |batch|
  {
    var k, grown := batch[i], Grown(all, batch[..i]);
    && k.parent in grown && !HasName(grown[k.parent], k.name)
    && k.ref !in names && k.ref !in grown && forall j :: 0 <= j < i ==> batch[j].ref != k.ref
  }

  ghost predicate Buildable(names: Names, all: map<int, seq<Entry>>, batch: seq<NewKey>) {
    forall i {:trigger Fits(names, all, batch, i)} :: 0 <= i < |batch| ==> Fits(names, all, batch, i)
  }

  /** No new key is in the cell of a deleted sibling. */
  ghost predicate NoneReused(deferred: map<int, Pending>, batch: seq<NewKey>) {
    forall i :: 0 <= i < |batch| ==> batch[i].ref !in Marked(deferred, batch[i].parent)
  }

  // ----- Changing one parent -----

  /** A parent without pending children gets a new list for its old one. */
  lemma RewrittenOk(a: Lists, b: Lists, p: int, es: seq<Entry>)
    requires a.Ok() && p in a.nks && p !in a.deferred && Sorted(es) && NamesRight(a.names, es)
    requires b.names == a.names && b.deferred == a.deferred && p in b.nks && b.nks == a.nks[p := b.nks[p]]
    requires Listed(b.cells, b.nks[p].listRef) && Entries(b.cells, b.nks[p].listRef) == EntryRefs(es)
    requires b.nks[p].count == |es| && (b.nks[p].listRef == INVALID <==> es == [])
    requires Swapped(a.cells, b.cells, Owned(a.cells, a.nks[p].listRef), b.nks[p].listRef)
    requires b.owner == Reowned(b.cells, a.owner, Owned(b.cells, b.nks[p].listRef), p)
    ensures b.Ok() && b.Children(p) == es
    ensures forall q :: q in b.nks && q != p ==> b.Children(q) == a.Children(q)
  {
    WrittenOk(b.names, b.cells, es, b.nks[p]);
    assert forall q :: a.Of(q) == b.Of(q);
    ReplacedOk(a, b, p);
  }

  /** Becoming pending, or staying so, does not change what a parent holds. */
  lemma SamePendingCells(a: Lists, b: Lists, p: int)
    requires a.Ok() && p in a.nks && p in b.deferred && b == a.(deferred := a.deferred[p := b.deferred[p]])
    requires Head(b.nks[p], b.Of(p)) == Head(a.nks[p], a.Of(p))
    ensures Replaced(a, b, p)
  {
    assert a.OneOk(p);
    assert b.nks == a.nks[p := b.nks[p]];
    assert forall r :: r in Holds(a.cells, a.nks[p], a.Of(p)) ==> r in a.cells;
  }

  /** The same children for every parent. */
  ghost predicate SameAll(a: Lists, b: Lists) {
    a.Ok() && b.Ok() && b.nks.Keys == a.nks.Keys && forall q :: q in a.nks ==> b.Children(q) == a.Children(q)
  }

  lemma SameAllTransitive(a: Lists, b: Lists, c: Lists)
    requires SameAll(a, b) && SameAll(b, c)
    ensures SameAll(a, c)
  {
  }

  /** The children of a parent on disk, with their count. */
  ghost predicate DiskIs(names: Names, cells: Cells, nk: Parent, es: seq<Entry>) {
    ParentOk(names, cells, nk, None) && ChildrenOf(names, cells, nk, None) == es && nk.count == |es|
  }

  lemma SettledOnDisk(a: Lists, b: Lists)
    requires SameAll(a, b) && b.deferred == map[]
    ensures forall q :: q in b.nks ==> DiskIs(b.names, b.cells, b.nks[q], a.Children(q))
  {
    forall q | q in b.nks ensures DiskIs(b.names, b.cells, b.nks[q], a.Children(q)) {
      assert b.OneOk(q) && b.Of(q) == None;
    }
  }

  /** New children are in order where they are merged with raw ones. */
  predicate InOrderToMerge(b: Batch) {
    b.loaded && b.raw != [] ==> Sorted(b.children)
  }

  /** The list a flush of `p` writes. */
  ghost function FlushedList(a: Lists, p: int): seq<int>
    requires a.Ok() && p in a.nks
  {
    assert a.OneOk(p);
    if p !in a.deferred then Entries(a.cells, a.nks[p].listRef)
    else Flushed(a.names, a.ListOf(p), a.deferred[p].batch)
  }

  /** A parent's pending changes are written out for the list it still held, if any. */
  ghost predicate FlushedTo(a: Lists, b: Lists, p: int)
    requires a.Ok() && p in a.deferred
  {
    && b.names == a.names && b.deferred == a.deferred - {p} && p in b.nks && b.nks == a.nks[p := b.nks[p]]
    && Listed(b.cells, b.nks[p].listRef) && Entries(b.cells, b.nks[p].listRef) == FlushedList(a, p)
    && b.nks[p].count == |FlushedList(a, p)| && (b.nks[p].listRef == INVALID <==> FlushedList(a, p) == [])
    && Swapped(a.cells, b.cells, Holds(a.cells, a.nks[p], a.Of(p)), b.nks[p].listRef)
    && b.owner == Reowned(b.cells, a.owner, Owned(b.cells, b.nks[p].listRef), p)
  }

  lemma FlushedReplaces(a: Lists, b: Lists, p: int)
    requires a.Ok() && p in a.deferred && FlushedTo(a, b, p)
    ensures Replaced(a, b, p)
  {
    assert a.OneOk(p);
  }

  /** The new list shows the children the parent was to have. */
  lemma FlushedRight(a: Lists, b: Lists, p: int)
    requires a.Ok() && p in a.deferred && FlushedTo(a, b, p)
    requires Decodable(a.names, FlushedList(a, p)) && Named(a.names, FlushedList(a, p)) == a.Children(p)
    ensures SameAll(a, b)
  {
    assert a.OneOk(p);
    ContentSorted(a.names, a.cells, a.nks[p], a.Of(p));
    assert FlushedList(a, p) == EntryRefs(Named(a.names, FlushedList(a, p)));
    WrittenOk(b.names, b.cells, a.Children(p), b.nks[p]);
    FlushedReplaces(a, b, p);
    ReplacedOk(a, b, p);
  }

  lemma FlushedShows(a: Lists, b: Lists, p: int)
    requires a.Ok() && p in a.deferred && FlushedTo(a, b, p) && SameAll(a, b)
    ensures Decodable(a.names, FlushedList(a, p)) && Named(a.names, FlushedList(a, p)) == a.Children(p)
  {
    assert b.OneOk(p) && b.Of(p) == None;
  }

  /** A flush leaves the children as they were to be exactly when the new ones come in order where they are merged. */
  lemma FlushedOkIff(a: Lists, b: Lists, p: int)
    requires a.Ok() && p in a.deferred && FlushedTo(a, b, p)
    ensures Replaced(a, b, p)
    ensures SameAll(a, b) <==> InOrderToMerge(a.deferred[p].batch)
  {
    FlushedReplaces(a, b, p);
    FlushedIffOf(a, p);
    if InOrderToMerge(a.deferred[p].batch) {
      FlushedRight(a, b, p);
    } else if SameAll(a, b) {
      FlushedShows(a, b, p);
    }
  }

  lemma FlushedIffOf(a: Lists, p: int)
    requires a.Ok() && p in a.deferred
    ensures a.OneOk(p) && p in a.nks
    ensures Decodable(a.names, FlushedList(a, p)) && Named(a.names, FlushedList(a, p)) == a.Children(p)
       <==> InOrderToMerge(a.deferred[p].batch)
  {
    assert a.OneOk(p);
    FlushedIff(a.names, a.ListOf(p), a.deferred[p].batch);
  }

  /** A pending parent gives up its old list and sorts its new children. */
  lemma FreedOk(a: Lists, b: Lists, p: int)
    requires a.Ok() && p in a.deferred && p in b.deferred && b.names == a.names && b.nks == a.nks
    requires b.deferred == a.deferred[p := b.deferred[p]] && a.deferred[p].batch.loaded
    requires var c := a.deferred[p].batch;
      b.deferred[p] == Pending(c.(children := b.deferred[p].batch.children), INVALID)
    requires var now := b.deferred[p].batch.children;
      Ordered(now) && multiset(now) == multiset(a.deferred[p].batch.children)
    requires b.cells == a.cells - Owned(a.cells, a.deferred[p].oldListRef)
    requires b.owner == Reowned(b.cells, a.owner, {}, p)
    ensures SameAll(a, b) && InOrderToMerge(b.deferred[p].batch)
  {
    assert a.OneOk(p);
    AnyOrder(a.names, a.deferred[p].batch, b.deferred[p].batch.children);
    assert b.nks == a.nks[p := b.nks[p]];
    ReplacedOk(a, b, p);
  }

  // ----- Deleting -----

  /** `nk` is in the list of `p` only. */
  ghost predicate OnlyBelow(a: Lists, p: int, nk: int)
    requires a.Ok()
  {
    forall q :: q in a.nks && q != p ==> nk !in EntryRefs(a.Children(q))
  }

  /** The key's cell is freed, and its parent's entry for it is to go. */
  ghost predicate Detached(a: Lists, b: Lists, p: int, nk: int) {
    && b.names == a.names - {nk} && b.nks == a.nks - {nk}
    && b.cells == a.cells && b.owner == a.owner && b.deferred == a.deferred[p := Pending(CutOff(nk), INVALID)]
  }

  lemma NeedsAreChildren(a: Lists, q: int)
    requires a.Ok() && q in a.nks
    ensures a.OneOk(q) && forall r :: r in NeededBy(a.cells, a.nks[q], a.Of(q)) <==> r in EntryRefs(a.Children(q))
  {
    assert a.OneOk(q);
    var d := a.Of(q);
    var need, es := NeededBy(a.cells, a.nks[q], d), a.Children(q);
    if d.Some? && d.value.batch.loaded {
      var b := d.value.batch;
      var kept := KeptEntries(b.children, b.deleted);
      InsertedAllMembers(Named(a.names, b.raw), kept);
      SameRefs(a.names, b.raw, kept, es);
    } else {
      assert EntryRefs(es) == need;
    }
  }

  lemma SameRefs(names: Names, raw: seq<int>, kept: seq<Entry>, es: seq<Entry>)
    requires Decodable(names, raw) && multiset(es) == multiset(Named(names, raw)) + multiset(kept)
    ensures forall r :: r in raw + EntryRefs(kept) <==> r in EntryRefs(es)
  {
    var was := Named(names, raw);
    forall r ensures r in raw + EntryRefs(kept) <==> r in EntryRefs(es) {
      if r in raw {
        var i :| 0 <= i < |raw| && raw[i] == r;
        HasRef(es, was[i]);
      } else if r in EntryRefs(kept) {
        var i :| 0 <= i < |kept| && EntryRefs(kept)[i] == r;
        HasRef(es, kept[i]);
      }
      if r in EntryRefs(es) {
        var i :| 0 <= i < |es| && EntryRefs(es)[i] == r;
        assert es[i] in multiset(es);
        if es[i] in was {
          assert r in raw;
        } else {
          assert es[i] in kept;
          var k :| 0 <= k < |kept| && kept[k] == es[i];
          assert EntryRefs(kept)[k] == r;
        }
      }
    }
  }

  lemma HasRef(es: seq<Entry>, e: Entry)
    requires e in multiset(es)
    ensures e.ref in EntryRefs(es)
  {
    var i :| 0 <= i < |es| && es[i] == e;
    assert EntryRefs(es)[i] == e.ref;
  }

  /** The other parents are as before. */
  lemma DetachedOther(a: Lists, b: Lists, p: int, nk: int, q: int)
    requires a.Ok() && p in a.nks && nk in a.nks && p != nk && OnlyBelow(a, p, nk) && Detached(a, b, p, nk) && q != p
    ensures b.OneOk(q)
    ensures q in b.nks ==> q in a.nks && SameChildren(a, b, q)
  {
    assert a.OneOk(q);
    if q in b.nks {
      NeedsAreChildren(a, q);
      ParentFrame(a.names, a.cells, b.names, b.cells, a.nks[q], a.Of(q));
      assert b.Of(q) == a.Of(q);
    }
  }

  lemma DetachedOne(a: Lists, b: Lists, p: int, nk: int)
    requires a.Ok() && p in a.nks && nk in a.nks && p != nk && Detached(a, b, p, nk) && p !in a.deferred
    ensures b.OneOk(p) && ChildrenOf(b.names, b.cells, b.nks[p], b.Of(p)) == KeptEntries(a.Children(p), {nk})
  {
    assert a.OneOk(p);
    var list := Entries(a.cells, a.nks[p].listRef);
    var kept := KeptRefs(list, {nk});
    NamedKept(a.names, list, {nk});
    KeptStaySorted(a.names, list, {nk});
    KeptRefsAre(list, {nk});
    forall i | 0 <= i < |kept| ensures kept[i] in b.names && b.names[kept[i]] == a.names[kept[i]] {
      assert kept[i] in kept;
    }
    NamedSame(a.names, b.names, kept);
  }

  lemma DetachedOk(a: Lists, b: Lists, p: int, nk: int)
    requires a.Ok() && p in a.nks && nk in a.nks && p != nk && OnlyBelow(a, p, nk) && Detached(a, b, p, nk)
    requires p !in a.deferred && nk !in a.deferred && a.Children(nk) == []
    ensures b.Ok() && b.Children(p) == KeptEntries(a.Children(p), {nk})
    ensures forall q :: q in b.nks && q != p ==> b.Children(q) == a.Children(q)
  {
    DetachedOne(a, b, p, nk);
    forall q ensures b.OneOk(q) && (q in b.nks && q != p ==> SameChildren(a, b, q)) {
      if q != p { DetachedOther(a, b, p, nk, q); }
    }
    assert a.OneOk(nk);
    assert Holds(a.cells, a.nks[nk], a.Of(nk)) == {};
  }

  lemma SomeMember(s: set<int>)
    requires s != {}
    ensures exists p :: p in s
  {
    assert (forall p :: p !in s) ==> s == {};
  }

  lemma MinusNext(m: map<int, Pending>, parents: seq<int>, i: int)
    requires 0 <= i < |parents| && Distinct(parents)
    ensures (m - Members(parents[..i])) - {parents[i]} == m - Members(parents[..i + 1])
  {
    NextMember(parents, i);
  }

  lemma NextMember(parents: seq<int>, i: int)
    requires 0 <= i < |parents| && Distinct(parents)
    ensures Members(parents[..i + 1]) == Members(parents[..i]) + {parents[i]}
    ensures parents[i] !in Members(parents[..i]) && parents[i] in Members(parents)
    ensures Members(parents[..i]) <= Members(parents)
  {
  }

  /** One more pending child. */
  lemma ChildPending(a: Lists, b: Lists, p: int, e: Entry)
    requires a.Ok() && p in a.nks && p in b.deferred && b == a.(deferred := a.deferred[p := b.deferred[p]])
    requires e.ref in a.names && a.names[e.ref] == e.name && !HasName(a.Children(p), e.name)
    requires b.deferred[p] == Pending(WithChild(a.names, a.ListOf(p), BatchOf(a.Of(p)), e), Head(a.nks[p], a.Of(p)))
    ensures b.Ok()
    ensures b.Children(p) == if e.ref in Marked(a.deferred, p) then a.Children(p) else Inserted(a.Children(p), e)
    ensures forall q :: q in a.nks && q != p ==> b.Children(q) == a.Children(q)
    ensures forall q :: Marked(b.deferred, q) == Marked(a.deferred, q)
  {
    assert a.OneOk(p);
    WithChildOk(a.names, a.ListOf(p), BatchOf(a.Of(p)), e);
    LoadedOk(a.names, a.cells, a.ListOf(p), b.nks[p], b.deferred[p]);
    SamePendingCells(a, b, p);
    ReplacedOk(a, b, p);
  }

  /** Once a parent's list is read, its children no longer depend on it. */
  lemma LoadedOk(names: Names, cells: Cells, list: seq<int>, nk: Parent, d: Pending)
    requires d.batch.loaded && BatchOk(names, list, Some(d.batch)) && Listed(cells, d.oldListRef)
    ensures ParentOk(names, cells, nk, Some(d))
    ensures ChildrenOf(names, cells, nk, Some(d)) == Content(names, list, Some(d.batch))
  {
  }

  lemma OneLess(es: seq<Entry>, i: int, deleted: set<int>)
    requires 0 <= i < |es| && es[i].ref in deleted
    ensures KeptEntries(es[..i] + es[i + 1..], deleted) == KeptEntries(es, deleted)
  {
    KeptConcat(es[..i], es[i + 1..], deleted);
    KeptConcat(es[..i + 1], es[i + 1..], deleted);
    KeptOneMore(es[..i], deleted, es[i]);
    assert es[..i + 1] == es[..i] + [es[i]] && es == es[..i + 1] + es[i + 1..];
  }

  lemma {:induction false} KeptConcat(a: seq<Entry>, b: seq<Entry>, deleted: set<int>)
    ensures KeptEntries(a + b, deleted) == KeptEntries(a, deleted) + KeptEntries(b, deleted)
  {
    if b == [] {
      assert a + b == a;
    } else {
      var c, e := b[..|b| - 1], b[|b| - 1];
      KeptConcat(a, c, deleted);
      KeptOneMore(a + c, deleted, e);
      assert a + b == (a + c) + [e];
    }
  }

  // ----- Before a deletion -----

  /** A flush of one parent leaves the next one's to be what it was. */
  lemma SameFlushed(a: Lists, b: Lists, nk: int, p: int)
    requires a.Ok() && b.Ok() && Replaced(a, b, nk) && p != nk && p in a.nks
    ensures p in b.nks && FlushedList(b, p) == FlushedList(a, p)
  {
    ReplacedOther(a, b, nk, p);
    assert a.OneOk(p) && a.OneOk(nk) && a.Of(p) == b.Of(p);
    forall r | r in Holds(a.cells, a.nks[p], a.Of(p)) ensures r in a.cells.Keys - Holds(a.cells, a.nks[nk], a.Of(nk)) {
      assert r in a.owner && a.owner[r] == p;
    }
    ListFrame(a.cells, b.cells, Head(a.nks[p], a.Of(p)));
  }

  /** A key without children has none to merge. */
  lemma ChildlessInOrder(a: Lists, nk: int)
    requires a.Ok() && nk in a.deferred && a.Children(nk) == []
    ensures InOrderToMerge(a.deferred[nk].batch)
  {
    assert a.OneOk(nk);
    var b := a.deferred[nk].batch;
    if b.loaded {
      InsertedAllMembers(Named(a.names, b.raw), KeptEntries(b.children, b.deleted));
      assert |multiset(Named(a.names, b.raw))| == |b.raw|;
    }
  }

  /** The flush of one parent, pending or not. */
  ghost predicate FlushStep(a: Lists, b: Lists, p: int)
    requires a.Ok()
  {
    if p in a.deferred then
      FlushedTo(a, b, p) && Replaced(a, b, p) && (SameAll(a, b) <==> InOrderToMerge(a.deferred[p].batch))
    else b == a
  }

  lemma FirstFlush(a: Lists, b: Lists, nk: int, p: int)
    requires a.Ok() && nk in a.nks && p in a.nks && nk != p && a.Children(nk) == [] && FlushStep(a, b, nk)
    ensures SameAll(a, b) && p in b.nks && b.Of(p) == a.Of(p) && FlushedList(b, p) == FlushedList(a, p)
    ensures b.deferred == a.deferred - {nk} && b.names == a.names
  {
    if nk in a.deferred {
      ChildlessInOrder(a, nk);
      SameFlushed(a, b, nk, p);
    }
  }

  lemma SecondFlush(b: Lists, c: Lists, p: int)
    requires b.Ok() && p in b.nks && FlushStep(b, c, p)
    ensures c.deferred == b.deferred - {p} && c.names == b.names && c.nks.Keys == b.nks.Keys
    ensures Listed(c.cells, c.nks[p].listRef) && Entries(c.cells, c.nks[p].listRef) == FlushedList(b, p)
    ensures SameAll(b, c) <==> (p in b.deferred ==> InOrderToMerge(b.deferred[p].batch))
  {
    assert b.OneOk(p);
  }

  /** A key's flush and then its parent's. */
  ghost predicate FlushedBoth(a: Lists, c: Lists, nk: int, p: int)
    requires a.Ok() && p in a.nks
  {
    && c.deferred == a.deferred - {nk, p} && c.names == a.names && c.nks.Keys == a.nks.Keys
    && Listed(c.cells, c.nks[p].listRef) && Entries(c.cells, c.nks[p].listRef) == FlushedList(a, p)
    && (SameAll(a, c) <==> (p in a.deferred ==> InOrderToMerge(a.deferred[p].batch)))
  }

  lemma BothFlushed(a: Lists, b: Lists, c: Lists, nk: int, p: int)
    requires a.Ok() && b.Ok() && nk in a.nks && p in a.nks && nk != p && a.Children(nk) == []
    requires FlushStep(a, b, nk) && FlushStep(b, c, p)
    ensures FlushedBoth(a, c, nk, p)
  {
    FirstFlush(a, b, nk, p);
    SecondFlush(b, c, p);
    SameAllVia(a, b, c);
    BothOf(a, b, c, nk, p);
  }

  lemma SameAllVia(a: Lists, b: Lists, c: Lists)
    requires SameAll(a, b)
    ensures SameAll(b, c) <==> SameAll(a, c)
  {
  }

  lemma BothOf(a: Lists, b: Lists, c: Lists, nk: int, p: int)
    requires a.Ok() && b.Ok() && p in a.nks && p in b.nks && nk != p
    requires b.nks.Keys == a.nks.Keys && b.Of(p) == a.Of(p) && FlushedList(b, p) == FlushedList(a, p)
    requires b.deferred == a.deferred - {nk} && b.names == a.names
    requires c.deferred == b.deferred - {p} && c.names == b.names && c.nks.Keys == b.nks.Keys
    requires Listed(c.cells, c.nks[p].listRef) && Entries(c.cells, c.nks[p].listRef) == FlushedList(b, p)
    requires SameAll(a, c) <==> (p in b.deferred ==> InOrderToMerge(b.deferred[p].batch))
    ensures FlushedBoth(a, c, nk, p)
  {
    assert a.deferred - {nk} - {p} == a.deferred - {nk, p};
  }

  /** A key is taken from its parent, and nothing else changes. */
  ghost predicate TakenFrom(a: Lists, d: Lists, p: int, nk: int)
    requires a.Ok() && p in a.nks
  {
    && d.Ok() && d.nks.Keys == a.nks.Keys - {nk} && p in d.nks && d.Children(p) == KeptEntries(a.Children(p), {nk})
    && forall q :: q in d.nks && q != p ==> d.Children(q) == a.Children(q)
  }

  lemma DetachedAfter(a: Lists, c: Lists, d: Lists, p: int, nk: int)
    requires a.Ok() && p in a.nks && nk in a.nks && p != nk && a.Children(nk) == [] && OnlyBelow(a, p, nk)
    requires FlushedBoth(a, c, nk, p) && Detached(c, d, p, nk)
    ensures d.deferred == (a.deferred - {nk})[p := Pending(CutOff(nk), INVALID)] && d.names == a.names - {nk}
    ensures d.nks.Keys == a.nks.Keys - {nk} && p in d.nks
    ensures Listed(d.cells, d.nks[p].listRef) && Entries(d.cells, d.nks[p].listRef) == FlushedList(a, p)
    ensures (p in a.deferred ==> InOrderToMerge(a.deferred[p].batch)) ==> TakenFrom(a, d, p, nk)
  {
    assert (a.deferred - {nk, p})[p := Pending(CutOff(nk), INVALID)] ==
      (a.deferred - {nk})[p := Pending(CutOff(nk), INVALID)];
    if SameAll(a, c) {
      forall q | q in c.nks && q != p ensures nk !in EntryRefs(c.Children(q)) {
        assert c.Children(q) == a.Children(q);
      }
      DetachedOk(c, d, p, nk);
    }
  }
}
