/** Parents and their pending children over list cells: what each holds, what its children are, and that a change of one
    leaves the others alone (hive/edit/nkedit.go). */
module DeferredLists {
  import opened SubkeyList
  import opened LazyMerge
  import opened HiveCells
  import opened PendingLists
  import opened Registry

  /** The fields of a parent's NK cell that subkey insertion writes. */
  datatype Parent = Parent(count: nat, listRef: int)

  /** What is pending for a parent, and the list it replaces. */
  datatype Pending = Pending(batch: Batch, oldListRef: int)

  function BatchOf(d: Option<Pending>): Option<Batch> {
    if d.Some? then Some(d.value.batch) else None
  }

  /** Whether the list on disk still tells the parent's children. */
  predicate Reads(d: Option<Pending>) {
    d.None? || !d.value.batch.loaded
  }

  /** The list a parent still holds. */
  function Head(nk: Parent, d: Option<Pending>): int {
    if Reads(d) then nk.listRef else d.value.oldListRef
  }

  ghost function DiskList(cells: Cells, nk: Parent, d: Option<Pending>): seq<int>
    requires Listed(cells, Head(nk, d))
  {
    if Reads(d) then Entries(cells, nk.listRef) else []
  }

  ghost predicate ParentOk(names: Names, cells: Cells, nk: Parent, d: Option<Pending>) {
    && INVALID !in cells && Listed(cells, Head(nk, d))
    && (Reads(d) ==> nk.count == |Entries(cells, nk.listRef)| && (nk.count == 0 <==> nk.listRef == INVALID))
    && (d.Some? && Reads(d) ==> d.value.oldListRef == INVALID)
    && BatchOk(names, DiskList(cells, nk, d), BatchOf(d))
  }

  /** The children of a parent, in order: on disk, or as the pending changes leave them. */
  ghost function ChildrenOf(names: Names, cells: Cells, nk: Parent, d: Option<Pending>): seq<Entry>
    requires ParentOk(names, cells, nk, d)
  {
    Content(names, DiskList(cells, nk, d), BatchOf(d))
  }

  /** The list cells a parent still holds. */
  ghost function Holds(cells: Cells, nk: Parent, d: Option<Pending>): set<int> {
    Owned(cells, Head(nk, d))
  }

  /** The cells of its children that a parent needs the names of. */
  ghost function NeededBy(cells: Cells, nk: Parent, d: Option<Pending>): seq<int>
    requires Listed(cells, Head(nk, d))
  {
    Needs(DiskList(cells, nk, d), BatchOf(d))
  }

  /** A parent depends on the names of its children and on the cells it holds. */
  lemma ParentFrame(names: Names, cells: Cells, names': Names, cells': Cells, nk: Parent, d: Option<Pending>)
    requires ParentOk(names, cells, nk, d) && SameOn(names, names', NeededBy(cells, nk, d))
    requires INVALID !in cells' && Agree(cells, cells', Holds(cells, nk, d))
    ensures ParentOk(names', cells', nk, d)
    ensures ChildrenOf(names', cells', nk, d) == ChildrenOf(names, cells, nk, d)
    ensures Holds(cells', nk, d) == Holds(cells, nk, d)
  {
    ListFrame(cells, cells', Head(nk, d));
    ContentFrame(names, names', DiskList(cells, nk, d), BatchOf(d));
  }

  // ----- All parents -----

  /** The editor's state; `owner` names the parent each list cell belongs to. */
  datatype Lists = Lists(names: Names, cells: Cells, nks: map<int, Parent>, deferred: map<int, Pending>,
                         owner: map<int, int>)
  {
    function Of(p: int): Option<Pending> {
      if p in deferred then Some(deferred[p]) else None
    }

    ghost predicate OneOk(p: int) {
      p in nks ==>
        && ParentOk(names, cells, nks[p], Of(p))
        && forall r :: r in Holds(cells, nks[p], Of(p)) <==> r in owner && owner[r] == p
    }

    /** Every parent is sound, and every list cell belongs to exactly one parent: none is lost, none is shared. */
    ghost predicate Ok() {
      && INVALID !in cells && deferred.Keys <= nks.Keys
      && owner.Keys == cells.Keys && (forall r :: r in owner ==> owner[r] in nks)
      && forall p {:trigger OneOk(p)} :: OneOk(p)
    }

    /** The list of `p` that the pending changes start from. */
    ghost function ListOf(p: int): seq<int>
      requires Ok() && p in nks
    {
      assert OneOk(p);
      DiskList(cells, nks[p], Of(p))
    }

    /** The children of `p` in order. */
    ghost function Children(p: int): seq<Entry>
      requires Ok() && p in nks
    {
      assert OneOk(p);
      ChildrenOf(names, cells, nks[p], Of(p))
    }

    ghost function All(): (r: map<int, seq<Entry>>)
      requires Ok()
      ensures r.Keys == nks.Keys && forall p :: p in nks ==> r[p] == Children(p)
    {
      map p | p in nks :: Children(p)
    }
  }

  ghost function Reowned(cells: Cells, owner: map<int, int>, holds: set<int>, p: int): map<int, int> {
    map r | r in cells :: if r in holds || r !in owner then p else owner[r]
  }

  /** Parent `p` gives up the cells it held and holds others; everything else stays. */
  ghost predicate Replaced(a: Lists, b: Lists, p: int) {
    && p in a.nks && p in b.nks && b.nks == a.nks[p := b.nks[p]]
    && (forall q :: q != p ==> b.Of(q) == a.Of(q)) && b.deferred.Keys <= b.nks.Keys
    && b.names == a.names && INVALID !in b.cells
    && var held, holds := Holds(a.cells, a.nks[p], a.Of(p)), Holds(b.cells, b.nks[p], b.Of(p));
       && b.cells.Keys == (a.cells.Keys - held) + holds && holds !! (a.cells.Keys - held)
       && Agree(a.cells, b.cells, a.cells.Keys - held)
       && b.owner == Reowned(b.cells, a.owner, holds, p)
  }

  ghost predicate SameChildren(a: Lists, b: Lists, q: int)
    requires q in a.nks && q in b.nks
  {
    && a.OneOk(q) && b.OneOk(q)
    && ChildrenOf(b.names, b.cells, b.nks[q], b.Of(q)) == ChildrenOf(a.names, a.cells, a.nks[q], a.Of(q))
  }

  lemma SameNames(names: Names, refs: seq<int>)
    ensures SameOn(names, names, refs)
  {
  }

  /** The other parents are as before. */
  lemma ReplacedOther(a: Lists, b: Lists, p: int, q: int)
    requires a.Ok() && Replaced(a, b, p) && q != p
    ensures b.OneOk(q)
    ensures q in a.nks ==> SameChildren(a, b, q)
  {
    assert a.OneOk(q) && a.OneOk(p);
    if q in a.nks {
      assert a.Of(q) == b.Of(q) && a.nks[q] == b.nks[q];
      forall r | r in Holds(a.cells, a.nks[q], a.Of(q)) ensures r in a.cells.Keys - Holds(a.cells, a.nks[p], a.Of(p)) {
        assert r in a.owner && a.owner[r] == q;
      }
      SameNames(a.names, NeededBy(a.cells, a.nks[q], a.Of(q)));
      ParentFrame(a.names, a.cells, b.names, b.cells, a.nks[q], a.Of(q));
    }
  }

  lemma ReplacedOne(a: Lists, b: Lists, p: int)
    requires a.Ok() && Replaced(a, b, p) && ParentOk(b.names, b.cells, b.nks[p], b.Of(p))
    ensures b.OneOk(p)
  {
    assert a.OneOk(p);
  }

  lemma ReplacedOk(a: Lists, b: Lists, p: int)
    requires a.Ok() && Replaced(a, b, p) && ParentOk(b.names, b.cells, b.nks[p], b.Of(p))
    ensures b.Ok()
    ensures forall q :: q in a.nks && q != p ==> b.Children(q) == a.Children(q)
  {
    assert a.OneOk(p);
    forall q ensures b.OneOk(q) {
      if q == p { ReplacedOne(a, b, p); } else { ReplacedOther(a, b, p, q); }
    }
    forall q | q in a.nks && q != p ensures b.Children(q) == a.Children(q) {
      ReplacedOther(a, b, p, q);
    }
  }

  // ----- Any order of new children -----

  /** New children in order of name, in whatever order of equal names, are the same children. */
  lemma AnyOrder(names: Names, b: Batch, sorted: seq<Entry>)
    requires b.loaded && BatchOk(names, [], Some(b)) && Ordered(sorted) && multiset(sorted) == multiset(b.children)
    ensures var c := b.(children := sorted);
      && BatchOk(names, [], Some(c)) && Content(names, [], Some(c)) == Content(names, [], Some(b))
      && (b.raw != [] ==> Sorted(sorted))
  {
    var es, kept, kept' := Named(names, b.raw), KeptEntries(b.children, b.deleted), KeptEntries(sorted, b.deleted);
    SameKept(sorted, b.children, b.deleted);
    SameEntries(names, es, kept, kept');
    if b.raw != [] {
      AllKept(sorted);
      AllKept(b.children);
      SortedPending(es, b.children, sorted);
    }
  }

  lemma SameEntries(names: Names, es: seq<Entry>, kept: seq<Entry>, kept': seq<Entry>)
    requires Sorted(es) && NamesRight(names, kept) && NewNames(es, kept) && multiset(kept') == multiset(kept)
    ensures NamesRight(names, kept') && NewNames(es, kept') && InsertedAll(es, kept') == InsertedAll(es, kept)
  {
    forall i | 0 <= i < |kept'| ensures kept'[i].ref in names && names[kept'[i].ref] == kept'[i].name {
      assert kept'[i] in multiset(kept);
    }
    NamesOfSame(es, kept, kept');
    InsertedAllSorted(es, kept);
    InsertedAllSorted(es, kept');
    SortedUnique(InsertedAll(es, kept), InsertedAll(es, kept'));
  }

  /** Sorted new children are inserted one by one. */
  lemma PendingSorted(children: seq<Entry>, sorted: seq<Entry>)
    requires NewNames([], children) && Ordered(sorted) && multiset(sorted) == multiset(children)
    ensures sorted == InsertedAll([], children)
  {
    NamesOfSame([], children, sorted);
    DistinctOrderedSorted(sorted);
    InsertedAllSorted([], children);
    SortedUnique(sorted, InsertedAll([], children));
  }

  lemma {:induction false} NamedKept(names: Names, refs: seq<int>, deleted: set<int>)
    requires Decodable(names, refs)
    ensures Decodable(names, KeptRefs(refs, deleted))
    ensures Named(names, KeptRefs(refs, deleted)) == KeptEntries(Named(names, refs), deleted)
  {
    if refs != [] {
      var before, last := refs[..|refs| - 1], refs[|refs| - 1];
      NamedKept(names, before, deleted);
      assert Named(names, refs) == Named(names, before) + [Entry(names[last], last)];
      KeptOneMore(Named(names, before), deleted, Entry(names[last], last));
    }
  }
}
