/** What is pending for one parent in deferred mode: new children, deleted ones, and how a flush puts them into its list
    (insertDeferredChild, removeDeferredChild and flushDeferredParent in hive/edit/nkedit.go). A list is the sequence of
    its children's cells; the names of cells in use are given. */
module PendingLists {
  import opened Lex
  import opened SubkeyList
  import opened LazyMerge
  import opened Registry

  /** The new children, the raw entries they are merged with, the deleted children, and whether the list was read. */
  datatype Batch = Batch(children: seq<Entry>, raw: seq<int>, deleted: set<int>, loaded: bool)

  function KeptRefs(refs: seq<int>, deleted: set<int>): seq<int> {
    if refs == [] then []
    else
      var rest, last := KeptRefs(refs[..|refs| - 1], deleted), refs[|refs| - 1];
      if last in deleted then rest else rest + [last]
  }

  function KeptEntries(es: seq<Entry>, deleted: set<int>): seq<Entry> {
    if es == [] then []
    else
      var rest, last := KeptEntries(es[..|es| - 1], deleted), es[|es| - 1];
      if last.ref in deleted then rest else rest + [last]
  }

  /** The entries of a list whose cells can be read. */
  function Readable(names: Names, refs: seq<int>): seq<Entry> {
    if refs == [] then []
    else
      var rest, last := Readable(names, refs[..|refs| - 1]), refs[|refs| - 1];
      if last in names then rest + [Entry(names[last], last)] else rest
  }

  /** One more new child: the list is read with the first, raw if nothing was deleted from it. */
  function WithChild(names: Names, list: seq<int>, d: Option<Batch>, e: Entry): Batch {
    match d
    case None => Batch([e], list, {}, true)
    case Some(b) =>
      var children := if b.loaded then b.children else Readable(names, list);
      b.(children := children + [e], loaded := true)
  }

  /** A deleted child of a parent with nothing else pending. */
  function CutOff(ref: int): Batch {
    Batch([], [], {ref}, false)
  }

  /** The list a flush writes, with the new children in the order they came. */
  function Flushed(names: Names, list: seq<int>, b: Batch): seq<int>
    requires Decodable(names, b.raw)
  {
    if !b.loaded then KeptRefs(list, b.deleted)
    else if b.raw != [] && b.deleted == {} then Merged(names, b.raw, b.children)
    else EntryRefs(InsertedAll([], KeptEntries(b.children, b.deleted)))
  }

  /** The same, once the new children are sorted. */
  function InOrder(b: Batch): Batch {
    b.(children := InsertedAll([], b.children))
  }

  /** The cells of the children on disk have names. */
  predicate Legible(names: Names, list: seq<int>, d: Option<Batch>) {
    match d
    case None => Decodable(names, list)
    case Some(b) => if b.loaded then Decodable(names, b.raw) else Decodable(names, KeptRefs(list, b.deleted))
  }

  /** The children a parent is to have: those on disk, less the deleted ones, or with the new ones inserted. */
  ghost function Content(names: Names, list: seq<int>, d: Option<Batch>): seq<Entry>
    requires Legible(names, list, d)
  {
    match d
    case None => Named(names, list)
    case Some(b) =>
      if !b.loaded then Named(names, KeptRefs(list, b.deleted))
      else InsertedAll(Named(names, b.raw), KeptEntries(b.children, b.deleted))
  }

  /** What is left of the list is in order, and the new names are new. */
  ghost predicate BatchOk(names: Names, list: seq<int>, d: Option<Batch>) {
    match d
    case None => Decodable(names, list) && Sorted(Named(names, list))
    case Some(b) =>
      if !b.loaded then
        && b.children == [] && b.raw == []
        && Decodable(names, KeptRefs(list, b.deleted)) && Sorted(Named(names, KeptRefs(list, b.deleted)))
      else
        var kept := KeptEntries(b.children, b.deleted);
        && Decodable(names, b.raw) && Sorted(Named(names, b.raw))
        && NamesRight(names, kept) && NewNames(Named(names, b.raw), kept)
        && (b.raw != [] ==> b.deleted == {})
  }

  /** The cells whose names a parent's children depend on. */
  function Needs(list: seq<int>, d: Option<Batch>): seq<int> {
    match d
    case None => list
    case Some(b) =>
      if !b.loaded then KeptRefs(list, b.deleted)
      else b.raw + EntryRefs(KeptEntries(b.children, b.deleted))
  }

  ghost predicate SameOn(a: Names, b: Names, refs: seq<int>) {
    forall i :: 0 <= i < |refs| && refs[i] in a ==> refs[i] in b && b[refs[i]] == a[refs[i]]
  }

  lemma NamedSame(a: Names, b: Names, refs: seq<int>)
    requires Decodable(a, refs) && SameOn(a, b, refs)
    ensures Decodable(b, refs) && Named(b, refs) == Named(a, refs)
  {
  }

  /** A parent's children depend on no other names. */
  lemma ContentFrame(a: Names, b: Names, list: seq<int>, d: Option<Batch>)
    requires BatchOk(a, list, d) && SameOn(a, b, Needs(list, d))
    ensures BatchOk(b, list, d) && Content(b, list, d) == Content(a, list, d)
  {
    match d {
      case None => NamedSame(a, b, list);
      case Some(p) =>
        if !p.loaded {
          NamedSame(a, b, KeptRefs(list, p.deleted));
        } else {
          var refs, kept := EntryRefs(KeptEntries(p.children, p.deleted)), KeptEntries(p.children, p.deleted);
          assert forall i :: 0 <= i < |p.raw| ==> Needs(list, d)[i] == p.raw[i];
          NamedSame(a, b, p.raw);
          forall i | 0 <= i < |kept| ensures kept[i].ref in b && b[kept[i].ref] == kept[i].name {
            assert Needs(list, d)[|p.raw| + i] == refs[i];
          }
        }
    }
  }

  // ----- Filters -----

  lemma {:induction false} KeptRefsAre(refs: seq<int>, deleted: set<int>)
    ensures forall r :: r in KeptRefs(refs, deleted) <==> r in refs && r !in deleted
  {
    if refs != [] {
      KeptRefsAre(refs[..|refs| - 1], deleted);
      assert refs == refs[..|refs| - 1] + [refs[|refs| - 1]];
    }
  }

  lemma {:induction false} KeptEntriesAre(es: seq<Entry>, deleted: set<int>)
    ensures forall e :: e in KeptEntries(es, deleted) <==> e in es && e.ref !in deleted
  {
    if es != [] {
      KeptEntriesAre(es[..|es| - 1], deleted);
      assert es == es[..|es| - 1] + [es[|es| - 1]];
    }
  }

  lemma KeptOneMore(es: seq<Entry>, deleted: set<int>, e: Entry)
    ensures KeptEntries(es + [e], deleted)
         == if e.ref in deleted then KeptEntries(es, deleted) else KeptEntries(es, deleted) + [e]
  {
    assert (es + [e])[..|es|] == es;
  }

  lemma {:induction false} AllKept(es: seq<Entry>)
    ensures KeptEntries(es, {}) == es
  {
    if es != [] {
      AllKept(es[..|es| - 1]);
      assert es == es[..|es| - 1] + [es[|es| - 1]];
    }
  }

  /** Reading a list, deleted cells or not, finds the children that are left. */
  lemma {:induction false} ReadableKept(names: Names, refs: seq<int>, deleted: set<int>)
    requires Decodable(names, KeptRefs(refs, deleted))
    ensures KeptEntries(Readable(names, refs), deleted) == Named(names, KeptRefs(refs, deleted))
  {
    if refs != [] {
      var before, last := refs[..|refs| - 1], refs[|refs| - 1];
      assert KeptRefs(refs, deleted)[..|KeptRefs(before, deleted)|] == KeptRefs(before, deleted);
      assert Decodable(names, KeptRefs(before, deleted)) by {
        forall i | 0 <= i < |KeptRefs(before, deleted)| ensures KeptRefs(before, deleted)[i] in names {
          assert KeptRefs(before, deleted)[i] == KeptRefs(refs, deleted)[i];
        }
      }
      ReadableKept(names, before, deleted);
      if last in names {
        KeptOneMore(Readable(names, before), deleted, Entry(names[last], last));
      }
      if last !in deleted {
        assert KeptRefs(refs, deleted)[|KeptRefs(before, deleted)|] == last;
      }
    }
  }

  lemma KeptNamed(names: Names, refs: seq<int>, deleted: set<int>)
    requires Decodable(names, refs)
    ensures Decodable(names, KeptRefs(refs, deleted))
    ensures forall e :: e in Named(names, KeptRefs(refs, deleted)) <==> e in Named(names, refs) && e.ref !in deleted
  {
    KeptRefsAre(refs, deleted);
    var kept := KeptRefs(refs, deleted);
    forall i | 0 <= i < |kept| ensures kept[i] in names {
      assert kept[i] in kept;
    }
    NamedHas(names, refs);
    NamedHas(names, kept);
  }

  lemma SortedAppend(es: seq<Entry>, e: Entry)
    requires Sorted(es) && forall x :: x in es ==> Less(x.name, e.name)
    ensures Sorted(es + [e])
  {
  }

  lemma BeforeLast(es: seq<Entry>)
    requires Sorted(es) && es != []
    ensures Sorted(es[..|es| - 1]) && forall x :: x in es[..|es| - 1] ==> Less(x.name, es[|es| - 1].name)
  {
  }

  /** A part of a sorted list is sorted. */
  lemma {:induction false} KeptStaySorted(names: Names, refs: seq<int>, deleted: set<int>)
    requires Decodable(names, refs) && Sorted(Named(names, refs))
    ensures Decodable(names, KeptRefs(refs, deleted)) && Sorted(Named(names, KeptRefs(refs, deleted)))
  {
    KeptNamed(names, refs, deleted);
    if refs != [] {
      var before, last := refs[..|refs| - 1], refs[|refs| - 1];
      assert Named(names, before) == Named(names, refs)[..|refs| - 1];
      BeforeLast(Named(names, refs));
      KeptStaySorted(names, before, deleted);
      if last !in deleted {
        KeptNamed(names, before, deleted);
        SortedAppend(Named(names, KeptRefs(before, deleted)), Entry(names[last], last));
        assert Named(names, KeptRefs(refs, deleted))
            == Named(names, KeptRefs(before, deleted)) + [Entry(names[last], last)];
      }
    }
  }

  lemma NamedHas(names: Names, refs: seq<int>)
    requires Decodable(names, refs)
    ensures forall e :: e in Named(names, refs) <==> e.ref in refs && e.ref in names && e.name == names[e.ref]
  {
    forall e: Entry | e.ref in refs && e.ref in names && e.name == names[e.ref] ensures e in Named(names, refs) {
      var i :| 0 <= i < |refs| && refs[i] == e.ref;
      assert Named(names, refs)[i] == e;
    }
  }

  /** A sorted list is its own insertion one by one. */
  lemma SortedIsInserted(es: seq<Entry>)
    requires Sorted(es)
    ensures InsertedAll([], es) == es
  {
    DistinctNames(es);
    InsertedAllSorted([], es);
    SortedUnique(InsertedAll([], es), es);
  }

  lemma DistinctNames(es: seq<Entry>)
    requires Sorted(es)
    ensures NewNames([], es)
  {
    forall i, j | 0 <= i < j < |es| ensures es[i].name != es[j].name {
      if es[i].name == es[j].name {
        Irreflexive(es[i].name);
      }
    }
  }

  // ----- One more child -----

  lemma NotNamed(es: seq<Entry>, all: seq<Entry>, n: string)
    requires multiset(es) <= multiset(all) && !HasName(all, n)
    ensures !HasName(es, n)
  {
    forall i | 0 <= i < |es| ensures es[i].name != n {
      assert es[i] in multiset(es);
      var j :| 0 <= j < |all| && all[j] == es[i];
      assert all[j].name != n;
    }
  }

  lemma HasNameIn(es: seq<Entry>, added: seq<Entry>, n: string)
    requires Sorted(es) && NewNames(es, added) && !HasName(InsertedAll(es, added), n)
    ensures !HasName(es, n) && !HasName(added, n)
  {
    InsertedAllSorted(es, added);
    NotNamed(es, InsertedAll(es, added), n);
    NotNamed(added, InsertedAll(es, added), n);
  }

  lemma InsertedOneMore(es: seq<Entry>, added: seq<Entry>, e: Entry)
    ensures InsertedAll(es, added + [e]) == Inserted(InsertedAll(es, added), e)
  {
    assert (added + [e])[..|added|] == added;
  }

  /** The batch of a parent once its list is read for a new child. */
  function Opened(names: Names, list: seq<int>, d: Option<Batch>): Batch {
    match d
    case None => Batch([], list, {}, true)
    case Some(b) => if b.loaded then b else b.(children := Readable(names, list), loaded := true)
  }

  /** Reading the list changes no children. */
  lemma OpenedOk(names: Names, list: seq<int>, d: Option<Batch>)
    requires BatchOk(names, list, d)
    ensures var b := Opened(names, list, d);
      b.loaded && BatchOk(names, list, Some(b)) && Content(names, list, Some(b)) == Content(names, list, d)
    ensures Opened(names, list, d).deleted == if d.Some? then d.value.deleted else {}
  {
    if d.Some? && !d.value.loaded {
      var b := d.value;
      var es := Named(names, KeptRefs(list, b.deleted));
      ReadableKept(names, list, b.deleted);
      DistinctNames(es);
      SortedIsInserted(es);
      assert Named(names, b.raw) == [];
    }
  }

  /** One more child of a parent whose list is read. */
  lemma OpenedWithChild(names: Names, list: seq<int>, o: Batch, e: Entry)
    requires o.loaded && BatchOk(names, list, Some(o)) && e.ref in names && names[e.ref] == e.name
    requires !HasName(Content(names, list, Some(o)), e.name)
    ensures var b := o.(children := o.children + [e]); var es := Content(names, list, Some(o));
      && BatchOk(names, list, Some(b))
      && Content(names, list, Some(b)) == if e.ref in o.deleted then es else Inserted(es, e)
  {
    var es, kept := Named(names, o.raw), KeptEntries(o.children, o.deleted);
    KeptOneMore(o.children, o.deleted, e);
    HasNameIn(es, kept, e.name);
    InsertedOneMore(es, kept, e);
    if e.ref !in o.deleted {
      NewNamesMore(es, kept, e);
      NamesRightMore(names, kept, e);
    }
  }

  lemma NamesRightMore(names: Names, added: seq<Entry>, e: Entry)
    requires NamesRight(names, added) && e.ref in names && names[e.ref] == e.name
    ensures NamesRight(names, added + [e])
  {
  }

  lemma NewNamesMore(es: seq<Entry>, added: seq<Entry>, e: Entry)
    requires NewNames(es, added) && !HasName(es, e.name) && !HasName(added, e.name)
    ensures NewNames(es, added + [e])
  {
  }

  /** A new child is inserted, unless its cell is that of a deleted child: then it is not among the children. */
  lemma WithChildOk(names: Names, list: seq<int>, d: Option<Batch>, e: Entry)
    requires BatchOk(names, list, d) && e.ref in names && names[e.ref] == e.name
    requires !HasName(Content(names, list, d), e.name)
    ensures var b := WithChild(names, list, d, e); var es := Content(names, list, d);
      && BatchOk(names, list, Some(b)) && b.loaded && b.deleted == (if d.Some? then d.value.deleted else {})
      && Content(names, list, Some(b)) == if e.ref in b.deleted then es else Inserted(es, e)
  {
    var o := Opened(names, list, d);
    OpenedOk(names, list, d);
    assert WithChild(names, list, d, e) == o.(children := o.children + [e]);
    OpenedWithChild(names, list, o, e);
  }

  // ----- Flushing -----

  lemma EntryRefsNamed(names: Names, es: seq<Entry>)
    requires NamesRight(names, es)
    ensures Decodable(names, EntryRefs(es)) && Named(names, EntryRefs(es)) == es
  {
  }

  lemma {:induction false} InsertedRight(names: Names, es: seq<Entry>, added: seq<Entry>)
    requires NamesRight(names, es) && NamesRight(names, added) && Sorted(es) && NewNames(es, added)
    ensures NamesRight(names, InsertedAll(es, added))
  {
    InsertedAllSorted(es, added);
    var all := InsertedAll(es, added);
    forall i | 0 <= i < |all| ensures all[i].ref in names && names[all[i].ref] == all[i].name {
      assert all[i] in multiset(all);
      if all[i] in multiset(es) {
        var k :| 0 <= k < |es| && es[k] == all[i];
      } else {
        var k :| 0 <= k < |added| && added[k] == all[i];
      }
    }
  }

  /** Where new children are merged with raw ones, a flush writes the children the parent is to have exactly when the
      new ones came in order; everywhere else it always does. */
  lemma FlushedIff(names: Names, list: seq<int>, b: Batch)
    requires BatchOk(names, list, Some(b))
    ensures Decodable(names, Flushed(names, list, b))
         && Named(names, Flushed(names, list, b)) == Content(names, list, Some(b))
      <==> (b.loaded && b.raw != [] ==> Sorted(b.children))
  {
    if b.loaded {
      AllKept(b.children);
      if b.raw != [] {
        MergeInsertsIff(names, b.raw, b.children);
      } else {
        var kept := KeptEntries(b.children, b.deleted);
        assert Named(names, b.raw) == [];
        InsertedRight(names, [], kept);
        EntryRefsNamed(names, InsertedAll([], kept));
      }
    }
  }

  /** What a flush of children in any order keeps: every raw child, and of the new ones those before the first that goes
      before an old child which an earlier new one goes behind. */
  lemma FlushKeeps(names: Names, list: seq<int>, b: Batch)
    requires BatchOk(names, list, Some(b)) && b.loaded && b.raw != []
    ensures var es := Named(names, b.raw); var n := KeptCount(es, b.children);
      && multiset(Flushed(names, list, b)) == multiset(b.raw) + multiset(EntryRefs(b.children[..n]))
      && (forall i :: KeptIff(es, b.children, i))
      && (n == |b.children| <==> NeverBack(es, b.children))
  {
    var es := Named(names, b.raw);
    MergeKeeps(names, b.raw, b.children);
    RisingIff(es, b.children);
    AllAcceptedIff(0, Places(es, b.children));
  }

  /** Sorted first, as the flush of all parents does, nothing is ever lost. */
  lemma InOrderFlushed(names: Names, list: seq<int>, b: Batch)
    requires BatchOk(names, list, Some(b))
    ensures BatchOk(names, list, Some(InOrder(b)))
    ensures var refs := Flushed(names, list, InOrder(b));
      Decodable(names, refs) && Named(names, refs) == Content(names, list, Some(b))
  {
    var s := InOrder(b);
    if b.loaded {
      if b.raw != [] {
        AllKept(b.children);
        AllKept(s.children);
        SortedFirst(names, b.raw, b.children);
      } else {
        KeptSorted(names, b.children, b.deleted);
      }
    }
    FlushedIff(names, list, s);
  }

  /** New children in order are the same children. */
  lemma SortedFirst(names: Names, raw: seq<int>, children: seq<Entry>)
    requires Decodable(names, raw) && Sorted(Named(names, raw))
    requires NamesRight(names, children) && NewNames(Named(names, raw), children)
    ensures var s := InsertedAll([], children); var es := Named(names, raw);
      && Sorted(s) && NamesRight(names, s) && NewNames(es, s) && InsertedAll(es, s) == InsertedAll(es, children)
  {
    var s, es := InsertedAll([], children), Named(names, raw);
    InsertedAllSorted([], children);
    InsertedRight(names, [], children);
    DistinctNames(s);
    forall i | 0 <= i < |s| ensures !HasName(es, s[i].name) {
      assert s[i] in multiset(s);
      var k :| 0 <= k < |children| && children[k] == s[i];
    }
    InsertedAllSorted(es, s);
    InsertedAllSorted(es, children);
    SortedUnique(InsertedAll(es, s), InsertedAll(es, children));
  }

  /** A filter of the same entries keeps the same entries. */
  lemma {:induction false} SameKept(a: seq<Entry>, b: seq<Entry>, deleted: set<int>)
    requires multiset(a) == multiset(b)
    ensures multiset(KeptEntries(a, deleted)) == multiset(KeptEntries(b, deleted))
  {
    forall e ensures multiset(KeptEntries(a, deleted))[e] == multiset(KeptEntries(b, deleted))[e] {
      KeptTimes(a, deleted, e);
      KeptTimes(b, deleted, e);
    }
  }

  lemma {:induction false} KeptTimes(es: seq<Entry>, deleted: set<int>, e: Entry)
    ensures multiset(KeptEntries(es, deleted))[e] == if e.ref in deleted then 0 else multiset(es)[e]
  {
    if es != [] {
      KeptTimes(es[..|es| - 1], deleted, e);
      assert es == es[..|es| - 1] + [es[|es| - 1]];
    }
  }

  lemma {:induction false} InsertedAllMembers(es: seq<Entry>, added: seq<Entry>)
    ensures multiset(InsertedAll(es, added)) == multiset(es) + multiset(added)
  {
    if added != [] {
      var before, e := added[..|added| - 1], added[|added| - 1];
      InsertedAllMembers(es, before);
      InsertedMembers(InsertedAll(es, before), e);
      assert added == before + [e];
    }
  }

  /** Sorting before the filter or after it comes to the same. */
  lemma KeptSorted(names: Names, children: seq<Entry>, deleted: set<int>)
    requires NamesRight(names, KeptEntries(children, deleted)) && NewNames([], KeptEntries(children, deleted))
    ensures var kept := KeptEntries(InsertedAll([], children), deleted);
      && NamesRight(names, kept) && NewNames([], kept)
      && InsertedAll([], kept) == InsertedAll([], KeptEntries(children, deleted))
  {
    var was, kept := KeptEntries(children, deleted), KeptEntries(InsertedAll([], children), deleted);
    InsertedAllMembers([], children);
    SameKept(InsertedAll([], children), children, deleted);
    forall i | 0 <= i < |kept| ensures kept[i].ref in names && names[kept[i].ref] == kept[i].name {
      assert kept[i] in multiset(kept);
    }
    NamesOfSame([], was, kept);
    InsertedAllSorted([], was);
    InsertedAllSorted([], kept);
    SortedUnique(InsertedAll([], was), InsertedAll([], kept));
  }

  /** A sorted order of new children does not change what they come to. */
  lemma SortedPending(es: seq<Entry>, children: seq<Entry>, sorted: seq<Entry>)
    requires Sorted(es) && NewNames(es, children) && Ordered(sorted) && multiset(sorted) == multiset(children)
    ensures Sorted(sorted) && NewNames(es, sorted) && InsertedAll(es, sorted) == InsertedAll(es, children)
  {
    NamesOfSame(es, children, sorted);
    DistinctOrderedSorted(sorted);
    InsertedAllSorted(es, sorted);
    InsertedAllSorted(es, children);
    SortedUnique(InsertedAll(es, sorted), InsertedAll(es, children));
  }

  lemma NamesOfSame(es: seq<Entry>, children: seq<Entry>, sorted: seq<Entry>)
    requires NewNames(es, children) && multiset(sorted) == multiset(children)
    ensures NewNames(es, sorted)
  {
    forall i | 0 <= i < |sorted| ensures !HasName(es, sorted[i].name) {
      assert sorted[i] in multiset(children);
    }
    forall i, j | 0 <= i < j < |sorted| ensures sorted[i].name != sorted[j].name {
      TwoOf(children, sorted, i, j);
    }
  }

  lemma {:induction false} CountOnce(es: seq<Entry>, x: Entry)
    requires forall k, l :: 0 <= k < l < |es| ==> es[k].name != es[l].name
    ensures multiset(es)[x] <= 1
  {
    if es != [] {
      var before, last := es[..|es| - 1], es[|es| - 1];
      assert es == before + [last];
      CountOnce(before, x);
      if x == last {
        assert forall k :: 0 <= k < |before| ==> before[k] == es[k] && es[k].name != x.name;
        assert x !in before;
      }
    }
  }

  lemma CountTwice(es: seq<Entry>, i: int, j: int)
    requires 0 <= i < j < |es| && es[i] == es[j]
    ensures multiset(es)[es[i]] >= 2
  {
    assert es == es[..j] + es[j..] && es[i] in multiset(es[..j]) && es[i] in multiset(es[j..]) by {
      assert es[..j][i] == es[i] && es[j..][0] == es[j];
    }
  }

  /** Two positions of a permutation hold entries of two names. */
  lemma TwoOf(children: seq<Entry>, sorted: seq<Entry>, i: int, j: int)
    requires multiset(sorted) == multiset(children) && 0 <= i < j < |sorted|
    requires forall k, l :: 0 <= k < l < |children| ==> children[k].name != children[l].name
    ensures sorted[i].name != sorted[j].name
  {
    var x, y := sorted[i], sorted[j];
    assert x in multiset(children) && y in multiset(children);
    if x == y {
      CountTwice(sorted, i, j);
      CountOnce(children, x);
      assert false;
    }
    var k :| 0 <= k < |children| && children[k] == x;
    var l :| 0 <= l < |children| && children[l] == y;
  }

  // ----- Lists that a flush has left out of order -----

  /** No two children have one name; only those of a list on disk may be out of order. */
  ghost predicate Fair(names: Names, list: seq<int>, d: Option<Batch>) {
    && Legible(names, list, d)
    && match d
       case None => NewNames([], Named(names, list))
       case Some(b) =>
         if b.loaded then BatchOk(names, list, d)
         else b.children == [] && b.raw == [] && NewNames([], Named(names, KeptRefs(list, b.deleted)))
  }

  ghost predicate Tidy(names: Names, list: seq<int>, d: Option<Batch>)
    requires Legible(names, list, d)
  {
    match d
    case None => Sorted(Named(names, list))
    case Some(b) => b.loaded || Sorted(Named(names, KeptRefs(list, b.deleted)))
  }

  lemma OkIsFairAndTidy(names: Names, list: seq<int>, d: Option<Batch>)
    ensures BatchOk(names, list, d) <==> Fair(names, list, d) && Tidy(names, list, d)
  {
    if BatchOk(names, list, d) {
      match d {
        case None => DistinctNames(Named(names, list));
        case Some(b) => if !b.loaded { DistinctNames(Named(names, KeptRefs(list, b.deleted))); }
      }
    }
  }

  /** A parent's children, in order or not, depend on no other names. */
  lemma FairFrame(a: Names, b: Names, list: seq<int>, d: Option<Batch>)
    requires Fair(a, list, d) && SameOn(a, b, Needs(list, d))
    ensures Fair(b, list, d) && Content(b, list, d) == Content(a, list, d)
    ensures Tidy(b, list, d) == Tidy(a, list, d)
  {
    match d {
      case None => NamedSame(a, b, list);
      case Some(p) =>
        if p.loaded { ContentFrame(a, b, list, d); } else { NamedSame(a, b, KeptRefs(list, p.deleted)); }
    }
  }

  /** A new child, of a list on disk in order or not. */
  lemma WithChildFair(names: Names, list: seq<int>, d: Option<Batch>, e: Entry)
    requires Fair(names, list, d) && (d.None? ==> Tidy(names, list, d)) && e.ref in names && names[e.ref] == e.name
    requires !HasName(Content(names, list, d), e.name)
    ensures var b := WithChild(names, list, d, e);
      && BatchOk(names, list, Some(b)) && b.loaded && b.deleted == (if d.Some? then d.value.deleted else {})
      && forall x :: x in Content(names, list, Some(b)) <==>
                     x in Content(names, list, d) || (x == e && e.ref !in b.deleted)
  {
    if Tidy(names, list, d) {
      OkIsFairAndTidy(names, list, d);
      WithChildOk(names, list, d, e);
      InsertedIs(Content(names, list, d), e);
    } else {
      UntidyWithChild(names, list, d.value, e);
    }
  }

  lemma UntidyWithChild(names: Names, list: seq<int>, b: Batch, e: Entry)
    requires Fair(names, list, Some(b)) && !b.loaded && e.ref in names && names[e.ref] == e.name
    requires !HasName(Content(names, list, Some(b)), e.name)
    ensures var c := WithChild(names, list, Some(b), e);
      && BatchOk(names, list, Some(c)) && c.loaded && c.deleted == b.deleted
      && forall x :: x in Content(names, list, Some(c)) <==>
                     x in Content(names, list, Some(b)) || (x == e && e.ref !in c.deleted)
  {
    var es, o := Content(names, list, Some(b)), b.(children := Readable(names, list), loaded := true);
    ReadableKept(names, list, o.deleted);
    ReadableRight(names, list, o.deleted);
    InsertedAllIs([], es);
    assert BatchOk(names, list, Some(o)) && Content(names, list, Some(o)) == InsertedAll([], es);
    NotNamedIn(es, InsertedAll([], es), e.name);
    OpenedWithChild(names, list, o, e);
    InsertedIs(InsertedAll([], es), e);
  }

  lemma NotNamedIn(es: seq<Entry>, all: seq<Entry>, n: string)
    requires !HasName(es, n) && forall x :: x in all ==> x in es
    ensures !HasName(all, n)
  {
    forall i | 0 <= i < |all| ensures all[i].name != n {
      assert all[i] in es;
    }
  }

  lemma InsertedIs(es: seq<Entry>, e: Entry)
    ensures forall x :: x in Inserted(es, e) <==> x in es || x == e
  {
    InsertedMembers(es, e);
    forall x ensures x in Inserted(es, e) <==> x in es || x == e {
      assert x in Inserted(es, e) <==> x in multiset(es) + multiset{e};
    }
  }

  lemma InsertedAllIs(es: seq<Entry>, added: seq<Entry>)
    ensures forall x :: x in InsertedAll(es, added) <==> x in es || x in added
  {
    InsertedAllMembers(es, added);
    forall x ensures x in InsertedAll(es, added) <==> x in es || x in added {
      assert x in InsertedAll(es, added) <==> x in multiset(es) + multiset(added);
    }
  }

  lemma ReadableRight(names: Names, list: seq<int>, deleted: set<int>)
    requires Decodable(names, KeptRefs(list, deleted))
    ensures NamesRight(names, KeptEntries(Readable(names, list), deleted))
  {
    ReadableKept(names, list, deleted);
  }

  /** A part of a list repeats no name that the list does not repeat. */
  lemma {:induction false} KeptStayDistinct(names: Names, refs: seq<int>, deleted: set<int>)
    requires Decodable(names, refs) && NewNames([], Named(names, refs))
    ensures Decodable(names, KeptRefs(refs, deleted)) && NewNames([], Named(names, KeptRefs(refs, deleted)))
  {
    KeptNamed(names, refs, deleted);
    if refs != [] {
      var before, last := refs[..|refs| - 1], refs[|refs| - 1];
      assert Named(names, before) == Named(names, refs)[..|refs| - 1];
      DistinctBefore(Named(names, refs));
      KeptStayDistinct(names, before, deleted);
      if last !in deleted {
        KeptNamed(names, before, deleted);
        DistinctAppend(Named(names, KeptRefs(before, deleted)), Entry(names[last], last));
        assert Named(names, KeptRefs(refs, deleted))
            == Named(names, KeptRefs(before, deleted)) + [Entry(names[last], last)];
      }
    }
  }

  lemma DistinctBefore(es: seq<Entry>)
    requires NewNames([], es) && es != []
    ensures NewNames([], es[..|es| - 1]) && forall x :: x in es[..|es| - 1] ==> x.name != es[|es| - 1].name
  {
  }

  lemma DistinctAppend(es: seq<Entry>, e: Entry)
    requires NewNames([], es) && forall x :: x in es ==> x.name != e.name
    ensures NewNames([], es + [e])
  {
  }

  /** `x` stands before `y`. */
  predicate Precedes(refs: seq<int>, x: int, y: int) {
    exists a, b :: 0 <= a < b < |refs| && refs[a] == x && refs[b] == y
  }

  lemma {:induction false} KeptPrecedes(refs: seq<int>, deleted: set<int>, x: int, y: int)
    requires Precedes(refs, x, y) && x !in deleted && y !in deleted
    ensures Precedes(KeptRefs(refs, deleted), x, y)
  {
    var n := |refs| - 1;
    var a, b :| 0 <= a < b <= n && refs[a] == x && refs[b] == y;
    var before := KeptRefs(refs[..n], deleted);
    if b < n {
      assert refs[..n][a] == x && refs[..n][b] == y;
      KeptPrecedes(refs[..n], deleted, x, y);
      var c, d :| 0 <= c < d < |before| && before[c] == x && before[d] == y;
      assert KeptRefs(refs, deleted)[c] == x && KeptRefs(refs, deleted)[d] == y;
    } else {
      KeptRefsAre(refs[..n], deleted);
      assert refs[..n][a] == x;
      var c :| 0 <= c < |before| && before[c] == x;
      assert KeptRefs(refs, deleted) == before + [y] && (before + [y])[c] == x && (before + [y])[|before|] == y;
    }
  }

  lemma PrecedesUntidy(names: Names, refs: seq<int>, x: int, y: int)
    requires Decodable(names, refs) && Precedes(refs, x, y) && x in names && y in names && Less(names[y], names[x])
    ensures !Sorted(Named(names, refs))
  {
    var a, b :| 0 <= a < b < |refs| && refs[a] == x && refs[b] == y;
    if Sorted(Named(names, refs)) {
      assert Less(Named(names, refs)[a].name, Named(names, refs)[b].name);
      Transitive(names[x], names[y], names[x]);
      Irreflexive(names[x]);
    }
  }

  /** The merge keeps the order in which the new children came. */
  lemma {:induction false} InterleavedHas(raw: seq<int>, ri: nat, ins: seq<Insertion>, i: nat)
    requires ri <= |raw| && Rising(ri, ins) && i < |ins| && forall k :: 0 <= k < |ins| ==> ins[k].pos <= |raw|
    ensures ins[i].ref in Interleaved(raw, ri, ins)
    decreases |raw| - ri, |ins|
  {
    if ins[0].pos == ri {
      if i > 0 { InterleavedHas(raw, ri, ins[1..], i - 1); }
    } else {
      InterleavedHas(raw, ri + 1, ins, i);
    }
  }

  lemma {:induction false} InterleavedPrecedes(raw: seq<int>, ri: nat, ins: seq<Insertion>, i: nat, j: nat)
    requires ri <= |raw| && Rising(ri, ins) && i < j < |ins| && forall k :: 0 <= k < |ins| ==> ins[k].pos <= |raw|
    ensures Precedes(Interleaved(raw, ri, ins), ins[i].ref, ins[j].ref)
    decreases |raw| - ri, |ins|
  {
    var m := Interleaved(raw, ri, ins);
    if ins[0].pos == ri {
      var rest := Interleaved(raw, ri, ins[1..]);
      if i == 0 {
        InterleavedHas(raw, ri, ins[1..], j - 1);
        var b :| 0 <= b < |rest| && rest[b] == ins[j].ref;
        assert m[0] == ins[0].ref && m[b + 1] == ins[j].ref;
      } else {
        InterleavedPrecedes(raw, ri, ins[1..], i - 1, j - 1);
        PrecedesLater(ins[0].ref, rest, ins[i].ref, ins[j].ref);
      }
    } else {
      InterleavedPrecedes(raw, ri + 1, ins, i, j);
      PrecedesLater(raw[ri], Interleaved(raw, ri + 1, ins), ins[i].ref, ins[j].ref);
    }
  }

  lemma PrecedesLater(r: int, refs: seq<int>, x: int, y: int)
    requires Precedes(refs, x, y)
    ensures Precedes([r] + refs, x, y)
  {
    var a, b :| 0 <= a < b < |refs| && refs[a] == x && refs[b] == y;
    assert ([r] + refs)[a + 1] == x && ([r] + refs)[b + 1] == y;
  }

  /** The new children that a flush does not keep. */
  function Dropped(names: Names, b: Batch): seq<Entry>
    requires Decodable(names, b.raw)
  {
    if b.loaded && b.raw != [] then b.children[KeptCount(Named(names, b.raw), b.children)..] else []
  }

  /** What a flush writes: all children but the dropped ones. */
  lemma FlushFair(names: Names, list: seq<int>, b: Batch)
    requires Fair(names, list, Some(b))
    ensures var refs := Flushed(names, list, b);
      && Fair(names, refs, None)
      && forall e :: e in Named(names, refs) <==> e in Content(names, list, Some(b)) && e !in Dropped(names, b)
  {
    var refs := Flushed(names, list, b);
    if b.loaded && b.raw != [] {
      MergedFair(names, b);
    } else if b.loaded {
      FlushedIff(names, list, b);
      InsertedAllSorted(Named(names, b.raw), KeptEntries(b.children, b.deleted));
      DistinctNames(Content(names, list, Some(b)));
    }
  }

  /** Children that came in order, or are in a list of names, are written in order; none is dropped. */
  lemma FlushTidy(names: Names, list: seq<int>, b: Batch)
    requires Fair(names, list, Some(b))
    ensures Legible(names, Flushed(names, list, b), None)
    ensures b.loaded && (b.raw != [] ==> Sorted(b.children)) ==>
      Dropped(names, b) == [] && Tidy(names, Flushed(names, list, b), None)
    ensures !b.loaded ==> Tidy(names, Flushed(names, list, b), None) == Tidy(names, list, Some(b))
  {
    FlushFair(names, list, b);
    if b.loaded && (b.raw != [] ==> Sorted(b.children)) {
      FlushedIff(names, list, b);
      InsertedAllSorted(Named(names, b.raw), KeptEntries(b.children, b.deleted));
      if b.raw != [] {
        AllKept(b.children);
        PlacesRise(Named(names, b.raw), b.children);
        AllAcceptedIff(0, Places(Named(names, b.raw), b.children));
      }
    }
  }

  /** None is dropped exactly when no old name lies between a new child and an earlier one behind it. */
  lemma DroppedIff(names: Names, list: seq<int>, b: Batch)
    requires Fair(names, list, Some(b)) && b.loaded && b.raw != []
    ensures Dropped(names, b) == [] <==> NeverBack(Named(names, b.raw), b.children)
  {
    FlushKeeps(names, list, b);
  }

  /** Where none is dropped, the new children stand in the order in which they came. */
  lemma MergePrecedes(names: Names, list: seq<int>, b: Batch, i: nat, j: nat)
    requires Fair(names, list, Some(b)) && b.loaded && b.raw != [] && Dropped(names, b) == [] && i < j < |b.children|
    ensures Precedes(Flushed(names, list, b), b.children[i].ref, b.children[j].ref)
  {
    var es := Named(names, b.raw);
    AllKept(b.children);
    DroppedIff(names, list, b);
    RisingIff(es, b.children);
    forall k | 0 <= k < |b.children| ensures Places(es, b.children)[k].pos <= |b.raw| {
      PlaceIs(es, b.children[k].name);
    }
    InterleavedPrecedes(b.raw, 0, Places(es, b.children), i, j);
  }

  lemma MergedFair(names: Names, b: Batch)
    requires b.loaded && b.raw != [] && BatchOk(names, [], Some(b))
    ensures var m := Merged(names, b.raw, b.children);
      && Decodable(names, m) && NewNames([], Named(names, m))
      && forall e :: e in Named(names, m) <==>
           e in InsertedAll(Named(names, b.raw), KeptEntries(b.children, b.deleted)) && e !in Dropped(names, b)
  {
    AllKept(b.children);
    var es, n, m := Named(names, b.raw), KeptCount(Named(names, b.raw), b.children), Merged(names, b.raw, b.children);
    var head := b.children[..n];
    MergeKeeps(names, b.raw, b.children);
    SameRefsOf(names, b.raw, head, m);
    MergedDistinct(es, head, Named(names, m));
    InsertedAllIs(es, b.children);
    HeadAndRest(es, b.children, n);
  }

  lemma MergedDistinct(es: seq<Entry>, added: seq<Entry>, all: seq<Entry>)
    requires Sorted(es) && NewNames(es, added) && multiset(all) == multiset(es) + multiset(added)
    ensures NewNames([], all) && forall x :: x in all <==> x in es || x in added
  {
    InsertedAllSorted(es, added);
    DistinctNames(InsertedAll(es, added));
    NamesOfSame([], InsertedAll(es, added), all);
    forall x ensures x in all <==> x in es || x in added {
      assert x in all <==> x in multiset(es) + multiset(added);
    }
  }

  lemma HeadAndRest(es: seq<Entry>, added: seq<Entry>, n: nat)
    requires NewNames(es, added) && n <= |added|
    ensures forall x :: x in es || x in added[..n] <==> (x in es || x in added) && x !in added[n..]
  {
    assert added == added[..n] + added[n..];
    forall x | x in added[n..] ensures x !in es && x !in added[..n] {
      var k :| 0 <= k < |added[n..]| && added[n..][k] == x;
      assert added[n + k] == x && !HasName(es, added[n + k].name);
    }
  }

  /** A list of the references of some entries, with their names. */
  lemma SameRefsOf(names: Names, raw: seq<int>, added: seq<Entry>, m: seq<int>)
    requires Decodable(names, raw) && NamesRight(names, added)
    requires multiset(m) == multiset(raw) + multiset(EntryRefs(added))
    ensures Decodable(names, m) && multiset(Named(names, m)) == multiset(Named(names, raw)) + multiset(added)
  {
    forall i | 0 <= i < |m| ensures m[i] in names {
      assert m[i] in multiset(raw) + multiset(EntryRefs(added));
      if m[i] !in multiset(raw) { assert m[i] in EntryRefs(added); }
    }
    assert Named(names, raw + EntryRefs(added)) == Named(names, raw) + added;
    NamedPermuted(names, m, raw + EntryRefs(added));
  }

  lemma {:induction false} NamedPermuted(names: Names, a: seq<int>, b: seq<int>)
    requires Decodable(names, a) && multiset(a) == multiset(b)
    ensures Decodable(names, b) && multiset(Named(names, a)) == multiset(Named(names, b))
  {
    forall i | 0 <= i < |b| ensures b[i] in names {
      assert b[i] in multiset(a);
    }
    forall e ensures multiset(Named(names, a))[e] == multiset(Named(names, b))[e] {
      NamedTimes(names, a, e);
      NamedTimes(names, b, e);
    }
  }

  lemma {:induction false} NamedTimes(names: Names, refs: seq<int>, e: Entry)
    requires Decodable(names, refs)
    ensures multiset(Named(names, refs))[e]
         == if e.ref in names && names[e.ref] == e.name then multiset(refs)[e.ref] else 0
  {
    if refs != [] {
      var before, last := refs[..|refs| - 1], refs[|refs| - 1];
      NamedTimes(names, before, e);
      assert refs == before + [last] && Named(names, refs) == Named(names, before) + [Entry(names[last], last)];
    }
  }
}
