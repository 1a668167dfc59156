/** Deferred mode over whole runs: what the subkey lists on disk show once the keys that an executor created and deleted
    are flushed (createKey, DeleteKey and FlushDeferredSubkeys in hive/edit/nkedit.go). */
module ListTraces {
  import opened SubkeyList
  import opened LazyMerge
  import opened PendingLists
  import opened Registry
  import opened EditLogs

  /** The names of the cells in use, the cell the index finds for each key, the list of each cell on disk, and what is
      pending for it. */
  datatype Hive = Hive(names: Names, at: map<Path, int>, lists: map<int, seq<int>>, pending: map<int, Batch>)
  {
    function Of(r: int): Option<Batch> {
      if r in pending then Some(pending[r]) else None
    }

    function ListOf(r: int): seq<int> {
      if r in lists then lists[r] else []
    }
  }

  function Below(p: Path, n: KeyName): Path {
    p + [n]
  }

  // ----- The steps -----

  /** createKey: a cell for the key, and a pending child of its parent. */
  function MadeStep(h: Hive, q: Path, ref: int): Hive {
    if q == [] || Above(q) !in h.at then h
    else
      var p, names := h.at[Above(q)], h.names[ref := Last(q)];
      Hive(names, h.at[q := ref], h.lists[ref := []],
           h.pending[p := WithChild(names, h.ListOf(p), h.Of(p), Entry(Last(q), ref))])
  }

  /** flushDeferredParent, with the new children in the order they came. */
  function FlushAt(h: Hive, r: int): Hive {
    if r !in h.pending || !Decodable(h.names, h.pending[r].raw) then h
    else h.(lists := h.lists[r := Flushed(h.names, h.ListOf(r), h.pending[r])], pending := h.pending - {r})
  }

  /** The keys that the recursion over the lists on disk reaches from `q`. */
  ghost predicate Reaches(h: Hive, q: Path, p: Path)
    decreases |p|
  {
    && q <= p && p in h.at
    && (p == q || (Reaches(h, q, Above(p)) && h.at[p] in h.ListOf(h.at[Above(p)])))
  }

  /** DeleteKey: flushes the key and its parent, frees what is reached below the key, and marks the parent's child. */
  ghost function CutStep(h: Hive, q: Path): Hive {
    if q == [] || q !in h.at || Above(q) !in h.at then h
    else
      var nk, p := h.at[q], h.at[Above(q)];
      var f := FlushAt(FlushAt(h, nk), p);
      var gone := set x | x in f.at && Reaches(f, q, x);
      var cells := set x | x in gone :: f.at[x];
      Hive(f.names - cells, f.at - gone, f.lists - cells, f.pending[p := CutOff(nk)])
  }

  ghost function Step(h: Hive, e: Edit, ref: int): Hive {
    match e
    case Made(q) => MadeStep(h, q, ref)
    case Cut(q) => CutStep(h, q)
  }

  /** A run, with the cells that the allocator gave to the created keys. */
  ghost function Run(h: Hive, log: Log, refs: seq<int>): Hive
    requires |refs| == |log|
  {
    if log == [] then h
    else Step(Run(h, log[..|log| - 1], refs[..|log| - 1]), log[|log| - 1], refs[|log| - 1])
  }

  /** FlushDeferredSubkeys: new children are sorted first. */
  function FlushAll(h: Hive): Hive {
    h.(lists := map r | r in h.lists :: if r in h.pending && Decodable(h.names, InOrder(h.pending[r]).raw)
                                        then Flushed(h.names, h.lists[r], InOrder(h.pending[r])) else h.lists[r],
       pending := map[])
  }

  // ----- What the lists show -----

  ghost predicate Child(h: Hive, p: Path, e: Entry, lost: set<Path>) {
    && 0 < |e.name| && '\\' !in e.name
    && var q := Below(p, e.name); q in h.at && h.at[q] == e.ref && q !in lost
  }

  /** `p` is to have exactly the keys below it as its children, but for the lost ones. */
  ghost predicate Right(h: Hive, p: Path, lost: set<Path>) {
    p in h.at ==>
      && h.at[p] in h.lists && Fair(h.names, h.lists[h.at[p]], h.Of(h.at[p]))
      && forall e {:trigger Child(h, p, e, lost)} ::
           e in Content(h.names, h.lists[h.at[p]], h.Of(h.at[p])) <==> Child(h, p, e, lost)
  }

  ghost predicate AllRight(h: Hive, lost: set<Path>) {
    forall p {:trigger Right(h, p, lost)} :: Right(h, p, lost)
  }

  /** The children that `p` has on disk are in order. */
  ghost predicate TidyAt(h: Hive, p: Path) {
    p in h.at && h.at[p] in h.lists && Legible(h.names, h.lists[h.at[p]], h.Of(h.at[p])) ==>
      Tidy(h.names, h.lists[h.at[p]], h.Of(h.at[p]))
  }

  ghost predicate AllTidy(h: Hive) {
    forall p {:trigger TidyAt(h, p)} :: TidyAt(h, p)
  }

  ghost predicate CellOf(h: Hive, p: Path) {
    p in h.at ==> h.at[p] in h.names && (p != [] ==> h.names[h.at[p]] == Last(p))
  }

  ghost predicate InUse(h: Hive, r: int) {
    r in h.names ==> exists p :: p in h.at && h.at[p] == r
  }

  /** Every key has a cell of its own with its name, and no other cells are in use. */
  ghost predicate Sound(h: Hive) {
    && (forall p {:trigger CellOf(h, p)} :: CellOf(h, p))
    && (forall p, q :: p in h.at && q in h.at && h.at[p] == h.at[q] ==> p == q)
    && (forall r {:trigger InUse(h, r)} :: InUse(h, r))
    && h.pending.Keys <= h.names.Keys
  }

  /** The lists on disk show exactly the keys, in order, and nothing is pending. */
  ghost predicate Shows(h: Hive, keys: set<Path>) {
    Sound(h) && h.pending == map[] && h.at.Keys == keys && AllRight(h, {}) && AllTidy(h)
  }

  // ----- Creating -----

  /** The new key's cell is that of a child deleted before under the same parent. */
  ghost predicate Reuses(h: Hive, q: Path, ref: int) {
    q != [] && Above(q) in h.at && h.Of(h.at[Above(q)]).Some? && ref in h.Of(h.at[Above(q)]).value.deleted
  }

  ghost function LostBy(h: Hive, q: Path, ref: int): set<Path> {
    if Reuses(h, q, ref) then {q} else {}
  }

  lemma MadeSound(h: Hive, q: Path, ref: int)
    requires Sound(h) && q != [] && q !in h.at && Above(q) in h.at && ref !in h.names
    ensures Sound(MadeStep(h, q, ref))
  {
    var m := MadeStep(h, q, ref);
    assert CellOf(h, Above(q));
    forall p ensures CellOf(m, p) {
      assert CellOf(h, p);
    }
    forall a, b | a in m.at && b in m.at && m.at[a] == m.at[b] ensures a == b {
      assert CellOf(h, a) && CellOf(h, b);
    }
    forall r ensures InUse(m, r) {
      assert InUse(h, r);
      if r == ref {
        assert q in m.at;
      } else if r in h.names {
        var p :| p in h.at && h.at[p] == r;
        assert p in m.at && m.at[p] == r;
      }
    }
  }

  /** The names a right parent depends on are those of its children. */
  lemma NeedsChildren(h: Hive, p: Path, lost: set<Path>, i: nat)
    requires Right(h, p, lost) && p in h.at && i < |Needs(h.lists[h.at[p]], h.Of(h.at[p]))|
    ensures var r := Needs(h.lists[h.at[p]], h.Of(h.at[p]))[i];
      r in h.names && Child(h, p, Entry(h.names[r], r), lost)
  {
    var list, d := h.lists[h.at[p]], h.Of(h.at[p]);
    var r := Needs(list, d)[i];
    ContentHas(h.names, list, d, i);
    assert Child(h, p, Entry(h.names[r], r), lost);
  }

  /** A cell that a parent's children depend on is that of a child. */
  lemma ContentHas(names: Names, list: seq<int>, d: Option<Batch>, i: nat)
    requires Fair(names, list, d) && i < |Needs(list, d)|
    ensures var r := Needs(list, d)[i]; r in names && Entry(names[r], r) in Content(names, list, d)
  {
    match d {
      case None => assert Named(names, list)[i] == Entry(names[list[i]], list[i]);
      case Some(b) =>
        if !b.loaded {
          var kept := KeptRefs(list, b.deleted);
          assert Named(names, kept)[i] == Entry(names[kept[i]], kept[i]);
        } else {
          assert i >= |b.raw| ==> Needs(list, d)[i] == KeptEntries(b.children, b.deleted)[i - |b.raw|].ref;
          MergedHas(Named(names, b.raw), KeptEntries(b.children, b.deleted), i);
        }
    }
  }

  lemma MergedHas(es: seq<Entry>, added: seq<Entry>, i: nat)
    requires i < |es| + |added|
    ensures (if i < |es| then es[i] else added[i - |es|]) in InsertedAll(es, added)
  {
    InsertedAllMembers(es, added);
    var e := if i < |es| then es[i] else added[i - |es|];
    assert e in multiset(es) || e in multiset(added);
    assert e in multiset(InsertedAll(es, added));
  }

  /** A parent whose children's names and cells stay is as right as before. */
  lemma RightFrame(h: Hive, m: Hive, p: Path, lost: set<Path>, lost': set<Path>)
    requires Right(h, p, lost) && p in h.at && p in m.at && m.at[p] == h.at[p]
    requires h.at[p] in m.lists && m.lists[h.at[p]] == h.lists[h.at[p]] && m.Of(h.at[p]) == h.Of(h.at[p])
    requires forall e :: Child(h, p, e, lost) ==> e.ref in m.names && m.names[e.ref] == e.name
    requires forall e :: Child(m, p, e, lost') <==> Child(h, p, e, lost)
    requires forall e :: Child(h, p, e, lost) ==> e.ref in h.names && h.names[e.ref] == e.name
    ensures Right(m, p, lost') && TidyAt(m, p) == TidyAt(h, p)
    ensures SameOn(h.names, m.names, Needs(h.lists[h.at[p]], h.Of(h.at[p])))
  {
    var list, d := h.lists[h.at[p]], h.Of(h.at[p]);
    forall i | 0 <= i < |Needs(list, d)| && Needs(list, d)[i] in h.names
      ensures Needs(list, d)[i] in m.names && m.names[Needs(list, d)[i]] == h.names[Needs(list, d)[i]]
    {
      NeedsChildren(h, p, lost, i);
    }
    FairFrame(h.names, m.names, list, d);
    forall e ensures e in Content(m.names, list, d) <==> Child(m, p, e, lost') {
      assert e in Content(h.names, list, d) <==> Child(h, p, e, lost);
    }
  }

  lemma ChildNamed(h: Hive, p: Path, e: Entry, lost: set<Path>)
    requires Sound(h) && Child(h, p, e, lost)
    ensures e.ref in h.names && h.names[e.ref] == e.name
  {
    assert CellOf(h, Below(p, e.name));
  }

  lemma BelowAbove(p: Path, n: KeyName)
    ensures Below(p, n) != [] && Above(Below(p, n)) == p && Last(Below(p, n)) == n
  {
  }

  lemma IsBelow(q: Path)
    requires q != []
    ensures Below(Above(q), Last(q)) == q
  {
  }

  /** The new key has no children. */
  lemma MadeNew(h: Hive, q: Path, ref: int, lost: set<Path>)
    requires Sound(h) && ClosedKeys(h.at.Keys) && q != [] && q !in h.at && Above(q) in h.at && ref !in h.names
    ensures Right(MadeStep(h, q, ref), q, lost)
  {
    var m := MadeStep(h, q, ref);
    assert CellOf(h, Above(q));
    assert m.Of(ref) == None && m.lists[ref] == [];
    forall e ensures !Child(m, q, e, lost) {
      if 0 < |e.name| && '\\' !in e.name {
        var x := Below(q, e.name);
        BelowAbove(q, e.name);
        assert KeyAbove(h.at.Keys, x) && |x| == |q| + 1;
      }
    }
  }

  /** The parent has the new key among its children, unless the key's cell is that of a deleted child. */
  lemma MadeParent(h: Hive, q: Path, ref: int, lost: set<Path>)
    requires Sound(h) && q != [] && q !in h.at && Above(q) in h.at && ref !in h.names
    requires Right(h, Above(q), lost) && lost <= h.at.Keys && (h.at[Above(q)] !in h.pending ==> TidyAt(h, Above(q)))
    ensures Right(MadeStep(h, q, ref), Above(q), lost + LostBy(h, q, ref))
  {
    var m, p, e0 := MadeStep(h, q, ref), Above(q), Entry(Last(q), ref);
    var r := h.at[p];
    var list, d, b := h.lists[r], h.Of(r), WithChild(m.names, h.lists[r], h.Of(r), e0);
    assert CellOf(h, p);
    IsBelow(q);
    var was := Content(h.names, list, d);
    forall i | 0 <= i < |Needs(list, d)| && Needs(list, d)[i] in h.names
      ensures Needs(list, d)[i] in m.names && m.names[Needs(list, d)[i]] == h.names[Needs(list, d)[i]]
    {
    }
    FairFrame(h.names, m.names, list, d);
    forall i | 0 <= i < |was| ensures was[i].name != e0.name {
      assert Child(h, p, was[i], lost);
    }
    WithChildFair(m.names, list, d, e0);
    assert m.lists[r] == list && m.Of(r) == Some(b);
    var now, lost' := Content(m.names, list, Some(b)), lost + LostBy(h, q, ref);
    forall e ensures e in now <==> Child(m, p, e, lost') {
      MadeChild(h, q, ref, lost, e);
      assert e in was <==> Child(h, p, e, lost);
    }
  }

  lemma MadeChild(h: Hive, q: Path, ref: int, lost: set<Path>, e: Entry)
    requires q != [] && q !in h.at && Above(q) in h.at && lost <= h.at.Keys
    ensures Child(MadeStep(h, q, ref), Above(q), e, lost + LostBy(h, q, ref))
      <==> Child(h, Above(q), e, lost) || (e == Entry(Last(q), ref) && !Reuses(h, q, ref))
  {
    IsBelow(q);
    if 0 < |e.name| && '\\' !in e.name {
      BelowAbove(Above(q), e.name);
    }
  }

  lemma MadeOther(h: Hive, q: Path, ref: int, lost: set<Path>, p: Path)
    requires Sound(h) && q != [] && q !in h.at && Above(q) in h.at && ref !in h.names
    requires Right(h, p, lost) && p != q && p != Above(q) && lost <= h.at.Keys
    ensures Right(MadeStep(h, q, ref), p, lost + LostBy(h, q, ref))
    ensures p in h.at ==> var m, r := MadeStep(h, q, ref), h.at[p];
      && p in m.at && m.at[p] == r && r in h.lists && r in m.lists && m.lists[r] == h.lists[r] && m.Of(r) == h.Of(r)
      && SameOn(h.names, m.names, Needs(h.lists[r], h.Of(r)))
  {
    var m, lost' := MadeStep(h, q, ref), lost + LostBy(h, q, ref);
    if p in h.at {
      assert CellOf(h, p);
      forall e
        ensures Child(m, p, e, lost') <==> Child(h, p, e, lost)
        ensures Child(h, p, e, lost) ==>
          e.ref in h.names && h.names[e.ref] == e.name && e.ref in m.names && m.names[e.ref] == e.name
      {
        if 0 < |e.name| && '\\' !in e.name {
          BelowAbove(p, e.name);
        }
        if Child(h, p, e, lost) {
          ChildNamed(h, p, e, lost);
        }
      }
      RightFrame(h, m, p, lost, lost');
    }
  }

  lemma MadeRight(h: Hive, q: Path, ref: int, lost: set<Path>)
    requires Sound(h) && AllRight(h, lost) && ClosedKeys(h.at.Keys) && lost <= h.at.Keys
    requires q != [] && q !in h.at && Above(q) in h.at && ref !in h.names
    requires h.at[Above(q)] !in h.pending ==> TidyAt(h, Above(q))
    ensures AllRight(MadeStep(h, q, ref), lost + LostBy(h, q, ref))
  {
    var m, lost' := MadeStep(h, q, ref), lost + LostBy(h, q, ref);
    forall p ensures Right(m, p, lost') {
      assert Right(h, p, lost);
      if p == q {
        MadeNew(h, q, ref, lost');
      } else if p == Above(q) {
        MadeParent(h, q, ref, lost);
      } else {
        MadeOther(h, q, ref, lost, p);
      }
    }
  }

  // ----- Deleting -----

  /** The keys whose entries a flush of `p` drops. */
  ghost function DroppedBy(h: Hive, p: Path): set<Path> {
    if p in h.at && h.at[p] in h.pending && Decodable(h.names, h.pending[h.at[p]].raw) then
      set q | q in h.at && q != [] && Above(q) == p &&
              Entry(Last(q), h.at[q]) in Dropped(h.names, h.pending[h.at[p]])
    else
      {}
  }

  /** Nothing is pending at `q` or below it, and the flush of its parent does not drop it. */
  ghost predicate Quiet(h: Hive, q: Path, lost: set<Path>) {
    && (forall x :: x in h.at && q <= x ==> h.at[x] !in h.pending && x !in lost)
    && (q != [] ==> q !in DroppedBy(h, Above(q)))
  }

  /** A flush drops exactly these keys, and leaves every other parent as it was. */
  lemma FlushedRight(h: Hive, p: Path, lost: set<Path>)
    requires Sound(h) && AllRight(h, lost) && p in h.at
    ensures var f := FlushAt(h, h.at[p]);
      && Sound(f) && AllRight(f, lost + DroppedBy(h, p)) && f.at == h.at && f.names == h.names
      && f.pending == h.pending - {h.at[p]} && f.lists.Keys == h.lists.Keys && h.at[p] in h.lists
      && (forall r :: r != h.at[p] && r in h.lists ==> f.lists[r] == h.lists[r])
      && f.lists[h.at[p]] == if h.at[p] in h.pending then Flushed(h.names, h.lists[h.at[p]], h.pending[h.at[p]])
                             else h.lists[h.at[p]]
  {
    var r := h.at[p];
    var f := FlushAt(h, r);
    assert Right(h, p, lost);
    if r in h.pending {
      forall x ensures CellOf(f, x) { assert CellOf(h, x); }
      forall c ensures InUse(f, c) { assert InUse(h, c); }
      forall x ensures Right(f, x, lost + DroppedBy(h, p)) {
        assert Right(h, x, lost);
        if x == p { FlushedParent(h, p, lost); } else if x in h.at { FlushedOther(h, p, lost, x); }
      }
    } else {
      assert h.pending - {r} == h.pending && lost + DroppedBy(h, p) == lost;
    }
  }

  lemma FlushedParent(h: Hive, p: Path, lost: set<Path>)
    requires Sound(h) && Right(h, p, lost) && p in h.at && h.at[p] in h.pending
    ensures Right(FlushAt(h, h.at[p]), p, lost + DroppedBy(h, p))
  {
    var r := h.at[p];
    var f, b, lost' := FlushAt(h, r), h.pending[r], lost + DroppedBy(h, p);
    FlushFair(h.names, h.lists[r], b);
    assert f.lists[r] == Flushed(h.names, h.lists[r], b) && f.Of(r) == None;
    forall e ensures e in Content(f.names, f.lists[r], None) <==> Child(f, p, e, lost') {
      assert e in Content(h.names, h.lists[r], h.Of(r)) <==> Child(h, p, e, lost);
      if 0 < |e.name| && '\\' !in e.name {
        BelowAbove(p, e.name);
      }
    }
  }

  lemma FlushedOther(h: Hive, p: Path, lost: set<Path>, x: Path)
    requires Sound(h) && Right(h, x, lost) && Right(h, p, lost) && p in h.at && x in h.at && x != p
    requires h.at[p] in h.pending
    ensures Right(FlushAt(h, h.at[p]), x, lost + DroppedBy(h, p))
  {
    var f, lost' := FlushAt(h, h.at[p]), lost + DroppedBy(h, p);
    forall e
      ensures Child(f, x, e, lost') <==> Child(h, x, e, lost)
      ensures Child(h, x, e, lost) ==> e.ref in h.names && h.names[e.ref] == e.name
    {
      if 0 < |e.name| && '\\' !in e.name { BelowAbove(x, e.name); }
      if Child(h, x, e, lost) { ChildNamed(h, x, e, lost); }
    }
    RightFrame(h, f, x, lost, lost');
  }

  /** With nothing pending below a key, the recursion reaches everything below it. */
  lemma {:induction false} AllReached(f: Hive, q: Path, x: Path, lost: set<Path>)
    requires Sound(f) && AllRight(f, lost) && ClosedKeys(f.at.Keys) && q in f.at && x in f.at && q <= x
    requires forall y :: y in f.at && q <= y ==> f.at[y] !in f.pending && y !in lost
    ensures Reaches(f, q, x)
    decreases |x|
  {
    if x != q {
      var p, e := Above(x), Entry(Last(x), f.at[x]);
      AboveOf(q, x);
      assert KeyAbove(f.at.Keys, x);
      AllReached(f, q, p, lost);
      IsBelow(x);
      assert Right(f, p, lost) && Child(f, p, e, lost);
      NamedHas(f.names, f.lists[f.at[p]]);
    }
  }

  /** The cells of the keys at and below `q`. */
  function CellsBelow(h: Hive, q: Path): set<int> {
    set x | x in h.at && q <= x :: h.at[x]
  }

  function KeysBelow(h: Hive, q: Path): set<Path> {
    set x | x in h.at && q <= x
  }

  /** What can be deleted. */
  ghost predicate Cuttable(h: Hive, q: Path, lost: set<Path>) {
    && Sound(h) && AllRight(h, lost) && ClosedKeys(h.at.Keys)
    && q != [] && q in h.at && Above(q) in h.at && Quiet(h, q, lost)
  }

  /** The step in one piece. */
  lemma CutIs(h: Hive, q: Path, lost: set<Path>)
    requires Cuttable(h, q, lost)
    ensures var f := FlushAt(h, h.at[Above(q)]);
      && Sound(f) && AllRight(f, lost + DroppedBy(h, Above(q))) && f.at == h.at && f.names == h.names
      && f.pending == h.pending - {h.at[Above(q)]}
      && CutStep(h, q) == Hive(f.names - CellsBelow(f, q), f.at - KeysBelow(f, q), f.lists - CellsBelow(f, q),
                               f.pending[h.at[Above(q)] := CutOff(h.at[q])])
  {
    var p := Above(q);
    assert FlushAt(h, h.at[q]) == h;
    FlushedRight(h, p, lost);
    var f, lost' := FlushAt(h, h.at[p]), lost + DroppedBy(h, p);
    forall y | y in f.at && q <= y ensures f.at[y] !in f.pending && y !in lost' {
    }
    forall x ensures x in f.at && Reaches(f, q, x) <==> x in f.at && q <= x {
      if x in f.at && q <= x {
        AllReached(f, q, x, lost');
      }
    }
    var gone := set x | x in f.at && Reaches(f, q, x);
    assert gone == KeysBelow(f, q);
    assert (set x | x in gone :: f.at[x]) == CellsBelow(f, q);
  }

  lemma CutSound(h: Hive, q: Path, lost: set<Path>)
    requires Cuttable(h, q, lost)
    ensures Sound(CutStep(h, q)) && CutStep(h, q).at.Keys == KeysAfterOne(h.at.Keys, Cut(q))
  {
    CutIs(h, q, lost);
    var c, p := CutStep(h, q), Above(q);
    forall x ensures CellOf(c, x) {
      assert CellOf(h, x);
    }
    forall r ensures InUse(c, r) {
      assert InUse(h, r);
      if r in c.names {
        var x :| x in h.at && h.at[x] == r;
        assert x in c.at;
      }
    }
    forall r | r in c.pending ensures r in c.names {
      if r == h.at[p] {
        assert CellOf(c, p) && !(q <= p);
      } else {
        assert InUse(h, r);
        var x :| x in h.at && h.at[x] == r;
        assert CellOf(c, x);
      }
    }
  }

  /** The parent has lost the deleted key, and what the flush before dropped. */
  lemma CutParent(h: Hive, q: Path, lost: set<Path>)
    requires Cuttable(h, q, lost)
    ensures Right(CutStep(h, q), Above(q), lost + DroppedBy(h, Above(q)))
    ensures var f, c := FlushAt(h, h.at[Above(q)]), CutStep(h, q); var r := h.at[Above(q)];
      && Above(q) in c.at && c.at[Above(q)] == r && r in c.lists && r in f.lists && c.lists[r] == f.lists[r]
      && c.Of(r) == Some(CutOff(h.at[q])) && SameOn(f.names, c.names, KeptRefs(f.lists[r], {h.at[q]}))
  {
    CutIs(h, q, lost);
    CutSound(h, q, lost);
    var f, c, p, nk := FlushAt(h, h.at[Above(q)]), CutStep(h, q), Above(q), h.at[q];
    var lost' := lost + DroppedBy(h, p);
    assert Right(f, p, lost') && CellOf(c, p) && CellOf(h, p);
    var list := f.lists[f.at[p]];
    assert f.Of(f.at[p]) == None && c.lists[c.at[p]] == list && c.Of(c.at[p]) == Some(CutOff(nk));
    KeptStayDistinct(f.names, list, {nk});
    KeptNamed(f.names, list, {nk});
    var kept := KeptRefs(list, {nk});
    forall i | 0 <= i < |kept| && kept[i] in f.names
      ensures kept[i] in c.names && c.names[kept[i]] == f.names[kept[i]]
    {
      assert Named(f.names, kept)[i] == Entry(f.names[kept[i]], kept[i]);
      var e := Named(f.names, kept)[i];
      assert Child(f, p, e, lost');
      CutChild(h, q, p, e, lost);
      assert CellOf(c, Below(p, e.name));
    }
    NamedSame(f.names, c.names, kept);
    forall e ensures e in Named(c.names, kept) <==> Child(c, p, e, lost') {
      assert e in Named(f.names, list) <==> Child(f, p, e, lost');
      CutChild(h, q, p, e, lost);
    }
  }

  /** The children of a remaining key are those it had, but for the deleted key and the dropped ones. */
  lemma CutChild(h: Hive, q: Path, p: Path, e: Entry, lost: set<Path>)
    requires Cuttable(h, q, lost) && p in h.at && !(q <= p)
    ensures var lost' := lost + DroppedBy(h, Above(q));
      && (Child(CutStep(h, q), p, e, lost') <==> Child(FlushAt(h, h.at[Above(q)]), p, e, lost') && e.ref != h.at[q])
      && (Child(FlushAt(h, h.at[Above(q)]), p, e, lost') && p != Above(q) ==> e.ref != h.at[q])
  {
    CutIs(h, q, lost);
    if 0 < |e.name| && '\\' !in e.name {
      var x := Below(p, e.name);
      BelowAbove(p, e.name);
      if q <= x && x != q {
        AboveOf(q, x);
      }
    }
  }

  lemma CutOther(h: Hive, q: Path, lost: set<Path>, p: Path)
    requires Cuttable(h, q, lost) && p != Above(q)
    ensures Right(CutStep(h, q), p, lost + DroppedBy(h, Above(q)))
    ensures p in CutStep(h, q).at ==> var c, r := CutStep(h, q), h.at[p];
      && p in h.at && c.at[p] == r && r in h.lists && r in c.lists && c.lists[r] == h.lists[r] && c.Of(r) == h.Of(r)
      && SameOn(h.names, c.names, Needs(h.lists[r], h.Of(r)))
  {
    CutIs(h, q, lost);
    CutSound(h, q, lost);
    var f, c, lost' := FlushAt(h, h.at[Above(q)]), CutStep(h, q), lost + DroppedBy(h, Above(q));
    if p in c.at {
      assert Right(f, p, lost') && CellOf(c, p) && CellOf(h, Above(q)) && CellOf(h, p);
      FlushedRight(h, Above(q), lost);
      forall e
        ensures Child(c, p, e, lost') <==> Child(f, p, e, lost')
        ensures Child(f, p, e, lost') ==>
          e.ref in f.names && f.names[e.ref] == e.name && e.ref in c.names && c.names[e.ref] == e.name
      {
        CutChild(h, q, p, e, lost);
        if Child(f, p, e, lost') {
          ChildNamed(f, p, e, lost');
          ChildNamed(c, p, e, lost');
        }
      }
      RightFrame(f, c, p, lost', lost');
    }
  }

  lemma CutRight(h: Hive, q: Path, lost: set<Path>)
    requires Cuttable(h, q, lost)
    ensures AllRight(CutStep(h, q), lost + DroppedBy(h, Above(q)))
  {
    forall p ensures Right(CutStep(h, q), p, lost + DroppedBy(h, Above(q))) {
      if p == Above(q) {
        CutParent(h, q, lost);
      } else {
        CutOther(h, q, lost, p);
      }
    }
  }

  // ----- Runs -----

  /** Every created key gets a cell that is not in use. */
  ghost predicate NewCells(h: Hive, log: Log, refs: seq<int>)
    requires |refs| == |log|
  {
    log != [] ==>
      && NewCells(h, log[..|log| - 1], refs[..|log| - 1])
      && (log[|log| - 1].Made? ==> refs[|log| - 1] !in Run(h, log[..|log| - 1], refs[..|log| - 1]).names)
  }

  /** The created keys whose cell is that of a child deleted before under the same parent, and still to be flushed. */
  ghost function Lost(h: Hive, log: Log, refs: seq<int>): set<Path>
    requires |refs| == |log|
  {
    if log == [] then {}
    else
      var before, e := Lost(h, log[..|log| - 1], refs[..|log| - 1]), log[|log| - 1];
      if e.Cut? then before
      else before + LostBy(Run(h, log[..|log| - 1], refs[..|log| - 1]), e.key, refs[|log| - 1])
  }

  lemma {:induction false} LostMade(h: Hive, log: Log, refs: seq<int>, q: Path)
    requires |refs| == |log| && q in Lost(h, log, refs)
    ensures Made(q) in log && q != []
  {
    var n := |log| - 1;
    if q in Lost(h, log[..n], refs[..n]) {
      LostMade(h, log[..n], refs[..n], q);
      var i :| 0 <= i < n && log[..n][i] == Made(q);
      assert log[i] == Made(q);
    }
  }

  /** The last flush puts what is pending into the lists, in order but where a list is out of order already. */
  lemma FlushAllRight(h: Hive, lost: set<Path>)
    requires Sound(h) && AllRight(h, lost)
    ensures Sound(FlushAll(h)) && AllRight(FlushAll(h), lost) && FlushAll(h).at == h.at
    ensures AllTidy(FlushAll(h)) <==> AllTidy(h)
  {
    var f := FlushAll(h);
    forall x ensures CellOf(f, x) { assert CellOf(h, x); }
    forall c ensures InUse(f, c) { assert InUse(h, c); }
    forall x ensures Right(f, x, lost) && TidyAt(f, x) == TidyAt(h, x) {
      assert Right(h, x, lost);
      if x in h.at { FlushAllAt(h, lost, x); }
    }
    if AllTidy(h) { forall x ensures TidyAt(f, x) { assert TidyAt(h, x); } }
    if AllTidy(f) { forall x ensures TidyAt(h, x) { assert TidyAt(f, x); } }
  }

  lemma FlushAllAt(h: Hive, lost: set<Path>, x: Path)
    requires Sound(h) && Right(h, x, lost) && x in h.at
    ensures Right(FlushAll(h), x, lost) && TidyAt(FlushAll(h), x) == TidyAt(h, x)
  {
    var f, r := FlushAll(h), h.at[x];
    var list, d := h.lists[r], h.Of(r);
    if d.Some? && d.value.loaded {
      InOrderFlushed(h.names, list, d.value);
      InsertedAllSorted(Named(h.names, d.value.raw), KeptEntries(d.value.children, d.value.deleted));
      DistinctNames(Content(h.names, list, d));
    } else if d.Some? {
      assert InOrder(d.value) == d.value;
    }
    assert Named(f.names, f.lists[r]) == Content(h.names, list, d);
    forall e ensures e in Content(f.names, f.lists[r], None) <==> Child(f, x, e, lost) {
      assert e in Content(h.names, list, d) <==> Child(h, x, e, lost);
    }
  }
}
