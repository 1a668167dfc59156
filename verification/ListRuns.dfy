/** Deferred mode over whole runs: what the flushed lists show, told by the order in which keys were created and deleted
    and by the cells that the allocator gave (hive/edit/nkedit.go). */
module ListRuns {
  import opened Lex
  import opened SubkeyList
  import opened LazyMerge
  import opened PendingLists
  import opened Registry
  import opened EditLogs
  import opened LogOrders
  import opened ListTraces

  // ----- What is pending for a parent, and the edits of its children -----

  predicate NamesAre(es: seq<Entry>, names: seq<KeyName>) {
    |es| == |names| && forall i :: 0 <= i < |es| ==> es[i].name == names[i]
  }

  /** The names are those of the keys that were there below `p`. */
  ghost predicate OldNames(keys: set<Path>, p: Path, es: seq<Entry>) {
    && (forall i :: 0 <= i < |es| ==> 0 < |es[i].name| && '\\' !in es[i].name && Below(p, es[i].name) in keys)
    && (forall n: KeyName :: Below(p, n) in keys ==> HasName(es, n))
  }

  /** No child is deleted so far: the list is as it was, and the new children wait in the order they came. */
  ghost predicate Waiting(keys: set<Path>, p: Path, made: seq<KeyName>, names: Names, list: seq<int>,
                          d: Option<Batch>)
  {
    && Decodable(names, list) && Sorted(Named(names, list)) && OldNames(keys, p, Named(names, list))
    && (d.None? <==> made == [])
    && (d.Some? ==> d.value.loaded && d.value.deleted == {} && d.value.raw == list && NamesAre(d.value.children, made))
  }

  /** Two of the new children stand in the wrong order. */
  ghost predicate Swapped(names: Names, refs: seq<int>, made: seq<KeyName>) {
    exists x, y :: Precedes(refs, x, y) && x in names && y in names && Less(names[y], names[x])
                && InNames(made, names[x]) && InNames(made, names[y])
  }

  predicate InNames(names: seq<KeyName>, n: string) {
    exists i :: 0 <= i < |names| && names[i] == n
  }

  /** A child is deleted: the list was written then, in order or not, and is sorted again with the next new child. */
  ghost predicate AfterCut(keys: set<Path>, log: Log, p: Path, names: Names, list: seq<int>, d: Option<Batch>) {
    && d.Some? && d.value.deleted != {} && Legible(names, list, d) && (d.value.loaded ==> d.value.raw == [])
    && (Late(log, p) ==> Tidy(names, list, d))
    && (!Late(log, p) ==> !d.value.loaded)
    && (!Late(log, p) && NoneBetween(keys, p, Early(log, p)) ==>
          if Increasing(Early(log, p)) then Tidy(names, list, d)
          else Swapped(names, KeptRefs(list, d.value.deleted), Early(log, p)))
  }

  ghost predicate LinkedTo(keys: set<Path>, log: Log, p: Path, names: Names, list: seq<int>, d: Option<Batch>) {
    if CutBelow(log, p) then AfterCut(keys, log, p, names, list, d)
    else Waiting(keys, p, MadeBelow(log, p), names, list, d)
  }

  ghost predicate Linked(keys: set<Path>, log: Log, h: Hive, p: Path) {
    p in h.at ==> h.at[p] in h.lists && LinkedTo(keys, log, p, h.names, h.lists[h.at[p]], h.Of(h.at[p]))
  }

  lemma LinkedFrame(keys: set<Path>, log: Log, p: Path, a: Names, b: Names, list: seq<int>, d: Option<Batch>)
    requires LinkedTo(keys, log, p, a, list, d) && Fair(a, list, d) && SameOn(a, b, Needs(list, d))
    ensures LinkedTo(keys, log, p, b, list, d)
  {
    FairFrame(a, b, list, d);
    if CutBelow(log, p) {
      if !Late(log, p) && NoneBetween(keys, p, Early(log, p)) && !Increasing(Early(log, p)) {
        SwappedFrame(a, b, KeptRefs(list, d.value.deleted), Early(log, p));
      }
    } else {
      if d.Some? { assert forall i :: 0 <= i < |list| ==> Needs(list, d)[i] == list[i]; }
      NamedSame(a, b, list);
    }
  }

  lemma SwappedFrame(a: Names, b: Names, refs: seq<int>, made: seq<KeyName>)
    requires Swapped(a, refs, made) && SameOn(a, b, refs)
    ensures Swapped(b, refs, made)
  {
    var x, y :| Precedes(refs, x, y) && x in a && y in a && Less(a[y], a[x])
      && InNames(made, a[x]) && InNames(made, a[y]);
    var i, j :| 0 <= i < j < |refs| && refs[i] == x && refs[j] == y;
    assert b[x] == a[x] && b[y] == a[y];
  }

  lemma LinkedSame(keys: set<Path>, log: Log, e: Edit, p: Path, names: Names, list: seq<int>, d: Option<Batch>)
    requires LinkedTo(keys, log, p, names, list, d) && (e.key == [] || Above(e.key) != p)
    ensures LinkedTo(keys, log + [e], p, names, list, d)
  {
    OrderSame(log, e, p);
  }

  /** One more new child. */
  lemma MadeLinks(keys: set<Path>, log: Log, q: Path, names: Names, list: seq<int>, d: Option<Batch>, ref: int)
    requires q != [] && ref !in names && Fair(names, list, d) && LinkedTo(keys, log, Above(q), names, list, d)
    ensures var names' := names[ref := Last(q)];
      LinkedTo(keys, log + [Made(q)], Above(q), names', list, Some(WithChild(names', list, d, Entry(Last(q), ref))))
  {
    var p, names' := Above(q), names[ref := Last(q)];
    OrderNext(log, Made(q), p);
    EarlyFirst(log, p);
    if !CutBelow(log, p) {
      NamedSame(names, names', list);
    }
  }

  /** Of new children in order, none is dropped, whatever the old names. */
  lemma IncreasingNoneBetween(keys: set<Path>, p: Path, names: seq<KeyName>)
    requires Increasing(names)
    ensures NoneBetween(keys, p, names)
  {
    forall i, j, o: KeyName ensures !LiesBetween(keys, p, names, i, j, o) {
      if 0 <= i < j < |names| && Less(names[j], o) && Less(o, names[i]) {
        Transitive(names[j], o, names[i]);
        Transitive(names[j], names[i], names[j]);
        Irreflexive(names[j]);
      }
    }
  }

  /** A new child goes back behind an earlier one exactly where an old name lies between the two. */
  lemma BackOne(keys: set<Path>, p: Path, es: seq<Entry>, added: seq<Entry>, made: seq<KeyName>, i: nat, j: nat)
    requires OldNames(keys, p, es) && NamesAre(added, made) && NewNames(es, added) && i < j < |added|
    ensures GoesBack(es, added, i, j) <==> exists o: KeyName :: LiesBetween(keys, p, made, i, j, o)
  {
    if o: KeyName :| LiesBetween(keys, p, made, i, j, o) {
      assert Below(p, o) in keys;
      var k :| 0 <= k < |es| && es[k].name == o;
      Trichotomy(o, made[j]);
    }
    if GoesBack(es, added, i, j) {
      var k :| 0 <= k < |es| && Less(es[k].name, added[i].name) && !Less(es[k].name, added[j].name);
      Total(es[k].name, added[j].name);
      assert !HasName(es, added[j].name);
      assert Below(p, es[k].name) == p + [es[k].name];
      assert LiesBetween(keys, p, made, i, j, es[k].name);
    }
  }

  lemma BackIff(keys: set<Path>, p: Path, es: seq<Entry>, added: seq<Entry>, made: seq<KeyName>)
    requires OldNames(keys, p, es) && NamesAre(added, made) && NewNames(es, added)
    ensures NeverBack(es, added) <==> NoneBetween(keys, p, made)
  {
    if NeverBack(es, added) {
      forall i, j, o: KeyName ensures !LiesBetween(keys, p, made, i, j, o) {
        if 0 <= i < j < |made| {
          BackOne(keys, p, es, added, made, i, j);
          assert !GoesBack(es, added, i, j);
        }
      }
    }
    if NoneBetween(keys, p, made) {
      forall i, j | 0 <= i < j < |added| ensures !GoesBack(es, added, i, j) {
        BackOne(keys, p, es, added, made, i, j);
        assert forall o: KeyName :: !LiesBetween(keys, p, made, i, j, o);
      }
    }
  }

  /** The deletion of the key `nk` below `p`, which was there and is not a new one. */
  ghost predicate OldCut(keys: set<Path>, log: Log, q: Path, names: Names, nk: int) {
    q != [] && q in keys && nk in names && names[nk] == Last(q) && !InNames(MadeBelow(log, Above(q)), Last(q))
  }

  ghost function AfterFlush(names: Names, list: seq<int>, d: Option<Batch>): seq<int>
    requires Fair(names, list, d)
  {
    if d.None? then list else Flushed(names, list, d.value)
  }

  lemma CutLinks(keys: set<Path>, log: Log, q: Path, names: Names, list: seq<int>, d: Option<Batch>, nk: int,
                 names': Names)
    requires OldCut(keys, log, q, names, nk) && Fair(names, list, d) && LinkedTo(keys, log, Above(q), names, list, d)
    requires SameOn(names, names', KeptRefs(AfterFlush(names, list, d), {nk}))
    ensures LinkedTo(keys, log + [Cut(q)], Above(q), names', AfterFlush(names, list, d), Some(CutOff(nk)))
  {
    var p, now := Above(q), log + [Cut(q)];
    OrderNext(log, Cut(q), p);
    EarlyFirst(log, p);
    if CutBelow(log, p) {
      LaterCut(keys, log, q, names, list, d, nk);
    } else {
      FirstCut(keys, log, q, names, list, d, nk);
    }
    var list', d' := AfterFlush(names, list, d), Some(CutOff(nk));
    assert AfterCut(keys, now, p, names, list', d');
    FlushedFair(names, list, d, nk);
    LinkedFrame(keys, now, p, names, names', list', d');
  }

  lemma FlushedFair(names: Names, list: seq<int>, d: Option<Batch>, nk: int)
    requires Fair(names, list, d)
    ensures Fair(names, AfterFlush(names, list, d), None)
    ensures Fair(names, AfterFlush(names, list, d), Some(CutOff(nk)))
  {
    if d.Some? { FlushFair(names, list, d.value); }
    KeptStayDistinct(names, AfterFlush(names, list, d), {nk});
  }

  /** A list in order stays in order without the deleted child. */
  lemma TidyCut(names: Names, list: seq<int>, nk: int)
    requires Fair(names, list, None) && Tidy(names, list, None)
    ensures Legible(names, list, Some(CutOff(nk))) && Tidy(names, list, Some(CutOff(nk)))
  {
    KeptStaySorted(names, list, {nk});
  }

  lemma SwappedCut(names: Names, refs: seq<int>, made: seq<KeyName>, nk: int)
    requires Swapped(names, refs, made) && nk in names && !InNames(made, names[nk])
    ensures Swapped(names, KeptRefs(refs, {nk}), made)
  {
    var x, y :| Precedes(refs, x, y) && x in names && y in names && Less(names[y], names[x])
      && InNames(made, names[x]) && InNames(made, names[y]);
    KeptPrecedes(refs, {nk}, x, y);
  }

  lemma LaterCut(keys: set<Path>, log: Log, q: Path, names: Names, list: seq<int>, d: Option<Batch>, nk: int)
    requires OldCut(keys, log, q, names, nk) && Fair(names, list, d) && CutBelow(log, Above(q))
    requires AfterCut(keys, log, Above(q), names, list, d)
    ensures AfterCut(keys, log + [Cut(q)], Above(q), names, AfterFlush(names, list, d), Some(CutOff(nk)))
  {
    var p := Above(q);
    OrderNext(log, Cut(q), p);
    EarlyFirst(log, p);
    FlushedFair(names, list, d, nk);
    FlushTidy(names, list, d.value);
    if Tidy(names, list, d) {
      TidyCut(names, AfterFlush(names, list, d), nk);
    }
    if !Late(log, p) && NoneBetween(keys, p, Early(log, p)) && !Increasing(Early(log, p)) {
      assert forall n :: InNames(Early(log, p), n) ==> InNames(MadeBelow(log, p), n);
      SwappedCut(names, KeptRefs(list, d.value.deleted), Early(log, p), nk);
    }
  }

  lemma FirstCut(keys: set<Path>, log: Log, q: Path, names: Names, list: seq<int>, d: Option<Batch>, nk: int)
    requires OldCut(keys, log, q, names, nk) && Fair(names, list, d) && !CutBelow(log, Above(q))
    requires Waiting(keys, Above(q), MadeBelow(log, Above(q)), names, list, d)
    ensures AfterCut(keys, log + [Cut(q)], Above(q), names, AfterFlush(names, list, d), Some(CutOff(nk)))
  {
    var p, made := Above(q), MadeBelow(log, Above(q));
    OrderNext(log, Cut(q), p);
    FlushedFair(names, list, d, nk);
    if d.None? {
      TidyCut(names, list, nk);
    } else {
      FirstMerge(keys, q, made, names, list, d, nk);
      if Increasing(made) {
        TidyCut(names, AfterFlush(names, list, d), nk);
      } else if NoneBetween(keys, p, made) {
        SwappedCut(names, AfterFlush(names, list, d), made, nk);
      }
    }
  }

  /** The merge of the children created before the first deletion. */
  lemma FirstMerge(keys: set<Path>, q: Path, made: seq<KeyName>, names: Names, list: seq<int>, d: Option<Batch>,
                   nk: int)
    requires q != [] && q in keys && Fair(names, list, d) && d.Some? && Waiting(keys, Above(q), made, names, list, d)
    ensures Legible(names, AfterFlush(names, list, d), None)
    ensures Dropped(names, d.value) == [] <==> NoneBetween(keys, Above(q), made)
    ensures Increasing(made) ==> Tidy(names, AfterFlush(names, list, d), None)
    ensures !Increasing(made) && NoneBetween(keys, Above(q), made) ==> Swapped(names, AfterFlush(names, list, d), made)
  {
    var b, p := d.value, Above(q);
    IsBelow(q);
    assert HasName(Named(names, list), Last(q)) by { assert Below(p, Last(q)) in keys; }
    assert list != [];
    AllKept(b.children);
    FlushFair(names, list, b);
    FlushTidy(names, list, b);
    DroppedIff(names, list, b);
    BackIff(keys, p, Named(names, list), b.children, made);
    if !Increasing(made) && NoneBetween(keys, p, made) {
      var i, j :| 0 <= i < j < |made| && !Less(made[i], made[j]);
      Total(made[i], made[j]);
      MergePrecedes(names, list, b, i, j);
    }
  }

  // ----- What the flushes of a run drop -----

  lemma DroppedByIff(h: Hive, p: Path, lost: set<Path>)
    requires Sound(h) && Right(h, p, lost) && p in h.at && h.at[p] in h.pending
    ensures Legible(h.names, h.lists[h.at[p]], h.Of(h.at[p])) && Decodable(h.names, h.pending[h.at[p]].raw)
    ensures DroppedBy(h, p) == {} <==> Dropped(h.names, h.pending[h.at[p]]) == []
  {
    var r := h.at[p];
    var b := h.pending[r];
    var dropped := Dropped(h.names, b);
    if dropped != [] {
      var e := dropped[0];
      AllKept(b.children);
      InsertedAllIs(Named(h.names, b.raw), b.children);
      assert e in b.children && e in Content(h.names, h.lists[r], h.Of(r));
      assert Child(h, p, e, lost);
      BelowAbove(p, e.name);
      assert Below(p, e.name) in DroppedBy(h, p);
    }
  }

  /** The keys whose entries are dropped by a flush before a deletion. */
  ghost function DroppedIn(h: Hive, log: Log, refs: seq<int>): set<Path>
    requires |refs| == |log|
  {
    if log == [] then {}
    else
      var n := |log| - 1;
      var before, e := DroppedIn(h, log[..n], refs[..n]), log[n];
      if e.Cut? && e.key != [] then before + DroppedBy(Run(h, log[..n], refs[..n]), Above(e.key)) else before
  }

  /** A child of `p` is dropped exactly if an old name lay between two new ones in the wrong order. */
  ghost predicate DroppedAt(keys: set<Path>, log: Log, dropped: set<Path>, p: Path) {
    (exists x :: x in dropped && x != [] && Above(x) == p)
    <==> CutBelow(log, p) && !NoneBetween(keys, p, Early(log, p))
  }

  // ----- Midway through a run -----

  ghost predicate OnTheWay(h: Hive, keys: set<Path>, log: Log, lost: set<Path>) {
    && Sound(h) && AllRight(h, lost) && ClosedKeys(h.at.Keys) && h.at.Keys == KeysAfter(keys, log)
    && lost <= h.at.Keys && (forall q :: q in lost ==> q != [] && Made(q) in log)
    && forall p {:trigger Linked(keys, log, h, p)} :: Linked(keys, log, h, p)
  }

  lemma Start(h: Hive, keys: set<Path>)
    requires Shows(h, keys) && ClosedKeys(keys)
    ensures OnTheWay(h, keys, [], {})
  {
    forall p ensures Linked(keys, [], h, p) {
      assert Right(h, p, {}) && TidyAt(h, p);
      if p in h.at {
        var es := Named(h.names, h.lists[h.at[p]]);
        forall n: KeyName | Below(p, n) in keys ensures HasName(es, n) {
          var e := Entry(n, h.at[Below(p, n)]);
          assert Child(h, p, e, {}) && e in es;
        }
        forall i | 0 <= i < |es| ensures 0 < |es[i].name| && '\\' !in es[i].name && Below(p, es[i].name) in keys {
          assert Child(h, p, es[i], {});
        }
      }
    }
  }

  /** No child of a key that is created is created or deleted before, and none was there. */
  lemma FreshKey(keys: set<Path>, log: Log, q: Path)
    requires ClosedKeys(keys) && ValidLog(keys, log) && q !in KeysAfter(keys, log) && CutsAlone(log + [Made(q)])
    ensures q !in keys && forall n: KeyName :: Below(q, n) !in keys
    ensures forall i :: 0 <= i < |log| && log[i].key != [] ==> Above(log[i].key) != q
  {
    var now, n := log + [Made(q)], |log|;
    assert now[n] == Made(q) && log[..n] == log && log[..0] == [] && forall c :: 0 <= c < n ==> now[c] == log[c];
    forall i | 0 <= i <= n ensures q !in KeysAfter(keys, log[..i]) {
      if q in KeysAfter(keys, log[..i]) {
        WasCut(keys, log, i, n, q);
      }
    }
    forall i | 0 <= i < n && log[i].key != [] ensures Above(log[i].key) != q {
      ValidAt(keys, log, i);
      KeysClosed(keys, log[..i]);
      assert KeyAbove(KeysAfter(keys, log[..i]), log[i].key);
    }
    forall m: KeyName ensures Below(q, m) !in keys {
      BelowAbove(q, m);
      assert KeyAbove(keys, Below(q, m)) && q !in KeysAfter(keys, log[..0]);
    }
  }

  lemma MadeLinked(h: Hive, keys: set<Path>, log: Log, lost: set<Path>, q: Path, ref: int, p: Path)
    requires OnTheWay(h, keys, log, lost) && ClosedKeys(keys) && ValidLog(keys, log)
    requires ValidEdit(h.at.Keys, Made(q)) && CutsAlone(log + [Made(q)]) && ref !in h.names
    ensures Linked(keys, log + [Made(q)], MadeStep(h, q, ref), p)
  {
    var m := MadeStep(h, q, ref);
    assert Linked(keys, log, h, p) && Linked(keys, log, h, Above(q)) && Right(h, p, lost) && Right(h, Above(q), lost);
    assert CellOf(h, p) && CellOf(h, Above(q));
    if p == q {
      FreshKey(keys, log, q);
      NoneMade(log, q);
      CutBelowIff(log, q);
      OrderSame(log, Made(q), q);
      assert m.lists[ref] == [] && m.Of(ref) == None;
    } else if p == Above(q) {
      MadeLinks(keys, log, q, h.names, h.lists[h.at[p]], h.Of(h.at[p]), ref);
    } else if p in h.at {
      MadeOther(h, q, ref, lost, p);
      LinkedFrame(keys, log, p, h.names, m.names, h.lists[h.at[p]], h.Of(h.at[p]));
      LinkedSame(keys, log, Made(q), p, m.names, h.lists[h.at[p]], h.Of(h.at[p]));
    }
  }

  lemma MadeOnTheWay(h: Hive, keys: set<Path>, log: Log, lost: set<Path>, q: Path, ref: int)
    requires OnTheWay(h, keys, log, lost) && ClosedKeys(keys) && ValidLog(keys, log)
    requires ValidEdit(h.at.Keys, Made(q)) && CutsAlone(log + [Made(q)]) && ref !in h.names
    ensures OnTheWay(MadeStep(h, q, ref), keys, log + [Made(q)], lost + LostBy(h, q, ref))
  {
    var m, now := MadeStep(h, q, ref), log + [Made(q)];
    assert now[..|log|] == log && now[|log|] == Made(q);
    assert Linked(keys, log, h, Above(q));
    MadeSound(h, q, ref);
    MadeRight(h, q, ref, lost);
    forall p ensures KeyAbove(m.at.Keys, p) { assert KeyAbove(h.at.Keys, p); }
    forall x | x in lost + LostBy(h, q, ref) ensures x != [] && Made(x) in now {
      if x in lost { assert Made(x) in log; }
    }
    forall p ensures Linked(keys, now, m, p) {
      MadeLinked(h, keys, log, lost, q, ref, p);
    }
  }

  /** A key can be deleted: nothing below it is pending, and it is not a new key. */
  lemma IsCuttable(h: Hive, keys: set<Path>, log: Log, lost: set<Path>, q: Path)
    requires OnTheWay(h, keys, log, lost) && ValidEdit(h.at.Keys, Cut(q)) && CutsAlone(log + [Cut(q)])
    ensures Cuttable(h, q, lost)
    ensures forall i :: 0 <= i < |log| && log[i].Made? ==> !(q <= log[i].key)
  {
    var now, n, p := log + [Cut(q)], |log|, Above(q);
    assert now[n] == Cut(q) && forall i :: 0 <= i < n ==> now[i] == log[i];
    assert KeyAbove(h.at.Keys, q);
    forall x | x in h.at && q <= x ensures h.at[x] !in h.pending && x !in lost {
      assert Linked(keys, log, h, x);
      forall i | 0 <= i < n && log[i].key != [] ensures Above(log[i].key) != x {
        assert Above(log[i].key) <= log[i].key && |Above(log[i].key)| < |log[i].key|;
      }
      NoneMade(log, x);
      CutBelowIff(log, x);
    }
    assert Linked(keys, log, h, p);
    if q in DroppedBy(h, p) {
      DroppedMade(h, keys, log, p, q);
    }
  }

  lemma CutLinked(h: Hive, keys: set<Path>, log: Log, lost: set<Path>, q: Path, p: Path)
    requires OnTheWay(h, keys, log, lost) && ClosedKeys(keys) && ValidLog(keys, log)
    requires ValidEdit(h.at.Keys, Cut(q)) && CutsAlone(log + [Cut(q)])
    ensures Linked(keys, log + [Cut(q)], CutStep(h, q), p)
  {
    var c := CutStep(h, q);
    IsCuttable(h, keys, log, lost, q);
    assert Linked(keys, log, h, p) && Right(h, p, lost);
    if p == Above(q) {
      CutParent(h, q, lost);
      FlushedRight(h, p, lost);
      IsOldCut(h, keys, log, q);
      CutLinks(keys, log, q, h.names, h.lists[h.at[p]], h.Of(h.at[p]), h.at[q], c.names);
    } else if p in c.at {
      CutOther(h, q, lost, p);
      LinkedFrame(keys, log, p, h.names, c.names, h.lists[h.at[p]], h.Of(h.at[p]));
      LinkedSame(keys, log, Cut(q), p, c.names, h.lists[h.at[p]], h.Of(h.at[p]));
    }
  }

  lemma IsOldCut(h: Hive, keys: set<Path>, log: Log, q: Path)
    requires Sound(h) && h.at.Keys == KeysAfter(keys, log) && q != [] && q in h.at && ValidLog(keys, log)
    requires forall i :: 0 <= i < |log| && log[i].Made? ==> !(q <= log[i].key)
    ensures OldCut(keys, log, q, h.names, h.at[q])
  {
    assert CellOf(h, q) && log[..|log|] == log && log[..0] == [];
    MadeBelowHas(log, Above(q), Last(q));
    IsBelow(q);
    if q !in keys {
      WasMade(keys, log, 0, |log|, q);
    }
  }

  lemma CutOnTheWay(h: Hive, keys: set<Path>, log: Log, lost: set<Path>, q: Path)
    requires OnTheWay(h, keys, log, lost) && ClosedKeys(keys) && ValidLog(keys, log)
    requires ValidEdit(h.at.Keys, Cut(q)) && CutsAlone(log + [Cut(q)])
    ensures OnTheWay(CutStep(h, q), keys, log + [Cut(q)], lost + DroppedBy(h, Above(q)))
  {
    var c, now, p := CutStep(h, q), log + [Cut(q)], Above(q);
    assert now[..|log|] == log && now[|log|] == Cut(q);
    IsCuttable(h, keys, log, lost, q);
    CutSound(h, q, lost);
    CutRight(h, q, lost);
    forall x ensures KeyAbove(c.at.Keys, x) {
      assert KeyAbove(h.at.Keys, x);
      if x != [] && q <= Above(x) { assert q <= x; }
    }
    forall x | x in lost + DroppedBy(h, p) ensures x in c.at.Keys && x != [] && Made(x) in now {
      if x !in lost { DroppedMade(h, keys, log, p, x); }
      assert Made(x) in log;
      var i :| 0 <= i < |log| && log[i] == Made(x);
      assert !(q <= log[i].key);
    }
    forall x ensures Linked(keys, now, c, x) {
      CutLinked(h, keys, log, lost, q, x);
    }
  }

  /** Only new keys are dropped. */
  lemma DroppedMade(h: Hive, keys: set<Path>, log: Log, p: Path, x: Path)
    requires Linked(keys, log, h, p) && x in DroppedBy(h, p)
    ensures x in h.at && x != [] && Made(x) in log
  {
    var b := h.pending[h.at[p]];
    var e := Entry(Last(x), h.at[x]);
    assert e in b.children;
    var k :| 0 <= k < |b.children| && b.children[k] == e;
    IsBelow(x);
    MadeBelowHas(log, p, Last(x));
  }

  ghost predicate AllDropped(keys: set<Path>, log: Log, dropped: set<Path>) {
    forall p {:trigger DroppedAt(keys, log, dropped, p)} :: DroppedAt(keys, log, dropped, p)
  }

  /** The flush before a deletion drops keys only if it is the first below the parent. */
  lemma DroppedFirst(h: Hive, keys: set<Path>, log: Log, lost: set<Path>, q: Path)
    requires OnTheWay(h, keys, log, lost) && ClosedKeys(keys) && ValidLog(keys, log)
    requires ValidEdit(h.at.Keys, Cut(q)) && CutsAlone(log + [Cut(q)])
    ensures DroppedBy(h, Above(q)) == {} <==>
            CutBelow(log, Above(q)) || NoneBetween(keys, Above(q), MadeBelow(log, Above(q)))
  {
    var p := Above(q);
    assert KeyAbove(h.at.Keys, q) && Linked(keys, log, h, p) && Right(h, p, lost);
    IsCuttable(h, keys, log, lost, q);
    IsOldCut(h, keys, log, q);
    if h.at[p] in h.pending {
      DroppedByIff(h, p, lost);
      if !CutBelow(log, p) {
        FirstMerge(keys, q, MadeBelow(log, p), h.names, h.lists[h.at[p]], h.Of(h.at[p]), h.at[q]);
      }
    }
  }

  lemma DroppedCut(keys: set<Path>, log: Log, dropped: set<Path>, more: set<Path>, q: Path, x: Path)
    requires q != [] && DroppedAt(keys, log, dropped, x) && forall y :: y in more ==> y != [] && Above(y) == Above(q)
    requires more == {} <==> CutBelow(log, Above(q)) || NoneBetween(keys, Above(q), MadeBelow(log, Above(q)))
    ensures DroppedAt(keys, log + [Cut(q)], dropped + more, x)
  {
    OrderNext(log, Cut(q), x);
    EarlyFirst(log, x);
    if x == Above(q) && more != {} {
      var y := OneOfPaths(more);
      assert y in dropped + more;
    }
    if y :| y in dropped && y != [] && Above(y) == x {
      assert y in dropped + more;
    }
  }

  lemma OneOfPaths(s: set<Path>) returns (x: Path)
    requires s != {}
    ensures x in s
  {
    x :| x in s;
  }

  lemma DroppedMore(keys: set<Path>, log: Log, dropped: set<Path>, more: set<Path>, e: Edit)
    requires e.key != [] && AllDropped(keys, log, dropped)
    requires e.Made? ==> more == {}
    requires e.Cut? ==>
      && (forall y :: y in more ==> y != [] && Above(y) == Above(e.key))
      && (more == {} <==> CutBelow(log, Above(e.key)) || NoneBetween(keys, Above(e.key), MadeBelow(log, Above(e.key))))
    ensures AllDropped(keys, log + [e], dropped + more)
  {
    forall x ensures DroppedAt(keys, log + [e], dropped + more, x) {
      assert DroppedAt(keys, log, dropped, x);
      if e.Cut? {
        DroppedCut(keys, log, dropped, more, e.key, x);
      } else {
        OrderNext(log, e, x);
        assert dropped + more == dropped;
      }
    }
  }

  ghost function AllLost(h: Hive, log: Log, refs: seq<int>): set<Path>
    requires |refs| == |log|
  {
    Lost(h, log, refs) + DroppedIn(h, log, refs)
  }

  /** What is known midway, of the run so far. */
  ghost predicate ComeSoFar(h: Hive, keys: set<Path>, log: Log, refs: seq<int>) {
    && |refs| == |log|
    && OnTheWay(Run(h, log, refs), keys, log, AllLost(h, log, refs))
    && AllDropped(keys, log, DroppedIn(h, log, refs))
  }

  lemma LostNext(h: Hive, log: Log, refs: seq<int>, e: Edit, ref: int)
    requires |refs| == |log| && e.key != []
    ensures var m := Run(h, log, refs); var now, cells := log + [e], refs + [ref];
      && Run(h, now, cells) == Step(m, e, ref)
      && DroppedIn(h, now, cells) == DroppedIn(h, log, refs) + (if e.Cut? then DroppedBy(m, Above(e.key)) else {})
      && AllLost(h, now, cells) == AllLost(h, log, refs) +
                                   (if e.Cut? then DroppedBy(m, Above(e.key)) else LostBy(m, e.key, ref))
  {
    assert (log + [e])[..|log|] == log && (refs + [ref])[..|log|] == refs;
  }

  lemma LastEdit(keys: set<Path>, log: Log)
    requires log != [] && ValidLog(keys, log)
    ensures var n := |log| - 1;
      log == log[..n] + [log[n]] && ValidLog(keys, log[..n]) && ValidEdit(KeysAfter(keys, log[..n]), log[n])
  {
  }

  lemma LastCell(h: Hive, log: Log, refs: seq<int>)
    requires |refs| == |log| && log != [] && NewCells(h, log, refs)
    ensures var n := |log| - 1;
      && refs == refs[..n] + [refs[n]] && NewCells(h, log[..n], refs[..n])
      && (log[n].Made? ==> refs[n] !in Run(h, log[..n], refs[..n]).names)
  {
  }

  lemma RunGoesOn(h: Hive, keys: set<Path>, log: Log, refs: seq<int>)
    requires ClosedKeys(keys) && ValidLog(keys, log) && CutsAlone(log) && log != []
    requires |refs| == |log| && NewCells(h, log, refs) && ComeSoFar(h, keys, log[..|log| - 1], refs[..|log| - 1])
    ensures ComeSoFar(h, keys, log, refs)
  {
    var n := |log| - 1;
    var before, cells, e := log[..n], refs[..n], log[n];
    var m, lost, dropped := Run(h, before, cells), AllLost(h, before, cells), DroppedIn(h, before, cells);
    LastEdit(keys, log);
    LastCell(h, log, refs);
    LostNext(h, before, cells, e, refs[n]);
    match e {
      case Made(q) =>
        MadeOnTheWay(m, keys, before, lost, q, refs[n]);
        DroppedMore(keys, before, dropped, {}, e);
      case Cut(q) =>
        CutOnTheWay(m, keys, before, lost, q);
        DroppedFirst(m, keys, before, lost, q);
        DroppedMore(keys, before, dropped, DroppedBy(m, Above(q)), e);
    }
  }

  lemma {:induction false} RunOnTheWay(h: Hive, keys: set<Path>, log: Log, refs: seq<int>)
    requires Shows(h, keys) && ClosedKeys(keys) && ValidLog(keys, log) && CutsAlone(log)
    requires |refs| == |log| && NewCells(h, log, refs)
    ensures ComeSoFar(h, keys, log, refs)
  {
    if log == [] {
      assert AllLost(h, log, refs) == {};
      Start(h, keys);
    } else {
      CutsAlonePrefix(log);
      RunOnTheWay(h, keys, log[..|log| - 1], refs[..|log| - 1]);
      RunGoesOn(h, keys, log, refs);
    }
  }

  // ----- What the lists show in the end -----

  /** A parent one of whose children is deleted stays. */
  lemma CutParentStays(keys: set<Path>, log: Log, p: Path)
    requires ClosedKeys(keys) && ValidLog(keys, log) && CutsAlone(log) && CutBelow(log, p)
    ensures p in KeysAfter(keys, log)
  {
    CutBelowIff(log, p);
    var i :| 0 <= i < |log| && log[i].Cut? && log[i].key != [] && Above(log[i].key) == p;
    ValidAt(keys, log, i);
    KeysClosed(keys, log[..i]);
    assert KeyAbove(KeysAfter(keys, log[..i]), log[i].key) && log[..|log|] == log;
    forall c | i <= c < |log| && log[c].Cut? ensures !(log[c].key <= p) {
      assert p <= log[i].key && |p| < |log[i].key|;
    }
    if p !in KeysAfter(keys, log) {
      WasCut(keys, log, i, |log|, p);
    }
  }

  /** A parent's list is in order in the end exactly if its new children came in order or were sorted later. */
  lemma LinkedTidyIff(h: Hive, keys: set<Path>, log: Log, p: Path)
    requires Linked(keys, log, h, p) && p in h.at && (CutBelow(log, p) ==> NoneBetween(keys, p, Early(log, p)))
    ensures TidyAt(h, p) <==> OrderedAt(keys, log, p)
  {
    var r := h.at[p];
    if CutBelow(log, p) && !Late(log, p) && !Increasing(Early(log, p)) {
      var refs := KeptRefs(h.lists[r], h.pending[r].deleted);
      var x, y :| Precedes(refs, x, y) && x in h.names && y in h.names && Less(h.names[y], h.names[x])
        && InNames(Early(log, p), h.names[x]) && InNames(Early(log, p), h.names[y]);
      PrecedesUntidy(h.names, refs, x, y);
    }
  }

  lemma TidyIff(h: Hive, keys: set<Path>, log: Log, lost: set<Path>, dropped: set<Path>)
    requires OnTheWay(h, keys, log, lost) && ClosedKeys(keys) && ValidLog(keys, log) && CutsAlone(log)
    requires AllDropped(keys, log, dropped)
    ensures AllTidy(h) && dropped == {} <==> MadeInOrder(keys, log) && dropped == {}
    ensures MadeInOrder(keys, log) ==> forall x :: x in dropped ==> x == []
  {
    forall p ensures CutBelow(log, p) ==> p in h.at {
      if CutBelow(log, p) { CutParentStays(keys, log, p); }
    }
    if dropped == {} {
      forall p ensures TidyAt(h, p) <==> OrderedAt(keys, log, p) {
        assert DroppedAt(keys, log, dropped, p) && Linked(keys, log, h, p);
        if p in h.at { LinkedTidyIff(h, keys, log, p); }
      }
    }
    forall x | x in dropped && x != [] ensures !OrderedAt(keys, log, Above(x)) {
      assert DroppedAt(keys, log, dropped, Above(x));
    }
  }

  lemma SomethingLost(f: Hive, lost: set<Path>)
    requires Sound(f) && ClosedKeys(f.at.Keys) && AllRight(f, lost) && lost <= f.at.Keys
    requires forall q :: q in lost ==> q != []
    ensures lost != {} ==> !AllRight(f, {})
  {
    if lost != {} {
      var q :| q in lost;
      var p, e := Above(q), Entry(Last(q), f.at[q]);
      IsBelow(q);
      assert KeyAbove(f.at.Keys, q);
      assert Right(f, p, lost);
      assert Child(f, p, e, {}) && !Child(f, p, e, lost);
      assert !Right(f, p, {});
    }
  }

  /** Deferred mode leaves the lists on disk showing exactly the keys there are to be, in order, if and only if no key
      got the cell of a sibling whose deletion was still to be flushed, and the children created before the first
      deletion of a sibling came in order: with no old name between two of them that came in the wrong order, and in the
      order of their names unless a child is created after. For every run in which nothing is created at or below a
      deleted key, and no key is deleted after one below it. */
  lemma FlushShowsIff(h: Hive, keys: set<Path>, log: Log, refs: seq<int>)
    requires Shows(h, keys) && ClosedKeys(keys) && ValidLog(keys, log) && CutsAlone(log)
    requires |refs| == |log| && NewCells(h, log, refs)
    ensures Shows(FlushAll(Run(h, log, refs)), KeysAfter(keys, log)) <==>
            Lost(h, log, refs) == {} && MadeInOrder(keys, log)
  {
    var m, lost, dropped := Run(h, log, refs), AllLost(h, log, refs), DroppedIn(h, log, refs);
    RunOnTheWay(h, keys, log, refs);
    FlushAllRight(m, lost);
    TidyIff(m, keys, log, lost, dropped);
    var f := FlushAll(m);
    assert dropped <= lost;
    SomethingLost(f, lost);
    if Lost(h, log, refs) == {} && MadeInOrder(keys, log) {
      assert dropped == {} by { assert forall x :: x in dropped ==> x != []; }
      assert lost == {};
    }
  }

  // ----- Every allocator -----

  lemma LateMore(log: Log, e: Edit, p: Path)
    requires Late(log, p)
    ensures Late(log + [e], p)
  {
    OrderNext(log, e, p);
    EarlyFirst(log, p);
  }

  lemma MadeFirstPrefix(log: Log)
    requires MadeFirst(log) && log != []
    ensures MadeFirst(log[..|log| - 1])
  {
    var before, e := log[..|log| - 1], log[|log| - 1];
    assert log == before + [e];
    forall p ensures !Late(before, p) {
      if Late(before, p) { LateMore(before, e, p); }
      assert !Late(log, p);
    }
  }

  /** A parent waits for the deletion of a child to be flushed exactly if one was deleted. */
  lemma DeletedIff(h: Hive, keys: set<Path>, log: Log, p: Path)
    requires Linked(keys, log, h, p) && p in h.at
    ensures CutBelow(log, p) <==> h.Of(h.at[p]).Some? && h.Of(h.at[p]).value.deleted != {}
  {
  }

  /** Where no child is created after a sibling's deletion, no key gets the cell of a deleted sibling. */
  lemma {:induction false} MadeFirstNeverLost(h: Hive, keys: set<Path>, log: Log, refs: seq<int>)
    requires Shows(h, keys) && ClosedKeys(keys) && ValidLog(keys, log) && CutsAlone(log) && MadeFirst(log)
    requires |refs| == |log| && NewCells(h, log, refs)
    ensures Lost(h, log, refs) == {}
  {
    if log != [] {
      var n := |log| - 1;
      var before, e := log[..n], log[n];
      assert log == before + [e];
      CutsAlonePrefix(log);
      MadeFirstPrefix(log);
      MadeFirstNeverLost(h, keys, before, refs[..n]);
      RunOnTheWay(h, keys, before, refs[..n]);
      var m := Run(h, before, refs[..n]);
      if e.Made? {
        var p := Above(e.key);
        assert Linked(keys, before, m, p) && !Late(log, p);
        OrderNext(before, e, p);
        EarlyFirst(before, p);
        if p in m.at { DeletedIff(m, keys, before, p); }
      }
    }
  }

  /** No cell that waits for its deletion to be flushed is in use again. */
  ghost predicate Idle(h: Hive) {
    forall r, x :: r in h.pending && x in h.pending[r].deleted ==> x !in h.names
  }

  /** Cells in use or waiting, and another one. */
  lemma Spare(h: Hive) returns (ref: int)
    ensures ref !in h.names && forall r :: r in h.pending ==> ref !in h.pending[r].deleted
  {
    var busy := h.names.Keys + set r, x | r in h.pending && x in h.pending[r].deleted :: x;
    ref := Beyond(busy);
    forall r | r in h.pending ensures ref !in h.pending[r].deleted {
      assert ref in h.pending[r].deleted ==> ref in busy;
    }
  }

  lemma {:induction false} Beyond(s: set<int>) returns (n: int)
    ensures forall x :: x in s ==> x < n
    decreases |s|
  {
    n := 0;
    if s != {} {
      var y := OneOf(s);
      n := Beyond(s - {y});
      assert forall x :: x in s ==> x == y || x in s - {y};
      n := if n <= y then y + 1 else n;
    }
  }

  lemma OneOf(s: set<int>) returns (x: int)
    requires s != {}
    ensures x in s
  {
    assert (forall y :: y !in s) ==> s == {};
    x :| x in s;
  }

  lemma CutIdle(h: Hive, q: Path, lost: set<Path>)
    requires Cuttable(h, q, lost)
    ensures Idle(h) ==> Idle(CutStep(h, q))
  {
    CutIs(h, q, lost);
    assert h.at[q] in CellsBelow(FlushAt(h, h.at[Above(q)]), q);
  }

  /** One more edit, with a cell that loses nothing and is waited for by no one. */
  lemma IdleStep(h: Hive, keys: set<Path>, log: Log, refs: seq<int>, e: Edit) returns (ref: int)
    requires Shows(h, keys) && ClosedKeys(keys) && ValidLog(keys, log + [e]) && |refs| == |log|
    requires NewCells(h, log, refs) && CutsAlone(log + [e])
    ensures NewCells(h, log + [e], refs + [ref])
    ensures Lost(h, log, refs) <= Lost(h, log + [e], refs + [ref])
    ensures Idle(Run(h, log, refs)) ==> Idle(Run(h, log + [e], refs + [ref]))
  {
    var now := log + [e];
    var m, lost := Run(h, log, refs), AllLost(h, log, refs);
    ref := Spare(m);
    assert now[..|log|] == log && (refs + [ref])[..|log|] == refs;
    CutsAlonePrefix(now);
    LogConcat(keys, log, [e]);
    assert [e][..0] == [];
    RunOnTheWay(h, keys, log, refs);
    if e.Cut? {
      IsCuttable(m, keys, log, lost, e.key);
      CutIdle(m, e.key, lost);
    } else {
      assert CellOf(m, Above(e.key));
    }
  }

  /** The cell of the last deleted child, for a key created below the same parent. */
  lemma LosingCell(h: Hive, keys: set<Path>, log: Log, refs: seq<int>, e: Edit) returns (x: int)
    requires Shows(h, keys) && ClosedKeys(keys) && ValidLog(keys, log + [e]) && |refs| == |log|
    requires NewCells(h, log, refs) && CutsAlone(log + [e]) && MadeFirst(log) && !MadeFirst(log + [e])
    requires Idle(Run(h, log, refs))
    ensures e.Made? && x !in Run(h, log, refs).names && Reuses(Run(h, log, refs), e.key, x)
  {
    var now, m := log + [e], Run(h, log, refs);
    var p :| Late(now, p);
    assert now[..|log|] == log && !Late(log, p);
    CutsAlonePrefix(now);
    LogConcat(keys, log, [e]);
    assert [e][..0] == [];
    RunOnTheWay(h, keys, log, refs);
    OrderNext(log, e, p);
    EarlyFirst(log, p);
    assert e.Made? && Above(e.key) == p && CutBelow(log, p);
    assert Linked(keys, log, m, p);
    x := OneOf(m.pending[m.at[p]].deleted);
  }

  /** Where a child is created after a sibling's deletion, some allocator loses it. */
  lemma {:induction false} SomeAllocatorLoses(h: Hive, keys: set<Path>, log: Log) returns (refs: seq<int>)
    requires Shows(h, keys) && ClosedKeys(keys) && ValidLog(keys, log) && CutsAlone(log)
    ensures |refs| == |log| && NewCells(h, log, refs)
    ensures if MadeFirst(log) then Idle(Run(h, log, refs)) else Lost(h, log, refs) != {}
  {
    if log == [] {
      refs := [];
    } else {
      var n := |log| - 1;
      var before, e := log[..n], log[n];
      assert log == before + [e];
      CutsAlonePrefix(log);
      refs := SomeAllocatorLoses(h, keys, before);
      if MadeFirst(log) { MadeFirstPrefix(log); }
      if MadeFirst(before) && !MadeFirst(log) {
        var x := LosingCell(h, keys, before, refs, e);
        assert (refs + [x])[..n] == refs;
        refs := refs + [x];
      } else {
        var ref := IdleStep(h, keys, before, refs, e);
        refs := refs + [ref];
      }
    }
  }

  /** The new children of a parent that has a deleted one are all created before the first deletion, in order. */
  ghost predicate SafeAt(log: Log, p: Path) {
    CutBelow(log, p) ==> !Late(log, p) && Increasing(MadeBelow(log, p))
  }

  ghost predicate Safe(log: Log) {
    forall p {:trigger SafeAt(log, p)} :: SafeAt(log, p)
  }

  lemma SafeIff(keys: set<Path>, log: Log)
    ensures Safe(log) <==> MadeFirst(log) && MadeInOrder(keys, log)
  {
    forall p ensures SafeAt(log, p) <==> !Late(log, p) && OrderedAt(keys, log, p) {
      EarlyFirst(log, p);
      assert !Late(log, p) ==> Early(log, p) == MadeBelow(log, p);
      if Increasing(MadeBelow(log, p)) { IncreasingNoneBetween(keys, p, MadeBelow(log, p)); }
    }
    if Safe(log) {
      forall p ensures !Late(log, p) && OrderedAt(keys, log, p) { assert SafeAt(log, p); }
    }
  }

  /** The lists on disk are right whatever cells the allocator gives exactly when every parent with a deleted child has
      its new children created before the first deletion, in the order of their names. */
  lemma AlwaysShowsIff(h: Hive, keys: set<Path>, log: Log)
    requires Shows(h, keys) && ClosedKeys(keys) && ValidLog(keys, log) && CutsAlone(log)
    ensures (forall refs :: |refs| == |log| && NewCells(h, log, refs) ==>
               Shows(FlushAll(Run(h, log, refs)), KeysAfter(keys, log))) <==> Safe(log)
  {
    SafeIff(keys, log);
    if Safe(log) {
      forall refs | |refs| == |log| && NewCells(h, log, refs)
        ensures Shows(FlushAll(Run(h, log, refs)), KeysAfter(keys, log))
      {
        MadeFirstNeverLost(h, keys, log, refs);
        FlushShowsIff(h, keys, log, refs);
      }
    } else {
      var refs := SomeAllocatorLoses(h, keys, log);
      FlushShowsIff(h, keys, log, refs);
      if MadeFirst(log) { MadeFirstNeverLost(h, keys, log, refs); }
      assert NewCells(h, log, refs);
    }
  }
}
