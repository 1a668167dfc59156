/** Which keys a walk deletes and its second phase creates, and what deferred lists make of them
    (hive/merge/walk_apply.go). */
module WalkOrders {
  import opened Registry
  import opened PlanMeaning
  import opened WalkMeaning
  import opened WalkFill
  import opened EditLogs
  import opened LogOrders
  import opened ListRuns
  import opened DeferredPlans
  import opened PlanOrders
  import opened WalkEdits

  /** No parent has both a key deleted by the walk and a new one created by the second phase. */
  ghost predicate WalkApart(t: Tree, ops: seq<Op>) {
    forall d, e {:trigger PairApart(t, d, e)} ::
      d in ops && e in ops && d.DeleteKey? && Reached(t, ops, d.Path()) && e.Creates() && !Gone(t, ops, e.Path()) ==>
        PairApart(t, d, e)
  }

  /** The same for a plan in which no other operation is on a deleted key or below it. */
  ghost predicate MakesApart(t: Tree, ops: seq<Op>) {
    forall d, e {:trigger PairApart(t, d, e)} :: d in ops && e in ops && d.DeleteKey? && e.Creates() ==>
      PairApart(t, d, e)
  }

  lemma MakesApartIff(t: Tree, ops: seq<Op>)
    requires Closed(t) && Isolated(ops)
    ensures WalkApart(t, ops) <==> MakesApart(t, ops)
  {
    if WalkApart(t, ops) {
      forall d, e | d in ops && e in ops && d.DeleteKey? && e.Creates() ensures PairApart(t, d, e) {
        NotGone(t, ops, e);
        if d.Path() in t && d.Path() != [] { DeletedReached(t, ops, d); }
      }
    }
  }

  lemma NotGone(t: Tree, ops: seq<Op>, e: Op)
    requires Isolated(ops) && e in ops && !e.DeleteKey?
    ensures !Gone(t, ops, e.Path())
  {
    forall d | d in ops && d.DeleteKey? ensures !(d.Path() <= e.Path()) {
      if d.Path() <= e.Path() {
        DeletedNotEnsured(ops, d, e.Path());
        assert EnsuredBy(ops, e.Path());
      }
    }
  }

  lemma DeletedReached(t: Tree, ops: seq<Op>, d: Op)
    requires Isolated(ops) && d in ops && d.DeleteKey? && d.Path() in t && d.Path() != []
    ensures Reached(t, ops, d.Path())
  {
    var i :| 0 <= i < |ops| && ops[i] == d;
    var p := Above(d.Path());
    forall o | o in ops && o.DeleteKey? ensures !(o.Path() <= p) {
      var j :| 0 <= j < |ops| && ops[j] == o;
      assert o.Path() <= p ==> o.Path() <= d.Path() && i != j;
    }
  }

  // ----- The deleted keys -----

  /** A walk that has been through everything, and the keys it has deleted. */
  ghost predicate WalkedOnce(t: Tree, ops: seq<Op>, mid: State, log: Log) {
    && Closed(t) && WalkedBelow(t, ops, mid, []) && TopDown(ops, log)
    && Edited(t.Keys, [], mid.tree.Keys, log, [], true)
  }

  lemma Cuts(t: Tree, ops: seq<Op>, mid: State, log: Log)
    requires WalkedOnce(t, ops, mid, log)
    ensures ValidLog(t.Keys, log) && mid.tree.Keys == KeysAfter(t.Keys, log)
    ensures forall i :: 0 <= i < |log| ==> log[i].Cut?
  {
    assert log[0..] == log;
  }

  lemma CutWasThere(t: Tree, ops: seq<Op>, mid: State, log: Log, i: nat)
    requires WalkedOnce(t, ops, mid, log) && i < |log|
    ensures log[i].key in t && log[i].key != [] && DeletedAt(ops, log[i].key)
    ensures log[i].key in KeysAfter(t.Keys, log[..i])
  {
    Cuts(t, ops, mid, log);
    assert Sourced(ops, log[i]) && log[..0] == [];
    ValidAt(t.Keys, log, i);
    if log[i].key !in t { WasMade(t.Keys, log, 0, i, log[i].key); }
  }

  lemma NoneAboveLater(ops: seq<Op>, log: Log, i: nat, c: nat)
    requires TopDown(ops, log) && i <= c < |log| && log[i].Cut? && log[c].Cut? && log[i].key != []
    ensures !(log[c].key <= Above(log[i].key))
  {
    var k, q := log[c].key, log[i].key;
    assert k <= Above(q) ==> k <= q && |k| < |q|;
  }

  lemma AboveThen(t: Tree, log: Log, i: nat)
    requires Closed(t) && ValidLog(t.Keys, log) && i < |log| && log[i].key != []
    requires log[i].key in KeysAfter(t.Keys, log[..i])
    ensures Above(log[i].key) in KeysAfter(t.Keys, log[..i])
  {
    ClosedTree(t);
    ValidAt(t.Keys, log, i);
    KeysClosed(t.Keys, log[..i]);
    assert KeyAbove(KeysAfter(t.Keys, log[..i]), log[i].key);
  }

  /** A key whose child is deleted stays: it would have been deleted first. */
  lemma AboveStays(t: Tree, ops: seq<Op>, mid: State, log: Log, i: nat)
    requires WalkedOnce(t, ops, mid, log) && i < |log|
    ensures log[i].key != [] && Above(log[i].key) in mid.tree
  {
    var q, n := log[i].key, |log|;
    Cuts(t, ops, mid, log);
    CutWasThere(t, ops, mid, log, i);
    AboveThen(t, log, i);
    assert log[..n] == log;
    forall c | i <= c < n ensures !(log[c].key <= Above(q)) {
      NoneAboveLater(ops, log, i, c);
    }
    if Above(q) !in mid.tree { WasCut(t.Keys, log, i, n, Above(q)); }
  }

  lemma CutIsReached(t: Tree, ops: seq<Op>, mid: State, log: Log, i: nat)
    requires WalkedOnce(t, ops, mid, log) && i < |log|
    ensures Reached(t, ops, log[i].key) && DeletedAt(ops, log[i].key)
  {
    CutWasThere(t, ops, mid, log, i);
    AboveStays(t, ops, mid, log, i);
    assert Walked(t, ops, mid, Above(log[i].key));
  }

  lemma ReachedIsCut(t: Tree, ops: seq<Op>, mid: State, log: Log, q: Path)
    requires WalkedOnce(t, ops, mid, log) && Reached(t, ops, q) && DeletedAt(ops, q)
    ensures Cut(q) in log
  {
    Cuts(t, ops, mid, log);
    GoneAt(t, ops, q);
    assert Walked(t, ops, mid, q) && log[..0] == [] && log[..|log|] == log;
    WasCut(t.Keys, log, 0, |log|, q);
    var c :| 0 <= c < |log| && log[c].Cut? && log[c].key <= q;
    CutIsGone(t, ops, mid, log, c);
    if log[c].key != q {
      assert log[c].key <= q[..|q| - 1];
      GoneMonotone(t, ops, log[c].key, q[..|q| - 1]);
    }
  }

  /** The walk deletes the keys it gets to that the plan deletes. */
  lemma CutIff(t: Tree, ops: seq<Op>, mid: State, log: Log, q: Path)
    requires WalkedOnce(t, ops, mid, log)
    ensures Cut(q) in log <==> Reached(t, ops, q) && DeletedAt(ops, q)
  {
    if Cut(q) in log {
      var i :| 0 <= i < |log| && log[i] == Cut(q);
      CutIsReached(t, ops, mid, log, i);
    }
    if Reached(t, ops, q) && DeletedAt(ops, q) {
      ReachedIsCut(t, ops, mid, log, q);
    }
  }

  // ----- The created keys -----

  lemma {:induction false} MadesAre(keys: set<Path>, log: Log, q: Path)
    requires ValidLog(keys, log) && forall i :: 0 <= i < |log| ==> log[i].Made?
    ensures keys <= KeysAfter(keys, log)
    ensures Made(q) in log <==> q in KeysAfter(keys, log) && q !in keys
  {
    if log != [] {
      var before, e := log[..|log| - 1], log[|log| - 1];
      assert log == before + [e];
      MadesAre(keys, before, q);
    }
  }

  /** The second phase creates the keys that were not there and that an operation needs, unless they lie at or below a
      deleted key. */
  lemma MadeIff(t: Tree, ops: seq<Op>, mid: State, log1: Log, s: State, log: Log, q: Path)
    requires WalkedOnce(t, ops, mid, log1) && AllFilled(t, ops, ops, s)
    requires Edited(mid.tree.Keys, log1, s.tree.Keys, log, [], false)
    ensures Made(q) in log <==> q !in t && WalkMeaning.Made(t, ops, ops, q)
  {
    var n := |log1|;
    Cuts(t, ops, mid, log1);
    assert log == log1 + log[n..];
    MadesAre(mid.tree.Keys, log[n..], q);
    assert Walked(t, ops, mid, q) && Filled(t, ops, ops, s, q);
    if Gone(t, ops, q) { GoneNotMade(t, ops, ops, q); }
    assert Made(q) !in log1;
  }

  // ----- Created and deleted keys apart -----

  lemma WalkApartIff(t: Tree, ops: seq<Op>, mid: State, log1: Log, s: State, log: Log)
    requires WalkedOnce(t, ops, mid, log1) && AllFilled(t, ops, ops, s)
    requires Edited(mid.tree.Keys, log1, s.tree.Keys, log, [], false)
    ensures SiblingsApart(log) <==> WalkApart(t, ops)
  {
    Cuts(t, ops, mid, log1);
    assert log == log1 + log[|log1|..];
    forall q ensures Made(q) in log <==> q !in t && WalkMeaning.Made(t, ops, ops, q)
      ensures Cut(q) in log <==> Reached(t, ops, q) && DeletedAt(ops, q)
    {
      MadeIff(t, ops, mid, log1, s, log, q);
      CutIff(t, ops, mid, log1, q);
    }
    if WalkApart(t, ops) {
      forall i, j | 0 <= i < |log| && 0 <= j < |log| && log[i].Made? && log[j].Cut?
        ensures !Siblings(log[i].key, log[j].key)
      {
        assert Made(log[i].key) in log && Cut(log[j].key) in log;
        ApartPair(t, ops, log[i].key, log[j].key);
      }
    }
    if SiblingsApart(log) {
      forall d, e | d in ops && e in ops && d.DeleteKey? && Reached(t, ops, d.Path()) && e.Creates() &&
                    !Gone(t, ops, e.Path()) ensures PairApart(t, d, e)
      {
        if !PairApart(t, d, e) { MadeBeside(t, ops, log, d, e); }
      }
    }
  }

  lemma ApartPair(t: Tree, ops: seq<Op>, m: Path, c: Path)
    requires WalkApart(t, ops) && m !in t && WalkMeaning.Made(t, ops, ops, m)
    requires Reached(t, ops, c) && DeletedAt(ops, c)
    ensures !Siblings(m, c)
  {
    var e :| e in ops && Makes(t, ops, e, m);
    var d :| d in ops && d.DeleteKey? && d.Path() == c;
    assert Siblings(m, c) ==> m == e.Path()[..|c|] && m[..|c| - 1] == e.Path()[..|c| - 1];
    assert PairApart(t, d, e);
  }

  lemma MadeBeside(t: Tree, ops: seq<Op>, log: Log, d: Op, e: Op)
    requires d in ops && e in ops && d.DeleteKey? && Reached(t, ops, d.Path()) && e.Creates()
    requires !Gone(t, ops, e.Path()) && !PairApart(t, d, e)
    requires forall q :: q !in t && WalkMeaning.Made(t, ops, ops, q) ==> Made(q) in log
    requires forall q :: Reached(t, ops, q) && DeletedAt(ops, q) ==> Cut(q) in log
    ensures !SiblingsApart(log)
  {
    var c := d.Path();
    var m := e.Path()[..|c|];
    assert Makes(t, ops, e, m) && m[..|c| - 1] == c[..|c| - 1];
    var i :| 0 <= i < |log| && log[i] == Made(m);
    var j :| 0 <= j < |log| && log[j] == Cut(c);
    assert Siblings(log[i].key, log[j].key);
  }

  /** Where deletions come first, keys are safe exactly if no parent has both a created and a deleted child. */
  lemma CutsFirstSafe(log: Log)
    requires CutsFirst(log)
    ensures Safe(log) <==> SiblingsApart(log)
  {
    ApartIn(log);
    forall p ensures SafeAt(log, p) == ApartAt(log, p) {
      if CutBelow(log, p) { NoneEarly(log, p); }
    }
    if Safe(log) { forall p ensures ApartAt(log, p) { assert SafeAt(log, p); } }
    if SiblingsApart(log) { forall p ensures SafeAt(log, p) { assert ApartAt(log, p); } }
  }

  // ----- The lists -----

  lemma SameMembers(ops: seq<Op>, plan: seq<Op>)
    requires multiset(ops) == multiset(plan)
    ensures forall e :: e in ops <==> e in plan
    ensures forall p :: DeletedAt(ops, p) == DeletedAt(plan, p)
    ensures forall t, p :: Reached(t, ops, p) == Reached(t, plan, p)
    ensures forall t, p :: Gone(t, ops, p) == Gone(t, plan, p)
  {
    forall e ensures e in ops <==> e in plan {
      assert e in multiset(ops) <==> e in multiset(plan);
    }
    forall p ensures Needed(ops, p) == Needed(plan, p) {
    }
    forall t, p ensures Gone(t, ops, p) == Gone(t, plan, p) {
    }
  }

  /** What the lists on disk show after the walk: its deletions come before all creations, so new keys are never out of
      order; and whatever cells the allocator gives, they are right exactly if the plan keeps created and deleted keys
      apart. */
  lemma WalkListed(t: Tree, plan: seq<Op>, ops: seq<Op>, mid: State, log1: Log, s: State, log: Log)
    requires WalkedOnce(t, ops, mid, log1) && AllFilled(t, ops, ops, s) && multiset(ops) == multiset(plan)
    requires Filling(ops, mid.tree.Keys, log1, s.tree.Keys, log)
    ensures ListsRightIff(t.Keys, log, s.tree.Keys, true)
    ensures AlwaysRightIff(t.Keys, log, s.tree.Keys, WalkApart(t, plan))
  {
    forall q | Gone(t, ops, q) ensures q !in s.tree {
      assert Filled(t, ops, ops, s, q);
      GoneNotMade(t, ops, ops, q);
    }
    WalkLog(t, ops, mid, log1, s.tree, log);
    DeferredIff(t, log, s.tree.Keys);
    CutsFirstOrdered(t.Keys, log);
    CutsFirstSafe(log);
    WalkApartIff(t, ops, mid, log1, s, log);
    SameApart(t, ops, plan);
  }

  lemma SameApart(t: Tree, ops: seq<Op>, plan: seq<Op>)
    requires multiset(ops) == multiset(plan)
    ensures WalkApart(t, ops) <==> WalkApart(t, plan)
  {
    SameMembers(ops, plan);
  }
}
