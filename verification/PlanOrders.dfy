/** The order in which a plan creates and deletes the children of one parent, told before it is applied: one operation
    after another, in an isolated plan, that is the order in which the subkey lists are told of them
    (hive/merge/session.go). */
module PlanOrders {
  import opened Registry
  import opened PlanMeaning
  import opened EditLogs
  import opened LogOrders
  import opened ListTraces
  import opened ListRuns
  import opened DeferredPlans

  /** The operation creates what is missing of a path that goes on below `p`. */
  predicate Enters(op: Op, p: Path) {
    !op.DeleteKey? && |p| < |op.Path()| && p <= op.Path()
  }

  /** The names of the new children of `p`, in the order in which the plan first needs them. */
  function NewBelow(t: Tree, ops: seq<Op>, p: Path): seq<KeyName> {
    if ops == [] then []
    else
      var rest, op := NewBelow(t, ops[..|ops| - 1], p), ops[|ops| - 1];
      if Enters(op, p) && Below(p, op.Path()[|p|]) !in t && op.Path()[|p|] !in rest then rest + [op.Path()[|p|]]
      else rest
  }

  predicate DeletesChild(t: Tree, op: Op, p: Path) {
    op.DeleteKey? && op.Path() in t && op.Path() != [] && Above(op.Path()) == p
  }

  /** The plan deletes a child of `p` that is there. */
  predicate DeletesBelow(t: Tree, ops: seq<Op>, p: Path) {
    exists i :: 0 <= i < |ops| && DeletesChild(t, ops[i], p)
  }

  /** The new children of `p` needed before the first deletion of a child. */
  function NewEarly(t: Tree, ops: seq<Op>, p: Path): seq<KeyName> {
    if ops == [] then []
    else if DeletesBelow(t, ops[..|ops| - 1], p) then NewEarly(t, ops[..|ops| - 1], p)
    else NewBelow(t, ops, p)
  }

  /** Where a child of `p` is deleted: of the new children needed before, no two stand in the wrong order with an old
      name between them, and all are in order or one is needed after. */
  ghost predicate NeededInOrder(t: Tree, ops: seq<Op>, p: Path) {
    DeletesBelow(t, ops, p) ==>
      && NoneBetween(t.Keys, p, NewEarly(t, ops, p))
      && (Increasing(NewEarly(t, ops, p)) || |NewEarly(t, ops, p)| < |NewBelow(t, ops, p)|)
  }

  ghost predicate PlanInOrder(t: Tree, ops: seq<Op>) {
    forall p {:trigger NeededInOrder(t, ops, p)} :: NeededInOrder(t, ops, p)
  }

  /** Where a child of `p` is deleted, the new children are all needed before, in the order of their names. */
  ghost predicate NeededSafely(t: Tree, ops: seq<Op>, p: Path) {
    DeletesBelow(t, ops, p) ==> NewEarly(t, ops, p) == NewBelow(t, ops, p) && Increasing(NewBelow(t, ops, p))
  }

  ghost predicate PlanSafe(t: Tree, ops: seq<Op>) {
    forall p {:trigger NeededSafely(t, ops, p)} :: NeededSafely(t, ops, p)
  }

  /** The second operation needs no new child of the parent of the key that the first deletes. */
  predicate PairApart(t: Tree, d: Op, e: Op) {
    var c := d.Path();
    c != [] && c in t && |c| <= |e.Path()| && e.Path()[..|c| - 1] == c[..|c| - 1] ==> e.Path()[..|c|] in t
  }

  /** No parent has both a key of the tree deleted and a new one created. */
  ghost predicate CreatesApart(t: Tree, ops: seq<Op>) {
    forall d, e {:trigger PairApart(t, d, e)} :: d in ops && e in ops && d.DeleteKey? && !e.DeleteKey? ==>
      PairApart(t, d, e)
  }

  // ----- One more operation -----

  lemma DeletesNext(t: Tree, before: seq<Op>, op: Op, p: Path)
    ensures DeletesBelow(t, before + [op], p) <==> DeletesBelow(t, before, p) || DeletesChild(t, op, p)
  {
    var ops := before + [op];
    assert ops[|before|] == op && forall i :: 0 <= i < |before| ==> ops[i] == before[i];
  }

  lemma {:induction false} NewBelowHas(t: Tree, ops: seq<Op>, p: Path, n: KeyName)
    ensures n in NewBelow(t, ops, p) <==> Below(p, n) !in t && EnsuredBy(ops, Below(p, n))
  {
    if ops != [] {
      var before, op := ops[..|ops| - 1], ops[|ops| - 1];
      assert ops == before + [op];
      NewBelowHas(t, before, p, n);
      MembersAfter(before, op, Below(p, n));
      assert Below(p, n) <= op.Path() <==> |p| < |op.Path()| && p <= op.Path() && op.Path()[|p|] == n by {
        if |p| < |op.Path()| && p <= op.Path() { assert op.Path()[..|p| + 1] == Below(p, op.Path()[|p|]); }
      }
    }
  }

  // ----- The edits of one operation -----

  lemma {:induction false} OrderConcat(a: Log, b: Log, p: Path)
    ensures MadeBelow(a + b, p) == MadeBelow(a, p) + MadeBelow(b, p)
    ensures CutBelow(a + b, p) <==> CutBelow(a, p) || CutBelow(b, p)
    ensures CutBelow(a, p) ==> Early(a + b, p) == Early(a, p)
    ensures !CutBelow(a, p) && (CutBelow(b, p) ==> MadeBelow(b, p) == []) ==> Early(a + b, p) == MadeBelow(a + b, p)
  {
    if b == [] {
      assert a + b == a;
      EarlyFirst(a, p);
    } else {
      var c, e := b[..|b| - 1], b[|b| - 1];
      assert a + b == (a + c) + [e] && b == c + [e];
      OrderConcat(a, c, p);
      OrderNext(a + c, e, p);
      OrderNext(c, e, p);
    }
  }

  /** Keys created along one path: at most one of them is a child of `p`. */
  lemma {:induction false} MadeAlong(keys: set<Path>, log: Log, path: Path, p: Path)
    requires ValidLog(keys, log) && forall i :: 0 <= i < |log| ==> log[i].Made? && log[i].key <= path
    ensures !CutBelow(log, p) && keys <= KeysAfter(keys, log)
    ensures MadeBelow(log, p) ==
      if |p| < |path| && p <= path && path[..|p| + 1] !in keys && path[..|p| + 1] in KeysAfter(keys, log)
      then [path[|p|]] else []
  {
    if log != [] {
      var before, q := log[..|log| - 1], log[|log| - 1].key;
      MadeAlong(keys, before, path, p);
      if Above(q) == p {
        assert q == path[..|p| + 1];
      } else if |p| < |path| && p <= path {
        assert path[..|p| + 1][..|p|] == p;
      }
    }
  }

  lemma AskedByOne(op: Op, more: Log)
    requires AllAsked([op], more)
    ensures forall i :: 0 <= i < |more| ==>
      if op.DeleteKey? then more[i] == Cut(op.Path()) else more[i].Made? && more[i].key <= op.Path()
  {
    forall i | 0 <= i < |more|
      ensures if op.DeleteKey? then more[i] == Cut(op.Path()) else more[i].Made? && more[i].key <= op.Path()
    {
      assert Asked([op], more[i]);
    }
  }

  lemma MadeByOne(s: Tree, op: Op, more: Log, p: Path)
    requires Tells(s, op, more) && !op.DeleteKey?
    ensures !CutBelow(more, p)
    ensures MadeBelow(more, p) == if Enters(op, p) && Below(p, op.Path()[|p|]) !in s then [op.Path()[|p|]] else []
  {
    AskedByOne(op, more);
    MadeAlong(s.Keys, more, op.Path(), p);
    if Enters(op, p) {
      assert op.Path()[..|p| + 1] == Below(p, op.Path()[|p|]);
      AppliedEnsures(s, op, Below(p, op.Path()[|p|]));
    }
  }

  lemma CutByOne(s: Tree, op: Op, more: Log, p: Path)
    requires Tells(s, op, more) && op.DeleteKey?
    ensures MadeBelow(more, p) == [] && (CutBelow(more, p) <==> DeletesChild(s, op, p))
  {
    AskedByOne(op, more);
    NoneMade(more, p);
    CutBelowIff(more, p);
    assert op.Path() !in Applied(s, op).Keys;
    if more != [] {
      ValidAt(s.Keys, more, 0);
      assert more[..0] == [] && more[0] == Cut(op.Path());
    }
  }

  // ----- The edits of a plan -----

  /** What the log tells of the children of `p` is what the plan tells. */
  ghost predicate SameOrder(t: Tree, ops: seq<Op>, log: Log, p: Path) {
    && MadeBelow(log, p) == NewBelow(t, ops, p) && (CutBelow(log, p) <==> DeletesBelow(t, ops, p))
    && Early(log, p) == NewEarly(t, ops, p)
  }

  lemma {:induction false} OrderIs(t: Tree, ops: seq<Op>, log: Log, p: Path)
    requires Closed(t) && Isolated(ops) && LogOf(t, ops, log)
    ensures SameOrder(t, ops, log, p)
  {
    if ops != [] {
      var before, op := ops[..|ops| - 1], ops[|ops| - 1];
      var k := LastOfLog(t, ops, log);
      IsolatedPrefix(ops);
      OrderIs(t, before, log[..k], p);
      OrderStep(t, before, op, log[..k], log[k..], p);
    }
  }

  lemma OrderStep(t: Tree, before: seq<Op>, op: Op, log: Log, more: Log, p: Path)
    requires Closed(t) && Isolated(before + [op]) && SameOrder(t, before, log, p)
    requires Tells(AppliedAll(t, before), op, more)
    ensures SameOrder(t, before + [op], log + more, p)
  {
    var ops := before + [op];
    assert ops[..|ops| - 1] == before && ops[|ops| - 1] == op;
    DeletesNext(t, before, op, p);
    OrderConcat(log, more, p);
    if op.DeleteKey? {
      CutByOne(AppliedAll(t, before), op, more, p);
      DeletedIsOld(t, before, op);
    } else {
      MadeByOne(AppliedAll(t, before), op, more, p);
      EnteredIsNew(t, before, op, p);
    }
  }

  /** What an isolated plan deletes is there exactly if it was at the start. */
  lemma DeletedIsOld(t: Tree, before: seq<Op>, op: Op)
    requires Closed(t) && Isolated(before + [op]) && op.DeleteKey?
    ensures op.Path() in AppliedAll(t, before) <==> op.Path() in t
  {
    var ops, c := before + [op], op.Path();
    assert ops[|before|] == op && ops[..|before|] == before && op in ops;
    IsolatedUpTo(ops, |before|);
    SessionIs(t, before, c);
    DeletedNotEnsured(ops, op, c);
    MembersAfter(before, op, c);
    NotUnderBefore(before, op);
  }

  lemma NotUnderBefore(before: seq<Op>, op: Op)
    requires Isolated(before + [op])
    ensures !UnderDelete(before, op.Path())
  {
    var ops := before + [op];
    forall d | d in before && d.DeleteKey? ensures !(d.Path() <= op.Path()) {
      var i :| 0 <= i < |before| && before[i] == d;
      assert ops[i] == d && ops[|before|] == op;
    }
  }

  /** What an isolated plan needs below `p` is missing exactly if it was at the start, and was not needed before. */
  lemma EnteredIsNew(t: Tree, before: seq<Op>, op: Op, p: Path)
    requires Closed(t) && Isolated(before + [op]) && !op.DeleteKey?
    ensures Enters(op, p) ==> var n := op.Path()[|p|];
      (Below(p, n) !in AppliedAll(t, before) <==> Below(p, n) !in t && n !in NewBelow(t, before, p))
  {
    if Enters(op, p) {
      var n, ops := op.Path()[|p|], before + [op];
      assert op.Path()[..|p| + 1] == Below(p, n) && ops[..|before|] == before;
      IsolatedUpTo(ops, |before|);
      SessionIs(t, before, Below(p, n));
      NotDeletedAbove(before, op, Below(p, n));
      NewBelowHas(t, before, p, n);
    }
  }

  /** Before an isolated plan is applied, it can be told whether its keys are created in order, and whether it is safe
      with every allocator. */
  lemma PlanOrderIff(t: Tree, ops: seq<Op>, log: Log)
    requires Closed(t) && Isolated(ops) && LogOf(t, ops, log)
    ensures MadeInOrder(t.Keys, log) <==> PlanInOrder(t, ops)
    ensures Safe(log) <==> PlanSafe(t, ops)
  {
    forall p
      ensures OrderedAt(t.Keys, log, p) <==> NeededInOrder(t, ops, p)
      ensures SafeAt(log, p) <==> NeededSafely(t, ops, p)
    {
      OrderIs(t, ops, log, p);
      EarlyFirst(log, p);
    }
    if Safe(log) { forall p ensures NeededSafely(t, ops, p) { assert SafeAt(log, p); } }
    if PlanSafe(t, ops) { forall p ensures SafeAt(log, p) { assert NeededSafely(t, ops, p); } }
    if MadeInOrder(t.Keys, log) { forall p ensures NeededInOrder(t, ops, p) { assert OrderedAt(t.Keys, log, p); } }
    if PlanInOrder(t, ops) { forall p ensures OrderedAt(t.Keys, log, p) { assert NeededInOrder(t, ops, p); } }
  }

  // ----- Created and deleted keys apart -----

  /** No child of `p` is deleted, or none is created. */
  ghost predicate ApartAt(log: Log, p: Path) {
    CutBelow(log, p) ==> MadeBelow(log, p) == []
  }

  ghost predicate NeededApart(t: Tree, ops: seq<Op>, p: Path) {
    DeletesBelow(t, ops, p) ==> NewBelow(t, ops, p) == []
  }

  lemma ApartBelow(t: Tree, ops: seq<Op>)
    ensures CreatesApart(t, ops) <==> forall p {:trigger NeededApart(t, ops, p)} :: NeededApart(t, ops, p)
  {
    if CreatesApart(t, ops) {
      forall p ensures NeededApart(t, ops, p) {
        if !NeededApart(t, ops, p) { NotApart(t, ops, p); }
      }
    }
    if forall p {:trigger NeededApart(t, ops, p)} :: NeededApart(t, ops, p) {
      forall d, e | d in ops && e in ops && d.DeleteKey? && !e.DeleteKey? ensures PairApart(t, d, e) {
        if !PairApart(t, d, e) { NewAndDeleted(t, ops, d, e); }
      }
    }
  }

  lemma NotApart(t: Tree, ops: seq<Op>, p: Path)
    requires !NeededApart(t, ops, p)
    ensures !CreatesApart(t, ops)
  {
    var i :| 0 <= i < |ops| && DeletesChild(t, ops[i], p);
    var n := NewBelow(t, ops, p)[0];
    NewBelowHas(t, ops, p, n);
    var e :| e in ops && !e.DeleteKey? && Below(p, n) <= e.Path();
    assert e.Path()[..|p| + 1] == Below(p, n) && |ops[i].Path()| == |p| + 1;
    assert !PairApart(t, ops[i], e);
  }

  lemma NewAndDeleted(t: Tree, ops: seq<Op>, d: Op, e: Op)
    requires d in ops && e in ops && d.DeleteKey? && !e.DeleteKey? && !PairApart(t, d, e)
    ensures !NeededApart(t, ops, Above(d.Path()))
  {
    var c := d.Path();
    var p, n := Above(c), e.Path()[|c| - 1];
    var i :| 0 <= i < |ops| && ops[i] == d;
    assert DeletesChild(t, ops[i], p) && e.Path()[..|c|] == Below(p, n);
    NewBelowHas(t, ops, p, n);
  }

  /** No parent has both a created and a deleted child exactly if the plan keeps the two apart. */
  lemma ApartIff(t: Tree, ops: seq<Op>, log: Log)
    requires Closed(t) && Isolated(ops) && LogOf(t, ops, log)
    ensures SiblingsApart(log) <==> CreatesApart(t, ops)
  {
    ApartBelow(t, ops);
    ApartIn(log);
    forall p ensures ApartAt(log, p) == NeededApart(t, ops, p) {
      OrderIs(t, ops, log, p);
    }
    if CreatesApart(t, ops) { forall p ensures ApartAt(log, p) { assert NeededApart(t, ops, p); } }
    if SiblingsApart(log) { forall p ensures NeededApart(t, ops, p) { assert ApartAt(log, p); } }
  }

  lemma ApartIn(log: Log)
    ensures SiblingsApart(log) <==> forall p {:trigger ApartAt(log, p)} :: ApartAt(log, p)
  {
    if SiblingsApart(log) {
      forall p ensures ApartAt(log, p) {
        if CutBelow(log, p) { NoneMadeBelow(log, p); }
      }
    }
    if forall p {:trigger ApartAt(log, p)} :: ApartAt(log, p) {
      forall i, j | 0 <= i < |log| && 0 <= j < |log| && log[i].Made? && log[j].Cut?
        ensures !Siblings(log[i].key, log[j].key)
      {
        if Siblings(log[i].key, log[j].key) {
          BothBelow(log, i, j);
        }
      }
    }
  }

  lemma NoneMadeBelow(log: Log, p: Path)
    requires SiblingsApart(log) && CutBelow(log, p)
    ensures MadeBelow(log, p) == []
  {
    CutBelowIff(log, p);
    var j :| 0 <= j < |log| && log[j].Cut? && log[j].key != [] && Above(log[j].key) == p;
    forall k | 0 <= k < |log| && log[k].key != [] ensures !(log[k].Made? && Above(log[k].key) == p) {
      assert Siblings(log[k].key, log[j].key) <==> Above(log[k].key) == p;
    }
    NoneMade(log, p);
  }

  lemma BothBelow(log: Log, i: nat, j: nat)
    requires i < |log| && j < |log| && log[i].Made? && log[j].Cut? && Siblings(log[i].key, log[j].key)
    ensures !ApartAt(log, Above(log[j].key))
  {
    MadeBelowAt(log, i);
    CutBelowIff(log, Above(log[j].key));
  }

  lemma MadeBelowAt(log: Log, i: nat)
    requires i < |log| && log[i].Made? && log[i].key != []
    ensures MadeBelow(log, Above(log[i].key)) != []
  {
    var q := log[i].key;
    IsBelow(q);
    MadeBelowHas(log, Above(q), Last(q));
    assert log[i] in log;
  }

  /** Plans that keep created and deleted keys apart are safe. */
  lemma ApartIsSafe(t: Tree, ops: seq<Op>)
    requires CreatesApart(t, ops)
    ensures PlanSafe(t, ops) && PlanInOrder(t, ops)
  {
    ApartBelow(t, ops);
    forall p ensures NeededSafely(t, ops, p) && NeededInOrder(t, ops, p) {
      assert NeededApart(t, ops, p);
      NewEarlyFirst(t, ops, p);
    }
  }

  lemma {:induction false} NewEarlyFirst(t: Tree, ops: seq<Op>, p: Path)
    ensures NewEarly(t, ops, p) <= NewBelow(t, ops, p)
  {
    if ops != [] { NewEarlyFirst(t, ops[..|ops| - 1], p); }
  }
}
