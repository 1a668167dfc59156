/** The keys a walk deletes, from the top down, and the keys its second phase then creates. */
module WalkEdits {
  import opened Registry
  import opened PlanMeaning
  import opened KeyEditing
  import opened WalkMeaning
  import opened EditLogs

  /** Keys are created and deleted as operations ask. */
  ghost predicate Sourced(ops: seq<Op>, e: Edit) {
    match e
    case Made(q) => CreatedBy(ops, q)
    case Cut(q) => DeletedAt(ops, q)
  }

  /** No key is deleted after a key below it, and all edits are asked for. */
  ghost predicate TopDown(ops: seq<Op>, log: Log) {
    && (forall i, j :: 0 <= i < j < |log| && log[i].Cut? && log[j].Cut? ==>
          !(log[j].key <= log[i].key && log[j].key != log[i].key))
    && (forall i :: 0 <= i < |log| ==> Sourced(ops, log[i]))
  }

  /** No key at or below `p` is touched yet. */
  ghost predicate Untouched(log: Log, p: Path) {
    forall i :: 0 <= i < |log| ==> !(p <= log[i].key)
  }

  /** Below `p`, only the branches `done` are touched. */
  ghost predicate Branches(log: Log, p: Path, done: set<KeyName>) {
    forall i :: 0 <= i < |log| && p <= log[i].key ==> p != log[i].key && log[i].key[|p|] in done
  }

  lemma BranchOf(p: Path, n: KeyName, q: Path)
    ensures Under(p, n) <= q ==> p <= q && p != q && q[|p|] == n
  {
    if Under(p, n) <= q {
      assert q[..|p| + 1] == Under(p, n);
    }
  }

  lemma BranchUntouched(log: Log, p: Path, done: set<KeyName>, n: KeyName)
    requires Branches(log, p, done) && n !in done
    ensures Untouched(log, Under(p, n))
  {
    forall i | 0 <= i < |log| ensures !(Under(p, n) <= log[i].key) {
      BranchOf(p, n, log[i].key);
    }
  }

  /** One more branch. */
  lemma BranchTouched(a: set<Path>, la: Log, b: set<Path>, lb: Log, p: Path, done: set<KeyName>, n: KeyName)
    requires Branches(la, p, done) && Edited(a, la, b, lb, Under(p, n), true)
    ensures Branches(lb, p, done + {n}) && Edited(a, la, b, lb, p, true)
  {
    assert p <= Under(p, n) && Under(p, n)[|p|] == n;
    forall i | 0 <= i < |lb| && p <= lb[i].key ensures p != lb[i].key && lb[i].key[|p|] in done + {n} {
      if i < |la| {
        assert lb[..|la|][i] == la[i];
      }
    }
    EditedWider(a, la, b, lb, p, Under(p, n), true);
  }

  lemma CutTopDown(ops: seq<Op>, log: Log, p: Path)
    requires TopDown(ops, log) && Untouched(log, p) && DeletedAt(ops, p)
    ensures TopDown(ops, log + [Cut(p)])
  {
    var now := log + [Cut(p)];
    assert now[|log|] == Cut(p) && forall i :: 0 <= i < |log| ==> now[i] == log[i];
  }

  lemma CutOne(t: Tree, log: Log, p: Path)
    requires p in t && p != []
    ensures Edited(t.Keys, log, WithoutKey(t, p).Keys, log + [Cut(p)], p, true)
  {
    EditedOne(t.Keys, log, Cut(p));
    assert WithoutKey(t, p).Keys == KeysAfterOne(t.Keys, Cut(p));
  }

  lemma UntouchedBranches(log: Log, p: Path)
    requires Untouched(log, p)
    ensures Branches(log, p, {})
  {
  }

  /** Only keys on the path of the operation are created. */
  ghost predicate MadeFor(op: Op, a: set<Path>, la: Log, b: set<Path>, lb: Log) {
    && Edited(a, la, b, lb, [], false)
    && forall i :: |la| <= i < |lb| ==> lb[i].key <= op.Path()
  }

  /** Creations leave the deletions as they are. */
  lemma MadeTopDown(ops: seq<Op>, op: Op, a: set<Path>, la: Log, b: set<Path>, lb: Log)
    requires TopDown(ops, la) && MadeFor(op, a, la, b, lb) && op in ops && op.Creates()
    ensures TopDown(ops, lb)
  {
    forall i | 0 <= i < |lb|
      ensures Sourced(ops, lb[i]) && (i < |la| ==> lb[i] == la[i]) && (|la| <= i ==> lb[i].Made?)
    {
      if i < |la| {
        assert lb[..|la|][i] == la[i];
      }
    }
  }

  /** Midway through the second phase. */
  ghost predicate Filling(ops: seq<Op>, keys0: set<Path>, log0: Log, keys: set<Path>, log: Log) {
    TopDown(ops, log) && Edited(keys0, log0, keys, log, [], false)
  }

  lemma FilledMore(ops: seq<Op>, op: Op, keys0: set<Path>, log0: Log, a: set<Path>, la: Log, b: set<Path>, lb: Log)
    requires Filling(ops, keys0, log0, a, la) && MadeFor(op, a, la, b, lb) && op in ops && op.Creates()
    ensures Filling(ops, keys0, log0, b, lb)
  {
    MadeTopDown(ops, op, a, la, b, lb);
    EditedTrans(keys0, log0, a, la, b, lb, [], false);
  }

  /** First the walk deletes, then the second phase creates. */
  ghost predicate TwoPhases(a: set<Path>, b: set<Path>, log1: Log, c: set<Path>, log: Log) {
    Edited(a, [], b, log1, [], true) && Edited(b, log1, c, log, [], false)
  }

  lemma PhasesApart(a: set<Path>, b: set<Path>, log1: Log, c: set<Path>, log: Log)
    requires TwoPhases(a, b, log1, c, log)
    ensures |log1| <= |log| && (forall i :: 0 <= i < |log1| ==> log[i] == log1[i] && log[i].Cut?)
    ensures forall i :: |log1| <= i < |log| ==> log[i].Made?
    ensures ValidLog(a, log) && c == KeysAfter(a, log) && ValidLog(a, log1) && b == KeysAfter(a, log1)
    ensures CutsFirst(log)
  {
    var n := |log1|;
    assert log1[0..] == log1 && log == log1 + log[n..];
    LogConcat(a, log1, log[n..]);
    forall i | 0 <= i < n ensures log[i] == log1[i] && log[i].Cut? {
      assert log[..n][i] == log1[i];
    }
  }

  /** The edits of a walk and its second phase are such that deferred lists get them right. */
  lemma WalkLog(t: Tree, ops: seq<Op>, mid: State, log1: Log, w: Tree, log: Log)
    requires Closed(t) && WalkedBelow(t, ops, mid, []) && TopDown(ops, log)
    requires TwoPhases(t.Keys, mid.tree.Keys, log1, w.Keys, log)
    requires forall q :: Gone(t, ops, q) ==> q !in w
    ensures ValidLog(t.Keys, log) && w.Keys == KeysAfter(t.Keys, log) && CutsAlone(log) && CutsFirst(log)
  {
    PhasesApart(t.Keys, mid.tree.Keys, log1, w.Keys, log);
    ClosedTree(t);
    KeysClosed(t.Keys, log);
    forall i, j | 0 <= i < |log| && 0 <= j < |log| && log[i].Cut? && log[j].Made? ensures !(log[i].key <= log[j].key) {
      CutIsGone(t, ops, mid, log1, i);
      MadeStays(t.Keys, log, |log1|, j);
      if log[i].key <= log[j].key {
        KeysAboveIn(w.Keys, log[i].key, log[j].key);
      }
    }
  }

  /** A key deleted in the walk was there and is gone. */
  lemma CutIsGone(t: Tree, ops: seq<Op>, mid: State, log1: Log, i: nat)
    requires Closed(t) && WalkedBelow(t, ops, mid, []) && TopDown(ops, log1) && i < |log1|
    requires Edited(t.Keys, [], mid.tree.Keys, log1, [], true)
    ensures Gone(t, ops, log1[i].key)
  {
    var c := log1[i].key;
    assert log1[0..] == log1 && log1[..0] == [] && log1[..i + 1][i] == log1[i];
    ValidAt(t.Keys, log1, i);
    if c !in t {
      WasMade(t.Keys, log1, 0, i, c);
    }
    CutBelowCut(t.Keys, log1, i, c);
    assert Walked(t, ops, mid, c);
  }

  /** After the last deletion, a created key stays. */
  lemma {:induction false} MadeStays(keys: set<Path>, log: Log, n: nat, j: nat)
    requires n <= j < |log| && log[j].Made? && forall i :: n <= i < |log| ==> log[i].Made?
    ensures log[j].key in KeysAfter(keys, log)
  {
    if j < |log| - 1 {
      MadeStays(keys, log[..|log| - 1], n, j);
    }
  }

  lemma {:induction false} KeysAboveIn(keys: set<Path>, p: Path, q: Path)
    requires ClosedKeys(keys) && q in keys && p <= q
    ensures p in keys
    decreases |q|
  {
    if p != q {
      assert KeyAbove(keys, q);
      AboveOf(p, q);
      KeysAboveIn(keys, p, EditLogs.Above(q));
    }
  }
}
