/** The single-pass plan executor of hive/merge/walk_apply.go: sort and index the plan, walk the tree once along the
    keys the plan names, then create what is missing. */
module WalkApply {
  import opened Registry
  import opened PlanMeaning
  import opened NormalPath
  import opened KeyEditing
  import opened WalkFill
  import opened WalkMeaning
  import opened PlanIndex
  import opened EditLogs
  import opened DeferredPlans
  import opened WalkEdits
  import opened WalkOrders
  import opened ValueRuns

  predicate IsValueOp(op: Op) {
    op.SetValue? || op.DeleteValue?
  }

  /** After a deletion, a key is not deleted or ensured again. */
  ghost predicate DeletesOnce(ops: seq<Op>) {
    forall p, i, j :: 0 <= i < j < |At(ops, p)| && At(ops, p)[i].DeleteKey? ==> IsValueOp(At(ops, p)[j])
  }

  predicate Deletes(ops: seq<Op>) {
    exists i :: 0 <= i < |ops| && ops[i].DeleteKey?
  }

  lemma {:induction false} DeletesAt(ops: seq<Op>, p: Path)
    ensures Deletes(At(ops, p)) <==> DeletedAt(ops, p)
  {
    if ops != [] {
      var before, op := ops[..|ops| - 1], ops[|ops| - 1];
      var at := At(before, p);
      DeletesAt(before, p);
      assert ops == before + [op];
      assert forall x :: x in ops <==> x in before || x == op;
      if op.Path() == p {
        assert (at + [op])[|at|] == op;
        assert forall i :: 0 <= i < |at| ==> (at + [op])[i] == at[i];
      }
      if DeletedAt(before, p) {
        var d :| d in before && d.DeleteKey? && d.Path() == p;
        assert d in ops;
      }
    }
  }

  /** Some operations on `p` are seen, the last of them still pending. */
  ghost predicate Partway(tree0: Tree, tree: Tree, p: Path, pending: seq<Op>, seen: seq<Op>) {
    && p in tree0 && p in tree
    && tree == tree0[p := tree[p]]
    && ValuesAfter(tree[p], pending) == ValuesAfter(tree0[p], seen)
    && (AllTaken(tree[p], pending) <==> AllTaken(tree0[p], seen))
  }

  lemma PartwayPending(tree0: Tree, tree: Tree, p: Path, pending: seq<Op>, seen: seq<Op>, op: Op)
    requires Partway(tree0, tree, p, pending, seen)
    ensures Partway(tree0, tree, p, pending + [op], seen + [op])
  {
    ValuesAfterConcat(tree[p], pending, [op]);
    ValuesAfterConcat(tree0[p], seen, [op]);
    AllTakenNext(tree[p], pending, op);
    AllTakenNext(tree0[p], seen, op);
  }

  lemma PartwayFlushed(tree0: Tree, tree: Tree, p: Path, pending: seq<Op>, seen: seq<Op>)
    requires Partway(tree0, tree, p, pending, seen) && AllTaken(tree0[p], seen)
    ensures Partway(tree0, tree[p := ValuesAfter(tree[p], pending)], p, [], seen)
  {
  }

  lemma PartwayEnsured(tree0: Tree, tree: Tree, p: Path, seen: seq<Op>, op: Op)
    requires Partway(tree0, tree, p, [], seen) && op.EnsureKey?
    ensures Partway(tree0, tree, p, [], seen + [op])
  {
    ValuesAfterConcat(tree0[p], seen, [op]);
    AllTakenNext(tree0[p], seen, op);
    assert ValuesAfter(ValuesAfter(tree0[p], seen), [op]) == ValuesAfter(tree0[p], seen) by {
      assert [op][..0] == [];
    }
  }

  lemma DeletesLast(seen: seq<Op>, op: Op)
    ensures Deletes(seen + [op]) <==> Deletes(seen) || op.DeleteKey?
  {
    assert (seen + [op])[|seen|] == op;
    assert forall i :: 0 <= i < |seen| ==> (seen + [op])[i] == seen[i];
  }

  /** `i` of the operations on `p` are seen: the key is deleted, or some of them are still pending. */
  ghost predicate Applying(tree0: Tree, tree: Tree, p: Path, pending: seq<Op>, here: seq<Op>, i: nat,
                           keyDeleted: bool)
  {
    && i <= |here| && p in tree0 && keyDeleted == Deletes(here[..i])
    && (if keyDeleted then
          p != [] && tree == WithoutKey(tree0, p) && AllTaken(tree0[p], UpToDelete(here))
        else
          Partway(tree0, tree, p, pending, here[..i]) && UpToDelete(here[..i]) == here[..i])
  }

  lemma ApplyingValue(tree0: Tree, tree: Tree, p: Path, pending: seq<Op>, here: seq<Op>, i: nat, keyDeleted: bool)
    requires Applying(tree0, tree, p, pending, here, i, keyDeleted) && i < |here| && IsValueOp(here[i])
    ensures Applying(tree0, tree, p, pending + [here[i]], here, i + 1, keyDeleted)
  {
    assert here[..i + 1][..i] == here[..i] && here[..i + 1] == here[..i] + [here[i]];
    DeletesLast(here[..i], here[i]);
    if !keyDeleted { PartwayPending(tree0, tree, p, pending, here[..i], here[i]); }
  }

  /** What is left once an operation on the key itself is applied. */
  lemma ApplyingOther(tree0: Tree, tree: Tree, p: Path, here: seq<Op>, i: nat)
    requires i < |here| && !IsValueOp(here[i]) && p in tree0
    requires !Deletes(here[..i]) && UpToDelete(here[..i]) == here[..i]
    requires !(here[i].DeleteKey? && p == []) && AllTaken(tree0[p], here[..i])
    requires here[i].EnsureKey? ==> Partway(tree0, tree, p, [], here[..i] + [here[i]])
    requires here[i].DeleteKey? ==> tree == WithoutKey(tree0, p)
    ensures Applying(tree0, tree, p, [], here, i + 1, here[i].DeleteKey?)
  {
    assert here[..i + 1][..i] == here[..i] && here[..i + 1] == here[..i] + [here[i]];
    DeletesLast(here[..i], here[i]);
    UpToDeleteFirst(here, i);
  }

  /** Why it fails. */
  lemma FailsAt(tree0: Tree, p: Path, here: seq<Op>, i: nat)
    requires i < |here| && p in tree0 && UpToDelete(here[..i]) == here[..i]
    requires (here[i].DeleteKey? && p == []) || !AllTaken(tree0[p], here[..i])
    ensures (p == [] && Deletes(here)) || !AllTaken(tree0[p], UpToDelete(here))
  {
    if AllTaken(tree0[p], UpToDelete(here)) { TakenUpTo(tree0[p], here, i); }
    if here[i].DeleteKey? { assert Deletes(here); }
  }

  /** A deletion of the key comes once, and nothing but value operations after it. */
  lemma NotDeletedYet(ops: seq<Op>, p: Path, i: nat, deleted: bool)
    requires DeletesOnce(ops) && i < |At(ops, p)| && !IsValueOp(At(ops, p)[i]) && deleted == Deletes(At(ops, p)[..i])
    ensures !deleted
  {
    var here := At(ops, p);
    assert forall k :: 0 <= k < i ==> here[..i][k] == here[k];
  }

  /** The walk only goes to paths in lower case. */
  lemma LowerNeeded(ops: seq<Op>, p: Path)
    requires p == [] || Needed(ops, p)
    ensures Normalized(p) == Join(p)
  {
    if p != [] {
      var e :| e in ops && p <= e.Path();
      forall i | 0 <= i < |p| ensures LowerName(p[i]) == p[i] {
        assert p[i] == LowerName(e.keyPath[i]);
      }
    }
    assert LowerPath(p) == p;
  }

  function Names(names: seq<KeyName>): set<KeyName> {
    set n | n in names
  }

  lemma NamesNext(names: seq<KeyName>, i: nat)
    requires i < |names| && forall j, k :: 0 <= j < k < |names| ==> names[j] != names[k]
    ensures names[i] !in Names(names[..i]) && Names(names[..i + 1]) == Names(names[..i]) + {names[i]}
  {
  }

  /** The longest path of the plan. */
  function Depth(ops: seq<Op>): nat {
    if ops == [] then 0
    else
      var rest, last := Depth(ops[..|ops| - 1]), |ops[|ops| - 1].Path()|;
      if rest < last then last else rest
  }

  lemma {:induction false} DepthBounds(ops: seq<Op>, q: Path)
    requires Needed(ops, q)
    ensures |q| <= Depth(ops)
  {
    var e :| e in ops && q <= e.Path();
    if e != ops[|ops| - 1] {
      assert e in ops[..|ops| - 1];
      DepthBounds(ops[..|ops| - 1], q);
    }
  }

  /** The index is right about every key below the ancestor. */
  lemma LiveBelow(t: Tree, ops: seq<Op>, done: seq<Op>, s: State, op: Op, a: nat)
    requires AllFilled(t, ops, done, s) && Live(t, ops, op.Path()) && a < |op.keyPath|
    ensures var below := LowerPath(op.keyPath[a..]); var root := op.Path()[..a];
      && root + below == op.Path()
      && forall k :: 0 < k <= |below| ==> Indexed(s.idx, s.tree, Down(root, below, k))
  {
    var below, root := LowerPath(op.keyPath[a..]), op.Path()[..a];
    assert root + below == op.Path();
    forall k | 0 < k <= |below| ensures Indexed(s.idx, s.tree, Down(root, below, k)) {
      var q := Down(root, below, k);
      assert q == op.Path()[..a + k];
      assert Filled(t, ops, done, s, q);
      LiveAbove(t, ops, done, s, op.Path(), q);
    }
  }

  lemma EnsuredIndexed(s: State, t: Tree, idx: Index, root: Path, path: Path)
    requires forall q {:trigger EnsuredTo(s.tree, s.idx, t, idx, root, path, q)} ::
      EnsuredTo(s.tree, s.idx, t, idx, root, path, q)
    ensures forall q :: Between(root, q, path) && q != root ==> Indexed(idx, t, q) && q in t
  {
    forall q | Between(root, q, path) && q != root ensures Indexed(idx, t, q) && q in t {
      assert EnsuredTo(s.tree, s.idx, t, idx, root, path, q);
    }
  }

  lemma DeletedAre(t: Tree, ops: seq<Op>, plan: seq<Op>, s: State)
    requires multiset(ops) == multiset(plan) && AllFilled(t, ops, ops, s)
    ensures forall p :: Join(p) in s.deleted <==> Reached(t, plan, p) && DeletedAt(plan, p)
  {
    SameMembers(ops, plan);
    forall p ensures Join(p) in s.deleted <==> Reached(t, plan, p) && DeletedAt(plan, p) {
      assert Filled(t, ops, ops, s, p);
      assert Reached(t, ops, p) == Reached(t, plan, p);
    }
  }

  /** The created keys are the keys that were not there at the start: a key that was is created by no operation. */
  lemma CreatedCount(t: Tree, ops: seq<Op>, s: State, s': State)
    requires AllFilled(t, ops, [], s) && AllFilled(t, ops, ops, s')
    ensures |s'.tree.Keys - t.Keys| == |s'.tree| - |s.tree|
  {
    forall q ensures q in s.tree ==> q in s'.tree
      ensures q in s'.tree.Keys - t.Keys <==> q in s'.tree.Keys - s.tree.Keys {
      assert Filled(t, ops, [], s, q) && Filled(t, ops, ops, s', q);
      if Gone(t, ops, q) { GoneNotMade(t, ops, ops, q); }
    }
    assert s'.tree.Keys - t.Keys == s'.tree.Keys - s.tree.Keys;
    assert s.tree.Keys <= s'.tree.Keys;
  }

  lemma GoneProper(t: Tree, ops: seq<Op>, q: Path)
    requires Gone(t, ops, q) && q !in t && q != []
    ensures Gone(t, ops, q[..|q| - 1])
  {
    var d :| d in ops && d.DeleteKey? && d.Path() in t && d.Path() <= q;
    var p := d.Path();
    assert p == q[..|p|] && p != q && q[..|q|] == q;
    assert p <= q[..|q| - 1];
  }

  /** Below keys that are not gone, the first gone key is the one marked as deleted. */
  lemma FirstGone(t: Tree, ops: seq<Op>, done: seq<Op>, s: State, op: Op, i: nat)
    requires AllFilled(t, ops, done, s) && op in ops && i < |op.Path()| && !Gone(t, ops, op.Path()[..i])
    ensures Gone(t, ops, op.Path()[..i + 1]) <==> Join(op.Path()[..i + 1]) in s.deleted
  {
    var q := op.Path()[..i + 1];
    assert q[..|q| - 1] == op.Path()[..i];
    assert Filled(t, ops, done, s, q);
    assert Needed(ops, q);
    if q in t {
      GoneAt(t, ops, q);
    } else if Gone(t, ops, q) {
      GoneProper(t, ops, q);
      assert false;
    }
  }

  /** The walk gets past everything strictly below `p`. */
  ghost predicate PassBelow(t: Tree, ops: seq<Op>, p: Path) {
    forall q {:trigger FirstPass(t, ops, q)} :: p <= q && p != q ==> FirstPass(t, ops, q)
  }

  lemma PassAtAndBelow(t: Tree, ops: seq<Op>, p: Path)
    ensures FirstPassBelow(t, ops, p) <==> FirstPass(t, ops, p) && PassBelow(t, ops, p)
  {
  }

  lemma DeletedPassAll(t: Tree, ops: seq<Op>, p: Path)
    requires Reached(t, ops, p) && DeletedAt(ops, p) && FirstPass(t, ops, p)
    ensures FirstPassBelow(t, ops, p)
  {
    forall q | p <= q ensures FirstPass(t, ops, q) {
      if q != p { DeletedPass(t, ops, p, q); }
    }
  }

  lemma NoPassBelow(t: Tree, ops: seq<Op>, p: Path, n: KeyName)
    requires !FirstPassBelow(t, ops, Under(p, n))
    ensures !PassBelow(t, ops, p)
  {
    var q :| Under(p, n) <= q && !FirstPass(t, ops, q);
    assert p <= q && p != q;
  }

  /** The walk gets past what is below `p` if it gets past the children that are there and on the way of an
      operation. */
  lemma PassThrough(t: Tree, ops: seq<Op>, p: Path, matched: seq<KeyName>)
    requires Closed(t) && forall n :: n in matched <==> Needed(ops, Under(p, n)) && Under(p, n) in t
    requires forall i :: 0 <= i < |matched| ==> FirstPassBelow(t, ops, Under(p, matched[i]))
    ensures PassBelow(t, ops, p)
  {
    forall q | p <= q && p != q ensures FirstPass(t, ops, q) {
      if Reached(t, ops, q) {
        ReachedThrough(t, ops, p, q);
        var i :| 0 <= i < |matched| && matched[i] == q[|p|];
        assert FirstPassBelow(t, ops, Under(p, matched[i]));
      }
    }
  }

  lemma PassPrefixAll(t: Tree, ops: seq<Op>, n: nat)
    requires n <= |ops| && SecondPassAll(t, ops, ops)
    ensures SecondPassAll(t, ops, ops[..n])
  {
    forall q ensures SecondPass(t, ops, ops[..n], q) {
      PassPrefix(t, ops, n, q);
    }
  }

  /** Sorted or not, the plan comes to the same end. */
  lemma SameTakes(t: Tree, ops: seq<Op>, plan: seq<Op>)
    requires multiset(ops) == multiset(plan) && forall p :: At(ops, p) == At(plan, p)
    ensures WalkTakes(t, ops) <==> WalkTakes(t, plan)
  {
    SameMembers(ops, plan);
    forall q ensures FirstPass(t, ops, q) == FirstPass(t, plan, q)
      ensures SecondPass(t, ops, ops, q) == SecondPass(t, plan, plan, q)
    {
      assert At(ops, q) == At(plan, q) && Reached(t, ops, q) == Reached(t, plan, q);
      forall p ensures Gone(t, ops, p) == Gone(t, plan, p) {
      }
    }
  }

  /** One run of the second phase, once its key is there. */
  lemma RunDone(t: Tree, ops: seq<Op>, i: nat, end: nat, s: State, s': State)
    requires i < end <= |ops| && OnPath(ops[i..end], ops[i].Path()) && ops[i].Creates() && Live(t, ops, ops[i].Path())
    requires AllFilled(t, ops, ops[..i], s) && SecondPassAll(t, ops, ops[..i])
    requires forall q {:trigger Created(s, s', ops[i].Path(), q)} :: Created(s, s', ops[i].Path(), q)
    ensures var p, sets := ops[i].Path(), SetsOf(ops[i..end]);
      && p in s'.tree && (AllTaken(s'.tree[p], sets) <==> SecondPassAll(t, ops, ops[..end]))
      && AllFilled(t, ops, ops[..end], s'.(tree := s'.tree[p := ValuesAfter(s'.tree[p], sets)]))
  {
    var run, p := ops[i..end], ops[i].Path();
    assert run[0] == ops[i] && ops[..end] == ops[..i] + run;
    assert Created(s, s', p, p);
    CreatedIsFilled(t, ops, ops[..i], s, s', ops[i], p);
    RunPasses(t, ops, ops[..i], run, s', p);
    RunFilled(t, ops, ops[..i], run, s, s');
  }

  lemma NothingWalked(t: Tree)
    ensures FreshBelow(t, State(t, map[], map[], {}), [])
  {
  }

  /** What is known of the keys and the lists after both phases. */
  lemma WalkDone(t: Tree, plan: seq<Op>, ops: seq<Op>, mid: State, log1: Log, s: State, log: Log)
    requires WalkedOnce(t, ops, mid, log1) && AllFilled(t, ops, ops, s) && multiset(ops) == multiset(plan)
    requires (forall p :: At(ops, p) == At(plan, p)) && Filling(ops, mid.tree.Keys, log1, s.tree.Keys, log)
    ensures forall p :: AppliedKey(t, plan, s.tree, p)
    ensures |s.tree.Keys - t.Keys| == |s.tree| - |mid.tree|
    ensures forall p :: Join(p) in s.deleted <==> Reached(t, plan, p) && DeletedAt(plan, p)
    ensures ListsRightIff(t.Keys, log, s.tree.Keys, true)
    ensures AlwaysRightIff(t.Keys, log, s.tree.Keys, WalkApart(t, plan))
  {
    FilledIsApplied(t, ops, plan, s);
    DeletedAre(t, ops, plan, s);
    WalkedIsFilled(t, ops, mid);
    CreatedCount(t, ops, mid, s);
    WalkListed(t, plan, ops, mid, log1, s, log);
  }

  class WalkApplier {
    const ops: seq<Op>
    const opsByPath: map<string, seq<nat>>
    const childrenByParent: map<string, set<KeyName>>
    const editor: KeyEditor
    ghost const start: Tree
    var visited: map<string, Path>
    var deleted: set<string>
    var keysCreated: nat
    var keysDeleted: nat

    ghost function View(): State
      reads this, editor
    {
      State(editor.tree, editor.idx, visited, deleted)
    }

    /** The lookup maps are right about the sorted plan. */
    ghost predicate Ready() {
      && Closed(start)
      && DeletesOnce(ops)
      && (forall p {:trigger Grouped(ops, ops, opsByPath, p)} :: Grouped(ops, ops, opsByPath, p))
      && (forall p, n {:trigger Parented(ops, childrenByParent, p, n)} :: Parented(ops, childrenByParent, p, n))
    }

    constructor (tree: Tree, plan: seq<Op>)
      requires Closed(tree) && DeletesOnce(plan)
      ensures fresh(editor) && Ready() && start == tree && View() == State(tree, map[], map[], {}) && editor.log == []
      ensures keysCreated == 0 && keysDeleted == 0
      ensures Sorted(ops) && multiset(ops) == multiset(plan) && forall p :: At(ops, p) == At(plan, p)
    {
      var sorted := SortStable(plan);
      var byPath, children := IndexPlan(sorted);
      ops, opsByPath, childrenByParent := sorted, byPath, children;
      editor := new KeyEditor(tree, map[]);
      start := tree;
      visited, deleted, keysCreated, keysDeleted := map[], {}, 0, 0;
    }

    /** An operation on the key itself, after the pending value operations. */
    method FlushAndApply(p: Path, valueOps: seq<Op>, op: Op, ghost tree0: Tree, ghost here: seq<Op>, ghost i: nat)
      returns (ok: bool)
      requires i < |here| && here[i] == op && !IsValueOp(op)
      requires Applying(tree0, editor.tree, p, valueOps, here, i, false)
      modifies editor
      ensures !ok ==> (p == [] && Deletes(here)) || !AllTaken(tree0[p], UpToDelete(here))
      ensures ok ==> Applying(tree0, editor.tree, p, [], here, i + 1, op.DeleteKey?)
      ensures ok ==> editor.idx == if op.DeleteKey? then WithoutEdges(old(editor.idx), p) else old(editor.idx)
      ensures ok ==> editor.log == if op.DeleteKey? then old(editor.log) + [Cut(p)] else old(editor.log)
    {
      ok := FlushValues(p, valueOps);
      ghost var seen := here[..i];
      if ok { PartwayFlushed(tree0, old(editor.tree), p, valueOps, seen); }
      if ok && op.DeleteKey? {
        ok := editor.DeleteKey(p);
        assert ok ==> editor.tree == WithoutKey(tree0, p);
      } else if ok {
        PartwayEnsured(tree0, editor.tree, p, seen, op);
      }
      if ok { ApplyingOther(tree0, editor.tree, p, here, i); } else { FailsAt(tree0, p, here, i); }
    }

    /** The pending value operations in one batch. */
    method FlushValues(p: Path, valueOps: seq<Op>) returns (ok: bool)
      requires p in editor.tree
      modifies editor`tree
      ensures ok == AllTaken(old(editor.tree)[p], valueOps)
      ensures ok ==> editor.tree == old(editor.tree)[p := ValuesAfter(old(editor.tree)[p], valueOps)]
    {
      ok := true;
      if |valueOps| > 0 {
        ok := editor.UpsertValues(p, valueOps);
        assert ok ==> valueOps[..Taken(old(editor.tree)[p], valueOps)] == valueOps;
      }
    }

    /** The operations on one present key, value operations in batches. */
    method ApplyOpsAt(p: Path, pathKey: string) returns (ok: bool, keyDeleted: bool)
      requires Ready() && pathKey == Join(p) && p in editor.tree
      modifies editor, this`keysDeleted
      ensures ok == (!(p == [] && DeletedAt(ops, p)) && AllTaken(old(editor.tree)[p], UpToDelete(At(ops, p))))
      ensures ok ==> keyDeleted == DeletedAt(ops, p)
      ensures ok && !keyDeleted ==> editor.tree == old(editor.tree)[p := ValuesAfter(old(editor.tree)[p], At(ops, p))]
      ensures ok && !keyDeleted ==> editor.idx == old(editor.idx) && keysDeleted == old(keysDeleted)
      ensures ok && keyDeleted ==> editor.tree == WithoutKey(old(editor.tree), p) && keysDeleted == old(keysDeleted) + 1
      ensures ok && keyDeleted ==> editor.idx == WithoutEdges(old(editor.idx), p)
      ensures ok ==> editor.log == if keyDeleted then old(editor.log) + [Cut(p)] else old(editor.log)
    {
      ghost var here := At(ops, p);
      assert Grouped(ops, ops, opsByPath, p);
      DeletesAt(ops, p);
      var valueOps;
      ok, keyDeleted, valueOps := ApplyEach(p, Indices(opsByPath, pathKey), here);
      assert here[..|here|] == here;
      if ok && !keyDeleted {
        ok := FlushValues(p, valueOps);
      }
    }

    /** The operations one by one, but for the value operations still pending in the end. */
    method ApplyEach(p: Path, indices: seq<nat>, ghost here: seq<Op>)
      returns (ok: bool, keyDeleted: bool, valueOps: seq<Op>)
      requires DeletesOnce(ops) && here == At(ops, p) && Lists(ops, indices, here) && p in editor.tree
      modifies editor, this`keysDeleted
      ensures !ok ==> (p == [] && Deletes(here)) || !AllTaken(old(editor.tree)[p], UpToDelete(here))
      ensures ok ==> Applying(old(editor.tree), editor.tree, p, valueOps, here, |here|, keyDeleted)
      ensures ok ==> editor.idx == if keyDeleted then WithoutEdges(old(editor.idx), p) else old(editor.idx)
      ensures ok ==> editor.log == if keyDeleted then old(editor.log) + [Cut(p)] else old(editor.log)
      ensures ok ==> keysDeleted == old(keysDeleted) + if keyDeleted then 1 else 0
    {
      ok, keyDeleted, valueOps := true, false, [];
      assert here[..0] == [];
      for i := 0 to |indices|
        invariant Applying(old(editor.tree), editor.tree, p, valueOps, here, i, keyDeleted)
        invariant editor.idx == if keyDeleted then WithoutEdges(old(editor.idx), p) else old(editor.idx)
        invariant editor.log == if keyDeleted then old(editor.log) + [Cut(p)] else old(editor.log)
        invariant keysDeleted == old(keysDeleted) + if keyDeleted then 1 else 0
      {
        var op := ops[indices[i]];
        if IsValueOp(op) {
          ApplyingValue(old(editor.tree), editor.tree, p, valueOps, here, i, keyDeleted);
          valueOps := valueOps + [op];
        } else {
          NotDeletedYet(ops, p, i, keyDeleted);
          ok := FlushAndApply(p, valueOps, op, old(editor.tree), here, i);
          if !ok { return; }
          valueOps := [];
          if op.DeleteKey? {
            keysDeleted := keysDeleted + 1;
            keyDeleted := true;
          }
        }
      }
    }

    /** The children of `p` among the wanted names, in any order, each once. */
    method MatchChildren(p: Path, targets: set<KeyName>) returns (matched: seq<KeyName>)
      ensures forall n :: n in matched <==> n in targets && Under(p, n) in editor.tree
      ensures forall i, j :: 0 <= i < j < |matched| ==> matched[i] != matched[j]
    {
      matched := [];
      var left := targets;
      while left != {}
        invariant left <= targets
        invariant forall n :: n in matched <==> n in targets - left && Under(p, n) in editor.tree
        invariant forall i, j :: 0 <= i < j < |matched| ==> matched[i] != matched[j]
      {
        var n :| n in left;
        left := left - {n};
        if Under(p, n) in editor.tree { matched := matched + [n]; }
      }
    }

    /** Indexes, visits and changes the node; tells whether its children are to be walked. */
    method EnterNode(p: Path) returns (ok: bool, down: bool)
      requires Ready() && Reached(start, ops, p) && FreshBelow(start, View(), p) && Filed(editor.idx)
      modifies this`visited, this`deleted, this`keysDeleted, editor
      ensures ok == (!(p == [] && DeletedAt(ops, p)) && FirstPass(start, ops, p))
      ensures ok && down ==> editor.log == old(editor.log) && editor.tree.Keys == old(editor.tree.Keys)
      ensures ok && !down ==> editor.log == old(editor.log) + [Cut(p)] && editor.tree == WithoutKey(old(editor.tree), p)
      ensures ok ==> down == !DeletedAt(ops, p) && SameOutside(old(View()), View(), p) && Filed(editor.idx)
      ensures ok && down ==> MidwayBelow(start, ops, View(), p, {})
      ensures ok && !down ==> WalkedBelow(start, ops, View(), p)
      ensures keysCreated == old(keysCreated)
      ensures ok ==> keysDeleted - old(keysDeleted) == |deleted| - |old(deleted)|
    {
      ghost var s := View();
      assert Fresh(start, s, p);
      LowerNeeded(ops, p);
      var pathKey := NormalizePath(p);
      if |p| > 0 {
        editor.AddNK(p);
      }
      visited := visited[pathKey := p];
      var keyDeleted;
      down := false;
      ok, keyDeleted := ApplyOpsAt(p, pathKey);
      if !ok { return; }
      if keyDeleted {
        deleted := deleted + {pathKey};
        NodeDeleted(start, ops, s, View(), p);
      } else {
        down := true;
        NodeKept(start, ops, s, View(), p);
      }
    }

    /** The walk below a reached key: every key there is as the plan's operations on it leave it, or gone; nothing
        else changes. It fails exactly if the root is to be deleted or a value set at a key it gets to is refused. */
    method WalkAndApply(p: Path) returns (ok: bool)
      requires Ready() && Reached(start, ops, p) && FreshBelow(start, View(), p)
      requires Filed(editor.idx) && keysDeleted == |deleted| && |p| <= Depth(ops)
      requires TopDown(ops, editor.log) && Untouched(editor.log, p)
      modifies this, editor
      ensures ok == (!(p == [] && DeletedAt(ops, p)) && FirstPassBelow(start, ops, p))
      ensures ok ==> TopDown(ops, editor.log)
      ensures ok ==> Edited(old(editor.tree).Keys, old(editor.log), editor.tree.Keys, editor.log, p, true)
      ensures ok ==> WalkedBelow(start, ops, View(), p) && SameOutside(old(View()), View(), p)
      ensures ok ==> Filed(editor.idx) && keysDeleted == |deleted|
      ensures keysCreated == old(keysCreated)
      decreases Depth(ops) - |p|, 2
    {
      ghost var s, log := View(), editor.log;
      assert Fresh(start, s, p);
      var down;
      ok, down := EnterNode(p);
      if !ok { return; }
      if down {
        ghost var s1 := View();
        UntouchedBranches(log, p);
        ok := WalkChildren(p);
        PassAtAndBelow(start, ops, p);
        if !ok { return; }
        SameOutsideTransitive(s, s1, View(), p);
      } else {
        DeletedPassAll(start, ops, p);
        CutTopDown(ops, log, p);
        CutOne(s.tree, log, p);
      }
    }

    /** The children that the plan names and that are there, one after the other. */
    method WalkChildren(p: Path) returns (ok: bool)
      requires Ready() && Reached(start, ops, p) && !DeletedAt(ops, p) && MidwayBelow(start, ops, View(), p, {})
      requires Filed(editor.idx) && keysDeleted == |deleted| && |p| <= Depth(ops)
      requires TopDown(ops, editor.log) && Branches(editor.log, p, {})
      modifies this, editor
      ensures ok <==> PassBelow(start, ops, p)
      ensures keysCreated == old(keysCreated)
      ensures ok ==> WalkedBelow(start, ops, View(), p) && SameOutside(old(View()), View(), p)
      ensures ok ==> Filed(editor.idx) && keysDeleted == |deleted|
      ensures ok ==> TopDown(ops, editor.log)
      ensures ok ==> Edited(old(editor.tree).Keys, old(editor.log), editor.tree.Keys, editor.log, p, true)
      decreases Depth(ops) - |p|, 1
    {
      ghost var s, log := View(), editor.log;
      ReachedNotDeleted(start, ops, p);
      var matched := WantedChildren(p);
      assert Names(matched[..0]) == {};
      EditedNone(s.tree.Keys, log, p, true);
      for i := 0 to |matched|
        invariant MidwayBelow(start, ops, View(), p, Names(matched[..i])) && SameOutside(s, View(), p)
        invariant Filed(editor.idx) && keysDeleted == |deleted| && keysCreated == old(keysCreated)
        invariant Edited(s.tree.Keys, log, editor.tree.Keys, editor.log, p, true)
        invariant TopDown(ops, editor.log) && Branches(editor.log, p, Names(matched[..i]))
        invariant forall j :: 0 <= j < i ==> FirstPassBelow(start, ops, Under(p, matched[j]))
      {
        NamesNext(matched, i);
        ok := WalkChild(p, matched[i], s, log, Names(matched[..i]));
        if !ok {
          NoPassBelow(start, ops, p, matched[i]);
          return;
        }
      }
      assert matched[..|matched|] == matched;
      MidwayDone(start, ops, View(), p, Names(matched));
      ok := true;
      PassThrough(start, ops, p, matched);
    }

    /** The children that the plan names and that are there. */
    method WantedChildren(p: Path) returns (matched: seq<KeyName>)
      requires Ready() && Reached(start, ops, p) && MidwayBelow(start, ops, View(), p, {})
      ensures forall n :: n in matched <==> Needed(ops, Under(p, n)) && Under(p, n) in start
      ensures forall i, j :: 0 <= i < j < |matched| ==> matched[i] != matched[j]
    {
      LowerNeeded(ops, p);
      var pathKey := NormalizePath(p);
      var targets := Children(childrenByParent, pathKey);
      forall n ensures n in targets <==> Needed(ops, Under(p, n)) {
        assert Parented(ops, childrenByParent, p, n);
      }
      matched := MatchChildren(p, targets);
      forall n ensures Under(p, n) in editor.tree <==> Under(p, n) in start {
        assert Midway(start, ops, View(), p, {}, Under(p, n));
      }
    }

    method WalkChild(p: Path, n: KeyName, ghost s0: State, ghost log0: Log, ghost done: set<KeyName>)
      returns (ok: bool)
      requires Ready() && !Gone(start, ops, p) && Under(p, n) in start && Needed(ops, Under(p, n)) && n !in done
      requires MidwayBelow(start, ops, View(), p, done) && SameOutside(s0, View(), p)
      requires Filed(editor.idx) && keysDeleted == |deleted| && |p| <= Depth(ops)
      requires TopDown(ops, editor.log) && Branches(editor.log, p, done)
      requires Edited(s0.tree.Keys, log0, editor.tree.Keys, editor.log, p, true)
      modifies this, editor
      ensures ok <==> FirstPassBelow(start, ops, Under(p, n))
      ensures keysCreated == old(keysCreated)
      ensures ok ==> Edited(s0.tree.Keys, log0, editor.tree.Keys, editor.log, p, true)
      ensures ok ==> TopDown(ops, editor.log) && Branches(editor.log, p, done + {n})
      ensures ok ==> MidwayBelow(start, ops, View(), p, done + {n}) && SameOutside(s0, View(), p)
      ensures ok ==> Filed(editor.idx) && keysDeleted == |deleted|
      decreases Depth(ops) - |p|, 0
    {
      ghost var s, log := View(), editor.log;
      BranchFresh(start, ops, s, p, done, n);
      BranchUntouched(log, p, done, n);
      ReachedChild(start, ops, p, n);
      DepthBounds(ops, Under(p, n));
      ok := WalkAndApply(Under(p, n));
      if !ok { return; }
      BranchTouched(s.tree.Keys, log, editor.tree.Keys, editor.log, p, done, n);
      EditedTrans(s0.tree.Keys, log0, s.tree.Keys, log, editor.tree.Keys, editor.log, p, true);
      BranchWalked(start, ops, s, View(), p, done, n);
      SameOutsideWider(s, View(), p, n);
      SameOutsideTransitive(s0, s, View(), p);
    }

    // ----- Phase 2 -----

    /** Looks for a deleted key among the keys of the path, from the top. */
    method IsUnderDeletedPath(op: Op, ghost done: seq<Op>) returns (r: bool)
      requires Ready() && AllFilled(start, ops, done, View()) && op in ops && !DeletedAt(ops, [])
      ensures r == Gone(start, ops, op.Path())
    {
      var np, pos := KeyOf(op), 0;
      ghost var path := op.Path();
      assert path[..0] == [];
      GoneAt(start, ops, []);
      for i := 0 to |op.keyPath|
        invariant !Gone(start, ops, path[..i]) && pos == |Join(path[..i])|
      {
        Truncated(path, i);
        Truncated(path, i + 1);
        if i > 0 { pos := pos + 1; }
        pos := pos + |op.keyPath[i]|;
        FirstGone(start, ops, done, View(), op, i);
        if np[..pos] in deleted {
          GoneMonotone(start, ops, path[..i + 1], path);
          return true;
        }
      }
      assert path[..|path|] == path;
      r := false;
    }

    /** The length of the deepest visited key above `path`. */
    method DeepestVisited(op: Op, pathKey: string, ghost done: seq<Op>) returns (a: nat, ancestorRef: Path)
      requires Ready() && AllFilled(start, ops, done, View()) && Live(start, ops, op.Path())
      requires pathKey == KeyOf(op) && pathKey !in visited
      ensures a < |op.keyPath| && ancestorRef == op.Path()[..a] && ancestorRef in editor.tree
    {
      ghost var path := op.Path();
      var pos := 0;
      a, ancestorRef := 0, [];
      RootIn(start, ops, done, View(), path);
      assert path[..0] == [];
      assert path[..|path|] == path;
      while a < |op.keyPath|
        invariant a <= |path| && pos == |Join(path[..a])|
        invariant ancestorRef == path[..a] && ancestorRef in editor.tree && Join(path[..a]) in visited
      {
        Truncated(path, a);
        Truncated(path, a + 1);
        var next := pos + (if a > 0 then 1 else 0) + |op.keyPath[a]|;
        var above := path[..a + 1];
        assert Filled(start, ops, done, View(), above);
        LiveAbove(start, ops, done, View(), path, above);
        if pathKey[..next] !in visited { break; }
        ancestorRef := visited[pathKey[..next]];
        a, pos := a + 1, next;
      }
    }

    /** The keys between the ancestor and the new key become visited, found one below the other in the index. */
    method MarkBetween(op: Op, pathKey: string, a: nat, ghost v0: map<string, Path>)
      requires a < |op.keyPath| && pathKey == KeyOf(op)
      requires forall q :: Between(op.Path()[..a], q, op.Path()) && q != op.Path()[..a] ==>
        Indexed(editor.idx, editor.tree, q) && q in editor.tree
      requires AllMarked(v0, visited, op.Path(), a, a)
      modifies this`visited
      ensures AllMarked(v0, visited, op.Path(), a, |op.Path()|)
    {
      ghost var path := op.Path();
      ghost var root := path[..a];
      var tempRef: Path := op.Path()[..a];
      var k, end := a, |Join(op.Path()[..a])|;
      while k < |op.keyPath| - 1
        invariant a <= k < |path| && tempRef == path[..k] && end == |Join(path[..k])|
        invariant AllMarked(v0, visited, path, a, k)
      {
        ghost var next := path[..k + 1];
        assert Between(root, next, path) && next != root;
        Truncated(path, k);
        Truncated(path, k + 1);
        EdgeOfUnder(tempRef, path[k]);
        assert next == Under(tempRef, path[k]);
        end := end + (if k > 0 then 1 else 0) + |op.keyPath[k]|;
        AllMarkedNext(v0, visited, path, a, k, next);
        var inter := editor.GetNK(tempRef, op.keyPath[k]);
        if inter.Some? {
          visited := visited[pathKey[..end] := inter.value];
          tempRef := inter.value;
        }
        k := k + 1;
      }
      AllMarkedLast(v0, visited, path, a, k);
    }

    /** Creates the keys of the path below the ancestor. */
    method CreateBelow(op: Op, pathKey: string, a: nat, ancestorRef: Path, ghost done: seq<Op>) returns (nkRef: Path)
      requires Ready() && AllFilled(start, ops, done, View()) && Live(start, ops, op.Path()) && pathKey == KeyOf(op)
      requires a < |op.keyPath| && ancestorRef == op.Path()[..a] && ancestorRef in editor.tree
      modifies this`visited, this`keysCreated, editor
      ensures nkRef == op.Path()
      ensures MadeFor(op, old(editor.tree).Keys, old(editor.log), editor.tree.Keys, editor.log)
      ensures forall q {:trigger Created(old(View()), View(), op.Path(), q)} ::
        Created(old(View()), View(), op.Path(), q)
      ensures |editor.tree| - keysCreated == old(|editor.tree| - keysCreated)
    {
      ghost var s, log, path := View(), editor.log, op.Path();
      LiveBelow(start, ops, done, s, op, a);
      var created;
      nkRef, created := editor.EnsureKeyPath(ancestorRef, op.keyPath[a..]);
      keysCreated := keysCreated + created;
      AllMarkedFirst(visited, path, a);
      visited := visited[pathKey := nkRef];
      EnsuredIndexed(s, editor.tree, editor.idx, ancestorRef, path);
      MarkBetween(op, pathKey, a, s.visited);
      EnsuredIsCreated(start, ops, done, s, View(), path, a);
      EditedWider(s.tree.Keys, log, editor.tree.Keys, editor.log, [], ancestorRef, false);
    }

    /** The key of an operation, created with everything missing above it if it was not visited. */
    method EnsureKeyForPhase2(op: Op, pathKey: string, ghost done: seq<Op>, ghost keys0: set<Path>, ghost log0: Log)
      returns (nkRef: Path)
      requires Ready() && AllFilled(start, ops, done, View()) && Live(start, ops, op.Path()) && pathKey == KeyOf(op)
      requires op in ops && op.Creates() && Filling(ops, keys0, log0, editor.tree.Keys, editor.log)
      modifies this`visited, this`keysCreated, editor
      ensures nkRef == op.Path()
      ensures Filling(ops, keys0, log0, editor.tree.Keys, editor.log)
      ensures forall q {:trigger Created(old(View()), View(), op.Path(), q)} ::
        Created(old(View()), View(), op.Path(), q)
      ensures |editor.tree| - keysCreated == old(|editor.tree| - keysCreated)
    {
      if pathKey in visited {
        assert Filled(start, ops, done, View(), op.Path());
        LiveAbove(start, ops, done, View(), op.Path(), op.Path());
        CreatedAlready(start, ops, done, View(), op.Path());
        nkRef := visited[pathKey];
      } else {
        var a, ancestorRef := DeepestVisited(op, pathKey, done);
        ghost var keys, log := editor.tree.Keys, editor.log;
        nkRef := CreateBelow(op, pathKey, a, ancestorRef, done);
        FilledMore(ops, op, keys0, log0, keys, log, editor.tree.Keys, editor.log);
      }
    }

    /** The sets among the operations on one path, from `i` on; the others are passed over. */
    method CollectSets(i: nat, pathKey: string) returns (end: nat, valueOps: seq<Op>)
      requires i < |ops| && pathKey == KeyOf(ops[i])
      ensures i < end <= |ops| && OnPath(ops[i..end], ops[i].Path()) && valueOps == SetsOf(ops[i..end])
    {
      end, valueOps := i, [];
      while end < |ops| && KeyOf(ops[end]) == pathKey
        invariant i <= end <= |ops| && (end == i ==> KeyOf(ops[i]) == pathKey)
        invariant OnPath(ops[i..end], ops[i].Path()) && valueOps == SetsOf(ops[i..end])
      {
        var cur := ops[end];
        JoinInjective(cur.Path(), ops[i].Path());
        assert ops[i..end + 1] == ops[i..end] + [cur];
        assert ops[i..end + 1][..end - i] == ops[i..end];
        if cur.SetValue? {
          valueOps := valueOps + [cur];
        }
        end := end + 1;
      }
    }

    /** Creates what is missing, and sets values again, run by run of operations on one path. */
    method CreateMissingKeysAndApply(ghost keys0: set<Path>, ghost log0: Log) returns (ok: bool)
      requires Ready() && AllFilled(start, ops, [], View()) && !DeletedAt(ops, [])
      requires Filling(ops, keys0, log0, editor.tree.Keys, editor.log)
      modifies this`visited, this`keysCreated, editor
      ensures ok <==> SecondPassAll(start, ops, ops)
      ensures ok ==> AllFilled(start, ops, ops, View())
      ensures ok ==> |editor.tree| - keysCreated == old(|editor.tree| - keysCreated)
      ensures ok ==> Filling(ops, keys0, log0, editor.tree.Keys, editor.log)
    {
      var i := 0;
      assert ops[..0] == [];
      NothingPassed(start, ops);
      while i < |ops|
        invariant i <= |ops| && AllFilled(start, ops, ops[..i], View())
        invariant |editor.tree| - keysCreated == old(|editor.tree| - keysCreated)
        invariant Filling(ops, keys0, log0, editor.tree.Keys, editor.log)
        invariant SecondPassAll(start, ops, ops[..i])
      {
        var op := ops[i];
        assert ops[..i + 1] == ops[..i] + [op];
        var under := false;
        if op.Creates() {
          under := IsUnderDeletedPath(op, ops[..i]);
        }
        if !op.Creates() || under {
          Passed(start, ops, ops[..i], View(), op);
          PassedOver(start, ops, ops[..i], op);
          i := i + 1;
        } else {
          var end;
          ok, end := ApplyRun(i, keys0, log0);
          if !ok {
            if SecondPassAll(start, ops, ops) { PassPrefixAll(start, ops, end); }
            return;
          }
          i := end;
        }
      }
      assert ops[..|ops|] == ops;
      ok := true;
    }

    /** One run: the key of its first operation, and all its sets in one batch. */
    method ApplyRun(i: nat, ghost keys0: set<Path>, ghost log0: Log) returns (ok: bool, end: nat)
      requires Ready() && i < |ops| && AllFilled(start, ops, ops[..i], View()) && SecondPassAll(start, ops, ops[..i])
      requires ops[i].Creates() && !Gone(start, ops, ops[i].Path())
      requires Filling(ops, keys0, log0, editor.tree.Keys, editor.log)
      modifies this`visited, this`keysCreated, editor
      ensures i < end <= |ops| && (ok <==> SecondPassAll(start, ops, ops[..end]))
      ensures ok ==> AllFilled(start, ops, ops[..end], View())
      ensures ok ==> Filling(ops, keys0, log0, editor.tree.Keys, editor.log)
      ensures ok ==> |editor.tree| - keysCreated == old(|editor.tree| - keysCreated)
    {
      var op := ops[i];
      var pathKey := KeyOf(op);
      ghost var s := View();
      assert Needed(ops, op.Path());
      var nkRef := EnsureKeyForPhase2(op, pathKey, ops[..i], keys0, log0);
      ghost var s' := View();
      var valueOps;
      end, valueOps := CollectSets(i, pathKey);
      RunDone(start, ops, i, end, s, s');
      ok := FlushValues(nkRef, valueOps);
      assert ok ==> View() == s'.(tree := s'.tree[nkRef := ValuesAfter(s'.tree[nkRef], valueOps)]);
      assert ok ==> editor.tree.Keys == s'.tree.Keys;
    }

    /** The walk and then the second phase. The tree it leaves is known key by key, for every plan, and exactly the
        keys that were not there are counted as created; only the deletion of the root and values that are refused fail.
        The deferred lists are then flushed: they show the keys of that tree if and only if no key got the cell of a
        deleted sibling. They do so whatever cells the allocator gives exactly if no parent has both a key deleted by
        the walk and a new one created. */
    method Apply(ghost plan: seq<Op>) returns (ok: bool)
      requires Ready() && View() == State(start, map[], map[], {}) && keysCreated == 0 && keysDeleted == 0
      requires multiset(ops) == multiset(plan) && (forall p :: At(ops, p) == At(plan, p)) && editor.log == []
      modifies this, editor
      ensures ok <==> WalkTakes(start, plan)
      ensures ok ==> forall p :: AppliedKey(start, plan, editor.tree, p)
      ensures ok ==> keysCreated == |editor.tree.Keys - start.Keys|
      ensures ok ==> keysDeleted == |deleted|
      ensures ok ==> forall p :: Join(p) in deleted <==> Reached(start, plan, p) && DeletedAt(plan, p)
      ensures ok ==> ListsRightIff(start.Keys, editor.log, editor.tree.Keys, true)
      ensures ok ==> AlwaysRightIff(start.Keys, editor.log, editor.tree.Keys, WalkApart(start, plan))
    {
      NothingWalked(start);
      SameTakes(start, ops, plan);
      ok := WalkAndApply([]);
      if !ok { return; }
      ghost var mid, log1 := View(), editor.log;
      ok := SecondPhase();
      if !ok { return; }
      WalkDone(start, plan, ops, mid, log1, View(), editor.log);
    }

    method SecondPhase() returns (ok: bool)
      requires Ready() && WalkedBelow(start, ops, View(), []) && !DeletedAt(ops, []) && TopDown(ops, editor.log)
      modifies this`visited, this`keysCreated, editor
      ensures ok <==> SecondPassAll(start, ops, ops)
      ensures ok ==> AllFilled(start, ops, ops, View())
      ensures ok ==> |editor.tree| - keysCreated == old(|editor.tree| - keysCreated)
      ensures ok ==> Filling(ops, old(editor.tree).Keys, old(editor.log), editor.tree.Keys, editor.log)
    {
      WalkedIsFilled(start, ops, View());
      EditedNone(editor.tree.Keys, editor.log, [], false);
      ok := CreateMissingKeysAndApply(editor.tree.Keys, editor.log);
    }
  }
}
