/** Plans applied one operation at a time through the full index: hive/merge/session.go and
    hive/merge/strategy/inplace.go. */
module Sessions {
  import opened Registry
  import opened PlanMeaning
  import opened KeyEditing
  import opened EditLogs
  import opened DeferredPlans
  import opened PlanOrders
  import opened ValueRuns

  ghost predicate FullyIndexed(t: Tree, idx: Index) {
    forall q {:trigger Indexed(idx, t, q)} :: q != [] ==> Indexed(idx, t, q)
  }

  lemma EnsuredIs(t: Tree, idx: Index, t': Tree, idx': Index, p: Path)
    requires Closed(t) && FullyIndexed(t, idx)
    requires forall q {:trigger EnsuredTo(t, idx, t', idx', [], p, q)} :: EnsuredTo(t, idx, t', idx', [], p, q)
    ensures t' == Ensured(t, p) && FullyIndexed(t', idx')
  {
    EnsuredHas(t, p);
    forall q ensures q in t' <==> q in Ensured(t, p)
      ensures q in t' ==> t'[q] == Ensured(t, p)[q]
      ensures q != [] ==> Indexed(idx', t', q) {
      assert EnsuredTo(t, idx, t', idx', [], p, q);
      if q != [] { assert Indexed(idx, t, q); }
    }
  }

  lemma DeletedIndexed(t: Tree, idx: Index, p: Path)
    requires FullyIndexed(t, idx)
    ensures FullyIndexed(WithoutKey(t, p), WithoutEdges(idx, p))
  {
    forall q | q != [] ensures Indexed(WithoutEdges(idx, p), WithoutKey(t, p), q) {
      assert Indexed(idx, t, q);
    }
  }

  /** The edits of one operation: a deletion of its key, or creations on its path. */
  ghost predicate FromOp(op: Op, a: set<Path>, la: Log, b: set<Path>, lb: Log) {
    && |la| <= |lb| && lb[..|la|] == la && ValidLog(a, lb[|la|..]) && b == KeysAfter(a, lb[|la|..])
    && forall i :: |la| <= i < |lb| ==>
         if op.DeleteKey? then lb[i] == Cut(op.Path()) else lb[i].Made? && lb[i].key <= op.Path()
  }

  lemma FromNothing(op: Op, a: set<Path>, la: Log)
    ensures FromOp(op, a, la, a, la)
  {
    assert la[|la|..] == [];
  }

  /** The edits of an operation are those it asks for. */
  lemma FromOpTells(op: Op, a: Tree, la: Log, b: Tree, lb: Log)
    requires FromOp(op, a.Keys, la, b.Keys, lb) && b == Applied(a, op)
    ensures Tells(a, op, lb[|la|..])
  {
    forall e | e in lb[|la|..] ensures Asked([op], e) {
      var i :| 0 <= i < |lb[|la|..]| && lb[|la|..][i] == e;
      assert lb[|la| + i] == e && op in [op];
    }
  }

  lemma MoreEdits(la: Log, lb: Log, from: nat)
    requires from <= |la| <= |lb| && lb[..|la|] == la
    ensures lb[from..] == la[from..] + lb[|la|..]
  {
    assert lb == la + lb[|la|..];
  }

  lemma LogNext(t: Tree, plan: seq<Op>, done: nat, la: Log, lb: Log, from: nat, a: Tree, b: Tree)
    requires done < |plan| && from <= |la| && LogOf(t, plan[..done], la[from..])
    requires a == AppliedAll(t, plan[..done]) && b == Applied(a, plan[done])
    requires FromOp(plan[done], a.Keys, la, b.Keys, lb)
    ensures LogOf(t, plan[..done + 1], lb[from..])
  {
    var more := lb[|la|..];
    FromOpTells(plan[done], a, la, b, lb);
    LogMore(t, plan[..done], la[from..], plan[done], more);
    MoreEdits(la, lb, from);
    assert plan[..done + 1] == plan[..done] + [plan[done]];
  }

  /** `done` operations of the plan are applied, and have made the tree `s` of `t`. */
  ghost predicate GoneThrough(t: Tree, plan: seq<Op>, done: nat, s: Tree) {
    && done <= |plan| && s == AppliedAll(t, plan[..done])
    && forall i :: 0 <= i < done ==> !Refuses(AppliedAll(t, plan[..i]), plan[i])
  }

  lemma GoneFurther(t: Tree, plan: seq<Op>, done: nat, s: Tree)
    requires GoneThrough(t, plan, done, s) && done < |plan| && !Refuses(s, plan[done])
    ensures GoneThrough(t, plan, done + 1, Applied(s, plan[done]))
  {
    assert plan[..done + 1][..done] == plan[..done];
  }

  /** A plan that comes to the end is accepted; one that stops is not. */
  lemma GoneToEnd(t: Tree, plan: seq<Op>, done: nat, s: Tree)
    requires GoneThrough(t, plan, done, s)
    ensures done == |plan| ==> Accepts(t, plan) && plan[..done] == plan
    ensures done < |plan| && Refuses(s, plan[done]) ==> !Accepts(t, plan)
  {
  }

  lemma LogNone(t: Tree, plan: seq<Op>, log: Log)
    ensures GoneThrough(t, plan, 0, t) && LogOf(t, plan[..0], log[|log|..])
  {
  }

  /** What an operation that fails leaves: a set has created its key's path by then. */
  function Attempted(t: Tree, op: Op): Tree {
    if op.SetValue? then Ensured(t, op.Path()) else t
  }

  lemma OneTaken(vs: Values, op: Op)
    ensures AllTaken(vs, [op]) <==> !(op.SetValue? && Refused(vs, op))
    ensures ValuesAfter(vs, [op]) == ValueStep(vs, op) && ValuesAfter(vs, []) == vs
  {
    AllTakenNext(vs, [], op);
    assert [] + [op] == [op] && [op][..0] == [];
  }

  class Session {
    const editor: KeyEditor
    var keysCreated: nat
    var keysDeleted: nat
    var valuesSet: nat
    var valuesDeleted: nat

    ghost predicate Valid()
      reads this, editor
    {
      Closed(editor.tree) && FullyIndexed(editor.tree, editor.idx)
    }

    constructor (e: KeyEditor)
      requires Closed(e.tree) && FullyIndexed(e.tree, e.idx)
      ensures editor == e && Valid()
      ensures keysCreated == keysDeleted == valuesSet == valuesDeleted == 0
    {
      editor := e;
      keysCreated, keysDeleted, valuesSet, valuesDeleted := 0, 0, 0, 0;
    }

    /** The key of a path, if every key on the way is found. */
    method WalkPath(components: Path) returns (r: Option<Path>)
      requires Valid()
      ensures r == if LowerPath(components) in editor.tree then Some(LowerPath(components)) else None
    {
      ghost var low := LowerPath(components);
      var current: Path := [];
      for i := 0 to |components|
        invariant current == low[..i] && current in editor.tree
      {
        ghost var next := low[..i + 1];
        EdgeOfUnder(current, low[i]);
        assert next == Under(current, low[i]);
        assert Indexed(editor.idx, editor.tree, next);
        var found := editor.GetNK(current, components[i]);
        if found.None? {
          if low in editor.tree { PrefixIn(editor.tree, next, low); }
          return None;
        }
        current := found.value;
      }
      assert low[..|low|] == low;
      r := Some(current);
    }

    method EnsureKey(path: Path) returns (keyRef: Path, created: nat)
      requires Valid()
      modifies editor
      ensures Valid() && keyRef == LowerPath(path) && editor.tree == Ensured(old(editor.tree), LowerPath(path))
      ensures |editor.tree| == |old(editor.tree)| + created
      ensures Edited(old(editor.tree).Keys, old(editor.log), editor.tree.Keys, editor.log, [], false)
      ensures forall i :: |old(editor.log)| <= i < |editor.log| ==> editor.log[i].key <= keyRef
    {
      ghost var t, idx, low := editor.tree, editor.idx, LowerPath(path);
      assert [] + low == low;
      EnsuredClosed(t, low);
      if |path| == 0 {
        EnsuredHas(t, []);
        assert t == Ensured(t, []);
        EditedNone(t.Keys, editor.log, [], false);
        return [], 0;
      }
      forall k | 0 < k <= |path| ensures Indexed(idx, t, Down([], low, k)) {
      }
      keyRef, created := editor.EnsureKeyPath([], path);
      EnsuredIs(t, idx, editor.tree, editor.idx, low);
    }

    method ApplyOp(op: Op) returns (ok: bool)
      requires Valid()
      modifies this, editor
      ensures ok == !Refuses(old(editor.tree), op) && Valid()
      ensures editor.tree == if ok then Applied(old(editor.tree), op) else Attempted(old(editor.tree), op)
      ensures keysCreated == old(keysCreated) + if op.EnsureKey? then |editor.tree| - |old(editor.tree)| else 0
      ensures keysDeleted == old(keysDeleted) + if op.DeleteKey? && ok && op.Path() in old(editor.tree) then 1 else 0
      ensures valuesSet == old(valuesSet) + (if op.SetValue? && ok then 1 else 0)
      ensures valuesDeleted == old(valuesDeleted) + (if op.DeleteValue? then 1 else 0)
      ensures FromOp(op, old(editor.tree).Keys, old(editor.log), editor.tree.Keys, editor.log)
    {
      ok := true;
      match op {
        case EnsureKey(path) =>
          var _, created := EnsureKey(path);
          keysCreated := keysCreated + created;
        case SetValue(path, _, _) =>
          ok := EditValue(op);
          if ok { valuesSet := valuesSet + 1; }
        case DeleteValue(path, _) =>
          ok := EditValue(op);
          valuesDeleted := valuesDeleted + 1;
        case DeleteKey(path) =>
          ok := DeleteKey(op);
      }
    }

    method EditValue(op: Op) returns (ok: bool)
      requires Valid() && (op.SetValue? || op.DeleteValue?)
      modifies editor
      ensures ok == !Refuses(old(editor.tree), op) && Valid()
      ensures editor.tree == if ok then Applied(old(editor.tree), op) else Attempted(old(editor.tree), op)
      ensures FromOp(op, old(editor.tree).Keys, old(editor.log), editor.tree.Keys, editor.log)
    {
      ghost var t := editor.tree;
      var keyRef, _ := EnsureKey(op.keyPath);
      EnsuredHas(t, op.Path());
      ghost var t1, idx1 := editor.tree, editor.idx;
      AppliedClosed(t, op);
      OneTaken(t1[keyRef], op);
      ok := editor.UpsertValues(keyRef, [op]);
      assert !ok ==> editor.tree == t1;
      forall q | q != [] ensures Indexed(editor.idx, editor.tree, q) {
        assert Indexed(idx1, t1, q);
      }
    }

    method DeleteKey(op: Op) returns (ok: bool)
      requires Valid() && op.DeleteKey?
      modifies this`keysDeleted, editor
      ensures ok == !Refuses(old(editor.tree), op) && Valid()
      ensures editor.tree == if ok then Applied(old(editor.tree), op) else Attempted(old(editor.tree), op)
      ensures keysDeleted == old(keysDeleted) + if ok && op.Path() in old(editor.tree) then 1 else 0
      ensures FromOp(op, old(editor.tree).Keys, old(editor.log), editor.tree.Keys, editor.log)
    {
      FromNothing(op, editor.tree.Keys, editor.log);
      var keyRef := WalkPath(op.keyPath);
      if |op.keyPath| == 0 { return false; }
      ok := true;
      if keyRef.Some? {
        WithoutKeyClosed(editor.tree, op.Path());
        DeletedIndexed(editor.tree, editor.idx, op.Path());
        var _ := editor.DeleteKey(keyRef.value);
        keysDeleted := keysDeleted + 1;
      }
    }

    /** The plan in its own order, up to the first operation that fails: one that deletes the root, or sets a value that
        is too large or cannot be compared with what is there. */
    method ApplyOps(plan: seq<Op>) returns (ok: bool, done: nat)
      requires Valid()
      modifies this, editor
      ensures Valid() && done <= |plan| && (ok <==> done == |plan|) && (ok <==> Accepts(old(editor.tree), plan))
      ensures !ok ==> Refuses(AppliedAll(old(editor.tree), plan[..done]), plan[done])
      ensures forall i :: 0 <= i < done ==> !Refuses(AppliedAll(old(editor.tree), plan[..i]), plan[i])
      ensures ok ==> editor.tree == AppliedAll(old(editor.tree), plan)
      ensures !ok ==> editor.tree == Attempted(AppliedAll(old(editor.tree), plan[..done]), plan[done])
      ensures ok ==> |old(editor.log)| <= |editor.log|
      ensures ok ==> LogOf(old(editor.tree), plan, editor.log[|old(editor.log)|..])
    {
      done := 0;
      LogNone(editor.tree, plan, editor.log);
      while done < |plan|
        invariant Valid() && GoneThrough(old(editor.tree), plan, done, editor.tree)
        invariant |old(editor.log)| <= |editor.log|
        invariant LogOf(old(editor.tree), plan[..done], editor.log[|old(editor.log)|..])
      {
        GoneToEnd(old(editor.tree), plan, done, editor.tree);
        ok := ApplyNext(plan, done, old(editor.tree), |old(editor.log)|);
        if !ok { return; }
        done := done + 1;
      }
      GoneToEnd(old(editor.tree), plan, done, editor.tree);
      ok := true;
    }

    method ApplyNext(plan: seq<Op>, done: nat, ghost t: Tree, ghost from: nat) returns (ok: bool)
      requires Valid() && done < |plan| && GoneThrough(t, plan, done, editor.tree)
      requires from <= |editor.log| && LogOf(t, plan[..done], editor.log[from..])
      modifies this, editor
      ensures Valid() && (ok <==> !Refuses(old(editor.tree), plan[done]))
      ensures editor.tree ==
              if ok then Applied(old(editor.tree), plan[done]) else Attempted(old(editor.tree), plan[done])
      ensures ok ==> GoneThrough(t, plan, done + 1, editor.tree)
      ensures ok ==> from <= |editor.log| && LogOf(t, plan[..done + 1], editor.log[from..])
    {
      ghost var log := editor.log;
      ok := ApplyOp(plan[done]);
      if ok {
        GoneFurther(t, plan, done, old(editor.tree));
        LogNext(t, plan, done, log, editor.log, from, old(editor.tree), editor.tree);
      }
    }

    /** The plan in deferred mode, and the flush of all lists. For an isolated plan the tree is that of one operation
        after another, and the lists on disk show its keys if and only if no key got the cell of a deleted sibling and
        the plan needs new keys in order, where a sibling is deleted. They do so whatever cells the allocator gives
        exactly if, below every parent with a deleted child, the new children are all needed before the first deletion,
        in the order of their names. */
    method Apply(plan: seq<Op>) returns (ok: bool, ghost edits: Log)
      requires Valid()
      modifies this, editor
      ensures Isolated(plan) ==> (ok <==> Accepts(old(editor.tree), plan))
      ensures Isolated(plan) && ok ==> Valid() && editor.tree == AppliedAll(old(editor.tree), plan)
      ensures Isolated(plan) && ok ==> LogOf(old(editor.tree), plan, edits)
      ensures Isolated(plan) && ok ==>
        ListsRightIff(old(editor.tree).Keys, edits, editor.tree.Keys, PlanInOrder(old(editor.tree), plan))
      ensures Isolated(plan) && ok ==>
        AlwaysRightIff(old(editor.tree).Keys, edits, editor.tree.Keys, PlanSafe(old(editor.tree), plan))
    {
      ghost var t, log0 := editor.tree, editor.log;
      var done;
      ok, done := ApplyOps(plan);
      edits := if ok then editor.log[|log0|..] else [];
      if ok && Isolated(plan) {
        LogIs(t, plan, edits);
        IsolatedCutsAlone(plan, edits);
        DeferredIff(t, edits, editor.tree.Keys);
        PlanOrderIff(t, plan, edits);
      }
    }
  }
}
