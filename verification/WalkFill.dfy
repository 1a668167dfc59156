/** The second phase of the walk, key by key: missing keys are created and values set again. */
module WalkFill {
  import opened Registry
  import opened PlanMeaning
  import opened NormalPath
  import opened KeyEditing
  import opened WalkMeaning
  import opened ValueRuns

  /** The key after the walk, once the operations `done` have been through the second phase. */
  ghost predicate Filled(t: Tree, ops: seq<Op>, done: seq<Op>, s: State, q: Path) {
    && (q in s.tree <==> (q in t && !Gone(t, ops, q)) || Made(t, ops, done, q))
    && (q in s.tree ==> s.tree[q] == SetsAfter(WalkedValues(t, ops, q), At(done, q)))
    && Entry(s.idx, q, (Reached(t, ops, q) && !DeletedAt(ops, q)) || Made(t, ops, done, q))
    && Visit(s.visited, q, Reached(t, ops, q) || Made(t, ops, done, q))
    && (Join(q) in s.deleted <==> Reached(t, ops, q) && DeletedAt(ops, q))
  }

  ghost predicate AllFilled(t: Tree, ops: seq<Op>, done: seq<Op>, s: State) {
    forall q {:trigger Filled(t, ops, done, s, q)} :: Filled(t, ops, done, s, q)
  }

  lemma WalkedIsFilled(t: Tree, ops: seq<Op>, s: State)
    requires WalkedBelow(t, ops, s, [])
    ensures AllFilled(t, ops, [], s)
  {
    forall q ensures Filled(t, ops, [], s, q) {
      assert Walked(t, ops, s, q);
    }
  }

  /** A path whose keys the walk has not deleted: up to it, the index, the visited keys and the tree agree. */
  ghost predicate Live(t: Tree, ops: seq<Op>, path: Path) {
    Needed(ops, path) && !Gone(t, ops, path)
  }

  lemma LiveAbove(t: Tree, ops: seq<Op>, done: seq<Op>, s: State, path: Path, q: Path)
    requires Live(t, ops, path) && q <= path && Filled(t, ops, done, s, q)
    ensures Visit(s.visited, q, q in s.tree)
    ensures q != [] ==> Indexed(s.idx, s.tree, q)
    ensures q in t ==> q in s.tree
    ensures !Gone(t, ops, q)
  {
    if Gone(t, ops, q) {
      GoneMonotone(t, ops, q, path);
      assert false;
    }
    if q in t {
      NeededMonotone(ops, q, path);
      GoneAt(t, ops, q);
    }
  }

  lemma RootIn(t: Tree, ops: seq<Op>, done: seq<Op>, s: State, path: Path)
    requires Closed(t) && Live(t, ops, path) && AllFilled(t, ops, done, s)
    ensures [] in s.tree && Visit(s.visited, [], true)
  {
    assert Filled(t, ops, done, s, []);
    LiveAbove(t, ops, done, s, path, []);
  }

  lemma MadeNext(t: Tree, ops: seq<Op>, done: seq<Op>, op: Op, q: Path)
    ensures Made(t, ops, done + [op], q) <==> Made(t, ops, done, q) || Makes(t, ops, op, q)
  {
    var next := done + [op];
    assert forall e :: e in next <==> e in done || e == op;
    if Makes(t, ops, op, q) { assert op in next; }
  }

  lemma AtNext(done: seq<Op>, op: Op, q: Path)
    ensures At(done + [op], q) == At(done, q) + (if op.Path() == q then [op] else [])
  {
    assert (done + [op])[..|done|] == done;
  }

  lemma SetsAfterNext(vs: Values, ops: seq<Op>, op: Op)
    ensures SetsAfter(vs, ops + [op])
         == if op.SetValue? then ValueStep(SetsAfter(vs, ops), op) else SetsAfter(vs, ops)
  {
    assert (ops + [op])[..|ops|] == ops;
  }

  lemma {:induction false} NoSets(vs: Values, ops: seq<Op>)
    requires forall e :: e in ops ==> !e.SetValue?
    ensures SetsAfter(vs, ops) == vs
  {
    if ops != [] {
      NoSets(vs, ops[..|ops| - 1]);
    }
  }

  lemma {:induction false} AtMembers(ops: seq<Op>, q: Path)
    ensures forall e :: e in At(ops, q) <==> e in ops && e.Path() == q
  {
    if ops != [] {
      var before, op := ops[..|ops| - 1], ops[|ops| - 1];
      AtMembers(before, q);
      assert ops == before + [op];
    }
  }

  lemma GoneNotMade(t: Tree, ops: seq<Op>, done: seq<Op>, q: Path)
    requires Gone(t, ops, q)
    ensures !Made(t, ops, done, q)
  {
    if Made(t, ops, done, q) {
      var e :| e in done && Makes(t, ops, e, q);
      GoneMonotone(t, ops, q, e.Path());
      assert false;
    }
  }

  /** An operation that creates nothing, or is on a deleted key or below one, is passed over. */
  lemma Passed(t: Tree, ops: seq<Op>, done: seq<Op>, s: State, op: Op)
    requires AllFilled(t, ops, done, s) && (!op.Creates() || Gone(t, ops, op.Path()))
    ensures AllFilled(t, ops, done + [op], s)
  {
    forall q ensures Filled(t, ops, done + [op], s, q) {
      assert Filled(t, ops, done, s, q);
      MadeNext(t, ops, done, op, q);
      AtNext(done, op, q);
      if op.Path() == q {
        SetsAfterNext(WalkedValues(t, ops, q), At(done, q), op);
        if Gone(t, ops, q) { GoneNotMade(t, ops, done, q); }
      } else {
        assert At(done, q) + [] == At(done, q);
      }
    }
  }

  /** The path `path` has been created as far as it was missing. */
  ghost predicate Created(s: State, s': State, path: Path, q: Path) {
    && (q in s'.tree <==> q in s.tree || q <= path)
    && (q in s'.tree ==> s'.tree[q] == OldValues(s.tree, q))
    && (q != [] && q <= path ==> Indexed(s'.idx, s'.tree, q))
    && (q != [] && !(q <= path) ==> SameEdge(s'.idx, s.idx, q))
    && (q <= path ==> Visit(s'.visited, q, true))
    && (!(q <= path) ==> Visit(s.visited, q, false) ==> Visit(s'.visited, q, false))
    && (!(q <= path) ==> Visit(s.visited, q, true) ==> Visit(s'.visited, q, true))
    && (Join(q) in s'.deleted <==> Join(q) in s.deleted)
  }

  /** A key that nothing has created has no values set so far. */
  lemma NothingSet(t: Tree, ops: seq<Op>, done: seq<Op>, q: Path)
    requires !Gone(t, ops, q) && !Made(t, ops, done, q)
    ensures forall e :: e in At(done, q) ==> !e.SetValue?
  {
    AtMembers(done, q);
    forall e | e in At(done, q) ensures !e.SetValue? {
      assert e in done && e.Path() == q;
      assert !Makes(t, ops, e, q);
    }
  }

  /** After the creation of the path of the first operation of a run. */
  lemma CreatedIsFilled(t: Tree, ops: seq<Op>, done: seq<Op>, s: State, s': State, op: Op, q: Path)
    requires AllFilled(t, ops, done, s) && op.Creates() && Live(t, ops, op.Path())
    requires Created(s, s', op.Path(), q)
    ensures Filled(t, ops, done, s', q) || q <= op.Path()
    ensures q <= op.Path() ==> q in s'.tree && s'.tree[q] == SetsAfter(WalkedValues(t, ops, q), At(done, q))
    ensures q <= op.Path() ==> Entry(s'.idx, q, true) && Visit(s'.visited, q, true) && !Gone(t, ops, q)
    ensures q <= op.Path() ==> !(Join(q) in s'.deleted) && !(Reached(t, ops, q) && DeletedAt(ops, q))
  {
    assert Filled(t, ops, done, s, q);
    if q <= op.Path() {
      LiveAbove(t, ops, done, s, op.Path(), q);
      if q in t { GoneAt(t, ops, q); }
      if q !in s.tree {
        NothingSet(t, ops, done, q);
        NoSets(map[], At(done, q));
      }
    }
  }

  /** The keys above a key that is there are there. */
  lemma FilledClosed(t: Tree, ops: seq<Op>, done: seq<Op>, s: State, path: Path, p: Path, q: Path)
    requires Closed(t) && AllFilled(t, ops, done, s) && Live(t, ops, path) && q <= p <= path && p in s.tree
    ensures q in s.tree
  {
    assert Filled(t, ops, done, s, p) && Filled(t, ops, done, s, q);
    LiveAbove(t, ops, done, s, path, q);
    if p in t {
      PrefixIn(t, q, p);
    } else {
      var e :| e in done && Makes(t, ops, e, p);
      assert Makes(t, ops, e, q);
    }
  }

  /** A path that is there is created. */
  lemma CreatedAlready(t: Tree, ops: seq<Op>, done: seq<Op>, s: State, path: Path)
    requires Closed(t) && AllFilled(t, ops, done, s) && Live(t, ops, path) && path in s.tree
    ensures forall q {:trigger Created(s, s, path, q)} :: Created(s, s, path, q)
  {
    forall q ensures Created(s, s, path, q) {
      if q <= path {
        assert Filled(t, ops, done, s, q);
        FilledClosed(t, ops, done, s, path, path, q);
        LiveAbove(t, ops, done, s, path, q);
      }
    }
  }

  /** The visited keys with those strictly below the ancestor of length `a`, down to length `b`, and `path` itself. */
  ghost predicate Marked(v0: map<string, Path>, v: map<string, Path>, path: Path, a: nat, b: nat, q: Path) {
    if q == path || (q <= path && a < |q| <= b) then Visit(v, q, true)
    else (Join(q) in v <==> Join(q) in v0) && (Join(q) in v ==> v[Join(q)] == v0[Join(q)])
  }

  ghost predicate AllMarked(v0: map<string, Path>, v: map<string, Path>, path: Path, a: nat, b: nat) {
    forall q {:trigger Marked(v0, v, path, a, b, q)} :: Marked(v0, v, path, a, b, q)
  }

  lemma AllMarkedNext(v0: map<string, Path>, v: map<string, Path>, path: Path, a: nat, b: nat, r: Path)
    requires AllMarked(v0, v, path, a, b) && r <= path && |r| == b + 1 && a <= b
    ensures AllMarked(v0, v[Join(r) := r], path, a, b + 1)
  {
    var v', c := v[Join(r) := r], |r|;
    forall q ensures Marked(v0, v', path, a, c, q) {
      assert Marked(v0, v, path, a, b, q);
      MarkedNext(v0, v, path, a, b, r, q);
    }
  }

  lemma AllMarkedLast(v0: map<string, Path>, v: map<string, Path>, path: Path, a: nat, b: nat)
    requires AllMarked(v0, v, path, a, b) && b + 1 == |path|
    ensures AllMarked(v0, v, path, a, |path|)
  {
    forall q ensures Marked(v0, v, path, a, |path|, q) {
      assert Marked(v0, v, path, a, b, q);
    }
  }

  lemma AllMarkedFirst(v0: map<string, Path>, path: Path, a: nat)
    ensures AllMarked(v0, v0[Join(path) := path], path, a, a)
  {
    var v := v0[Join(path) := path];
    forall q ensures Marked(v0, v, path, a, a, q) {
      if Join(q) == Join(path) { JoinInjective(q, path); }
    }
  }

  lemma MarkedNext(v0: map<string, Path>, v: map<string, Path>, path: Path, a: nat, b: nat, r: Path, q: Path)
    requires Marked(v0, v, path, a, b, q) && r <= path && |r| == b + 1 && a <= b
    ensures Marked(v0, v[Join(r) := r], path, a, b + 1, q)
  {
    if Join(q) == Join(r) { JoinInjective(q, r); }
    if q <= path && |q| == b + 1 {
      assert q == r;
    }
  }

  /** Ensured below the deepest ancestor that is there, and marked, a path is created. */
  lemma EnsuredIsCreated(t: Tree, ops: seq<Op>, done: seq<Op>, s: State, s': State, path: Path, a: nat)
    requires Closed(t) && AllFilled(t, ops, done, s) && Live(t, ops, path)
    requires a < |path| && path[..a] in s.tree && s'.deleted == s.deleted
    requires forall q {:trigger EnsuredTo(s.tree, s.idx, s'.tree, s'.idx, path[..a], path, q)} ::
      EnsuredTo(s.tree, s.idx, s'.tree, s'.idx, path[..a], path, q)
    requires AllMarked(s.visited, s'.visited, path, a, |path|)
    ensures forall q {:trigger Created(s, s', path, q)} :: Created(s, s', path, q)
  {
    var root := path[..a];
    forall q ensures Created(s, s', path, q) {
      assert EnsuredTo(s.tree, s.idx, s'.tree, s'.idx, root, path, q);
      assert Marked(s.visited, s'.visited, path, a, |path|, q);
      if q <= path && !(Between(root, q, path) && q != root) {
        assert q <= root;
        assert Filled(t, ops, done, s, q);
        FilledClosed(t, ops, done, s, path, root, q);
        LiveAbove(t, ops, done, s, path, q);
      }
      if Between(root, q, path) && q != root {
        assert |q| > a;
      }
    }
  }

  // ----- A run of operations on one path -----

  function SetsOf(run: seq<Op>): seq<Op> {
    if run == [] then []
    else
      var rest, last := SetsOf(run[..|run| - 1]), run[|run| - 1];
      if last.SetValue? then rest + [last] else rest
  }

  /** A batch of the sets alone has the effect of the second phase. */
  lemma {:induction false} SetsOfRun(vs: Values, run: seq<Op>)
    ensures ValuesAfter(vs, SetsOf(run)) == SetsAfter(vs, run)
  {
    if run != [] {
      var before, op := run[..|run| - 1], run[|run| - 1];
      SetsOfRun(vs, before);
      var sets := SetsOf(before);
      assert (sets + [op])[..|sets|] == sets;
    }
  }

  /** The second phase gets past `q`: what it sets there again is accepted, so far. */
  ghost predicate SecondPass(t: Tree, ops: seq<Op>, done: seq<Op>, q: Path) {
    !Gone(t, ops, q) ==> AllTaken(WalkedValues(t, ops, q), SetsOf(At(done, q)))
  }

  ghost predicate SecondPassAll(t: Tree, ops: seq<Op>, done: seq<Op>) {
    forall q {:trigger SecondPass(t, ops, done, q)} :: SecondPass(t, ops, done, q)
  }

  /** The walk and its second phase come to the end: the root is not deleted, and no value is refused. */
  ghost predicate WalkTakes(t: Tree, ops: seq<Op>) {
    !DeletedAt(ops, []) && FirstPassBelow(t, ops, []) && SecondPassAll(t, ops, ops)
  }

  lemma {:induction false} SetsOfConcat(a: seq<Op>, b: seq<Op>)
    ensures SetsOf(a + b) == SetsOf(a) + SetsOf(b)
  {
    if b == [] {
      assert a + b == a;
    } else {
      var c := b[..|b| - 1];
      assert (a + b)[..|a + b| - 1] == a + c;
      SetsOfConcat(a, c);
    }
  }

  lemma {:induction false} AtConcat(a: seq<Op>, b: seq<Op>, q: Path)
    ensures At(a + b, q) == At(a, q) + At(b, q)
  {
    if b == [] {
      assert a + b == a;
    } else {
      var c := b[..|b| - 1];
      assert (a + b)[..|a + b| - 1] == a + c;
      AtConcat(a, c, q);
    }
  }

  lemma NothingPassed(t: Tree, ops: seq<Op>)
    ensures SecondPassAll(t, ops, [])
  {
  }

  /** If the second phase gets past all operations, it gets past the first ones. */
  lemma PassPrefix(t: Tree, ops: seq<Op>, n: nat, q: Path)
    requires n <= |ops| && SecondPass(t, ops, ops, q)
    ensures SecondPass(t, ops, ops[..n], q)
  {
    assert ops == ops[..n] + ops[n..];
    AtConcat(ops[..n], ops[n..], q);
    SetsOfConcat(At(ops[..n], q), At(ops[n..], q));
    AllTakenConcat(WalkedValues(t, ops, q), SetsOf(At(ops[..n], q)), SetsOf(At(ops[n..], q)));
  }

  /** An operation that creates nothing, or is on a deleted key or below one, sets nothing. */
  lemma PassedOver(t: Tree, ops: seq<Op>, done: seq<Op>, op: Op)
    requires SecondPassAll(t, ops, done) && (!op.Creates() || Gone(t, ops, op.Path()))
    ensures SecondPassAll(t, ops, done + [op])
  {
    forall q ensures SecondPass(t, ops, done + [op], q) {
      assert SecondPass(t, ops, done, q);
      AtNext(done, op, q);
      var at := At(done, q);
      assert at + [] == at && (at + [op])[..|at|] == at;
    }
  }

  /** One run: its sets are accepted by the values that the second phase has made so far. */
  lemma RunPasses(t: Tree, ops: seq<Op>, done: seq<Op>, run: seq<Op>, s: State, p: Path)
    requires SecondPassAll(t, ops, done) && OnPath(run, p) && !Gone(t, ops, p)
    requires p in s.tree && s.tree[p] == SetsAfter(WalkedValues(t, ops, p), At(done, p))
    ensures AllTaken(s.tree[p], SetsOf(run)) <==> SecondPassAll(t, ops, done + run)
  {
    var vs, a := WalkedValues(t, ops, p), At(done, p);
    assert SecondPass(t, ops, done, p);
    RunAt(done, run, p, p);
    SetsOfConcat(a, run);
    SetsOfRun(vs, a);
    AllTakenConcat(vs, SetsOf(a), SetsOf(run));
    assert SecondPass(t, ops, done + run, p) <==> AllTaken(s.tree[p], SetsOf(run));
    if AllTaken(s.tree[p], SetsOf(run)) {
      forall q ensures SecondPass(t, ops, done + run, q) {
        assert SecondPass(t, ops, done, q);
        RunAt(done, run, p, q);
      }
    }
  }

  ghost predicate OnPath(run: seq<Op>, path: Path) {
    forall e :: e in run ==> e.Path() == path
  }

  lemma {:induction false} RunAt(done: seq<Op>, run: seq<Op>, path: Path, q: Path)
    requires OnPath(run, path)
    ensures At(done + run, q) == if q == path then At(done, q) + run else At(done, q)
  {
    if run == [] {
      assert done + run == done;
    } else {
      var before, op := run[..|run| - 1], run[|run| - 1];
      assert run == before + [op] && done + run == (done + before) + [op];
      RunAt(done, before, path, q);
      AtNext(done + before, op, q);
      assert op in run;
      assert At(done, q) + before + [op] == At(done, q) + run;
    }
  }

  lemma RunMade(t: Tree, ops: seq<Op>, done: seq<Op>, run: seq<Op>, path: Path, q: Path)
    requires OnPath(run, path) && run != [] && run[0].Creates() && !Gone(t, ops, path)
    ensures Made(t, ops, done + run, q) <==> Made(t, ops, done, q) || q <= path
  {
    assert forall e :: e in done + run <==> e in done || e in run;
    assert run[0] in run;
    if q <= path { assert Makes(t, ops, run[0], q); }
  }

  lemma {:induction false} SetsAfterConcat(vs: Values, a: seq<Op>, b: seq<Op>)
    ensures SetsAfter(vs, a + b) == SetsAfter(SetsAfter(vs, a), b)
  {
    if b == [] {
      assert a + b == a;
    } else {
      var c := b[..|b| - 1];
      assert (a + b)[..|a + b| - 1] == a + c;
      SetsAfterConcat(vs, a, c);
    }
  }

  /** A run is done once its path is created and its sets are applied. */
  lemma RunFilled(t: Tree, ops: seq<Op>, done: seq<Op>, run: seq<Op>, s: State, s': State)
    requires AllFilled(t, ops, done, s) && run != [] && OnPath(run, run[0].Path())
    requires run[0].Creates() && Live(t, ops, run[0].Path())
    requires forall q {:trigger Created(s, s', run[0].Path(), q)} :: Created(s, s', run[0].Path(), q)
    requires run[0].Path() in s'.tree
    ensures var p := run[0].Path();
      AllFilled(t, ops, done + run, s'.(tree := s'.tree[p := ValuesAfter(s'.tree[p], SetsOf(run))]))
  {
    var p := run[0].Path();
    var s'' := s'.(tree := s'.tree[p := ValuesAfter(s'.tree[p], SetsOf(run))]);
    forall q ensures Filled(t, ops, done + run, s'', q) {
      assert Created(s, s', p, q);
      CreatedIsFilled(t, ops, done, s, s', run[0], q);
      RunAt(done, run, p, q);
      RunMade(t, ops, done, run, p, q);
      if q == p {
        SetsOfRun(s'.tree[p], run);
        SetsAfterConcat(WalkedValues(t, ops, q), At(done, q), run);
      }
    }
  }

  // ----- The plan's own order -----

  /** The sorted plan and the plan itself mean the same. */
  lemma FilledIsApplied(t: Tree, ops: seq<Op>, plan: seq<Op>, s: State)
    requires AllFilled(t, ops, ops, s) && multiset(ops) == multiset(plan) && forall p :: At(ops, p) == At(plan, p)
    ensures forall p :: AppliedKey(t, plan, s.tree, p)
  {
    forall e ensures e in ops <==> e in plan {
      assert e in multiset(ops) <==> e in multiset(plan);
    }
    forall p ensures AppliedKey(t, plan, s.tree, p) {
      assert Filled(t, ops, ops, s, p);
      assert At(ops, p) == At(plan, p);
      forall q ensures Gone(t, ops, q) == Gone(t, plan, q) {
      }
      MadeByBoth(t, ops, plan, p);
    }
  }

  lemma MadeByBoth(t: Tree, ops: seq<Op>, plan: seq<Op>, p: Path)
    requires forall e :: e in ops <==> e in plan
    requires forall q :: Gone(t, ops, q) == Gone(t, plan, q)
    ensures Made(t, ops, ops, p) == Made(t, plan, plan, p)
  {
    if Made(t, ops, ops, p) {
      var e :| e in ops && Makes(t, ops, e, p);
      assert e in plan && Makes(t, plan, e, p);
    }
    if Made(t, plan, plan, p) {
      var e :| e in plan && Makes(t, plan, e, p);
      assert e in ops && Makes(t, ops, e, p);
    }
  }
}
