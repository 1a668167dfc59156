/** What the walk and its second phase have done, key by key, for every plan: hive/merge/walk_apply.go. */
module WalkMeaning {
  import opened Registry
  import opened PlanMeaning
  import opened NormalPath
  import opened KeyEditing
  import opened ValueRuns

  datatype State = State(tree: Tree, idx: Index, visited: map<string, Path>, deleted: set<string>)

  // ----- What a plan asks for -----

  /** Some operation is on key `q` or below it. */
  ghost predicate Needed(ops: seq<Op>, q: Path) {
    exists e :: e in ops && q <= e.Path()
  }

  ghost predicate DeletedAt(ops: seq<Op>, q: Path) {
    exists d :: d in ops && d.DeleteKey? && d.Path() == q
  }

  /** A key that was there and is deleted, or a key below one. */
  ghost predicate Gone(t: Tree, ops: seq<Op>, q: Path) {
    exists d :: d in ops && d.DeleteKey? && d.Path() in t && d.Path() <= q
  }

  /** The walk gets to `q`: it is there, an operation is on it or below it, and no key above it is deleted. */
  ghost predicate Reached(t: Tree, ops: seq<Op>, q: Path) {
    q in t && (q == [] || (Needed(ops, q) && !Gone(t, ops, q[..|q| - 1])))
  }

  ghost predicate Makes(t: Tree, ops: seq<Op>, e: Op, q: Path) {
    e.Creates() && !Gone(t, ops, e.Path()) && q <= e.Path()
  }

  /** One of the operations `done` creates `q` in the second phase. */
  ghost predicate Made(t: Tree, ops: seq<Op>, done: seq<Op>, q: Path) {
    exists e :: e in done && Makes(t, ops, e, q)
  }

  /** The values of `q` after the walk. */
  function WalkedValues(t: Tree, ops: seq<Op>, q: Path): Values {
    if q in t then ValuesAfter(t[q], At(ops, q)) else map[]
  }

  /** The operations on a key before the first that deletes it. */
  function UpToDelete(ops: seq<Op>): seq<Op> {
    if ops == [] then []
    else
      var rest, last := UpToDelete(ops[..|ops| - 1]), ops[|ops| - 1];
      if |rest| < |ops| - 1 || last.DeleteKey? then rest else rest + [last]
  }

  /** The walk gets past `q`: it does not get there, or no value it sets there is refused. */
  ghost predicate FirstPass(t: Tree, ops: seq<Op>, q: Path) {
    Reached(t, ops, q) ==> AllTaken(t[q], UpToDelete(At(ops, q)))
  }

  /** The walk gets past everything at and below `p`. */
  ghost predicate FirstPassBelow(t: Tree, ops: seq<Op>, p: Path) {
    forall q {:trigger FirstPass(t, ops, q)} :: p <= q ==> FirstPass(t, ops, q)
  }

  /** Key `p` after any plan is applied by the walk. */
  ghost predicate AppliedKey(t: Tree, ops: seq<Op>, w: Tree, p: Path) {
    && (p in w <==> (p in t && !Gone(t, ops, p)) || Made(t, ops, ops, p))
    && (p in w ==> w[p] == SetsAfter(WalkedValues(t, ops, p), At(ops, p)))
  }

  // ----- Keys during the walk -----

  ghost predicate Entry(idx: Index, q: Path, there: bool) {
    q != [] ==> (Edge(q) in idx <==> there) && (there ==> idx[Edge(q)] == q)
  }

  ghost predicate Visit(visited: map<string, Path>, q: Path, there: bool) {
    (Join(q) in visited <==> there) && (there ==> visited[Join(q)] == q)
  }

  /** Not yet walked. */
  ghost predicate Fresh(t: Tree, s: State, q: Path) {
    && (q in s.tree <==> q in t)
    && (q in t ==> s.tree[q] == t[q])
    && Entry(s.idx, q, false) && Visit(s.visited, q, false) && Join(q) !in s.deleted
  }

  ghost predicate Walked(t: Tree, ops: seq<Op>, s: State, q: Path) {
    && (q in s.tree <==> q in t && !Gone(t, ops, q))
    && (q in s.tree ==> s.tree[q] == WalkedValues(t, ops, q))
    && Entry(s.idx, q, Reached(t, ops, q) && !DeletedAt(ops, q))
    && Visit(s.visited, q, Reached(t, ops, q))
    && (Join(q) in s.deleted <==> Reached(t, ops, q) && DeletedAt(ops, q))
  }

  ghost predicate Same(s: State, s': State, q: Path) {
    && (q in s'.tree <==> q in s.tree)
    && (q in s.tree ==> s'.tree[q] == s.tree[q])
    && (q != [] ==> SameEdge(s'.idx, s.idx, q))
    && (Join(q) in s'.visited <==> Join(q) in s.visited)
    && (Join(q) in s.visited ==> s'.visited[Join(q)] == s.visited[Join(q)])
    && (Join(q) in s'.deleted <==> Join(q) in s.deleted)
  }

  /** `q` is strictly below `p`, on a branch among `names`. */
  predicate OnBranch(p: Path, names: set<KeyName>, q: Path) {
    |p| < |q| && p <= q && q[|p|] in names
  }

  lemma OnBranchOf(p: Path, n: KeyName, q: Path)
    ensures OnBranch(p, {n}, q) <==> Under(p, n) <= q
    ensures Under(p, n) <= q ==> p <= q
  {
    if OnBranch(p, {n}, q) {
      assert Under(p, n) == q[..|p| + 1];
    }
  }

  /** Midway through the children of `p`: the branches `done` and `p` itself are walked, the others are fresh. */
  ghost predicate Midway(t: Tree, ops: seq<Op>, s: State, p: Path, done: set<KeyName>, q: Path) {
    && (p == q || OnBranch(p, done, q) ==> Walked(t, ops, s, q))
    && (p <= q && p != q && !OnBranch(p, done, q) ==> Fresh(t, s, q))
  }

  lemma GoneMonotone(t: Tree, ops: seq<Op>, p: Path, q: Path)
    requires Gone(t, ops, p) && p <= q
    ensures Gone(t, ops, q)
  {
    var d :| d in ops && d.DeleteKey? && d.Path() in t && d.Path() <= p;
    assert d.Path() <= q;
  }

  lemma NeededMonotone(ops: seq<Op>, p: Path, q: Path)
    requires Needed(ops, q) && p <= q
    ensures Needed(ops, p)
  {
    var e :| e in ops && q <= e.Path();
    assert p <= e.Path();
  }

  /** A key goes exactly with a deletion on it or with a key above it. */
  lemma GoneAt(t: Tree, ops: seq<Op>, q: Path)
    requires q in t
    ensures Gone(t, ops, q) <==> DeletedAt(ops, q) || (q != [] && Gone(t, ops, q[..|q| - 1]))
  {
    if Gone(t, ops, q) && !DeletedAt(ops, q) {
      var d :| d in ops && d.DeleteKey? && d.Path() in t && d.Path() <= q;
      assert d.Path() <= q[..|q| - 1];
    }
    if q != [] && Gone(t, ops, q[..|q| - 1]) {
      GoneMonotone(t, ops, q[..|q| - 1], q);
    }
  }

  lemma AtNotNeeded(ops: seq<Op>, q: Path)
    requires !Needed(ops, q)
    ensures At(ops, q) == []
  {
    assert forall x :: x in ops ==> !(q <= x.Path());
    AtNone(ops, q);
  }

  lemma GoneThrough(t: Tree, ops: seq<Op>, p: Path, n: KeyName, q: Path)
    requires Gone(t, ops, q) && Under(p, n) <= q
    ensures Gone(t, ops, p) || Needed(ops, Under(p, n))
  {
    var d :| d in ops && d.DeleteKey? && d.Path() in t && d.Path() <= q;
    if |d.Path()| <= |p| {
      assert d.Path() <= p;
    } else {
      assert Under(p, n) <= d.Path();
    }
  }

  /** A branch that no operation is on, or whose key is not there, is walked without going down it. */
  lemma BranchLeft(t: Tree, ops: seq<Op>, s: State, p: Path, n: KeyName, q: Path)
    requires Closed(t) && !Gone(t, ops, p) && Under(p, n) <= q
    requires Under(p, n) !in t || !Needed(ops, Under(p, n))
    requires Fresh(t, s, q)
    ensures Walked(t, ops, s, q)
  {
    var c := Under(p, n);
    if q in t {
      PrefixIn(t, c, q);
      if Needed(ops, q) {
        NeededMonotone(ops, c, q);
        assert false;
      }
      AtNotNeeded(ops, q);
      if Gone(t, ops, q) {
        GoneThrough(t, ops, p, n, q);
        assert false;
      }
    }
  }

  /** After the deletion of a reached key, everything below it is walked. */
  lemma DeletedBelow(t: Tree, ops: seq<Op>, s: State, s': State, p: Path, q: Path)
    requires Reached(t, ops, p) && DeletedAt(ops, p) && p <= q && p != q && Fresh(t, s, q) && q !in s'.tree
    requires SameEdge(s'.idx, s.idx, q) && Visit(s'.visited, q, false) && Join(q) !in s'.deleted
    ensures Walked(t, ops, s', q)
  {
    GoneAt(t, ops, p);
    assert p <= q[..|q| - 1];
    GoneMonotone(t, ops, p, q[..|q| - 1]);
    GoneMonotone(t, ops, p, q);
  }

  // ----- All keys below one -----

  ghost predicate FreshBelow(t: Tree, s: State, p: Path) {
    forall q {:trigger Fresh(t, s, q)} :: p <= q ==> Fresh(t, s, q)
  }

  ghost predicate WalkedBelow(t: Tree, ops: seq<Op>, s: State, p: Path) {
    forall q {:trigger Walked(t, ops, s, q)} :: p <= q ==> Walked(t, ops, s, q)
  }

  ghost predicate SameOutside(s: State, s': State, p: Path) {
    forall q {:trigger Same(s, s', q)} :: !(p <= q) ==> Same(s, s', q)
  }

  ghost predicate MidwayBelow(t: Tree, ops: seq<Op>, s: State, p: Path, done: set<KeyName>) {
    forall q {:trigger Midway(t, ops, s, p, done, q)} :: Midway(t, ops, s, p, done, q)
  }

  /** Every entry of the index is where its key is looked for. */
  ghost predicate Filed(idx: Index) {
    forall e :: e in idx ==> idx[e] != [] && Edge(idx[e]) == e
  }

  lemma BranchFresh(t: Tree, ops: seq<Op>, s: State, p: Path, done: set<KeyName>, n: KeyName)
    requires MidwayBelow(t, ops, s, p, done) && n !in done
    ensures FreshBelow(t, s, Under(p, n))
  {
    forall q | Under(p, n) <= q ensures Fresh(t, s, q) {
      assert Midway(t, ops, s, p, done, q);
      assert q[|p|] == Under(p, n)[|p|];
    }
  }

  /** One more child of `p` is walked. */
  lemma BranchWalked(t: Tree, ops: seq<Op>, s: State, s': State, p: Path, done: set<KeyName>, n: KeyName)
    requires MidwayBelow(t, ops, s, p, done)
    requires WalkedBelow(t, ops, s', Under(p, n)) && SameOutside(s, s', Under(p, n))
    ensures MidwayBelow(t, ops, s', p, done + {n})
  {
    forall q ensures Midway(t, ops, s', p, done + {n}, q) {
      assert Midway(t, ops, s, p, done, q);
      if Under(p, n) <= q {
        assert Walked(t, ops, s', q);
        assert q[|p|] == Under(p, n)[|p|];
      } else {
        assert Same(s, s', q);
        OnBranchOf(p, n, q);
      }
    }
  }

  lemma SameOutsideWider(s: State, s': State, p: Path, n: KeyName)
    requires SameOutside(s, s', Under(p, n))
    ensures SameOutside(s, s', p)
  {
    forall q | !(p <= q) ensures Same(s, s', q) {
      OnBranchOf(p, n, q);
    }
  }

  lemma SameOutsideTransitive(s: State, s': State, s'': State, p: Path)
    requires SameOutside(s, s', p) && SameOutside(s', s'', p)
    ensures SameOutside(s, s'', p)
  {
    forall q | !(p <= q) ensures Same(s, s'', q) {
      assert Same(s, s', q) && Same(s', s'', q);
    }
  }

  /** With every needed child done, everything below `p` is walked. */
  lemma MidwayDone(t: Tree, ops: seq<Op>, s: State, p: Path, done: set<KeyName>)
    requires Closed(t) && !Gone(t, ops, p) && MidwayBelow(t, ops, s, p, done)
    requires forall n :: n !in done ==> Under(p, n) !in t || !Needed(ops, Under(p, n))
    ensures WalkedBelow(t, ops, s, p)
  {
    forall q | p <= q ensures Walked(t, ops, s, q) {
      assert Midway(t, ops, s, p, done, q);
      if q != p && !OnBranch(p, done, q) {
        assert Under(p, q[|p|]) <= q;
        BranchLeft(t, ops, s, p, q[|p|], q);
      }
    }
  }

  lemma ReachedChild(t: Tree, ops: seq<Op>, p: Path, n: KeyName)
    requires Under(p, n) in t && Needed(ops, Under(p, n)) && !Gone(t, ops, p)
    ensures Reached(t, ops, Under(p, n))
  {
    assert Under(p, n)[..|p|] == p;
  }

  lemma {:induction false} UpToDeleteFirst(ops: seq<Op>, i: nat)
    requires i <= |ops|
    ensures UpToDelete(ops[..i]) <= UpToDelete(ops)
    ensures i < |ops| && ops[i].DeleteKey? ==> UpToDelete(ops) == UpToDelete(ops[..i])
    ensures i < |ops| && ops[i].DeleteKey? ==> |UpToDelete(ops)| <= i
  {
    var n := |ops| - 1;
    if i == |ops| {
      assert ops[..i] == ops;
    } else if i < n {
      UpToDeleteFirst(ops[..n], i);
      assert ops[..n][..i] == ops[..i];
    } else {
      UpToDeleteLength(ops[..i]);
    }
  }

  lemma {:induction false} UpToDeleteLength(ops: seq<Op>)
    ensures UpToDelete(ops) <= ops
  {
    if ops != [] { UpToDeleteLength(ops[..|ops| - 1]); }
  }

  /** A run that is done to the end is so up to every operation. */
  lemma TakenUpTo(vs: Values, ops: seq<Op>, i: nat)
    requires i <= |ops| && AllTaken(vs, UpToDelete(ops))
    ensures AllTaken(vs, UpToDelete(ops[..i]))
  {
    UpToDeleteFirst(ops, i);
    var a, b := UpToDelete(ops[..i]), UpToDelete(ops);
    assert b == a + b[|a|..];
    AllTakenConcat(vs, a, b[|a|..]);
  }

  /** Below a deleted key the walk gets to none. */
  lemma DeletedPass(t: Tree, ops: seq<Op>, p: Path, q: Path)
    requires Reached(t, ops, p) && DeletedAt(ops, p) && p <= q && p != q
    ensures FirstPass(t, ops, q)
  {
    GoneAt(t, ops, p);
    assert p <= q[..|q| - 1];
    GoneMonotone(t, ops, p, q[..|q| - 1]);
  }

  /** What the walk gets to below `p` is at or below a child that is there and on the way of an operation. */
  lemma ReachedThrough(t: Tree, ops: seq<Op>, p: Path, q: Path)
    requires Closed(t) && Reached(t, ops, q) && p <= q && p != q
    ensures var c := Under(p, q[|p|]); c <= q && c in t && Needed(ops, c)
  {
    var c := Under(p, q[|p|]);
    assert c == q[..|p| + 1];
    PrefixIn(t, c, q);
    NeededMonotone(ops, c, q);
  }

  lemma ReachedNotDeleted(t: Tree, ops: seq<Op>, p: Path)
    requires Reached(t, ops, p) && !DeletedAt(ops, p)
    ensures !Gone(t, ops, p)
  {
    GoneAt(t, ops, p);
  }

  /** The node itself: indexed, visited, and its values changed. */
  lemma NodeKept(t: Tree, ops: seq<Op>, s: State, s': State, p: Path)
    requires FreshBelow(t, s, p) && Reached(t, ops, p) && !DeletedAt(ops, p) && Filed(s.idx)
    requires p in t && s'.tree == s.tree[p := WalkedValues(t, ops, p)]
    requires s'.idx == if p == [] then s.idx else WithEdge(s.idx, p)
    requires s'.visited == s.visited[Join(p) := p] && s'.deleted == s.deleted
    ensures MidwayBelow(t, ops, s', p, {}) && SameOutside(s, s', p) && Filed(s'.idx)
  {
    ReachedNotDeleted(t, ops, p);
    forall q ensures Midway(t, ops, s', p, {}, q) && (!(p <= q) ==> Same(s, s', q)) {
      if p <= q { assert Fresh(t, s, q); }
      if Join(q) == Join(p) { JoinInjective(q, p); }
      if p != [] && q != [] && Edge(q) == Edge(p) { EdgeInjective(q, p); }
    }
  }

  /** The node is deleted with everything below it. */
  lemma NodeDeleted(t: Tree, ops: seq<Op>, s: State, s': State, p: Path)
    requires FreshBelow(t, s, p) && Reached(t, ops, p) && DeletedAt(ops, p) && p != [] && Filed(s.idx)
    requires s'.tree == WithoutKey(s.tree, p)
    requires s'.idx == WithoutEdges(WithEdge(s.idx, p), p)
    requires s'.visited == s.visited[Join(p) := p] && s'.deleted == s.deleted + {Join(p)}
    ensures WalkedBelow(t, ops, s', p) && SameOutside(s, s', p) && Filed(s'.idx)
  {
    GoneAt(t, ops, p);
    forall q ensures (p <= q ==> Walked(t, ops, s', q)) && (!(p <= q) ==> Same(s, s', q)) {
      NodeDeletedAt(t, ops, s, s', p, q);
    }
  }

  lemma NodeDeletedAt(t: Tree, ops: seq<Op>, s: State, s': State, p: Path, q: Path)
    requires FreshBelow(t, s, p) && Reached(t, ops, p) && DeletedAt(ops, p) && p != [] && Filed(s.idx)
    requires Gone(t, ops, p) && s'.tree == WithoutKey(s.tree, p)
    requires s'.idx == WithoutEdges(WithEdge(s.idx, p), p)
    requires s'.visited == s.visited[Join(p) := p] && s'.deleted == s.deleted + {Join(p)}
    ensures (p <= q ==> Walked(t, ops, s', q)) && (!(p <= q) ==> Same(s, s', q))
  {
    if Join(q) == Join(p) { JoinInjective(q, p); }
    if q != [] && Edge(q) == Edge(p) { EdgeInjective(q, p); }
    if p <= q {
      assert Fresh(t, s, q);
      if p == q {
        assert Edge(p) !in s'.idx;
      } else {
        DeletedBelow(t, ops, s, s', p, q);
      }
    } else if q != [] && Edge(q) in s.idx {
      EdgeInjective(s.idx[Edge(q)], q);
    }
  }
}
