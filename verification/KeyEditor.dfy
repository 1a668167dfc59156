/** The key and value editors as the plan executors use them: keys are found through the index alone
    (hive/edit/nkedit.go, hive/merge/strategy/inplace.go). A reference to a key is modelled by its path. */
module KeyEditing {
  import opened Registry
  import opened PlanMeaning
  import opened EditLogs
  import opened ValueRuns

  datatype Child = Child(parent: Path, name: KeyName)

  type Index = map<Child, Path>

  function Under(p: Path, n: KeyName): Path {
    p + [n]
  }

  function Next(i: nat): nat {
    i + 1
  }

  function Down(root: Path, below: Path, k: nat): (r: Path)
    requires k <= |below|
    ensures |r| == |root| + k
  {
    root + below[..k]
  }

  /** Where a key is found in the index. */
  function Edge(q: Path): Child
    requires q != []
  {
    Child(q[..|q| - 1], q[|q| - 1])
  }

  /** The index finds `q` exactly when it is in the tree. */
  ghost predicate Indexed(idx: Index, t: Tree, q: Path)
    requires q != []
  {
    && (Edge(q) in idx <==> q in t)
    && (q in t ==> idx[Edge(q)] == q)
  }

  function WithKey(t: Tree, q: Path): Tree {
    t[q := map[]]
  }

  function WithEdge(idx: Index, q: Path): Index
    requires q != []
  {
    idx[Edge(q) := q]
  }

  function WithoutEdges(idx: Index, q: Path): Index {
    map e | e in idx && !(q <= idx[e]) :: idx[e]
  }

  ghost predicate SameEdge(a: Index, b: Index, q: Path)
    requires q != []
  {
    (Edge(q) in a <==> Edge(q) in b) && (Edge(q) in a ==> a[Edge(q)] == b[Edge(q)])
  }

  lemma EdgeOfUnder(p: Path, n: KeyName)
    ensures Edge(Under(p, n)) == Child(p, n)
  {
    assert (p + [n])[..|p|] == p;
  }

  lemma EdgeInjective(p: Path, q: Path)
    requires p != [] && q != [] && Edge(p) == Edge(q)
    ensures p == q
  {
    assert p == p[..|p| - 1] + [p[|p| - 1]] && q == q[..|q| - 1] + [q[|q| - 1]];
  }

  /** `q` is a path from `root` down to `end`. */
  predicate Between(root: Path, q: Path, end: Path) {
    root <= q && q <= end
  }

  lemma BetweenNext(root: Path, current: Path, n: KeyName, q: Path)
    requires root <= current
    ensures Between(root, q, Under(current, n)) <==> Between(root, q, current) || q == Under(current, n)
  {
    if q <= Under(current, n) && q != Under(current, n) {
      assert q <= current;
    }
  }

  /** Key `q` once the keys from `root` down to `current` have been ensured: those above `root` are untouched. */
  ghost predicate EnsuredTo(t0: Tree, idx0: Index, t: Tree, idx: Index, root: Path, current: Path, q: Path) {
    && (q in t <==> q in t0 || Between(root, q, current))
    && (q in t ==> t[q] == OldValues(t0, q))
    && (q != [] && Between(root, q, current) && q != root ==> Indexed(idx, t, q))
    && (q != [] && !(Between(root, q, current) && q != root) ==> SameEdge(idx, idx0, q))
  }

  lemma EnsuredNone(t: Tree, idx: Index, root: Path, q: Path)
    requires root in t
    ensures EnsuredTo(t, idx, t, idx, root, root, q)
  {
    if Between(root, q, root) {
      assert q == root;
    }
  }

  lemma DownNext(root: Path, below: Path, i: nat)
    requires i < |below|
    ensures Under(Down(root, below, i), below[i]) == Down(root, below, Next(i))
  {
    assert below[..i + 1] == below[..i] + [below[i]];
  }

  /** The next key is found in the index or created. */
  lemma EnsureStep(t0: Tree, idx0: Index, t: Tree, idx: Index, root: Path, current: Path, n: KeyName, q: Path)
    requires root <= current && Indexed(idx0, t0, Under(current, n))
    requires EnsuredTo(t0, idx0, t, idx, root, current, q)
    requires EnsuredTo(t0, idx0, t, idx, root, current, Under(current, n))
    ensures var next := Under(current, n);
      && Indexed(idx, t, next)
      && (next in t ==> EnsuredTo(t0, idx0, t, idx, root, next, q))
      && (next !in t ==> EnsuredTo(t0, idx0, WithKey(t, next), WithEdge(idx, next), root, next, q))
  {
    BetweenNext(root, current, n, q);
    BetweenNext(root, current, n, Under(current, n));
    if q != [] && Edge(q) == Edge(Under(current, n)) {
      EdgeInjective(q, Under(current, n));
    }
  }

  lemma EnsureSteps(t0: Tree, idx0: Index, t: Tree, idx: Index, root: Path, current: Path, n: KeyName)
    requires root <= current && Indexed(idx0, t0, Under(current, n))
    requires forall q {:trigger EnsuredTo(t0, idx0, t, idx, root, current, q)} ::
      EnsuredTo(t0, idx0, t, idx, root, current, q)
    ensures var next := Under(current, n);
      && Indexed(idx, t, next)
      && (next in t ==> forall q {:trigger EnsuredTo(t0, idx0, t, idx, root, next, q)} ::
            EnsuredTo(t0, idx0, t, idx, root, next, q))
      && (next !in t ==>
            forall q {:trigger EnsuredTo(t0, idx0, WithKey(t, next), WithEdge(idx, next), root, next, q)} ::
              EnsuredTo(t0, idx0, WithKey(t, next), WithEdge(idx, next), root, next, q))
  {
    var next := Under(current, n);
    assert EnsuredTo(t0, idx0, t, idx, root, current, next);
    forall q
      ensures next in t ==> EnsuredTo(t0, idx0, t, idx, root, next, q)
      ensures next !in t ==> EnsuredTo(t0, idx0, WithKey(t, next), WithEdge(idx, next), root, next, q)
    {
      assert EnsuredTo(t0, idx0, t, idx, root, current, q);
      EnsureStep(t0, idx0, t, idx, root, current, n, q);
    }
    EnsureStep(t0, idx0, t, idx, root, current, n, next);
  }

  /** Edits on the way to a key are on the way to a key below it. */
  lemma OnTheWay(log: Log, from: nat, p: Path, n: KeyName, made: bool)
    requires from <= |log| && forall k :: from <= k < |log| ==> log[k].key <= p
    ensures var now := if made then log + [Made(Under(p, n))] else log;
      forall k :: from <= k < |now| ==> now[k].key <= Under(p, n)
  {
  }

  class KeyEditor {
    var tree: Tree
    var idx: Index
    ghost var log: Log  // the keys created and deleted so far, as the subkey lists are told

    constructor (t: Tree, i: Index)
      ensures tree == t && idx == i && log == []
    {
      tree, idx, log := t, i, [];
    }

    method GetNK(parent: Path, name: KeyName) returns (r: Option<Path>)
      ensures r == var e := Child(parent, LowerName(name)); if e in idx then Some(idx[e]) else None
    {
      var e := Child(parent, LowerName(name));
      if e in idx { r := Some(idx[e]); } else { r := None; }
    }

    method AddNK(nk: Path)
      requires nk != []
      modifies this`idx
      ensures idx == WithEdge(old(idx), nk)
    {
      idx := idx[Edge(nk) := nk];
    }

    /** A new key without values. */
    method CreateKey(parent: Path, name: KeyName) returns (r: Path)
      requires parent in tree && Under(parent, LowerName(name)) !in tree
      modifies this
      ensures r == Under(parent, LowerName(name))
      ensures tree == WithKey(old(tree), r) && idx == WithEdge(old(idx), r)
      ensures log == old(log) + [Made(r)] && Edited(old(tree).Keys, old(log), tree.Keys, log, r, false)
    {
      r := Under(parent, LowerName(name));
      EdgeOfUnder(parent, LowerName(name));
      EditedOne(tree.Keys, log, Made(r));
      tree, idx, log := tree[r := map[]], idx[Child(parent, LowerName(name)) := r], log + [Made(r)];
    }

    /** Creates exactly the missing keys of the path, and counts them, if the index is right about those keys. */
    method EnsureKeyPath(root: Path, segments: Path) returns (current: Path, keysCreated: nat)
      requires root in tree
      requires forall k :: 0 < k <= |segments| ==> Indexed(idx, tree, Down(root, LowerPath(segments), k))
      modifies this
      ensures current == root + LowerPath(segments)
      ensures forall q {:trigger EnsuredTo(old(tree), old(idx), tree, idx, root, current, q)} ::
        EnsuredTo(old(tree), old(idx), tree, idx, root, current, q)
      ensures |tree| == |old(tree)| + keysCreated
      ensures Edited(old(tree).Keys, old(log), tree.Keys, log, root, false)
      ensures forall i :: |old(log)| <= i < |log| ==> log[i].key <= current
    {
      current, keysCreated := root, 0;
      ghost var low := LowerPath(segments);
      EditedNone(tree.Keys, log, root, false);
      forall q {
        EnsuredNone(tree, idx, root, q);
      }
      for i := 0 to |segments|
        invariant current == Down(root, low, i)
        invariant forall q {:trigger EnsuredTo(old(tree), old(idx), tree, idx, root, current, q)} ::
          EnsuredTo(old(tree), old(idx), tree, idx, root, current, q)
        invariant |tree| == |old(tree)| + keysCreated && current in tree
        invariant Edited(old(tree).Keys, old(log), tree.Keys, log, root, false)
        invariant forall k :: |old(log)| <= k < |log| ==> log[k].key <= current
      {
        ghost var next := Under(current, low[i]);
        DownNext(root, low, i);
        assert 0 < Next(i) <= |segments|;
        EdgeOfUnder(current, low[i]);
        assert Indexed(old(idx), old(tree), next);
        EnsureSteps(old(tree), old(idx), tree, idx, root, current, low[i]);
        var existing := GetNK(current, segments[i]);
        OnTheWay(log, |old(log)|, current, low[i], existing.None?);
        if existing.Some? {
          current := existing.value;
        } else {
          ghost var keys1, log1 := tree.Keys, log;
          current := CreateKey(current, segments[i]);
          keysCreated := keysCreated + 1;
          EditedWider(keys1, log1, tree.Keys, log, root, current, false);
          EditedTrans(old(tree).Keys, old(log), keys1, log1, tree.Keys, log, root, false);
        }
      }
      assert low[..|segments|] == low;
    }

    /** A key goes with everything below it, and so do the index's entries for those keys. */
    method DeleteKey(nk: Path) returns (ok: bool)
      requires nk in tree
      modifies this
      ensures ok == (nk != [])
      ensures !ok ==> tree == old(tree) && idx == old(idx) && log == old(log)
      ensures ok ==> tree == WithoutKey(old(tree), nk) && log == old(log) + [Cut(nk)]
      ensures ok ==> idx == WithoutEdges(old(idx), nk)
      ensures ok ==> Edited(old(tree).Keys, old(log), tree.Keys, log, nk, true)
    {
      if nk == [] { return false; }
      EditedOne(tree.Keys, log, Cut(nk));
      assert WithoutKey(tree, nk).Keys == KeysAfterOne(tree.Keys, Cut(nk));
      tree, log := WithoutKey(tree, nk), log + [Cut(nk)];
      idx := WithoutEdges(idx, nk);
      ok := true;
    }

    /** A batch of value operations, in order, up to the first that is refused. */
    method UpsertValues(nk: Path, ops: seq<Op>) returns (ok: bool)
      requires nk in tree
      modifies this`tree
      ensures ok <==> AllTaken(old(tree)[nk], ops)
      ensures tree == old(tree)[nk := ValuesAfter(old(tree)[nk], ops[..Taken(old(tree)[nk], ops)])]
    {
      ghost var vs := tree[nk];
      ok := true;
      var i := 0;
      while i < |ops|
        invariant nk in tree && tree == old(tree)[nk := tree[nk]] && GotTo(vs, ops, i, tree[nk])
      {
        TakenNext(vs, ops, i, tree[nk]);
        if ops[i].SetValue? && Refused(tree[nk], ops[i]) { return false; }
        tree := tree[nk := ValueStep(tree[nk], ops[i])];
        i := i + 1;
      }
      TakenAll(vs, ops, tree[nk]);
    }
  }
}
