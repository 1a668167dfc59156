/** The deletion of a key with everything below it, in deferred mode: the keys that the recursion over the lists on disk
    reaches are the nodes of the subtree whose cells are freed (hive/edit/nkedit.go). */
module DeferredDeletes {
  import opened Registry
  import opened EditLogs
  import opened ListTraces
  import opened Subtrees
  import opened KeyPaths

  /** The hive has the keys of the subtree at their paths, and on disk their lists. */
  ghost predicate OnDisk(h: Hive, t: KeyT, at: Path)
    requires Keyed(t)
    decreases t
  {
    && at in h.at && h.at[at] == t.nk && |h.ListOf(t.nk)| == |t.subs|
    && forall i :: 0 <= i < |t.subs| ==>
         h.ListOf(t.nk)[i] == t.subs[i].nk && OnDisk(h, t.subs[i], KeyPaths.Step(at, t.subs[i].name))
  }

  lemma {:induction false} ReachesOn(h: Hive, q: Path, m: Path, x: Path)
    requires Reaches(h, q, m) && Reaches(h, m, x)
    ensures Reaches(h, q, x)
    decreases |x|
  {
    if x != m {
      ReachesOn(h, q, m, Above(x));
    }
  }

  /** Whatever is reached below a key is reached through a child of it. */
  lemma {:induction false} ReachesFrom(h: Hive, q: Path, x: Path)
    requires Reaches(h, q, x) && x != q
    ensures |q| < |x| && Reaches(h, q, x[..|q| + 1]) && Reaches(h, x[..|q| + 1], x)
    decreases |x|
  {
    var p := Above(x);
    if p == q {
      assert x[..|q| + 1] == x;
    } else {
      ReachesFrom(h, q, p);
      assert p[..|q| + 1] == x[..|q| + 1];
    }
  }

  lemma {:induction false} NodesReached(h: Hive, t: KeyT, at: Path, x: Path)
    requires Keyed(t) && OnDisk(h, t, at) && x in Nodes(t, at)
    ensures Reaches(h, at, x) && h.at[x] == Nodes(t, at)[x]
    decreases t
  {
    if x != at {
      var k := ThroughSub(t, at, x);
      var s := t.subs[k];
      var q := KeyPaths.Step(at, s.name);
      NodesReached(h, s, q, x);
      NodesAre(t, at, k, x);
      assert Above(q) == at && h.ListOf(t.nk)[k] == h.at[q];
      assert Reaches(h, at, q);
      ReachesOn(h, at, q, x);
    }
  }

  lemma {:induction false} ReachedIsNode(h: Hive, t: KeyT, at: Path, x: Path)
    requires Sound(h) && Keyed(t) && OnDisk(h, t, at) && Reaches(h, at, x)
    ensures x in Nodes(t, at)
    decreases t
  {
    if x != at {
      var q := x[..|at| + 1];
      ReachesFrom(h, at, x);
      assert Above(q) == at;
      var k :| 0 <= k < |t.subs| && h.ListOf(t.nk)[k] == h.at[q];
      assert OnDisk(h, t.subs[k], KeyPaths.Step(at, t.subs[k].name));
      assert q == KeyPaths.Step(at, t.subs[k].name);
      ReachedIsNode(h, t.subs[k], q, x);
      NodesAre(t, at, k, x);
    }
  }

  /** With the subtree on disk once the key and its parent are flushed, the deletion takes exactly the keys of the
      subtree, and their cells. */
  lemma CutTakesNodes(h: Hive, t: KeyT, q: Path)
    requires q != [] && q in h.at && Above(q) in h.at && Keyed(t)
    requires var f := FlushAt(FlushAt(h, h.at[q]), h.at[Above(q)]); Sound(f) && OnDisk(f, t, q)
    ensures var f, c := FlushAt(FlushAt(h, h.at[q]), h.at[Above(q)]), CutStep(h, q);
      && c.at.Keys == f.at.Keys - Nodes(t, q).Keys
      && c.names.Keys == f.names.Keys - Nodes(t, q).Values && c.lists.Keys == f.lists.Keys - Nodes(t, q).Values
  {
    var f, c := FlushAt(FlushAt(h, h.at[q]), h.at[Above(q)]), CutStep(h, q);
    forall x ensures x in f.at && Reaches(f, q, x) <==> x in Nodes(t, q)
      ensures x in Nodes(t, q) ==> x in f.at && f.at[x] == Nodes(t, q)[x]
    {
      if x in Nodes(t, q) { NodesReached(f, t, q, x); }
      if x in f.at && Reaches(f, q, x) { ReachedIsNode(f, t, q, x); }
    }
    var gone := set x | x in f.at && Reaches(f, q, x);
    assert gone == Nodes(t, q).Keys;
    var cells := set x | x in gone :: f.at[x];
    forall r ensures r in cells <==> r in Nodes(t, q).Values {
      if r in Nodes(t, q).Values {
        var x :| x in Nodes(t, q) && Nodes(t, q)[x] == r;
        assert x in gone;
      }
      if r in cells {
        var x :| x in gone && f.at[x] == r;
        assert Nodes(t, q)[x] == r;
      }
    }
    assert cells == Nodes(t, q).Values;
  }
}
