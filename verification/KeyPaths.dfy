/** A key subtree over cells and the tree of paths that the executors use: deleting a subkey with its cells and its
    index entries is deleting a path (hive/edit/nkedit.go, hive/merge/strategy/inplace.go). */
module KeyPaths {
  import opened Subtrees
  import opened KeyDeleteTree
  import opened Registry

  predicate IsName(s: string) {
    0 < |s| && '\\' !in s
  }

  /** The keys below have names, no two of one key the same. */
  ghost predicate Keyed(t: KeyT) {
    && (forall i :: 0 <= i < |t.subs| ==> IsName(t.subs[i].name) && Keyed(t.subs[i]))
    && forall i, j :: 0 <= i < j < |t.subs| ==> t.subs[i].name != t.subs[j].name
  }

  ghost predicate KeyedAll(ts: seq<KeyT>) {
    && (forall i :: 0 <= i < |ts| ==> IsName(ts[i].name) && Keyed(ts[i]))
    && forall i, j :: 0 <= i < j < |ts| ==> ts[i].name != ts[j].name
  }

  function Step(at: Path, n: string): Path
    requires IsName(n)
  {
    at + [n]
  }

  /** The cell of every key of the subtree, by its path. */
  ghost function Nodes(t: KeyT, at: Path): map<Path, int>
    requires Keyed(t)
    decreases t, 1
  {
    NodesOf(t.subs, at)[at := t.nk]
  }

  ghost function NodesOf(ts: seq<KeyT>, at: Path): map<Path, int>
    requires KeyedAll(ts)
    decreases ts, 0
  {
    if ts == [] then map[]
    else
      var last := ts[|ts| - 1];
      NodesOf(ts[..|ts| - 1], at) + Nodes(last, Step(at, last.name))
  }

  /** The tree of paths, with the values the key cells have. */
  ghost function TreeOf(t: KeyT, at: Path, values: int -> Values): Tree
    requires Keyed(t)
  {
    var nodes := Nodes(t, at);
    map p | p in nodes :: values(nodes[p])
  }

  lemma StepBelow(at: Path, n: string, x: Path)
    requires IsName(n)
    ensures Step(at, n) <= x <==> at <= x && |at| < |x| && x[|at|] == n
  {
    if at <= x && |at| < |x| && x[|at|] == n {
      assert x[..|at| + 1] == Step(at, n);
    }
  }

  lemma {:induction false} NodesBelow(t: KeyT, at: Path, x: Path)
    requires Keyed(t) && x in Nodes(t, at)
    ensures at <= x
    decreases t, 1
  {
    if x != at {
      NodesOfBelow(t.subs, at, x);
    }
  }

  lemma {:induction false} NodesOfBelow(ts: seq<KeyT>, at: Path, x: Path)
    requires KeyedAll(ts) && x in NodesOf(ts, at)
    ensures at <= x && |at| < |x|
    ensures exists k :: 0 <= k < |ts| && x[|at|] == ts[k].name && x in Nodes(ts[k], Step(at, ts[k].name))
    decreases ts, 0
  {
    var n := |ts| - 1;
    var last := ts[n];
    if x in Nodes(last, Step(at, last.name)) {
      NodesBelow(last, Step(at, last.name), x);
      StepBelow(at, last.name, x);
      assert x[|at|] == ts[n].name;
    } else {
      NodesOfBelow(ts[..n], at, x);
      var k :| 0 <= k < n && x[|at|] == ts[..n][k].name && x in Nodes(ts[..n][k], Step(at, ts[..n][k].name));
      assert ts[..n][k] == ts[k];
    }
  }

  /** What is below one subkey is below the key. */
  lemma {:induction false} NodesOfSub(ts: seq<KeyT>, at: Path, k: nat, x: Path)
    requires KeyedAll(ts) && k < |ts| && x in Nodes(ts[k], Step(at, ts[k].name))
    ensures x in NodesOf(ts, at) && NodesOf(ts, at)[x] == Nodes(ts[k], Step(at, ts[k].name))[x]
  {
    var n := |ts| - 1;
    if k < n {
      NodesOfSub(ts[..n], at, k, x);
      NodesBelow(ts[k], Step(at, ts[k].name), x);
      StepBelow(at, ts[k].name, x);
      if x in Nodes(ts[n], Step(at, ts[n].name)) {
        NodesBelow(ts[n], Step(at, ts[n].name), x);
        StepBelow(at, ts[n].name, x);
      }
    }
  }

  /** A path below a key is the key's own, or goes through the one subkey of that name. */
  lemma NodesAre(t: KeyT, at: Path, k: nat, x: Path)
    requires Keyed(t) && k < |t.subs|
    ensures var q := Step(at, t.subs[k].name);
      && (x in Nodes(t.subs[k], q) <==> x in Nodes(t, at) && q <= x)
      && (x in Nodes(t.subs[k], q) ==> x != at && Nodes(t, at)[x] == Nodes(t.subs[k], q)[x])
  {
    var s := t.subs[k];
    var q := Step(at, s.name);
    if x in Nodes(s, q) {
      NodesBelow(s, q, x);
      NodesOfSub(t.subs, at, k, x);
    }
    StepBelow(at, s.name, x);
    if x in Nodes(t, at) && q <= x {
      NodesOfBelow(t.subs, at, x);
      var l :| 0 <= l < |t.subs| && x[|at|] == t.subs[l].name && x in Nodes(t.subs[l], Step(at, t.subs[l].name));
      assert l == k;
    }
  }

  lemma ThroughSub(t: KeyT, at: Path, x: Path) returns (k: nat)
    requires Keyed(t) && x in Nodes(t, at) && x != at
    ensures k < |t.subs| && Step(at, t.subs[k].name) <= x && x in Nodes(t.subs[k], Step(at, t.subs[k].name))
  {
    NodesOfBelow(t.subs, at, x);
    k :| 0 <= k < |t.subs| && x[|at|] == t.subs[k].name && x in Nodes(t.subs[k], Step(at, t.subs[k].name));
    StepBelow(at, t.subs[k].name, x);
  }

  // ----- Deleting a subkey is deleting its path -----

  lemma PrunedKeyed(p: KeyT, i: nat, list: set<int>)
    requires Keyed(p) && i < |p.subs|
    ensures Keyed(Pruned(p, i, list))
  {
    var q := Pruned(p, i, list);
    forall k | 0 <= k < |q.subs| ensures IsName(q.subs[k].name) && Keyed(q.subs[k]) {
      PrunedSubs(p, i, list, k);
    }
    forall k, l | 0 <= k < l < |q.subs| ensures q.subs[k].name != q.subs[l].name {
      PrunedSubs(p, i, list, k);
      PrunedSubs(p, i, list, l);
      assert Old(i, k) < Old(i, l);
    }
  }

  lemma PrunedNodes(p: KeyT, i: nat, list: set<int>, at: Path, x: Path)
    requires Keyed(p) && i < |p.subs| && Keyed(Pruned(p, i, list))
    ensures var q := Pruned(p, i, list);
      && (x in Nodes(q, at) <==> x in Nodes(p, at) && !(Step(at, p.subs[i].name) <= x))
      && (x in Nodes(q, at) ==> Nodes(q, at)[x] == Nodes(p, at)[x])
  {
    var q := Pruned(p, i, list);
    if x != at {
      if x in Nodes(q, at) {
        var k := ThroughSub(q, at, x);
        PrunedSubs(p, i, list, k);
        NodesAre(q, at, k, x);
        NodesAre(p, at, Old(i, k), x);
        StepBelow(at, p.subs[i].name, x);
        StepBelow(at, q.subs[k].name, x);
      }
      if x in Nodes(p, at) && !(Step(at, p.subs[i].name) <= x) {
        var k := ThroughSub(p, at, x);
        assert k != i;
        var l := if k < i then k else k - 1;
        PrunedSubs(p, i, list, l);
        assert Old(i, l) == k;
        NodesAre(q, at, l, x);
      }
    }
  }

  /** The tree of paths of what is left is the tree without the deleted path. */
  lemma PrunedIsWithoutKey(p: KeyT, i: nat, list: set<int>, at: Path, values: int -> Values)
    requires Keyed(p) && i < |p.subs|
    ensures Keyed(Pruned(p, i, list))
    ensures TreeOf(Pruned(p, i, list), at, values) == WithoutKey(TreeOf(p, at, values), Step(at, p.subs[i].name))
  {
    PrunedKeyed(p, i, list);
    forall x
      ensures x in TreeOf(Pruned(p, i, list), at, values)
         <==> x in WithoutKey(TreeOf(p, at, values), Step(at, p.subs[i].name))
      ensures x in TreeOf(Pruned(p, i, list), at, values) ==>
        TreeOf(Pruned(p, i, list), at, values)[x] == TreeOf(p, at, values)[x]
    {
      PrunedNodes(p, i, list, at, x);
    }
  }

  /** A deletion below a subkey is the same deletion below the key. */
  lemma DeeperIsWithoutKey(t: KeyT, k: nat, s: KeyT, at: Path, q: Path, values: int -> Values)
    requires Keyed(t) && k < |t.subs| && Keyed(s) && s.name == t.subs[k].name && Step(at, s.name) <= q
    requires TreeOf(s, Step(at, s.name), values) == WithoutKey(TreeOf(t.subs[k], Step(at, s.name), values), q)
    ensures Keyed(t.(subs := t.subs[k := s]))
    ensures TreeOf(t.(subs := t.subs[k := s]), at, values) == WithoutKey(TreeOf(t, at, values), q)
  {
    var u, n := t.(subs := t.subs[k := s]), Step(at, s.name);
    assert forall i :: 0 <= i < |u.subs| ==> u.subs[i].name == t.subs[i].name && (i != k ==> u.subs[i] == t.subs[i]);
    forall x
      ensures x in TreeOf(u, at, values) <==> x in TreeOf(t, at, values) && !(q <= x)
      ensures x in TreeOf(u, at, values) ==> TreeOf(u, at, values)[x] == TreeOf(t, at, values)[x]
    {
      DeeperAt(t, k, s, at, q, values, x);
    }
  }

  lemma DeeperAt(t: KeyT, k: nat, s: KeyT, at: Path, q: Path, values: int -> Values, x: Path)
    requires Keyed(t) && k < |t.subs| && Keyed(s) && s.name == t.subs[k].name && Step(at, s.name) <= q
    requires TreeOf(s, Step(at, s.name), values) == WithoutKey(TreeOf(t.subs[k], Step(at, s.name), values), q)
    requires Keyed(t.(subs := t.subs[k := s]))
    ensures var u := t.(subs := t.subs[k := s]);
      && (x in TreeOf(u, at, values) <==> x in TreeOf(t, at, values) && !(q <= x))
      && (x in TreeOf(u, at, values) ==> TreeOf(u, at, values)[x] == TreeOf(t, at, values)[x])
  {
    var u, n := t.(subs := t.subs[k := s]), Step(at, s.name);
    if n <= x {
      NodesAre(t, at, k, x);
      NodesAre(u, at, k, x);
      assert x in TreeOf(s, n, values) <==> x in TreeOf(t.subs[k], n, values) && !(q <= x);
    } else if x != at {
      if x in Nodes(t, at) {
        var l := ThroughSub(t, at, x);
        NodesAre(t, at, l, x);
        NodesAre(u, at, l, x);
      }
      if x in Nodes(u, at) {
        var l := ThroughSub(u, at, x);
        NodesAre(t, at, l, x);
        NodesAre(u, at, l, x);
      }
    }
  }

  // ----- The index entries -----

  lemma {:induction false} ParentNode(t: KeyT, at: Path, x: Path)
    requires Keyed(t) && x in Nodes(t, at) && x != at
    ensures |at| < |x| && x[..|x| - 1] in Nodes(t, at)
    decreases t
  {
    var k := ThroughSub(t, at, x);
    var n := Step(at, t.subs[k].name);
    if x == n {
      assert x[..|x| - 1] == at;
    } else {
      ParentNode(t.subs[k], n, x);
      NodesAre(t, at, k, x[..|x| - 1]);
    }
  }

  /** The entry a key is found by: its parent's cell and its name. */
  ghost function EntryOf(t: KeyT, at: Path, x: Path): Edge
    requires Keyed(t) && x in Nodes(t, at) && x != at
  {
    ParentNode(t, at, x);
    Edge(Nodes(t, at)[x[..|x| - 1]], x[|x| - 1])
  }

  lemma EntryOfSub(t: KeyT, at: Path, k: nat, x: Path)
    requires Keyed(t) && k < |t.subs| && x in Nodes(t.subs[k], Step(at, t.subs[k].name))
    ensures x in Nodes(t, at) && x != at
    ensures x == Step(at, t.subs[k].name) ==> EntryOf(t, at, x) == Edge(t.nk, t.subs[k].name)
    ensures x != Step(at, t.subs[k].name) ==> EntryOf(t, at, x) == EntryOf(t.subs[k], Step(at, t.subs[k].name), x)
  {
    var n := Step(at, t.subs[k].name);
    NodesAre(t, at, k, x);
    if x == n {
      assert x[..|x| - 1] == at;
    } else {
      ParentNode(t.subs[k], n, x);
      NodesAre(t, at, k, x[..|x| - 1]);
    }
  }

  /** The entries of a subtree are its own and those of the keys below it. */
  lemma {:induction false} EdgesAre(t: KeyT, parent: int, at: Path, e: Edge)
    requires Keyed(t) && e in KeyEdges(t, parent)
    ensures e == Edge(parent, t.name) || exists x :: x in Nodes(t, at) && x != at && EntryOf(t, at, x) == e
    decreases t
  {
    if e != Edge(parent, t.name) {
      var i :| 0 <= i < |t.subs| && e in KeyEdges(t.subs[i], t.nk);
      var s, n := t.subs[i], Step(at, t.subs[i].name);
      EdgesAre(s, t.nk, n, e);
      if e == Edge(t.nk, s.name) {
        EntryOfSub(t, at, i, n);
      } else {
        var x :| x in Nodes(s, n) && x != n && EntryOf(s, n, x) == e;
        EntryOfSub(t, at, i, x);
      }
    }
  }

  lemma {:induction false} EntryInEdges(t: KeyT, parent: int, at: Path, x: Path)
    requires Keyed(t) && x in Nodes(t, at) && x != at
    ensures EntryOf(t, at, x) in KeyEdges(t, parent)
    decreases t
  {
    var k := ThroughSub(t, at, x);
    var s, n := t.subs[k], Step(at, t.subs[k].name);
    EntryOfSub(t, at, k, x);
    if x == n {
      assert Edge(t.nk, s.name) in KeyEdges(s, t.nk);
    } else {
      EntryInEdges(s, t.nk, n, x);
    }
  }

  lemma {:induction false} NodeInCells(t: KeyT, at: Path, x: Path)
    requires Keyed(t) && x in Nodes(t, at)
    ensures Nodes(t, at)[x] in AllCells(t)
    decreases t
  {
    if x != at {
      var k := ThroughSub(t, at, x);
      NodesAre(t, at, k, x);
      NodeInCells(t.subs[k], Step(at, t.subs[k].name), x);
    }
  }

  /** No two keys have one cell. */
  lemma {:induction false} NodesInjective(t: KeyT, at: Path, x: Path, y: Path)
    requires Keyed(t) && Apart(t) && x in Nodes(t, at) && y in Nodes(t, at) && Nodes(t, at)[x] == Nodes(t, at)[y]
    ensures x == y
    decreases t
  {
    if x != at && y != at {
      var k := ThroughSub(t, at, x);
      var l := ThroughSub(t, at, y);
      NodesAre(t, at, k, x);
      NodesAre(t, at, l, y);
      NodeInCells(t.subs[k], Step(at, t.subs[k].name), x);
      NodeInCells(t.subs[l], Step(at, t.subs[l].name), y);
      if k == l {
        NodesInjective(t.subs[k], Step(at, t.subs[k].name), x, y);
      } else {
        SubsApart(t, k, l);
      }
    } else if x != y {
      TopAlone(t, at, if x == at then y else x);
    }
  }

  lemma SubsApart(t: KeyT, k: nat, l: nat)
    requires Apart(t) && k < |t.subs| && l < |t.subs| && k != l
    ensures AllCells(t.subs[k]) !! AllCells(t.subs[l])
  {
    if k < l {
      assert AllCells(t.subs[k]) !! AllCells(t.subs[l]);
    } else {
      assert AllCells(t.subs[l]) !! AllCells(t.subs[k]);
    }
  }

  lemma TopAlone(t: KeyT, at: Path, y: Path)
    requires Keyed(t) && Apart(t) && y in Nodes(t, at) && y != at
    ensures Nodes(t, at)[y] != t.nk
  {
    var l := ThroughSub(t, at, y);
    NodesAre(t, at, l, y);
    NodeInCells(t.subs[l], Step(at, t.subs[l].name), y);
    assert t.nk in OwnCells(t);
  }

  /** No two keys have one entry. */
  lemma EntryInjective(t: KeyT, at: Path, x: Path, y: Path)
    requires Keyed(t) && Apart(t) && x in Nodes(t, at) && y in Nodes(t, at) && x != at && y != at
    requires EntryOf(t, at, x) == EntryOf(t, at, y)
    ensures x == y
  {
    ParentNode(t, at, x);
    ParentNode(t, at, y);
    NodesInjective(t, at, x[..|x| - 1], y[..|y| - 1]);
    assert x == x[..|x| - 1] + [x[|x| - 1]] && y == y[..|y| - 1] + [y[|y| - 1]];
  }

  /** An entry of the subkey's subtree is that of a key at or below its path. */
  lemma EntryBelow(p: KeyT, i: nat, at: Path, e: Edge) returns (x: Path)
    requires Keyed(p) && i < |p.subs| && e in KeyEdges(p.subs[i], p.nk)
    ensures x in Nodes(p, at) && x != at && Step(at, p.subs[i].name) <= x && EntryOf(p, at, x) == e
  {
    var s, q := p.subs[i], Step(at, p.subs[i].name);
    EdgesAre(s, p.nk, q, e);
    if e == Edge(p.nk, s.name) {
      x := q;
    } else {
      x :| x in Nodes(s, q) && x != q && EntryOf(s, q, x) == e;
    }
    EntryOfSub(p, at, i, x);
    NodesBelow(s, q, x);
  }

  /** The index entries that go with the subkey are exactly those of the keys at and below its path. */
  lemma RemovedEntriesIff(p: KeyT, i: nat, at: Path, y: Path)
    requires Keyed(p) && Apart(p) && i < |p.subs| && y in Nodes(p, at) && y != at
    ensures EntryOf(p, at, y) in KeyEdges(p.subs[i], p.nk) <==> Step(at, p.subs[i].name) <= y
  {
    var s, q := p.subs[i], Step(at, p.subs[i].name);
    if q <= y {
      NodesAre(p, at, i, y);
      EntryOfSub(p, at, i, y);
      if y == q {
        assert Edge(p.nk, s.name) in KeyEdges(s, p.nk);
      } else {
        EntryInEdges(s, p.nk, q, y);
      }
    }
    if EntryOf(p, at, y) in KeyEdges(s, p.nk) {
      var x := EntryBelow(p, i, at, EntryOf(p, at, y));
      EntryInjective(p, at, x, y);
    }
  }
}
