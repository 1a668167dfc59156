/** Sorting a plan and indexing it by path (newWalkApplier in hive/merge/walk_apply.go). */
module PlanIndex {
  import opened Registry
  import opened PlanMeaning
  import opened NormalPath
  import opened KeyEditing
  import opened WalkMeaning
  import Lex

  function KeyOf(op: Op): string {
    Join(op.Path())
  }

  ghost predicate Sorted(ops: seq<Op>) {
    forall i, j :: 0 <= i < j < |ops| ==> Lex.AtMost(KeyOf(ops[i]), KeyOf(ops[j]))
  }

  lemma {:induction false} AtConcat(a: seq<Op>, b: seq<Op>, p: Path)
    ensures At(a + b, p) == At(a, p) + At(b, p)
  {
    if b == [] {
      assert a + b == a;
    } else {
      var c := b[..|b| - 1];
      assert (a + b)[..|a + b| - 1] == a + c;
      AtConcat(a, c, p);
    }
  }

  function Inserted(ops: seq<Op>, j: nat, op: Op): seq<Op>
    requires j <= |ops|
  {
    ops[..j] + [op] + ops[j..]
  }

  /** Inserted after every operation with the same path, an operation comes last on its path. */
  lemma InsertedAt(ops: seq<Op>, j: nat, op: Op, p: Path)
    requires j <= |ops| && forall k :: j <= k < |ops| ==> ops[k].Path() != op.Path()
    ensures At(Inserted(ops, j, op), p) == At(ops, p) + At([op], p)
  {
    AtConcat(ops[..j] + [op], ops[j..], p);
    AtConcat(ops[..j], [op], p);
    AtConcat(ops[..j], ops[j..], p);
    assert ops == ops[..j] + ops[j..];
    if p == op.Path() {
      AtNone(ops[j..], p);
    } else {
      AtNone([op], p);
    }
  }

  lemma InsertedSorted(ops: seq<Op>, j: nat, op: Op)
    requires j <= |ops| && Sorted(ops)
    requires forall k :: j <= k < |ops| ==> Lex.Less(KeyOf(op), KeyOf(ops[k]))
    requires forall k :: 0 <= k < j ==> Lex.AtMost(KeyOf(ops[k]), KeyOf(op))
    ensures Sorted(Inserted(ops, j, op))
  {
  }

  /** A stable sort: in order of path, and the operations on one path keep the order of the plan. */
  method SortStable(plan: seq<Op>) returns (ops: seq<Op>)
    ensures Sorted(ops) && multiset(ops) == multiset(plan)
    ensures forall p :: At(ops, p) == At(plan, p)
  {
    ops := [];
    for i := 0 to |plan|
      invariant Sorted(ops) && multiset(ops) == multiset(plan[..i])
      invariant forall p :: At(ops, p) == At(plan[..i], p)
    {
      var op, j := plan[i], |ops|;
      while j > 0 && Lex.Less(KeyOf(op), KeyOf(ops[j - 1]))
        invariant 0 <= j <= |ops|
        invariant forall k :: j <= k < |ops| ==> Lex.Less(KeyOf(op), KeyOf(ops[k]))
      {
        j := j - 1;
      }
      assert plan[..i + 1] == plan[..i] + [op];
      InsertedStep(ops, j, op, plan[..i]);
      ops := Inserted(ops, j, op);
    }
    assert plan[..|plan|] == plan;
  }

  lemma InsertedStep(ops: seq<Op>, j: nat, op: Op, done: seq<Op>)
    requires j <= |ops| && Sorted(ops) && multiset(ops) == multiset(done) && forall p :: At(ops, p) == At(done, p)
    requires forall k :: j <= k < |ops| ==> Lex.Less(KeyOf(op), KeyOf(ops[k]))
    requires j > 0 ==> !Lex.Less(KeyOf(op), KeyOf(ops[j - 1]))
    ensures Sorted(Inserted(ops, j, op)) && multiset(Inserted(ops, j, op)) == multiset(done + [op])
    ensures forall p :: At(Inserted(ops, j, op), p) == At(done + [op], p)
  {
    Bounded(ops, j, op);
    InsertedSorted(ops, j, op);
    InsertedMembers(ops, j, op);
    InsertedAts(ops, j, op, done);
  }

  lemma InsertedMembers(ops: seq<Op>, j: nat, op: Op)
    requires j <= |ops|
    ensures multiset(Inserted(ops, j, op)) == multiset(ops) + multiset{op}
  {
    assert ops == ops[..j] + ops[j..];
  }

  lemma InsertedAts(ops: seq<Op>, j: nat, op: Op, done: seq<Op>)
    requires j <= |ops| && (forall k :: j <= k < |ops| ==> ops[k].Path() != op.Path())
    requires forall p :: At(ops, p) == At(done, p)
    ensures forall p :: At(Inserted(ops, j, op), p) == At(done + [op], p)
  {
    forall p ensures At(Inserted(ops, j, op), p) == At(done + [op], p) {
      InsertedAt(ops, j, op, p);
      AtConcat(done, [op], p);
    }
  }

  /** Where the search for the place of an operation stops. */
  lemma Bounded(ops: seq<Op>, j: nat, op: Op)
    requires j <= |ops| && Sorted(ops)
    requires forall k :: j <= k < |ops| ==> Lex.Less(KeyOf(op), KeyOf(ops[k]))
    requires j > 0 ==> !Lex.Less(KeyOf(op), KeyOf(ops[j - 1]))
    ensures forall k :: 0 <= k < j ==> Lex.AtMost(KeyOf(ops[k]), KeyOf(op))
    ensures forall k :: j <= k < |ops| ==> ops[k].Path() != op.Path()
  {
    Lex.Irreflexive(KeyOf(op));
    if j > 0 {
      Lex.Trichotomy(KeyOf(op), KeyOf(ops[j - 1]));
      forall k | 0 <= k < j ensures Lex.AtMost(KeyOf(ops[k]), KeyOf(op)) {
        if k < j - 1 {
          Lex.AtMostTransitive(KeyOf(ops[k]), KeyOf(ops[j - 1]), KeyOf(op));
        }
      }
    }
  }

  // ----- The lookup maps -----

  function Indices(byPath: map<string, seq<nat>>, k: string): seq<nat> {
    if k in byPath then byPath[k] else []
  }

  function Children(children: map<string, set<KeyName>>, k: string): set<KeyName> {
    if k in children then children[k] else {}
  }

  ghost predicate Lists(ops: seq<Op>, indices: seq<nat>, listed: seq<Op>) {
    |indices| == |listed| && forall k :: 0 <= k < |indices| ==> indices[k] < |ops| && ops[indices[k]] == listed[k]
  }

  /** The indices of key `p` are its operations, in order. */
  ghost predicate Grouped(ops: seq<Op>, done: seq<Op>, byPath: map<string, seq<nat>>, p: Path) {
    Lists(ops, Indices(byPath, Join(p)), At(done, p))
  }

  /** A child is listed exactly when some operation is on it or below it. */
  ghost predicate Parented(done: seq<Op>, children: map<string, set<KeyName>>, p: Path, n: KeyName) {
    n in Children(children, Join(p)) <==> Needed(done, Under(p, n))
  }

  /** As `Parented`, with the first segments of one more path. */
  ghost predicate ParentedTo(done: seq<Op>, path: Path, children: map<string, set<KeyName>>, p: Path, n: KeyName) {
    n in Children(children, Join(p)) <==> Needed(done, Under(p, n)) || Under(p, n) <= path
  }

  function WithChild(children: map<string, set<KeyName>>, k: string, n: KeyName): map<string, set<KeyName>> {
    children[k := Children(children, k) + {n}]
  }

  function WithIndex(byPath: map<string, seq<nat>>, k: string, i: nat): map<string, seq<nat>> {
    byPath[k := Indices(byPath, k) + [i]]
  }

  lemma GroupedNext(ops: seq<Op>, i: nat, byPath: map<string, seq<nat>>, p: Path)
    requires i < |ops| && Grouped(ops, ops[..i], byPath, p)
    ensures Grouped(ops, ops[..i + 1], WithIndex(byPath, KeyOf(ops[i]), i), p)
  {
    assert ops[..i + 1][..i] == ops[..i];
    if Join(p) == KeyOf(ops[i]) {
      JoinInjective(p, ops[i].Path());
    }
  }

  lemma ParentedNext(done: seq<Op>, path: Path, children: map<string, set<KeyName>>, x: KeyName, p: Path, n: KeyName)
    requires ParentedTo(done, path, children, p, n)
    ensures ParentedTo(done, Under(path, x), WithChild(children, Join(path), x), p, n)
  {
    if Join(p) == Join(path) {
      JoinInjective(p, path);
    }
    if Under(p, n) <= Under(path, x) && !(Under(p, n) <= path) {
      assert Under(p, n) == Under(path, x);
      assert p == Under(p, n)[..|p|] && n == Under(p, n)[|p|];
    }
  }

  lemma NeededNext(done: seq<Op>, op: Op, q: Path)
    ensures Needed(done + [op], q) <==> Needed(done, q) || q <= op.Path()
  {
    assert forall x :: x in done + [op] <==> x in done || x == op;
    if q <= op.Path() { assert op in done + [op]; }
  }

  /** The parents and children along one operation's path, found by cutting its string back to each segment. */
  method IndexPath(done: seq<Op>, op: Op, children0: map<string, set<KeyName>>)
    returns (children: map<string, set<KeyName>>)
    requires forall p, n {:trigger Parented(done, children0, p, n)} :: Parented(done, children0, p, n)
    ensures forall p, n {:trigger Parented(done + [op], children, p, n)} :: Parented(done + [op], children, p, n)
  {
    children := children0;
    var np, pos, parentKey := KeyOf(op), 0, "";
    ghost var path := op.Path();
    forall p, n ensures ParentedTo(done, path[..0], children, p, n) {
      assert Parented(done, children0, p, n);
    }
    for j := 0 to |op.keyPath|
      invariant parentKey == Join(path[..j]) && pos == |parentKey|
      invariant forall p, n {:trigger ParentedTo(done, path[..j], children, p, n)} ::
        ParentedTo(done, path[..j], children, p, n)
    {
      var childName := LowerName(op.keyPath[j]);
      Truncated(path, j);
      Truncated(path, j + 1);
      ghost var grown := path[..j + 1];
      assert grown == Under(path[..j], childName);
      forall p, n ensures ParentedTo(done, grown, WithChild(children, parentKey, childName), p, n) {
        assert ParentedTo(done, path[..j], children, p, n);
        ParentedNext(done, path[..j], children, childName, p, n);
      }
      if j > 0 { pos := pos + 1; }
      children := WithChild(children, parentKey, childName);
      pos := pos + |op.keyPath[j]|;
      parentKey := np[..pos];
    }
    assert path[..|path|] == path;
    forall p, n ensures Parented(done + [op], children, p, n) {
      assert ParentedTo(done, path[..|path|], children, p, n);
      NeededNext(done, op, Under(p, n));
    }
  }

  method IndexPlan(ops: seq<Op>) returns (byPath: map<string, seq<nat>>, children: map<string, set<KeyName>>)
    ensures forall p {:trigger Grouped(ops, ops, byPath, p)} :: Grouped(ops, ops, byPath, p)
    ensures forall p, n {:trigger Parented(ops, children, p, n)} :: Parented(ops, children, p, n)
  {
    byPath, children := map[], map[];
    for i := 0 to |ops|
      invariant forall p {:trigger Grouped(ops, ops[..i], byPath, p)} :: Grouped(ops, ops[..i], byPath, p)
      invariant forall p, n {:trigger Parented(ops[..i], children, p, n)} :: Parented(ops[..i], children, p, n)
    {
      ghost var grown := ops[..i + 1];
      forall p ensures Grouped(ops, grown, WithIndex(byPath, KeyOf(ops[i]), i), p) {
        assert Grouped(ops, ops[..i], byPath, p);
        GroupedNext(ops, i, byPath, p);
      }
      byPath := WithIndex(byPath, KeyOf(ops[i]), i);
      children := IndexPath(ops[..i], ops[i], children);
      assert ops[..i] + [ops[i]] == ops[..i + 1];
    }
    assert ops[..|ops|] == ops;
  }
}
