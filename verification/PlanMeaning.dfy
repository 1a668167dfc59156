/** Key by key, what a plan leaves: applied one operation at a time, and applied by one walk and a second phase. */
module PlanMeaning {
  import opened Registry

  /** The operations on key `p`, in plan order. */
  function At(ops: seq<Op>, p: Path): seq<Op> {
    if ops == [] then []
    else
      var rest, last := At(ops[..|ops| - 1], p), ops[|ops| - 1];
      if last.Path() == p then rest + [last] else rest
  }

  function ValueStep(vs: Values, op: Op): Values {
    match op
    case SetValue(_, _, v) => vs[op.ValueName() := v]
    case DeleteValue(_, _) => vs - {op.ValueName()}
    case _ => vs
  }

  function ValuesAfter(vs: Values, ops: seq<Op>): Values {
    if ops == [] then vs else ValueStep(ValuesAfter(vs, ops[..|ops| - 1]), ops[|ops| - 1])
  }

  /** As the second phase does: values are set again, but not deleted again. */
  function SetsAfter(vs: Values, ops: seq<Op>): Values {
    if ops == [] then vs
    else
      var rest, last := SetsAfter(vs, ops[..|ops| - 1]), ops[|ops| - 1];
      if last.SetValue? then ValueStep(rest, last) else rest
  }

  ghost predicate UnderDelete(ops: seq<Op>, p: Path) {
    exists d :: d in ops && d.DeleteKey? && d.Path() <= p
  }

  /** Some operation creates `p`, one at a time or in the walk. */
  ghost predicate EnsuredBy(ops: seq<Op>, p: Path) {
    exists e :: e in ops && !e.DeleteKey? && p <= e.Path()
  }

  ghost predicate CreatedBy(ops: seq<Op>, p: Path) {
    exists e :: e in ops && e.Creates() && p <= e.Path()
  }

  /** No other operation is on a deleted key or below it, and the root is not deleted. */
  ghost predicate Isolated(ops: seq<Op>) {
    && (forall i, j :: 0 <= i < |ops| && 0 <= j < |ops| && i != j && ops[i].DeleteKey? ==>
          !(ops[i].Path() <= ops[j].Path()))
    && (forall i :: 0 <= i < |ops| ==> !RootDelete(ops[i]))
  }

  ghost predicate Kept(t: Tree, ops: seq<Op>, p: Path) {
    p in t && !UnderDelete(ops, p)
  }

  function OldValues(t: Tree, p: Path): Values {
    if p in t then t[p] else map[]
  }

  /** Key `p` after a plan is applied one operation at a time. */
  ghost predicate SessionKey(t: Tree, ops: seq<Op>, s: Tree, p: Path) {
    && (p in s <==> Kept(t, ops, p) || EnsuredBy(ops, p))
    && (p in s ==> s[p] == ValuesAfter(OldValues(t, p), At(ops, p)))
  }

  /** Key `p` after a plan is applied by the walk. */
  ghost predicate WalkKey(t: Tree, ops: seq<Op>, w: Tree, p: Path) {
    && (p in w <==> Kept(t, ops, p) || CreatedBy(ops, p))
    && (p in w ==> w[p] == SetsAfter(if p in t then ValuesAfter(t[p], At(ops, p)) else map[], At(ops, p)))
  }

  /** In an isolated plan, nothing at or below a deleted key is created. */
  lemma DeletedNotEnsured(ops: seq<Op>, d: Op, p: Path)
    requires Isolated(ops) && d in ops && d.DeleteKey? && d.Path() <= p
    ensures !EnsuredBy(ops, p) && At(ops, p) == (if d.Path() == p then [d] else [])
  {
    var i :| 0 <= i < |ops| && ops[i] == d;
    forall e | e in ops && !e.DeleteKey? ensures !(p <= e.Path()) {
      var j :| 0 <= j < |ops| && ops[j] == e;
      if p <= e.Path() {
        assert false;
      }
    }
    AtDeleted(ops, i, p);
  }

  lemma {:induction false} AtDeleted(ops: seq<Op>, i: int, p: Path)
    requires 0 <= i < |ops| && ops[i].Path() <= p
    requires forall j :: 0 <= j < |ops| && j != i ==> !(ops[i].Path() <= ops[j].Path())
    ensures At(ops, p) == if ops[i].Path() == p then [ops[i]] else []
  {
    var n := |ops| - 1;
    if i == n {
      forall x | x in ops[..n] ensures x.Path() != p {
        var j :| 0 <= j < n && ops[j] == x;
      }
      AtNone(ops[..n], p);
    } else {
      AtDeleted(ops[..n], i, p);
      assert ops[n].Path() != p;
    }
  }

  lemma {:induction false} AtNone(ops: seq<Op>, p: Path)
    requires forall x :: x in ops ==> x.Path() != p
    ensures At(ops, p) == []
  {
    if ops != [] {
      AtNone(ops[..|ops| - 1], p);
    }
  }

  lemma IsolatedUpTo(ops: seq<Op>, i: nat)
    requires Isolated(ops) && i <= |ops|
    ensures Isolated(ops[..i])
  {
  }

  lemma IsolatedPrefix(ops: seq<Op>)
    requires Isolated(ops) && ops != []
    ensures Isolated(ops[..|ops| - 1])
  {
  }

  /** One operation at a time: a key is there if it was and is not deleted, or if some operation names it or a key
      below it; its values are the old ones changed by the operations on it, in order. */
  lemma {:induction false} SessionIs(t: Tree, ops: seq<Op>, p: Path)
    requires Closed(t) && Isolated(ops)
    ensures Closed(AppliedAll(t, ops)) && SessionKey(t, ops, AppliedAll(t, ops), p)
  {
    if ops != [] {
      var n := |ops| - 1;
      var before, op := ops[..n], ops[n];
      assert ops == before + [op];
      IsolatedPrefix(ops);
      SessionIs(t, before, p);
      AppliedClosed(AppliedAll(t, before), op);
      SessionStep(t, before, op, p);
    } else {
      assert At(ops, p) == [];
    }
  }

  lemma SessionStep(t: Tree, before: seq<Op>, op: Op, p: Path)
    requires Closed(t) && Isolated(before + [op]) && Closed(AppliedAll(t, before))
    requires SessionKey(t, before, AppliedAll(t, before), p)
    ensures SessionKey(t, before + [op], Applied(AppliedAll(t, before), op), p)
  {
    var ops := before + [op];
    assert ops[..|ops| - 1] == before && ops[|before|] == op;
    MembersAfter(before, op, p);
    if op.DeleteKey? {
      SessionDeletes(t, before, op, AppliedAll(t, before), p);
    } else {
      SessionEnsures(t, before, op, AppliedAll(t, before), p);
    }
  }

  lemma SessionDeletes(t: Tree, before: seq<Op>, op: Op, s: Tree, p: Path)
    requires Isolated(before + [op]) && Closed(s) && op.DeleteKey? && SessionKey(t, before, s, p)
    ensures SessionKey(t, before + [op], Applied(s, op), p)
  {
    var ops := before + [op];
    assert ops[..|ops| - 1] == before && ops[|before|] == op && op in ops;
    MembersAfter(before, op, p);
    if op.Path() <= p {
      DeletedNotEnsured(ops, op, p);
      if p in s {
        PrefixIn(s, op.Path(), p);
      }
    }
  }

  lemma AppliedEnsures(s: Tree, op: Op, p: Path)
    requires !op.DeleteKey?
    ensures p in Applied(s, op) <==> p in s || p <= op.Path()
    ensures p in Applied(s, op) ==>
      Applied(s, op)[p] == if p == op.Path() then ValueStep(OldValues(s, p), op) else OldValues(s, p)
  {
    EnsuredHas(s, op.Path());
  }

  lemma ValuesAfterLast(vs: Values, before: seq<Op>, op: Op, p: Path)
    ensures ValuesAfter(vs, At(before + [op], p))
         == if op.Path() == p then ValueStep(ValuesAfter(vs, At(before, p)), op) else ValuesAfter(vs, At(before, p))
  {
    var ops := before + [op];
    assert ops[..|ops| - 1] == before && ops[|before|] == op;
    var at := At(before, p);
    assert (at + [op])[..|at|] == at;
  }

  lemma SessionEnsures(t: Tree, before: seq<Op>, op: Op, s: Tree, p: Path)
    requires Isolated(before + [op]) && !op.DeleteKey? && SessionKey(t, before, s, p)
    ensures SessionKey(t, before + [op], Applied(s, op), p)
  {
    MembersAfter(before, op, p);
    AppliedEnsures(s, op, p);
    ValuesAfterLast(OldValues(t, p), before, op, p);
    if p <= op.Path() {
      NotDeletedAbove(before, op, p);
      if !EnsuredBy(before, p) {
        NewValues(before, op, p);
      }
    }
  }

  lemma MembersAfter(before: seq<Op>, op: Op, p: Path)
    ensures var ops := before + [op];
      && (UnderDelete(ops, p) <==> UnderDelete(before, p) || (op.DeleteKey? && op.Path() <= p))
      && (EnsuredBy(ops, p) <==> EnsuredBy(before, p) || (!op.DeleteKey? && p <= op.Path()))
  {
    var ops := before + [op];
    assert forall x :: x in ops <==> x in before || x == op;
    if op.DeleteKey? && op.Path() <= p { assert op in ops; }
    if !op.DeleteKey? && p <= op.Path() { assert op in ops; }
  }

  lemma NotDeletedAbove(before: seq<Op>, op: Op, p: Path)
    requires Isolated(before + [op]) && !op.DeleteKey? && p <= op.Path()
    ensures !UnderDelete(before, p)
  {
    forall d | d in before && d.DeleteKey? ensures !(d.Path() <= p) {
      var i :| 0 <= i < |before| && before[i] == d;
      assert (before + [op])[i] == d && (before + [op])[|before|] == op;
      if d.Path() <= p {
        assert false;
      }
    }
  }

  /** A key that no operation has created has had no operation on it, if one now creates it. */
  lemma NewValues(before: seq<Op>, op: Op, p: Path)
    requires Isolated(before + [op]) && !op.DeleteKey? && p <= op.Path() && !EnsuredBy(before, p)
    ensures At(before, p) == []
  {
    NotDeletedAbove(before, op, p);
    AtNone(before, p);
  }
}
