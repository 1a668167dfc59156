/** What a run of operations tells of one value: the last operation on it decides, or the last that sets it. */
module ValuesTold {
  import opened Registry
  import opened PlanMeaning

  predicate OnValue(op: Op, p: Path, n: Name) {
    (op.SetValue? || op.DeleteValue?) && op.Path() == p && op.ValueName() == n
  }

  predicate HasSet(ops: seq<Op>, p: Path, n: Name) {
    exists i :: 0 <= i < |ops| && ops[i].SetValue? && OnValue(ops[i], p, n)
  }

  /** The last operation on value `n` of key `p`. */
  function LastOn(ops: seq<Op>, p: Path, n: Name): (r: Option<Op>)
    ensures r.Some? ==> r.value in ops && OnValue(r.value, p, n)
  {
    if ops == [] then None
    else if OnValue(ops[|ops| - 1], p, n) then Some(ops[|ops| - 1])
    else LastOn(ops[..|ops| - 1], p, n)
  }

  predicate DeletedLast(ops: seq<Op>, p: Path, n: Name) {
    var last := LastOn(ops, p, n);
    last.Some? && last.value.DeleteValue?
  }

  function Look(vs: Values, n: Name): Option<Value> {
    if n in vs then Some(vs[n]) else None
  }

  function Told(l: Option<Op>, before: Option<Value>): Option<Value> {
    if l.None? then before else if l.value.SetValue? then Some(l.value.value) else None
  }

  /** One at a time, the last operation on a value decides. */
  lemma {:induction false} ValueDecided(vs: Values, ops: seq<Op>, p: Path, n: Name)
    ensures Look(ValuesAfter(vs, At(ops, p)), n) == Told(LastOn(ops, p, n), Look(vs, n))
  {
    if ops != [] {
      var before, op := ops[..|ops| - 1], ops[|ops| - 1];
      assert ops == before + [op];
      ValueDecided(vs, before, p, n);
      ValuesAfterLast(vs, before, op, p);
    }
  }

  function LastSet(ops: seq<Op>, p: Path, n: Name): (r: Option<Op>)
    ensures r.Some? <==> HasSet(ops, p, n)
    ensures r.Some? ==> r.value.SetValue?
  {
    if ops == [] then None
    else
      var before, op := ops[..|ops| - 1], ops[|ops| - 1];
      if op.SetValue? && OnValue(op, p, n) then Some(op)
      else
        assert HasSet(ops, p, n) ==> HasSet(before, p, n);
        LastSet(before, p, n)
  }

  /** In the second phase, the last set decides. */
  lemma {:induction false} SetDecided(vs: Values, ops: seq<Op>, p: Path, n: Name)
    ensures Look(SetsAfter(vs, At(ops, p)), n) == Told(LastSet(ops, p, n), Look(vs, n))
  {
    if ops != [] {
      var before, op := ops[..|ops| - 1], ops[|ops| - 1];
      SetDecided(vs, before, p, n);
      var at := At(before, p);
      assert (at + [op])[..|at|] == at;
    }
  }

  /** If the last operation on a value is a set, it is the last set. */
  lemma {:induction false} LastIsLastSet(ops: seq<Op>, p: Path, n: Name)
    ensures LastOn(ops, p, n).Some? && LastOn(ops, p, n).value.SetValue? ==> LastSet(ops, p, n) == LastOn(ops, p, n)
    ensures LastOn(ops, p, n).None? ==> LastSet(ops, p, n).None?
  {
    if ops != [] {
      LastIsLastSet(ops[..|ops| - 1], p, n);
    }
  }
}
