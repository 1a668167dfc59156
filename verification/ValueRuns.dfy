/** What a run of value operations does to the values of a key, and where it stops (UpsertValues in
    hive/edit/vkedit.go): a value kept as big data is never read, so a new one of its type and length cannot be compared
    with it. */
module ValueRuns {
  import opened Limits
  import opened Registry
  import opened PlanMeaning

  /** The old value and the new one are big data of one length and type. */
  predicate Uncomparable(m: Values, n: Name, x: Value) {
    n in m && m[n].typ == x.typ && |m[n].data| == |x.data| > MAX_EXTERNAL
  }

  /** The value is too large, or cannot be compared with what is there. */
  predicate Refused(m: Values, op: Op)
    requires op.SetValue?
  {
    Uncomparable(m, op.ValueName(), op.value) || |op.value.data| > MOST
  }

  /** How many operations of a run are done if there is room: all before the first that is refused. */
  function Taken(m: Values, ops: seq<Op>): (n: nat)
    ensures n <= |ops|
  {
    if ops == [] then 0
    else
      var before, op := ops[..|ops| - 1], ops[|ops| - 1];
      var n := Taken(m, before);
      if n < |before| || (op.SetValue? && Refused(ValuesAfter(m, before), op)) then n else n + 1
  }

  /** `i` operations of the run are done and have made the map `m` of `m0`. */
  ghost predicate GotTo(m0: Values, ops: seq<Op>, i: nat, m: Values) {
    i <= |ops| && m == ValuesAfter(m0, ops[..i]) && Taken(m0, ops[..i]) == i
  }

  lemma {:induction false} TakenStops(m: Values, ops: seq<Op>, i: nat)
    requires i < |ops| && Taken(m, ops[..i + 1]) == i
    ensures Taken(m, ops) == i
  {
    if i + 1 == |ops| {
      assert ops[..i + 1] == ops;
    } else {
      var before := ops[..|ops| - 1];
      assert before[..i + 1] == ops[..i + 1];
      TakenStops(m, before, i);
    }
  }

  /** A run that has got to `i` gets further. */
  lemma {:induction false} TakenGoesOn(m: Values, ops: seq<Op>, i: nat)
    requires i <= |ops| && Taken(m, ops[..i]) == i
    ensures i <= Taken(m, ops)
  {
    if i == |ops| {
      assert ops[..i] == ops;
    } else {
      var before := ops[..|ops| - 1];
      assert before[..i] == ops[..i];
      TakenGoesOn(m, before, i);
    }
  }

  /** A run goes on after an operation that is not refused, and ends with one that is. */
  lemma TakenNext(m0: Values, ops: seq<Op>, i: nat, m: Values)
    requires i < |ops| && GotTo(m0, ops, i, m)
    ensures if ops[i].SetValue? && Refused(m, ops[i]) then Taken(m0, ops) == i
            else GotTo(m0, ops, i + 1, ValueStep(m, ops[i])) && i < Taken(m0, ops)
  {
    assert ops[..i + 1][..i] == ops[..i];
    if ops[i].SetValue? && Refused(m, ops[i]) {
      TakenStops(m0, ops, i);
    } else {
      TakenGoesOn(m0, ops, i + 1);
    }
  }

  lemma TakenAll(m0: Values, ops: seq<Op>, m: Values)
    requires GotTo(m0, ops, |ops|, m)
    ensures Taken(m0, ops) == |ops|
  {
    assert ops[..|ops|] == ops;
  }

  // ----- Runs that are done to the end -----

  /** No operation of the run is refused. */
  predicate AllTaken(m: Values, ops: seq<Op>) {
    Taken(m, ops) == |ops|
  }

  lemma {:induction false} ValuesAfterConcat(vs: Values, a: seq<Op>, b: seq<Op>)
    ensures ValuesAfter(vs, a + b) == ValuesAfter(ValuesAfter(vs, a), b)
  {
    if b == [] {
      assert a + b == a;
    } else {
      var c := b[..|b| - 1];
      assert (a + b)[..|a + b| - 1] == a + c;
      ValuesAfterConcat(vs, a, c);
    }
  }

  lemma AllTakenNext(m: Values, ops: seq<Op>, op: Op)
    ensures AllTaken(m, ops + [op]) <==> AllTaken(m, ops) && !(op.SetValue? && Refused(ValuesAfter(m, ops), op))
  {
    assert (ops + [op])[..|ops|] == ops;
  }

  /** A run in two parts. */
  lemma {:induction false} AllTakenConcat(m: Values, a: seq<Op>, b: seq<Op>)
    ensures AllTaken(m, a + b) <==> AllTaken(m, a) && AllTaken(ValuesAfter(m, a), b)
  {
    if b == [] {
      assert a + b == a;
    } else {
      var c, op := b[..|b| - 1], b[|b| - 1];
      assert a + b == (a + c) + [op] && b == c + [op];
      AllTakenConcat(m, a, c);
      AllTakenNext(m, a + c, op);
      AllTakenNext(ValuesAfter(m, a), c, op);
      ValuesAfterConcat(m, a, c);
    }
  }

  /** Every set of the run is accepted where it comes. */
  ghost predicate SetTaken(m: Values, ops: seq<Op>, i: int) {
    0 <= i < |ops| && ops[i].SetValue? ==> !Refused(ValuesAfter(m, ops[..i]), ops[i])
  }

  lemma {:induction false} AllTakenIff(m: Values, ops: seq<Op>)
    ensures AllTaken(m, ops) <==> forall i {:trigger SetTaken(m, ops, i)} :: SetTaken(m, ops, i)
  {
    if ops != [] {
      var n := |ops| - 1;
      var before, op := ops[..n], ops[n];
      assert ops == before + [op];
      AllTakenIff(m, before);
      AllTakenNext(m, before, op);
      assert forall i :: 0 <= i < n ==> before[..i] == ops[..i] && before[i] == ops[i];
      if forall i {:trigger SetTaken(m, ops, i)} :: SetTaken(m, ops, i) {
        assert SetTaken(m, ops, n);
        forall i ensures SetTaken(m, before, i) { assert SetTaken(m, ops, i); }
      }
      if AllTaken(m, ops) {
        forall i ensures SetTaken(m, ops, i) { assert SetTaken(m, before, i); }
      }
    }
  }

  // ----- Plans, one operation after the other -----

  /** The operation fails: it deletes the root, or sets a value that is refused. */
  predicate Refuses(t: Tree, op: Op) {
    RootDelete(op) || (op.SetValue? && Refused(OldValues(t, op.Path()), op))
  }

  /** No operation of the plan fails where it comes. */
  ghost predicate Accepts(t: Tree, ops: seq<Op>) {
    forall i :: 0 <= i < |ops| ==> !Refuses(AppliedAll(t, ops[..i]), ops[i])
  }
}
