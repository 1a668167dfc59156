/** Which plans come to the end: a set of a value above 16344 bytes is refused where a value of its type and length is
    found. One operation at a time that is what was set last; the walk sets values a second time
    (hive/merge/session.go, hive/merge/walk_apply.go). */
module PlanTakes {
  import opened Limits
  import opened Registry
  import opened PlanMeaning
  import opened ValueRuns
  import opened ValuesTold
  import opened WalkMeaning
  import opened WalkFill

  /** The value found cannot be compared with the new one. */
  predicate Clashes(was: Option<Value>, x: Value) {
    was.Some? && was.value.typ == x.typ && |was.value.data| == |x.data| > MAX_EXTERNAL
  }

  lemma RefusedIff(m: Values, op: Op)
    requires op.SetValue?
    ensures Refused(m, op) <==> Clashes(Look(m, op.ValueName()), op.value) || |op.value.data| > MOST
  {
  }

  /** What the `i`-th operation finds, one at a time. */
  function Before(t: Tree, ops: seq<Op>, i: nat): Option<Value>
    requires i < |ops| && ops[i].SetValue?
  {
    var p, n := ops[i].Path(), ops[i].ValueName();
    Told(LastOn(ops[..i], p, n), Look(OldValues(t, p), n))
  }

  /** What the walk leaves of the value before the second phase. */
  function Walked(t: Tree, ops: seq<Op>, p: Path, n: Name): Option<Value> {
    if p in t then Told(LastOn(ops, p, n), Look(t[p], n)) else None
  }

  /** What the `i`-th operation finds in the second phase. */
  function Again(t: Tree, ops: seq<Op>, i: nat): Option<Value>
    requires i < |ops| && ops[i].SetValue?
  {
    var p, n := ops[i].Path(), ops[i].ValueName();
    Told(LastSet(ops[..i], p, n), Walked(t, ops, p, n))
  }

  ghost predicate SetOk(t: Tree, ops: seq<Op>, i: int) {
    0 <= i < |ops| && ops[i].SetValue? ==>
      |ops[i].value.data| <= MOST && !Clashes(Before(t, ops, i), ops[i].value)
  }

  ghost predicate WalkSetOk(t: Tree, ops: seq<Op>, i: int) {
    0 <= i < |ops| && ops[i].SetValue? ==>
      && |ops[i].value.data| <= MOST && (ops[i].Path() in t ==> !Clashes(Before(t, ops, i), ops[i].value))
      && !Clashes(Again(t, ops, i), ops[i].value)
  }

  // ----- One operation at a time -----

  /** The values that an operation which sets one finds. */
  lemma FoundAt(t: Tree, ops: seq<Op>, i: nat)
    requires Closed(t) && Isolated(ops) && i < |ops| && ops[i].SetValue?
    ensures var p := ops[i].Path();
      OldValues(AppliedAll(t, ops[..i]), p) == ValuesAfter(OldValues(t, p), At(ops[..i], p))
  {
    var p, before := ops[i].Path(), ops[..i];
    IsolatedUpTo(ops, i + 1);
    IsolatedUpTo(ops, i);
    assert ops[..i + 1] == before + [ops[i]];
    SessionIs(t, before, p);
    NotDeletedAbove(before, ops[i], p);
    if !EnsuredBy(before, p) {
      NewValues(before, ops[i], p);
    }
  }

  /** An isolated plan, one operation at a time, comes to the end exactly if no set finds a value it cannot be compared
      with: what the last operation on the value told, or what was there. */
  lemma AcceptsIff(t: Tree, ops: seq<Op>)
    requires Closed(t) && Isolated(ops)
    ensures Accepts(t, ops) <==> forall i {:trigger SetOk(t, ops, i)} :: SetOk(t, ops, i)
  {
    forall i: nat | i < |ops| ensures Refuses(AppliedAll(t, ops[..i]), ops[i]) <==> !SetOk(t, ops, i) {
      assert !RootDelete(ops[i]);
      if ops[i].SetValue? {
        var p, n := ops[i].Path(), ops[i].ValueName();
        FoundAt(t, ops, i);
        ValueDecided(OldValues(t, p), ops[..i], p, n);
        RefusedIff(OldValues(AppliedAll(t, ops[..i]), p), ops[i]);
      }
    }
    if Accepts(t, ops) {
      forall i ensures SetOk(t, ops, i) {
        if 0 <= i < |ops| { assert !Refuses(AppliedAll(t, ops[..i]), ops[i]); }
      }
    }
  }

  // ----- The walk -----

  /** Every set on the key is accepted where it comes. */
  ghost predicate TakenOn(vs: Values, ops: seq<Op>, q: Path, i: int) {
    0 <= i < |ops| && ops[i].SetValue? && ops[i].Path() == q ==> !Refused(ValuesAfter(vs, At(ops[..i], q)), ops[i])
  }

  ghost predicate TakenAgain(vs: Values, ops: seq<Op>, q: Path, i: int) {
    0 <= i < |ops| && ops[i].SetValue? && ops[i].Path() == q ==> !Refused(SetsAfter(vs, At(ops[..i], q)), ops[i])
  }

  lemma {:induction false} AllTakenAt(vs: Values, ops: seq<Op>, q: Path)
    ensures AllTaken(vs, At(ops, q)) <==> forall i {:trigger TakenOn(vs, ops, q, i)} :: TakenOn(vs, ops, q, i)
  {
    if ops != [] {
      var n := |ops| - 1;
      AllTakenAt(vs, ops[..n], q);
      AllTakenNext(vs, At(ops[..n], q), ops[n]);
      forall i | i != n ensures TakenOn(vs, ops, q, i) == TakenOn(vs, ops[..n], q, i) {
        if 0 <= i < n { assert ops[..n][..i] == ops[..i]; }
      }
      assert !TakenOn(vs, ops, q, n) <==>
             ops[n].SetValue? && ops[n].Path() == q && Refused(ValuesAfter(vs, At(ops[..n], q)), ops[n]);
    }
  }

  lemma {:induction false} AllTakenAgain(vs: Values, ops: seq<Op>, q: Path)
    ensures AllTaken(vs, SetsOf(At(ops, q))) <==>
            forall i {:trigger TakenAgain(vs, ops, q, i)} :: TakenAgain(vs, ops, q, i)
  {
    if ops != [] {
      var n := |ops| - 1;
      var at := At(ops[..n], q);
      AllTakenAgain(vs, ops[..n], q);
      AllTakenNext(vs, SetsOf(at), ops[n]);
      SetsOfRun(vs, at);
      assert (at + [ops[n]])[..|at|] == at;
      forall i | i != n ensures TakenAgain(vs, ops, q, i) == TakenAgain(vs, ops[..n], q, i) {
        if 0 <= i < n { assert ops[..n][..i] == ops[..i]; }
      }
      assert !TakenAgain(vs, ops, q, n) <==>
             ops[n].SetValue? && ops[n].Path() == q && Refused(SetsAfter(vs, at), ops[n]);
    }
  }

  /** A key that an isolated plan sets a value of is not deleted. */
  lemma SetNotGone(t: Tree, ops: seq<Op>, op: Op)
    requires Isolated(ops) && op in ops && !op.DeleteKey?
    ensures !Gone(t, ops, op.Path()) && !DeletedAt(ops, op.Path())
    ensures Reached(t, ops, op.Path()) <==> op.Path() in t
  {
    var p := op.Path();
    forall d | d in ops && d.DeleteKey? ensures !(d.Path() <= p) {
      if d.Path() <= p {
        DeletedNotEnsured(ops, d, p);
        assert EnsuredBy(ops, p);
      }
    }
    if p != [] && Gone(t, ops, p[..|p| - 1]) {
      GoneMonotone(t, ops, p[..|p| - 1], p);
    }
    assert Needed(ops, p);
  }

  lemma {:induction false} NotDeletedAll(ops: seq<Op>)
    requires forall i :: 0 <= i < |ops| ==> !ops[i].DeleteKey?
    ensures UpToDelete(ops) == ops
  {
    if ops != [] { NotDeletedAll(ops[..|ops| - 1]); }
  }

  /** In an isolated plan, the operations on a key are its deletion, or none of them is. */
  lemma UpToDeleteIs(ops: seq<Op>, q: Path)
    requires Isolated(ops)
    ensures UpToDelete(At(ops, q)) == if DeletedAt(ops, q) then [] else At(ops, q)
  {
    if DeletedAt(ops, q) {
      var d :| d in ops && d.DeleteKey? && d.Path() == q;
      DeletedNotEnsured(ops, d, q);
      assert [d][..0] == [];
    } else {
      AtMembers(ops, q);
      forall i | 0 <= i < |At(ops, q)| ensures !At(ops, q)[i].DeleteKey? {
        assert At(ops, q)[i] in At(ops, q);
      }
      NotDeletedAll(At(ops, q));
    }
  }

  lemma FirstPassIff(t: Tree, ops: seq<Op>, q: Path)
    requires Isolated(ops)
    ensures FirstPass(t, ops, q) <==> (Reached(t, ops, q) && !DeletedAt(ops, q) ==>
              forall i {:trigger TakenOn(t[q], ops, q, i)} :: TakenOn(t[q], ops, q, i))
  {
    UpToDeleteIs(ops, q);
    if q in t { AllTakenAt(t[q], ops, q); }
  }

  /** The `i`-th operation, if it sets a value, is accepted by the walk and again by the second phase. */
  lemma WalkSetIff(t: Tree, ops: seq<Op>, i: nat)
    requires Closed(t) && Isolated(ops) && i < |ops| && ops[i].SetValue?
    ensures var p := ops[i].Path();
      (WalkSetOk(t, ops, i)
       <==> (p in t ==> TakenOn(t[p], ops, p, i)) && TakenAgain(WalkedValues(t, ops, p), ops, p, i))
  {
    var p, n := ops[i].Path(), ops[i].ValueName();
    var w := WalkedValues(t, ops, p);
    if p in t {
      ValueDecided(t[p], ops[..i], p, n);
      RefusedIff(ValuesAfter(t[p], At(ops[..i], p)), ops[i]);
      ValueDecided(t[p], ops, p, n);
    }
    SetDecided(w, ops[..i], p, n);
    RefusedIff(SetsAfter(w, At(ops[..i], p)), ops[i]);
  }

  /** The walk comes to the end of an isolated plan exactly if no set finds a value it cannot be compared with, in the
      walk and in the second phase: there, what the set before it told, or else what the walk has left. */
  lemma WalkTakesIff(t: Tree, ops: seq<Op>)
    requires Closed(t) && Isolated(ops)
    ensures WalkTakes(t, ops) <==> forall i {:trigger WalkSetOk(t, ops, i)} :: WalkSetOk(t, ops, i)
  {
    RootStays(ops);
    if WalkTakes(t, ops) {
      forall i ensures WalkSetOk(t, ops, i) {
        if 0 <= i < |ops| && ops[i].SetValue? { TakesSet(t, ops, i); }
      }
    }
    if forall i {:trigger WalkSetOk(t, ops, i)} :: WalkSetOk(t, ops, i) {
      forall q ensures FirstPass(t, ops, q) && SecondPass(t, ops, ops, q) {
        SetsPass(t, ops, q);
      }
    }
  }

  lemma RootStays(ops: seq<Op>)
    requires Isolated(ops)
    ensures !DeletedAt(ops, [])
  {
    forall d | d in ops && d.DeleteKey? ensures d.Path() != [] {
      var i :| 0 <= i < |ops| && ops[i] == d;
      assert !RootDelete(ops[i]);
      assert |d.Path()| == |d.keyPath|;
    }
  }

  lemma TakesSet(t: Tree, ops: seq<Op>, i: nat)
    requires Closed(t) && Isolated(ops) && WalkTakes(t, ops) && i < |ops| && ops[i].SetValue?
    ensures WalkSetOk(t, ops, i)
  {
    var p := ops[i].Path();
    SetNotGone(t, ops, ops[i]);
    assert FirstPass(t, ops, p) && SecondPass(t, ops, ops, p);
    FirstPassIff(t, ops, p);
    AllTakenAgain(WalkedValues(t, ops, p), ops, p);
    assert p in t ==> TakenOn(t[p], ops, p, i);
    assert TakenAgain(WalkedValues(t, ops, p), ops, p, i);
    WalkSetIff(t, ops, i);
  }

  lemma SetsPass(t: Tree, ops: seq<Op>, q: Path)
    requires Closed(t) && Isolated(ops) && forall i {:trigger WalkSetOk(t, ops, i)} :: WalkSetOk(t, ops, i)
    ensures FirstPass(t, ops, q) && SecondPass(t, ops, ops, q)
  {
    var w := WalkedValues(t, ops, q);
    forall i ensures (q in t ==> TakenOn(t[q], ops, q, i)) && TakenAgain(w, ops, q, i) {
      if 0 <= i < |ops| && ops[i].SetValue? && ops[i].Path() == q {
        assert WalkSetOk(t, ops, i);
        WalkSetIff(t, ops, i);
      }
    }
    FirstPassIff(t, ops, q);
    AllTakenAgain(w, ops, q);
  }

  // ----- What follows -----

  /** Where the walk comes to the end, one operation at a time does. */
  lemma TakesAccepts(t: Tree, ops: seq<Op>)
    requires Closed(t) && Isolated(ops) && WalkTakes(t, ops)
    ensures Accepts(t, ops)
  {
    WalkTakesIff(t, ops);
    forall i ensures SetOk(t, ops, i) {
      assert WalkSetOk(t, ops, i);
      if 0 <= i < |ops| && ops[i].SetValue? && ops[i].Path() !in t {
        LastIsLastSet(ops[..i], ops[i].Path(), ops[i].ValueName());
      }
    }
    AcceptsIff(t, ops);
  }

  predicate SmallSets(ops: seq<Op>) {
    forall e :: e in ops && e.SetValue? ==> |e.value.data| <= MAX_EXTERNAL
  }

  lemma {:induction false} SmallTaken(m: Values, ops: seq<Op>)
    requires SmallSets(ops)
    ensures AllTaken(m, ops)
  {
    if ops != [] { SmallTaken(m, ops[..|ops| - 1]); }
  }

  /** Plans that set nothing above 16344 bytes fail in both ways only by deleting the root. */
  lemma SmallTakes(t: Tree, ops: seq<Op>)
    requires SmallSets(ops)
    ensures Accepts(t, ops) <==> forall i :: 0 <= i < |ops| ==> !RootDelete(ops[i])
    ensures WalkTakes(t, ops) <==> !DeletedAt(ops, [])
  {
    if forall i :: 0 <= i < |ops| ==> !RootDelete(ops[i]) {
      assert Accepts(t, ops);
    } else {
      var i :| 0 <= i < |ops| && RootDelete(ops[i]);
      assert Refuses(AppliedAll(t, ops[..i]), ops[i]);
    }
    forall q ensures FirstPass(t, ops, q) && SecondPass(t, ops, ops, q) {
      SmallAt(ops, q);
      if q in t { SmallTaken(t[q], UpToDelete(At(ops, q))); }
      SmallTaken(WalkedValues(t, ops, q), SetsOf(At(ops, q)));
    }
  }

  lemma SmallAt(ops: seq<Op>, q: Path)
    requires SmallSets(ops)
    ensures SmallSets(UpToDelete(At(ops, q))) && SmallSets(SetsOf(At(ops, q)))
  {
    AtMembers(ops, q);
    UpToDeleteLength(At(ops, q));
    SetsAmong(At(ops, q));
  }

  lemma {:induction false} SetsAmong(ops: seq<Op>)
    ensures forall e :: e in SetsOf(ops) ==> e in ops
  {
    if ops != [] { SetsAmong(ops[..|ops| - 1]); }
  }

  /** A value above 16344 bytes that is set once, on a key that is there, makes the walk fail. */
  lemma BigSetFails(t: Tree, ops: seq<Op>, i: nat)
    requires Closed(t) && Isolated(ops) && i < |ops| && ops[i].SetValue? && ops[i].Path() in t
    requires |ops[i].value.data| > MAX_EXTERNAL
    requires forall j :: 0 <= j < |ops| && j != i ==> !OnValue(ops[j], ops[i].Path(), ops[i].ValueName())
    ensures !WalkTakes(t, ops)
  {
    var p, n := ops[i].Path(), ops[i].ValueName();
    NoSetBefore(ops[..i], p, n);
    OnlyOn(ops, i, p, n);
    assert Again(t, ops, i) == Some(ops[i].value);
    assert !WalkSetOk(t, ops, i);
    WalkTakesIff(t, ops);
  }

  lemma NoSetBefore(ops: seq<Op>, p: Path, n: Name)
    requires forall j :: 0 <= j < |ops| ==> !OnValue(ops[j], p, n)
    ensures LastSet(ops, p, n) == None
  {
  }

  lemma {:induction false} OnlyOn(ops: seq<Op>, i: nat, p: Path, n: Name)
    requires i < |ops| && OnValue(ops[i], p, n) && forall j :: i < j < |ops| ==> !OnValue(ops[j], p, n)
    ensures LastOn(ops, p, n) == Some(ops[i])
  {
    if i < |ops| - 1 { OnlyOn(ops[..|ops| - 1], i, p, n); }
  }
}
