/** When the walk and the one-at-a-time application of a plan leave the same tree. */
module WalkTheorem {
  import opened Registry
  import opened PlanMeaning
  import opened WalkMeaning
  import opened WalkFill
  import opened WalkApply
  import opened ValuesTold
  import opened ValueRuns
  import opened PlanTakes
  import opened Limits
  import opened EditLogs
  import opened DeferredPlans
  import opened WalkOrders

  /** Every value deleted by name lies under a key that is there or that the plan creates anyway. */
  ghost predicate DeletesOnKeys(t: Tree, ops: seq<Op>) {
    forall d :: d in ops && d.DeleteValue? ==> d.Path() in t || CreatedBy(ops, d.Path())
  }

  /** No value is set and, at the end, deleted again. */
  ghost predicate SetsLast(ops: seq<Op>) {
    forall d :: d in ops && d.DeleteValue? ==>
      !(HasSet(ops, d.Path(), d.ValueName()) && DeletedLast(ops, d.Path(), d.ValueName()))
  }

  /** Value `n` of key `p` differs between the two exactly when it is set somewhere and deleted last. */
  lemma ValueAgrees(vs: Values, kept: bool, ops: seq<Op>, p: Path, n: Name)
    requires !kept ==> vs == map[]
    ensures var walked := SetsAfter(if kept then ValuesAfter(vs, At(ops, p)) else map[], At(ops, p));
      Look(walked, n) == Look(ValuesAfter(vs, At(ops, p)), n)
      <==> !(HasSet(ops, p, n) && DeletedLast(ops, p, n))
  {
    var one := ValuesAfter(vs, At(ops, p));
    ValueDecided(vs, ops, p, n);
    SetDecided(if kept then one else map[], ops, p, n);
    LastIsLastSet(ops, p, n);
  }

  lemma CreatedIsEnsured(ops: seq<Op>, p: Path)
    ensures CreatedBy(ops, p) ==> EnsuredBy(ops, p)
  {
  }

  /** Under both conditions the two agree on every key. */
  lemma KeysAgree(t: Tree, ops: seq<Op>, s: Tree, w: Tree, p: Path)
    requires Closed(t) && Isolated(ops) && SessionKey(t, ops, s, p) && WalkKey(t, ops, w, p)
    requires DeletesOnKeys(t, ops) && SetsLast(ops)
    ensures (p in w <==> p in s) && (p in w ==> w[p] == s[p])
  {
    CreatedIsEnsured(ops, p);
    if EnsuredBy(ops, p) && !CreatedBy(ops, p) {
      EnsuredIsKept(t, ops, p);
    }
    if p in w {
      forall n ensures Look(w[p], n) == Look(s[p], n) {
        NotSetThenDeleted(ops, p, n);
        ValueAgrees(OldValues(t, p), p in t, ops, p, n);
      }
      SameLooks(w[p], s[p]);
    }
  }

  lemma NotSetThenDeleted(ops: seq<Op>, p: Path, n: Name)
    requires SetsLast(ops)
    ensures !(HasSet(ops, p, n) && DeletedLast(ops, p, n))
  {
    var last := LastOn(ops, p, n);
    if last.Some? && last.value.DeleteValue? {
      var d := last.value;
      assert !(HasSet(ops, d.Path(), d.ValueName()) && DeletedLast(ops, d.Path(), d.ValueName()));
    }
  }

  lemma SameLooks(a: Values, b: Values)
    requires forall n :: Look(a, n) == Look(b, n)
    ensures a == b
  {
    forall n ensures (n in a <==> n in b) && (n in a ==> a[n] == b[n]) {
      assert Look(a, n) == Look(b, n);
    }
  }

  lemma CreatedAbove(ops: seq<Op>, p: Path, q: Path)
    requires p <= q && CreatedBy(ops, q)
    ensures CreatedBy(ops, p)
  {
    var c :| c in ops && c.Creates() && q <= c.Path();
    assert p <= c.Path();
  }

  /** A key that only a deletion by name touches, in a plan that deletes on present keys, was there and stays. */
  lemma EnsuredIsKept(t: Tree, ops: seq<Op>, p: Path)
    requires Closed(t) && Isolated(ops) && DeletesOnKeys(t, ops) && EnsuredBy(ops, p) && !CreatedBy(ops, p)
    ensures Kept(t, ops, p)
  {
    var e :| e in ops && !e.DeleteKey? && p <= e.Path();
    assert e.DeleteValue?;
    if CreatedBy(ops, e.Path()) {
      CreatedAbove(ops, p, e.Path());
      assert false;
    }
    PrefixIn(t, p, e.Path());
    forall d | d in ops && d.DeleteKey? ensures !(d.Path() <= p) {
      if d.Path() <= p {
        DeletedNotEnsured(ops, d, p);
        assert false;
      }
    }
  }

  /** Once the walk comes to the end, it leaves the keys and values of the one-at-a-time application exactly when every
      value deleted by name lies under a key that is there or that the plan creates anyway, and no value is set and at
      the end deleted again. */
  lemma SameTreeIff(t: Tree, ops: seq<Op>, w: Tree)
    requires Closed(t) && Isolated(ops) && forall p :: WalkKey(t, ops, w, p)
    ensures w == AppliedAll(t, ops) <==> DeletesOnKeys(t, ops) && SetsLast(ops)
  {
    var s := AppliedAll(t, ops);
    forall p ensures SessionKey(t, ops, s, p) {
      SessionIs(t, ops, p);
    }
    if DeletesOnKeys(t, ops) && SetsLast(ops) {
      forall p ensures (p in w <==> p in s) && (p in w ==> w[p] == s[p]) {
        KeysAgree(t, ops, s, w, p);
      }
    } else if !DeletesOnKeys(t, ops) {
      var d :| d in ops && d.DeleteValue? && d.Path() !in t && !CreatedBy(ops, d.Path());
      assert EnsuredBy(ops, d.Path());
      assert d.Path() in s && d.Path() !in w by {
        assert SessionKey(t, ops, s, d.Path()) && WalkKey(t, ops, w, d.Path());
      }
    } else {
      var d :| d in ops && d.DeleteValue? && HasSet(ops, d.Path(), d.ValueName()) &&
        DeletedLast(ops, d.Path(), d.ValueName());
      var p, n := d.Path(), d.ValueName();
      SetCreates(ops, p, n);
      ValueAgrees(OldValues(t, p), p in t, ops, p, n);
      assert SessionKey(t, ops, s, p) && WalkKey(t, ops, w, p);
      CreatedIsEnsured(ops, p);
      assert p in s && p in w && Look(w[p], n) != Look(s[p], n);
    }
  }

  /** Both ways of applying an isolated plan come to the end and leave the same keys and values, exactly if the walk
      comes to the end, every value deleted by name lies under a key that is there or that the plan creates anyway, and
      no value is set and at the end deleted again. What the subkey lists show of them is `ListsRightIff`. */
  lemma WalkAgreesIff(t: Tree, ops: seq<Op>, w: Tree)
    requires Closed(t) && Isolated(ops) && (WalkTakes(t, ops) ==> forall p :: AppliedKey(t, ops, w, p))
    ensures WalkTakes(t, ops) && Accepts(t, ops) && w == AppliedAll(t, ops) <==>
            WalkTakes(t, ops) && DeletesOnKeys(t, ops) && SetsLast(ops)
  {
    if WalkTakes(t, ops) {
      TakesAccepts(t, ops);
      forall p ensures WalkKey(t, ops, w, p) {
        assert AppliedKey(t, ops, w, p);
        AppliedIsWalkKey(t, ops, w, p);
      }
      SameTreeIff(t, ops, w);
    }
  }

  /** One set of a value above 16344 bytes, on a key that is there and whose value of that name is not of its type and
      length: one at a time it succeeds, and the walk fails. */
  lemma BigSetDiffers(t: Tree, op: Op)
    requires Closed(t) && op.SetValue? && op.Path() in t && MAX_EXTERNAL < |op.value.data| <= MOST
    requires !Uncomparable(t[op.Path()], op.ValueName(), op.value)
    ensures Isolated([op]) && DeletesOnKeys(t, [op]) && SetsLast([op])
    ensures Accepts(t, [op]) && !WalkTakes(t, [op])
  {
    assert [op][..0] == [];
    assert !Refuses(AppliedAll(t, []), op);
    BigSetFails(t, [op], 0);
  }

  lemma SetCreates(ops: seq<Op>, p: Path, n: Name)
    requires HasSet(ops, p, n)
    ensures CreatedBy(ops, p)
  {
    var i :| 0 <= i < |ops| && ops[i].SetValue? && OnValue(ops[i], p, n);
    assert ops[i] in ops && p <= ops[i].Path();
  }

  // ----- The executor -----

  lemma CreatedNotDeleted(ops: seq<Op>, e: Op)
    requires Isolated(ops) && e in ops && e.Creates()
    ensures !UnderDelete(ops, e.Path())
  {
    forall d | d in ops && d.DeleteKey? ensures !(d.Path() <= e.Path()) {
      if d.Path() <= e.Path() {
        DeletedNotEnsured(ops, d, e.Path());
        assert false;
      }
    }
  }

  /** In an isolated plan, what the walk makes of a key is as simple as one operation at a time makes it. */
  lemma AppliedIsWalkKey(t: Tree, ops: seq<Op>, w: Tree, p: Path)
    requires Closed(t) && Isolated(ops) && AppliedKey(t, ops, w, p)
    ensures WalkKey(t, ops, w, p)
  {
    if p in t && UnderDelete(ops, p) {
      var d :| d in ops && d.DeleteKey? && d.Path() <= p;
      PrefixIn(t, d.Path(), p);
      assert Gone(t, ops, p);
    }
    if CreatedBy(ops, p) {
      var e :| e in ops && e.Creates() && p <= e.Path();
      CreatedNotDeleted(ops, e);
      assert Makes(t, ops, e, p);
    }
  }

  /** Any plan: the tree it leaves is known key by key, the created keys are counted, and the lists on disk show its
      keys unless a key got the cell of a deleted sibling; no allocator can do that exactly if the plan keeps created
      and deleted keys apart. An isolated plan: it agrees with the one-at-a-time application exactly under the
      conditions above. */
  method ApplyPlan(tree: Tree, plan: seq<Op>) returns (ok: bool, w: Tree, keysCreated: nat, ghost edits: Log)
    requires Closed(tree) && DeletesOnce(plan)
    ensures ok <==> WalkTakes(tree, plan)
    ensures ok ==> forall p :: AppliedKey(tree, plan, w, p)
    ensures ok ==> keysCreated == |w.Keys - tree.Keys|
    ensures ok ==> ListsRightIff(tree.Keys, edits, w.Keys, true)
    ensures ok ==> AlwaysRightIff(tree.Keys, edits, w.Keys, WalkApart(tree, plan))
    ensures Isolated(plan) ==>
      (ok && Accepts(tree, plan) && w == AppliedAll(tree, plan) <==>
       WalkTakes(tree, plan) && DeletesOnKeys(tree, plan) && SetsLast(plan))
  {
    var wa := new WalkApplier(tree, plan);
    ok := wa.Apply(plan);
    w, keysCreated, edits := wa.editor.tree, wa.keysCreated, wa.editor.log;
    if Isolated(plan) {
      WalkAgreesIff(tree, plan, w);
    }
  }
}
