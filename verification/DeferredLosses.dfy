/** Two plans that deferred mode gets wrong (hive/edit/nkedit.go:886-911, hive/edit/nkedit.go:498-534). */
module DeferredLosses {
  import opened Lex
  import opened SubkeyList
  import opened LazyMerge
  import opened PendingLists
  import opened Registry
  import opened PlanMeaning
  import opened EditLogs
  import opened LogOrders
  import opened ListTraces
  import opened ListRuns
  import opened DeferredPlans
  import opened PlanOrders
  import opened WalkTheorem

  /** A key below the root. */
  function Top(a: KeyName): (p: Path)
    ensures |p| == 1 && p[0] == a
  {
    [a]
  }

  predicate Letter(a: KeyName) {
    |a| == 1 && 'a' <= a[0] <= 'z'
  }

  lemma LowerTop(a: KeyName)
    requires Letter(a)
    ensures LowerPath(Top(a)) == Top(a)
  {
    assert Lower(a) == a;
  }

  lemma TopIs(a: KeyName)
    ensures Top(a) != [] && Above(Top(a)) == [] && Last(Top(a)) == a && Below([], a) == Top(a)
  {
  }

  /** The root with two children. */
  function TwoKeys(a: KeyName, b: KeyName): Tree {
    map[[] := map[], Top(a) := map[], Top(b) := map[]]
  }

  function TwoLists(a: KeyName, b: KeyName): Hive {
    Hive(map[1 := "root", 2 := a, 3 := b], map[[] := 1, Top(a) := 2, Top(b) := 3], map[1 := [2, 3], 2 := [], 3 := []],
         map[])
  }

  lemma TwoKeysClosed(a: KeyName, b: KeyName)
    ensures Closed(TwoKeys(a, b))
  {
    forall q ensures ParentIn(TwoKeys(a, b), q) {
      assert Top(a)[..0] == [] && Top(b)[..0] == [];
    }
  }

  lemma TwoAt(a: KeyName, b: KeyName, q: Path)
    ensures q in TwoLists(a, b).at <==> q == [] || q == Top(a) || q == Top(b)
    ensures |q| > 1 ==> q !in TwoLists(a, b).at
  {
  }

  lemma TwoChildren(a: KeyName, b: KeyName, p: Path, e: Entry)
    requires p in TwoLists(a, b).at && a != b
    ensures Child(TwoLists(a, b), p, e, {}) <==> p == [] && (e == Entry(a, 2) || e == Entry(b, 3))
  {
    if 0 < |e.name| && '\\' !in e.name {
      var q := Below(p, e.name);
      assert |q| == |p| + 1 && q[|p|] == e.name;
      TwoAt(a, b, q);
      TopIs(e.name);
      if p == [] {
        assert q == Top(e.name) && (q == Top(a) <==> e.name == a) && (q == Top(b) <==> e.name == b);
      }
    }
  }

  lemma TwoShown(a: KeyName, b: KeyName)
    requires Less(a, b)
    ensures Shows(TwoLists(a, b), TwoKeys(a, b).Keys)
  {
    var h := TwoLists(a, b);
    Irreflexive(a);
    assert Top(a) != Top(b) by { assert Top(a)[0] == a && Top(b)[0] == b; }
    TopIs(a);
    TopIs(b);
    forall p ensures CellOf(h, p) {
    }
    forall r ensures InUse(h, r) {
      assert [] in h.at && Top(a) in h.at && Top(b) in h.at;
    }
    assert Named(h.names, [2, 3]) == [Entry(a, 2), Entry(b, 3)];
    forall p ensures Right(h, p, {}) && TidyAt(h, p) {
      forall e ensures p in h.at ==> (e in Content(h.names, h.lists[h.at[p]], None) <==> Child(h, p, e, {})) {
        if p in h.at { TwoChildren(a, b, p, e); }
      }
    }
  }

  // ----- A key created before a sibling is deleted -----

  function EarlyPlan(): seq<Op> {
    [EnsureKey(Top("c")), EnsureKey(Top("a")), DeleteKey(Top("x"))]
  }

  function EarlyLog(): Log {
    [Made(Top("c")), Made(Top("a")), Cut(Top("x"))]
  }

  /** Before the deletion: `c` and `a` are pending, in that order. */
  function EarlyHive(): Hive {
    Hive(map[1 := "root", 2 := "b", 3 := "x", 4 := "c", 5 := "a"],
         map[[] := 1, Top("b") := 2, Top("x") := 3, Top("c") := 4, Top("a") := 5],
         map[1 := [2, 3], 2 := [], 3 := [], 4 := [], 5 := []],
         map[1 := Batch([Entry("c", 4), Entry("a", 5)], [2, 3], {}, true)])
  }

  lemma EarlyPlanIsFine()
    ensures Isolated(EarlyPlan()) && DeletesOnKeys(TwoKeys("b", "x"), EarlyPlan()) && SetsLast(EarlyPlan())
    ensures Top("a") in AppliedAll(TwoKeys("b", "x"), EarlyPlan())
  {
    var t, plan := TwoKeys("b", "x"), EarlyPlan();
    LowerTop("c");
    LowerTop("a");
    LowerTop("x");
    assert plan[0].Path()[0] == "c" && plan[1].Path()[0] == "a" && plan[2].Path()[0] == "x";
    assert Isolated(plan);
    assert plan[1] in plan && Top("a") <= plan[1].Path();
    assert EnsuredBy(plan, Top("a"));
    TwoKeysClosed("b", "x");
    SessionIs(t, plan, Top("a"));
  }

  /** A new key below the root. */
  lemma NewTop(t: Tree, before: seq<Op>, a: KeyName)
    requires Letter(a) && Top(a) !in t && a !in NewBelow(t, before, [])
    ensures var ops := before + [EnsureKey(Top(a))];
      && NewBelow(t, ops, []) == NewBelow(t, before, []) + [a]
      && DeletesBelow(t, ops, []) == DeletesBelow(t, before, [])
      && (DeletesBelow(t, before, []) ==> NewEarly(t, ops, []) == NewEarly(t, before, []))
  {
    var op := EnsureKey(Top(a));
    LowerTop(a);
    TopIs(a);
    assert (before + [op])[..|before|] == before;
    DeletesNext(t, before, op, []);
  }

  /** The deletion of a key below the root. */
  lemma GoneTop(t: Tree, before: seq<Op>, a: KeyName)
    requires Letter(a) && Top(a) in t
    ensures var ops := before + [DeleteKey(Top(a))];
      && NewBelow(t, ops, []) == NewBelow(t, before, []) && DeletesBelow(t, ops, [])
      && (!DeletesBelow(t, before, []) ==> NewEarly(t, ops, []) == NewBelow(t, before, []))
  {
    var op := DeleteKey(Top(a));
    LowerTop(a);
    TopIs(a);
    assert (before + [op])[..|before|] == before;
    DeletesNext(t, before, op, []);
    assert DeletesChild(t, op, []);
  }

  lemma EarlyNeeds()
    ensures var t, plan := TwoKeys("b", "x"), EarlyPlan();
      DeletesBelow(t, plan, []) && NewBelow(t, plan, []) == ["c", "a"] && NewEarly(t, plan, []) == ["c", "a"]
  {
    var t, c, a, x := TwoKeys("b", "x"), EnsureKey(Top("c")), EnsureKey(Top("a")), DeleteKey(Top("x"));
    assert Top("c")[0] == "c" && Top("a")[0] == "a" && Top("b")[0] == "b" && Top("x")[0] == "x";
    NewTop(t, [], "c");
    NewTop(t, [] + [c], "a");
    GoneTop(t, [] + [c] + [a], "x");
    assert [] + [c] + [a] + [x] == EarlyPlan();
  }

  /** `b` lies between `c` and `a`. */
  lemma EarlyOutOfOrder()
    ensures !PlanInOrder(TwoKeys("b", "x"), EarlyPlan())
  {
    var t := TwoKeys("b", "x");
    EarlyNeeds();
    TopIs("b");
    assert LiesBetween(t.Keys, [], NewEarly(t, EarlyPlan(), []), 0, 1, "b");
    assert !NeededInOrder(t, EarlyPlan(), []);
  }

  lemma RunMore(h: Hive, log: Log, refs: seq<int>, e: Edit, ref: int)
    requires |refs| == |log|
    ensures Run(h, log + [e], refs + [ref]) == Step(Run(h, log, refs), e, ref)
    ensures NewCells(h, log + [e], refs + [ref])
      <==> NewCells(h, log, refs) && (e.Made? ==> ref !in Run(h, log, refs).names)
    ensures Lost(h, log + [e], refs + [ref])
         == Lost(h, log, refs) + if e.Cut? then {} else LostBy(Run(h, log, refs), e.key, ref)
  {
    assert (log + [e])[..|log|] == log && (refs + [ref])[..|log|] == refs;
  }

  lemma RunTwo(h: Hive, d: Edit, dr: int, e: Edit, er: int)
    ensures var m := Step(h, d, dr);
      && Run(h, [d, e], [dr, er]) == Step(m, e, er)
      && (NewCells(h, [d, e], [dr, er]) <==> (d.Made? ==> dr !in h.names) && (e.Made? ==> er !in m.names))
      && Lost(h, [d, e], [dr, er]) ==
        (if d.Cut? then {} else LostBy(h, d.key, dr)) + if e.Cut? then {} else LostBy(m, e.key, er)
  {
    RunMore(h, [], [], d, dr);
    RunMore(h, [d], [dr], e, er);
    assert [] + [d] == [d] && [] + [dr] == [dr] && [d] + [e] == [d, e] && [dr] + [er] == [dr, er];
  }

  lemma RunThree(h: Hive, d: Edit, dr: int, e: Edit, er: int, g: Edit, gr: int)
    requires d.Made? && e.Made? && g.Cut?
    ensures var m := Step(h, d, dr); var n := Step(m, e, er);
      && Run(h, [d, e, g], [dr, er, gr]) == Step(n, g, gr)
      && (NewCells(h, [d, e, g], [dr, er, gr]) <==> dr !in h.names && er !in m.names)
      && Lost(h, [d, e, g], [dr, er, gr]) == LostBy(h, d.key, dr) + LostBy(m, e.key, er)
  {
    RunTwo(h, d, dr, e, er);
    RunMore(h, [d, e], [dr, er], g, gr);
    assert [d, e] + [g] == [d, e, g] && [dr, er] + [gr] == [dr, er, gr];
  }

  /** Two keys are created, neither in the cell of a deleted sibling, and one is deleted. */
  lemma ThreeSteps(h: Hive, m: Hive, n: Hive, d: Edit, dr: int, e: Edit, er: int, g: Edit)
    requires d.Made? && e.Made? && g.Cut? && Step(h, d, dr) == m && Step(m, e, er) == n
    requires dr !in h.names && er !in m.names && LostBy(h, d.key, dr) == {} && LostBy(m, e.key, er) == {}
    ensures Run(h, [d, e, g], [dr, er, 0]) == Step(n, g, 0)
    ensures NewCells(h, [d, e, g], [dr, er, 0]) && Lost(h, [d, e, g], [dr, er, 0]) == {}
  {
    RunThree(h, d, dr, e, er, g, 0);
  }

  function EarlyMidway(): Hive {
    Hive(map[1 := "root", 2 := "b", 3 := "x", 4 := "c"],
         map[[] := 1, Top("b") := 2, Top("x") := 3, Top("c") := 4],
         map[1 := [2, 3], 2 := [], 3 := [], 4 := []],
         map[1 := Batch([Entry("c", 4)], [2, 3], {}, true)])
  }

  lemma EarlyStep()
    ensures MadeStep(TwoLists("b", "x"), Top("c"), 4) == EarlyMidway()
    ensures LostBy(TwoLists("b", "x"), Top("c"), 4) == {}
  {
    TopIs("c");
  }

  lemma EarlySecond()
    ensures MadeStep(EarlyMidway(), Top("a"), 5) == EarlyHive() && LostBy(EarlyMidway(), Top("a"), 5) == {}
  {
    TopIs("a");
    assert [Entry("c", 4)] + [Entry("a", 5)] == [Entry("c", 4), Entry("a", 5)];
  }

  /** No cell is reused. */
  lemma EarlyRun()
    ensures Run(TwoLists("b", "x"), EarlyLog(), [4, 5, 0]) == CutStep(EarlyHive(), Top("x"))
    ensures NewCells(TwoLists("b", "x"), EarlyLog(), [4, 5, 0]) && Lost(TwoLists("b", "x"), EarlyLog(), [4, 5, 0]) == {}
  {
    EarlyStep();
    EarlySecond();
    ThreeSteps(TwoLists("b", "x"), EarlyMidway(), EarlyHive(), Made(Top("c")), 4, Made(Top("a")), 5, Cut(Top("x")));
  }

  lemma EarlyMerge()
    ensures Merged(EarlyHive().names, [2, 3], [Entry("c", 4), Entry("a", 5)]) == [2, 4, 3]
  {
    var es, added := Named(EarlyHive().names, [2, 3]), [Entry("c", 4), Entry("a", 5)];
    assert es == [Entry("b", 2), Entry("x", 3)] && es[1..] == [Entry("x", 3)];
    assert Less("b", "c") && !Less("x", "c") && !Less("b", "a");
    assert Place(es, "c") == 1 && Place(es, "a") == 0;
    var ins := [Insertion(1, 4), Insertion(0, 5)];
    assert Places(es, added) == ins && ins[1..] == [Insertion(0, 5)];
    assert Interleaved([2, 3], 2, [Insertion(0, 5)]) == [];
    assert Interleaved([2, 3], 1, [Insertion(0, 5)]) == [3];
    assert Interleaved([2, 3], 1, ins) == [4, 3];
  }

  function EarlyFlushed(): Hive {
    var h := EarlyHive();
    h.(lists := h.lists[1 := [2, 4, 3]], pending := h.pending - {1})
  }

  lemma EarlyFlush()
    ensures FlushAt(FlushAt(EarlyHive(), 3), 1) == EarlyFlushed()
  {
    EarlyMerge();
  }

  lemma EarlyGone(p: Path)
    ensures p in EarlyFlushed().at && Reaches(EarlyFlushed(), Top("x"), p) <==> p == Top("x")
  {
    if p in EarlyHive().at && Top("x") <= p {
      assert |p| <= 1;
      assert p == Top("x");
    }
  }

  lemma EarlyCut()
    ensures var m := CutStep(EarlyHive(), Top("x"));
      && Top("a") in m.at && m.at[Top("a")] == 5 && [] in m.at && m.at[[]] == 1
      && m.names == EarlyHive().names - {3}
      && m.lists == EarlyFlushed().lists - {3} && 1 in m.pending && m.pending[1] == CutOff(3)
  {
    var h, f := EarlyHive(), EarlyFlushed();
    TopIs("x");
    EarlyFlush();
    var gone := set x | x in f.at && Reaches(f, Top("x"), x);
    forall p ensures p in gone <==> p == Top("x") {
      EarlyGone(p);
    }
    assert gone == {Top("x")};
    var cells := set x | x in gone :: f.at[x];
    assert f.at[Top("x")] == 3;
    assert cells == {3};
  }

  /** The list written in the end. */
  lemma EarlyKept()
    ensures KeptRefs([2, 4, 3], {3}) == [2, 4]
  {
    assert [2, 4, 3][..2] == [2, 4] && [2, 4][..1] == [2] && [2][..0] == [];
    assert KeptRefs([2], {3}) == [2] && KeptRefs([2, 4], {3}) == [2, 4];
  }

  lemma EarlyList()
    ensures FlushAll(CutStep(EarlyHive(), Top("x"))).ListOf(1) == [2, 4]
  {
    EarlyCut();
    EarlyKept();
    assert InOrder(CutOff(3)) == CutOff(3);
  }

  lemma EarlyListed()
    ensures FlushAll(CutStep(EarlyHive(), Top("x"))).ListOf(1) == [2, 4]
    ensures !Right(FlushAll(CutStep(EarlyHive(), Top("x"))), [], {})
  {
    EarlyCut();
    EarlyList();
    TopIs("a");
    NotListed(FlushAll(CutStep(EarlyHive(), Top("x"))), "a", 5, [2, 4]);
  }

  /** A key below the root that the root's list leaves out. */
  lemma NotListed(f: Hive, n: KeyName, ref: int, list: seq<int>)
    requires [] in f.at && f.ListOf(f.at[[]]) == list && f.pending == map[] && Top(n) in f.at && f.at[Top(n)] == ref
    requires ref !in list && Below([], n) == Top(n)
    ensures !Right(f, [], {})
  {
    assert Child(f, [], Entry(n, ref), {});
    assert Decodable(f.names, list) ==> Entry(n, ref) !in Named(f.names, list);
  }

  lemma NotShown(f: Hive, keys: set<Path>)
    requires !Right(f, [], {})
    ensures !Shows(f, keys)
  {
  }

  /** `c` and `a` are created under a key with children `b` and `x`, then `x` is deleted: the plan is isolated and
      deletes on keys, and one operation after the other leaves `a`; in deferred mode the flush before the deletion
      loses it. */
  lemma EarlyKeyLost()
    ensures var t, h := TwoKeys("b", "x"), TwoLists("b", "x");
      var f := FlushAll(Run(h, EarlyLog(), [4, 5, 0]));
      && Closed(t) && Isolated(EarlyPlan()) && DeletesOnKeys(t, EarlyPlan()) && SetsLast(EarlyPlan())
      && Shows(h, t.Keys) && NewCells(h, EarlyLog(), [4, 5, 0]) && Lost(h, EarlyLog(), [4, 5, 0]) == {}
      && !PlanInOrder(t, EarlyPlan()) && Top("a") in AppliedAll(t, EarlyPlan())
      && f.ListOf(1) == [2, 4] && !Shows(f, AppliedAll(t, EarlyPlan()).Keys)
  {
    TwoKeysClosed("b", "x");
    EarlyPlanIsFine();
    TwoShown("b", "x");
    EarlyRun();
    EarlyListed();
    EarlyOutOfOrder();
    NotShown(FlushAll(CutStep(EarlyHive(), Top("x"))), AppliedAll(TwoKeys("b", "x"), EarlyPlan()).Keys);
  }

  // ----- A deleted sibling's cell -----

  function LatePlan(): seq<Op> {
    [DeleteKey(Top("x")), EnsureKey(Top("y"))]
  }

  function LateLog(): Log {
    [Cut(Top("x")), Made(Top("y"))]
  }

  lemma LatePlanIsFine()
    ensures Isolated(LatePlan()) && DeletesOnKeys(TwoKeys("b", "x"), LatePlan()) && SetsLast(LatePlan())
    ensures AllAsked(LatePlan(), LateLog()) && CutsFirst(LateLog())
  {
    LowerTop("x");
    LowerTop("y");
    var plan := LatePlan();
    assert plan[0].Path()[0] == "x" && plan[1].Path()[0] == "y";
    assert plan[0] in plan && plan[1] in plan && Top("y") <= plan[1].Path();
  }

  /** `y` is needed after the deletion. */
  lemma LateNotSafe()
    ensures !PlanSafe(TwoKeys("b", "x"), LatePlan())
  {
    var t, x, y := TwoKeys("b", "x"), DeleteKey(Top("x")), EnsureKey(Top("y"));
    assert Top("x")[0] == "x" && Top("b")[0] == "b" && Top("y")[0] == "y";
    GoneTop(t, [], "x");
    NewTop(t, [] + [x], "y");
    assert [] + [x] + [y] == LatePlan();
    assert !NeededSafely(t, LatePlan(), []);
  }

  lemma LateCut()
    ensures var m := CutStep(TwoLists("b", "x"), Top("x"));
      [] in m.at && m.at[[]] == 1 && 3 !in m.names && 1 in m.pending && m.pending[1] == CutOff(3)
  {
    var h := TwoLists("b", "x");
    TopIs("x");
    assert FlushAt(FlushAt(h, 3), 1) == h;
    assert Reaches(h, Top("x"), Top("x"));
    assert !(Top("x") <= []);
    var gone := set x | x in h.at && Reaches(h, Top("x"), x);
    var cells := set x | x in gone :: h.at[x];
    assert Top("x") in gone && h.at[Top("x")] == 3 && 3 in cells;
  }

  /** `x` is deleted and then `y` created under the same key: if `y` gets the cell of `x`, the last flush drops it. */
  lemma LateKeyLost()
    ensures var t, h := TwoKeys("b", "x"), TwoLists("b", "x");
      && Closed(t) && Isolated(LatePlan()) && DeletesOnKeys(t, LatePlan()) && SetsLast(LatePlan())
      && AllAsked(LatePlan(), LateLog()) && CutsFirst(LateLog()) && !PlanSafe(t, LatePlan())
      && Shows(h, t.Keys) && NewCells(h, LateLog(), [0, 3]) && Lost(h, LateLog(), [0, 3]) == {Top("y")}
      && !Shows(FlushAll(Run(h, LateLog(), [0, 3])), KeysAfter(t.Keys, LateLog()))
  {
    TwoKeysClosed("b", "x");
    LatePlanIsFine();
    TwoShown("b", "x");
    LateLoses();
    LateNotSafe();
    ClosedTree(TwoKeys("b", "x"));
    IsolatedCutsAlone(LatePlan(), LateLog());
    LateValid();
    FlushShowsIff(TwoLists("b", "x"), TwoKeys("b", "x").Keys, LateLog(), [0, 3]);
  }

  lemma LateReuses()
    ensures Reuses(CutStep(TwoLists("b", "x"), Top("x")), Top("y"), 3)
  {
    LateCut();
    TopIs("y");
  }

  lemma LateLoses()
    ensures NewCells(TwoLists("b", "x"), LateLog(), [0, 3]) && Lost(TwoLists("b", "x"), LateLog(), [0, 3]) == {Top("y")}
  {
    LateCut();
    LateReuses();
    RunTwo(TwoLists("b", "x"), Cut(Top("x")), 0, Made(Top("y")), 3);
  }

  lemma LateValid()
    ensures ValidLog(TwoKeys("b", "x").Keys, LateLog())
  {
    var keys, x, y := TwoKeys("b", "x").Keys, Cut(Top("x")), Made(Top("y"));
    TopIs("x");
    TopIs("y");
    assert Top("y")[0] == "y" && Top("b")[0] == "b" && !(Top("x") <= []);
    LogConcat(keys, [x], [y]);
    assert [x] + [y] == LateLog() && [x][..0] == [] && [y][..0] == [];
    assert KeysAfter(keys, [x]) == KeysAfterOne(keys, x);
  }
}
