/** Which plans deferred mode applies as immediate mode would: both executors defer all writes of subkey lists to the
    end of the plan (hive/merge/session.go, hive/merge/walk_apply.go). */
module DeferredPlans {
  import opened Registry
  import opened PlanMeaning
  import opened EditLogs
  import opened LogOrders
  import opened ListTraces
  import opened ListRuns

  /** Some operation of the plan asks for the edit. */
  ghost predicate Asked(ops: seq<Op>, e: Edit) {
    match e
    case Made(q) => exists o :: o in ops && !o.DeleteKey? && q <= o.Path()
    case Cut(q) => exists o :: o in ops && o.DeleteKey? && o.Path() == q
  }

  ghost predicate AllAsked(ops: seq<Op>, log: Log) {
    forall e :: e in log ==> Asked(ops, e)
  }

  /** The edits of one operation on the tree `s`. */
  ghost predicate Tells(s: Tree, op: Op, more: Log) {
    ValidLog(s.Keys, more) && AllAsked([op], more) && KeysAfter(s.Keys, more) == Applied(s, op).Keys
  }

  /** The edits of a plan, operation by operation. */
  ghost predicate LogOf(t: Tree, ops: seq<Op>, log: Log) {
    if ops == [] then log == []
    else exists k: nat :: k <= |log| && LogOf(t, ops[..|ops| - 1], log[..k]) &&
                          Tells(AppliedAll(t, ops[..|ops| - 1]), ops[|ops| - 1], log[k..])
  }

  /** One more operation. */
  lemma LogMore(t: Tree, ops: seq<Op>, log: Log, op: Op, more: Log)
    requires LogOf(t, ops, log) && Tells(AppliedAll(t, ops), op, more)
    ensures LogOf(t, ops + [op], log + more)
  {
    var now, edits, k := ops + [op], log + more, |log|;
    assert now[..|now| - 1] == ops && now[|now| - 1] == op && edits[..k] == log && edits[k..] == more;
  }

  /** Where the edits of the last operation begin. */
  lemma LastOfLog(t: Tree, ops: seq<Op>, log: Log) returns (k: nat)
    requires LogOf(t, ops, log) && ops != []
    ensures k <= |log| && LogOf(t, ops[..|ops| - 1], log[..k]) && log == log[..k] + log[k..]
    ensures Tells(AppliedAll(t, ops[..|ops| - 1]), ops[|ops| - 1], log[k..])
    ensures ops == ops[..|ops| - 1] + [ops[|ops| - 1]]
  {
    k :| k <= |log| && LogOf(t, ops[..|ops| - 1], log[..k]) &&
         Tells(AppliedAll(t, ops[..|ops| - 1]), ops[|ops| - 1], log[k..]);
  }

  lemma {:induction false} LogIs(t: Tree, ops: seq<Op>, log: Log)
    requires LogOf(t, ops, log)
    ensures ValidLog(t.Keys, log) && AllAsked(ops, log) && KeysAfter(t.Keys, log) == AppliedAll(t, ops).Keys
  {
    if ops != [] {
      var before, op := ops[..|ops| - 1], ops[|ops| - 1];
      var k := LastOfLog(t, ops, log);
      LogIs(t, before, log[..k]);
      LogConcat(t.Keys, log[..k], log[k..]);
      forall e | e in log ensures Asked(ops, e) {
        AskedMore(before, op, e, e in log[..k]);
      }
    }
  }

  lemma AskedMore(ops: seq<Op>, op: Op, e: Edit, before: bool)
    requires if before then Asked(ops, e) else Asked([op], e)
    ensures Asked(ops + [op], e)
  {
    var from := if before then ops else [op];
    if e.Made? {
      var o :| o in from && !o.DeleteKey? && e.key <= o.Path();
      assert o in ops + [op];
    } else {
      var o :| o in from && o.DeleteKey? && o.Path() == e.key;
      assert o in ops + [op];
    }
  }

  /** In an isolated plan, nothing at or below a deleted key is touched by another operation. */
  lemma IsolatedCutsAlone(ops: seq<Op>, log: Log)
    requires Isolated(ops) && AllAsked(ops, log)
    ensures CutsAlone(log)
  {
    forall i, j | 0 <= i < |log| && 0 <= j < |log| && log[i].Cut? && log[j].Made?
      ensures !(log[i].key <= log[j].key)
    {
      assert Asked(ops, log[i]) && Asked(ops, log[j]);
      var d :| d in ops && d.DeleteKey? && d.Path() == log[i].key;
      DeletedNotEnsured(ops, d, log[i].key);
      var o :| o in ops && !o.DeleteKey? && log[j].key <= o.Path();
      assert log[i].key <= log[j].key ==> log[i].key <= o.Path();
    }
    forall i, j | 0 <= i < j < |log| && log[i].Cut? && log[j].Cut?
      ensures !(log[j].key <= log[i].key && log[j].key != log[i].key)
    {
      assert Asked(ops, log[i]) && Asked(ops, log[j]);
      var a :| a in ops && a.DeleteKey? && a.Path() == log[i].key;
      var b :| b in ops && b.DeleteKey? && b.Path() == log[j].key;
      var k :| 0 <= k < |ops| && ops[k] == a;
      var l :| 0 <= l < |ops| && ops[l] == b;
      assert k != l ==> !(ops[l].Path() <= ops[k].Path());
    }
  }

  /** What an executor leaves in the lists of a hive that shows the tree, for every choice of cells: exactly the keys it
      should, in order, if and only if no key reuses the cell of a deleted sibling and `ordered` holds. */
  ghost predicate ListsRightIff(keys: set<Path>, log: Log, keys': set<Path>, ordered: bool) {
    forall h, refs :: Shows(h, keys) && |refs| == |log| && NewCells(h, log, refs) ==>
      (Shows(FlushAll(Run(h, log, refs)), keys') <==> Lost(h, log, refs) == {} && ordered)
  }

  /** For every hive that shows the tree: right whatever cells the allocator gives, exactly when `safe` holds. */
  ghost predicate AlwaysRightIff(keys: set<Path>, log: Log, keys': set<Path>, safe: bool) {
    forall h :: Shows(h, keys) ==> (AlwaysRight(h, log, keys') <==> safe)
  }

  ghost predicate AlwaysRight(h: Hive, log: Log, keys: set<Path>) {
    forall refs :: |refs| == |log| && NewCells(h, log, refs) ==> Shows(FlushAll(Run(h, log, refs)), keys)
  }

  lemma DeferredIff(t: Tree, log: Log, keys': set<Path>)
    requires Closed(t) && ValidLog(t.Keys, log) && CutsAlone(log) && keys' == KeysAfter(t.Keys, log)
    ensures ListsRightIff(t.Keys, log, keys', MadeInOrder(t.Keys, log)) && AlwaysRightIff(t.Keys, log, keys', Safe(log))
  {
    ClosedTree(t);
    forall h, refs | Shows(h, t.Keys) && |refs| == |log| && NewCells(h, log, refs)
      ensures Shows(FlushAll(Run(h, log, refs)), keys') <==> Lost(h, log, refs) == {} && MadeInOrder(t.Keys, log)
    {
      FlushShowsIff(h, t.Keys, log, refs);
    }
    forall h | Shows(h, t.Keys) ensures AlwaysRight(h, log, keys') <==> Safe(log) {
      AlwaysShowsIff(h, t.Keys, log);
    }
  }
}
