/** The keys an executor creates and deletes, in order: all that the subkey lists of the hive are told. */
module EditLogs {
  import opened Registry

  datatype Edit = Made(key: Path) | Cut(key: Path)

  type Log = seq<Edit>

  function Above(q: Path): Path
    requires q != []
  {
    q[..|q| - 1]
  }

  function Last(q: Path): KeyName
    requires q != []
  {
    q[|q| - 1]
  }

  ghost predicate ValidEdit(keys: set<Path>, e: Edit) {
    e.key != [] &&
    match e
    case Made(q) => q !in keys && Above(q) in keys
    case Cut(q) => q in keys
  }

  function KeysAfterOne(keys: set<Path>, e: Edit): set<Path> {
    match e
    case Made(q) => keys + {q}
    case Cut(q) => set p | p in keys && !(q <= p)
  }

  function KeysAfter(keys: set<Path>, log: Log): set<Path> {
    if log == [] then keys else KeysAfterOne(KeysAfter(keys, log[..|log| - 1]), log[|log| - 1])
  }

  /** Every key is created under a key and where there is none, and only what is there is deleted. */
  ghost predicate ValidLog(keys: set<Path>, log: Log) {
    log == [] ||
    (ValidLog(keys, log[..|log| - 1]) && ValidEdit(KeysAfter(keys, log[..|log| - 1]), log[|log| - 1]))
  }

  ghost predicate KeyAbove(keys: set<Path>, p: Path) {
    p in keys && p != [] ==> Above(p) in keys
  }

  ghost predicate ClosedKeys(keys: set<Path>) {
    [] in keys && forall p {:trigger KeyAbove(keys, p)} :: KeyAbove(keys, p)
  }

  lemma ClosedTree(t: Tree)
    requires Closed(t)
    ensures ClosedKeys(t.Keys)
  {
    forall p ensures KeyAbove(t.Keys, p) {
      assert ParentIn(t, p);
    }
  }

  lemma {:induction false} LogConcat(keys: set<Path>, a: Log, b: Log)
    ensures KeysAfter(keys, a + b) == KeysAfter(KeysAfter(keys, a), b)
    ensures ValidLog(keys, a + b) <==> ValidLog(keys, a) && ValidLog(KeysAfter(keys, a), b)
  {
    if b == [] {
      assert a + b == a;
    } else {
      var c := b[..|b| - 1];
      assert (a + b)[..|a + b| - 1] == a + c && (a + b)[|a + b| - 1] == b[|b| - 1];
      LogConcat(keys, a, c);
    }
  }

  /** A prefix of a path is a prefix of the path above it, or the path. */
  lemma AboveOf(c: Path, p: Path)
    requires p != [] && c <= p && c != p
    ensures c <= Above(p)
  {
  }

  lemma {:induction false} KeysClosed(keys: set<Path>, log: Log)
    requires ClosedKeys(keys) && ValidLog(keys, log)
    ensures ClosedKeys(KeysAfter(keys, log))
  {
    if log != [] {
      var was, e := KeysAfter(keys, log[..|log| - 1]), log[|log| - 1];
      KeysClosed(keys, log[..|log| - 1]);
      forall p ensures KeyAbove(KeysAfterOne(was, e), p) {
        assert KeyAbove(was, p);
        if e.Cut? && p != [] && e.key <= Above(p) {
          assert e.key <= p;
        }
      }
    }
  }

  /** The keys of `b` come from those of `a` by the edits that `lb` has more than `la`: all of them deletions, or all of
      them creations, at or below `p`. */
  ghost predicate Edited(a: set<Path>, la: Log, b: set<Path>, lb: Log, p: Path, cuts: bool) {
    && |la| <= |lb| && lb[..|la|] == la
    && ValidLog(a, lb[|la|..]) && b == KeysAfter(a, lb[|la|..])
    && forall i :: |la| <= i < |lb| ==> lb[i].Cut? == cuts && p <= lb[i].key
  }

  lemma EditedNone(a: set<Path>, la: Log, p: Path, cuts: bool)
    ensures Edited(a, la, a, la, p, cuts)
  {
    assert la[|la|..] == [];
  }

  lemma EditedOne(a: set<Path>, la: Log, e: Edit)
    requires ValidEdit(a, e)
    ensures Edited(a, la, KeysAfterOne(a, e), la + [e], e.key, e.Cut?)
  {
    var log := (la + [e])[|la|..];
    assert log == [e] && log[..0] == [];
  }

  lemma EditedWider(a: set<Path>, la: Log, b: set<Path>, lb: Log, p: Path, q: Path, cuts: bool)
    requires Edited(a, la, b, lb, q, cuts) && p <= q
    ensures Edited(a, la, b, lb, p, cuts)
  {
  }

  lemma EditedTrans(a: set<Path>, la: Log, b: set<Path>, lb: Log, c: set<Path>, lc: Log, p: Path, cuts: bool)
    requires Edited(a, la, b, lb, p, cuts) && Edited(b, lb, c, lc, p, cuts)
    ensures Edited(a, la, c, lc, p, cuts)
  {
    assert lc[|la|..] == lb[|la|..] + lc[|lb|..];
    LogConcat(a, lb[|la|..], lc[|lb|..]);
    forall i | |la| <= i < |lc| ensures lc[i].Cut? == cuts && p <= lc[i].key {
      if i < |lb| { assert lc[..|lb|][i] == lb[i]; }
    }
    assert lc[..|la|] == lc[..|lb|][..|la|];
  }

  // ----- Logs that deferred lists get right -----

  /** Nothing is created at or below a deleted key, before or after; no key is deleted after a key below it. */
  ghost predicate CutsAlone(log: Log) {
    && (forall i, j :: 0 <= i < |log| && 0 <= j < |log| && log[i].Cut? && log[j].Made? ==> !(log[i].key <= log[j].key))
    && (forall i, j :: 0 <= i < j < |log| && log[i].Cut? && log[j].Cut? ==>
          !(log[j].key <= log[i].key && log[j].key != log[i].key))
  }

  predicate Siblings(a: Path, b: Path) {
    a != [] && b != [] && a[..|a| - 1] == b[..|b| - 1]
  }

  /** No key is deleted after a sibling is created. */
  ghost predicate CutsFirst(log: Log) {
    forall i, j :: 0 <= i < j < |log| && log[i].Made? && log[j].Cut? ==> !Siblings(log[i].key, log[j].key)
  }

  /** No parent has both a created and a deleted child. */
  ghost predicate SiblingsApart(log: Log) {
    forall i, j :: 0 <= i < |log| && 0 <= j < |log| && log[i].Made? && log[j].Cut? ==> !Siblings(log[i].key, log[j].key)
  }

  lemma CutsAlonePrefix(log: Log)
    requires CutsAlone(log) && log != []
    ensures CutsAlone(log[..|log| - 1])
  {
  }

  /** In such logs no key is deleted at or below one deleted before. */
  lemma {:induction false} CutBelowCut(keys: set<Path>, log: Log, i: int, p: Path)
    requires ValidLog(keys, log) && CutsAlone(log) && 0 <= i < |log| && log[i].Cut? && log[i].key <= p
    ensures p !in KeysAfter(keys, log)
  {
    var n := |log| - 1;
    if i < n {
      assert CutsAlone(log[..n]);
      CutBelowCut(keys, log[..n], i, p);
    }
  }

  lemma {:induction false} ValidAt(keys: set<Path>, log: Log, i: nat)
    requires ValidLog(keys, log) && i <= |log|
    ensures ValidLog(keys, log[..i])
    ensures i < |log| ==> ValidEdit(KeysAfter(keys, log[..i]), log[i])
  {
    var n := |log| - 1;
    if i < n {
      ValidAt(keys, log[..n], i);
      assert log[..n][..i] == log[..i];
    } else if i == |log| {
      assert log[..i] == log;
    }
  }

  /** A key that is no longer there was deleted with a key at or above it. */
  lemma {:induction false} WasCut(keys: set<Path>, log: Log, i: nat, k: nat, p: Path)
    requires i <= k <= |log| && p in KeysAfter(keys, log[..i]) && p !in KeysAfter(keys, log[..k])
    ensures exists c :: i <= c < k && log[c].Cut? && log[c].key <= p
    decreases k
  {
    assert log[..k][..k - 1] == log[..k - 1] && log[..k][k - 1] == log[k - 1];
    if p in KeysAfter(keys, log[..k - 1]) {
      assert log[k - 1].Cut? && log[k - 1].key <= p;
    } else {
      WasCut(keys, log, i, k - 1, p);
    }
  }

  /** A key that is there now and was not was created. */
  lemma {:induction false} WasMade(keys: set<Path>, log: Log, i: nat, k: nat, p: Path)
    requires i <= k <= |log| && p !in KeysAfter(keys, log[..i]) && p in KeysAfter(keys, log[..k])
    ensures exists c :: i <= c < k && log[c] == Made(p)
    decreases k
  {
    assert log[..k][..k - 1] == log[..k - 1] && log[..k][k - 1] == log[k - 1];
    if p !in KeysAfter(keys, log[..k - 1]) {
      assert log[k - 1] == Made(p);
    } else {
      WasMade(keys, log, i, k - 1, p);
    }
  }
}
