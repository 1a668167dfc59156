/** The order in which children of one parent are created and deleted. A deletion flushes what is pending for the parent
    as it came; only the creations before the first deletion are merged with the entries of the old list. */
module LogOrders {
  import opened Lex
  import opened Registry
  import opened EditLogs

  /** The names of the created children of `p`, in order. */
  function MadeBelow(log: Log, p: Path): seq<KeyName> {
    if log == [] then []
    else
      var rest, e := MadeBelow(log[..|log| - 1], p), log[|log| - 1];
      if e.Made? && e.key != [] && Above(e.key) == p then rest + [Last(e.key)] else rest
  }

  /** Some child of `p` is deleted. */
  predicate CutBelow(log: Log, p: Path) {
    log != [] &&
    (CutBelow(log[..|log| - 1], p) ||
     (log[|log| - 1].Cut? && log[|log| - 1].key != [] && Above(log[|log| - 1].key) == p))
  }

  /** The children of `p` created before the first deletion of one. */
  function Early(log: Log, p: Path): seq<KeyName> {
    if log == [] then []
    else if CutBelow(log[..|log| - 1], p) then Early(log[..|log| - 1], p)
    else MadeBelow(log, p)
  }

  /** Some child of `p` is created after the deletion of one. */
  predicate Late(log: Log, p: Path) {
    |Early(log, p)| < |MadeBelow(log, p)|
  }

  predicate Increasing(names: seq<KeyName>) {
    forall i, j :: 0 <= i < j < |names| ==> Less(names[i], names[j])
  }

  /** The key `o` below `p` was there, and its name lies between two new ones that came in the wrong order. */
  predicate LiesBetween(keys: set<Path>, p: Path, names: seq<KeyName>, i: int, j: int, o: KeyName) {
    0 <= i < j < |names| && p + [o] in keys && Less(names[j], o) && Less(o, names[i])
  }

  ghost predicate NoneBetween(keys: set<Path>, p: Path, names: seq<KeyName>) {
    forall i, j, o {:trigger LiesBetween(keys, p, names, i, j, o)} :: !LiesBetween(keys, p, names, i, j, o)
  }

  /** Where a child of `p` is deleted: none of the children created before is dropped, and they came in order or are
      sorted later, with a child created after. */
  ghost predicate OrderedAt(keys: set<Path>, log: Log, p: Path) {
    CutBelow(log, p) ==> NoneBetween(keys, p, Early(log, p)) && (Increasing(Early(log, p)) || Late(log, p))
  }

  ghost predicate MadeInOrder(keys: set<Path>, log: Log) {
    forall p {:trigger OrderedAt(keys, log, p)} :: OrderedAt(keys, log, p)
  }

  /** No child is created after a sibling is deleted. */
  ghost predicate MadeFirst(log: Log) {
    forall p {:trigger Late(log, p)} :: !Late(log, p)
  }

  // ----- One more edit -----

  lemma OrderNext(log: Log, e: Edit, p: Path)
    ensures var now := log + [e]; var here := e.key != [] && Above(e.key) == p;
      && MadeBelow(now, p) == MadeBelow(log, p) + (if e.Made? && here then [Last(e.key)] else [])
      && (CutBelow(now, p) <==> CutBelow(log, p) || (e.Cut? && here))
      && Early(now, p) == if CutBelow(log, p) then Early(log, p) else MadeBelow(now, p)
  {
    assert (log + [e])[..|log|] == log;
    assert MadeBelow(log, p) + [] == MadeBelow(log, p);
  }

  lemma {:induction false} EarlyFirst(log: Log, p: Path)
    ensures Early(log, p) <= MadeBelow(log, p)
    ensures !CutBelow(log, p) ==> Early(log, p) == MadeBelow(log, p)
  {
    if log != [] { EarlyFirst(log[..|log| - 1], p); }
  }

  lemma {:induction false} MadeBelowHas(log: Log, p: Path, n: KeyName)
    ensures n in MadeBelow(log, p) <==> Made(p + [n]) in log
  {
    if log != [] {
      var before, e := log[..|log| - 1], log[|log| - 1];
      MadeBelowHas(before, p, n);
      assert log == before + [e];
      assert Above(p + [n]) == p && Last(p + [n]) == n;
      if e.Made? && e.key != [] && Above(e.key) == p {
        assert e.key == p + [Last(e.key)];
      }
    }
  }

  lemma {:induction false} CutBelowIff(log: Log, p: Path)
    ensures CutBelow(log, p) <==>
            exists i :: 0 <= i < |log| && log[i].Cut? && log[i].key != [] && Above(log[i].key) == p
  {
    if log != [] {
      var n := |log| - 1;
      CutBelowIff(log[..n], p);
      if CutBelow(log[..n], p) {
        var i :| 0 <= i < n && log[..n][i].Cut? && log[..n][i].key != [] && Above(log[..n][i].key) == p;
        assert log[i] == log[..n][i];
      } else if exists i :: 0 <= i < |log| && log[i].Cut? && log[i].key != [] && Above(log[i].key) == p {
        var i :| 0 <= i < |log| && log[i].Cut? && log[i].key != [] && Above(log[i].key) == p;
        assert i < n ==> log[..n][i] == log[i];
      }
    }
  }

  /** An edit of no child of `p` changes none of it. */
  lemma OrderSame(log: Log, e: Edit, p: Path)
    requires e.key == [] || Above(e.key) != p
    ensures var now := log + [e];
      && MadeBelow(now, p) == MadeBelow(log, p) && CutBelow(now, p) == CutBelow(log, p)
      && Early(now, p) == Early(log, p) && Late(now, p) == Late(log, p)
  {
    OrderNext(log, e, p);
    EarlyFirst(log, p);
  }

  /** Where deletions come first, nothing comes in the wrong order. */
  lemma CutsFirstOrdered(keys: set<Path>, log: Log)
    requires CutsFirst(log)
    ensures MadeInOrder(keys, log)
  {
    forall p ensures OrderedAt(keys, log, p) {
      if CutBelow(log, p) { NoneEarly(log, p); }
    }
  }

  lemma {:induction false} NoneEarly(log: Log, p: Path)
    requires CutsFirst(log) && CutBelow(log, p)
    ensures Early(log, p) == []
  {
    var n := |log| - 1;
    if CutBelow(log[..n], p) {
      NoneEarly(log[..n], p);
    } else {
      var c := log[n].key;
      forall k | 0 <= k < n && log[k].key != [] ensures !(log[k].Made? && Above(log[k].key) == p) {
        assert Siblings(log[k].key, c) <==> Above(log[k].key) == p;
      }
      NoneMade(log, p);
    }
  }

  lemma {:induction false} NoneMade(log: Log, p: Path)
    requires forall k :: 0 <= k < |log| && log[k].key != [] ==> !(log[k].Made? && Above(log[k].key) == p)
    ensures MadeBelow(log, p) == []
  {
    if log != [] { NoneMade(log[..|log| - 1], p); }
  }

  /** Nothing is created after a sibling's deletion exactly if no deletion comes before a creation of a sibling. */
  lemma {:induction false} LateIff(log: Log, p: Path)
    ensures Late(log, p) <==>
            exists i, j :: 0 <= i < j < |log| && log[i].Cut? && log[i].key != [] && Above(log[i].key) == p
                        && log[j].Made? && log[j].key != [] && Above(log[j].key) == p
  {
    if log != [] {
      var n := |log| - 1;
      var before, e := log[..n], log[n];
      assert log == before + [e];
      LateIff(before, p);
      OrderNext(before, e, p);
      EarlyFirst(before, p);
      CutBelowIff(before, p);
      assert forall k :: 0 <= k < n ==> before[k] == log[k];
    }
  }
}
