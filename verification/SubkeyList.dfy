/** Sorted subkey lists: insertion, sorting, and the lazy merge of raw and new entries (hive/subkeys/writer.go,
    hive/edit/nkedit.go). */
module SubkeyList {
  import opened Lex

  /** A list entry with its decoded lower-case name. */
  datatype Entry = Entry(name: string, ref: int)

  predicate Sorted(es: seq<Entry>) {
    forall i, j :: 0 <= i < j < |es| ==> Less(es[i].name, es[j].name)
  }

  predicate HasName(es: seq<Entry>, n: string) {
    exists i :: 0 <= i < |es| && es[i].name == n
  }

  /** The entry before the first with a greater name. */
  function Inserted(es: seq<Entry>, e: Entry): (r: seq<Entry>)
    ensures |r| == |es| + 1
  {
    if es == [] || Less(e.name, es[0].name) then [e] + es else [es[0]] + Inserted(es[1..], e)
  }

  /** One insertion after the other. */
  function InsertedAll(es: seq<Entry>, added: seq<Entry>): seq<Entry> {
    if added == [] then es else Inserted(InsertedAll(es, added[..|added| - 1]), added[|added| - 1])
  }

  lemma {:induction false} InsertedMembers(es: seq<Entry>, e: Entry)
    ensures multiset(Inserted(es, e)) == multiset(es) + multiset{e}
  {
    if es != [] && !Less(e.name, es[0].name) {
      InsertedMembers(es[1..], e);
      assert es == [es[0]] + es[1..];
    }
  }

  lemma {:induction false} InsertedSorted(es: seq<Entry>, e: Entry)
    requires Sorted(es) && !HasName(es, e.name)
    ensures Sorted(Inserted(es, e))
  {
    if es == [] {
    } else if Less(e.name, es[0].name) {
      forall j | 0 <= j < |es| ensures Less(e.name, es[j].name) {
        if j > 0 { Transitive(e.name, es[0].name, es[j].name); }
      }
    } else {
      var r := Inserted(es[1..], e);
      Total(e.name, es[0].name);
      InsertedSorted(es[1..], e);
      InsertedMembers(es[1..], e);
      forall j | 0 <= j < |r| ensures Less(es[0].name, r[j].name) {
        assert r[j] in multiset(es[1..]) + multiset{e};
        if r[j] != e {
          var k :| 0 <= k < |es[1..]| && es[1..][k] == r[j];
          assert es[k + 1] == r[j];
        }
      }
    }
  }

  /** A sorted list is known by its entries. */
  lemma {:induction false} SortedUnique(a: seq<Entry>, b: seq<Entry>)
    requires Sorted(a) && Sorted(b) && multiset(a) == multiset(b)
    ensures a == b
  {
    assert |a| == |multiset(a)| && |b| == |multiset(b)|;
    if a != [] {
      FirstLeast(a, b);
      assert a == [a[0]] + a[1..] && b == [b[0]] + b[1..];
      assert multiset(a[1..]) == multiset(a) - multiset{a[0]};
      assert multiset(b[1..]) == multiset(b) - multiset{b[0]};
      SortedUnique(a[1..], b[1..]);
    }
  }

  lemma FirstLeast(a: seq<Entry>, b: seq<Entry>)
    requires Sorted(a) && Sorted(b) && multiset(a) == multiset(b) && a != [] && b != []
    ensures a[0] == b[0]
  {
    assert a[0] in multiset(b) && b[0] in multiset(a);
    var i :| 0 <= i < |b| && b[i] == a[0];
    var j :| 0 <= j < |a| && a[j] == b[0];
    if i != 0 && j != 0 {
      Transitive(a[0].name, a[j].name, a[0].name);
      Irreflexive(a[0].name);
      assert false;
    }
  }

  /** Neither the old nor the new names repeat. */
  predicate NewNames(es: seq<Entry>, added: seq<Entry>) {
    && (forall i :: 0 <= i < |added| ==> !HasName(es, added[i].name))
    && (forall i, j :: 0 <= i < j < |added| ==> added[i].name != added[j].name)
  }

  /** Inserting new names one by one gives the one sorted list of all entries. */
  lemma {:induction false} InsertedAllSorted(es: seq<Entry>, added: seq<Entry>)
    requires Sorted(es) && NewNames(es, added)
    ensures Sorted(InsertedAll(es, added)) && multiset(InsertedAll(es, added)) == multiset(es) + multiset(added)
  {
    if added != [] {
      var before, e := added[..|added| - 1], added[|added| - 1];
      assert added == before + [e];
      InsertedAllSorted(es, before);
      var all := InsertedAll(es, before);
      forall i | 0 <= i < |all| ensures all[i].name != e.name {
        assert all[i] in multiset(es) + multiset(before);
        if all[i] in multiset(es) {
          var k :| 0 <= k < |es| && es[k] == all[i];
          assert !HasName(es, e.name);
        } else {
          var k :| 0 <= k < |before| && before[k] == all[i];
          assert added[k] == all[i];
        }
      }
      InsertedSorted(all, e);
      InsertedMembers(all, e);
    }
  }

  // ----- List.Insert -----

  /** A new entry replaces the first with its name, or is inserted. */
  function WithEntry(es: seq<Entry>, e: Entry): seq<Entry> {
    if es == [] then [e]
    else if HasName(es, e.name) then
      if es[0].name == e.name then [e] + es[1..] else [es[0]] + WithEntry(es[1..], e)
    else Inserted(es, e)
  }

  lemma {:induction false} ReplacedAt(es: seq<Entry>, e: Entry, i: int)
    requires 0 <= i < |es| && es[i].name == e.name && forall k :: 0 <= k < i ==> es[k].name != e.name
    ensures WithEntry(es, e) == es[i := e]
  {
    if i > 0 {
      ReplacedAt(es[1..], e, i - 1);
      assert es[i := e] == [es[0]] + es[1..][i - 1 := e];
    }
  }

  lemma {:induction false} InsertedAt(es: seq<Entry>, e: Entry, i: int)
    requires 0 <= i <= |es| && (forall k :: 0 <= k < i ==> !Less(e.name, es[k].name))
    requires i < |es| ==> Less(e.name, es[i].name)
    ensures Inserted(es, e) == es[..i] + [e] + es[i..]
  {
    if i > 0 {
      InsertedAt(es[1..], e, i - 1);
      assert es == [es[0]] + es[1..];
    }
  }

  method Insert(es: seq<Entry>, e: Entry) returns (r: seq<Entry>)
    ensures r == WithEntry(es, e)
  {
    for i := 0 to |es|
      invariant forall k :: 0 <= k < i ==> es[k].name != e.name
    {
      if es[i].name == e.name {
        ReplacedAt(es, e, i);
        return es[i := e];
      }
    }
    r := [];
    var inserted := false;
    ghost var at := 0;
    for i := 0 to |es|
      invariant !inserted ==> r == es[..i] && at == i
      invariant !inserted ==> forall k :: 0 <= k < i ==> !Less(e.name, es[k].name)
      invariant inserted ==> at < i && r == es[..at] + [e] + es[at..i] && Inserted(es, e) == es[..at] + [e] + es[at..]
    {
      if !inserted && Less(e.name, es[i].name) {
        InsertedAt(es, e, i);
        r := r + [e];
        inserted := true;
      } else if !inserted {
        at := i + 1;
      }
      assert at <= i ==> es[at..i + 1] == es[at..i] + [es[i]];
      r := r + [es[i]];
    }
    if !inserted {
      InsertedAt(es, e, |es|);
      r := r + [e];
    }
    assert es == [] || WithEntry(es, e) == Inserted(es, e);
  }

  // ----- sortEntries -----

  /** Entry `k` may stand before entry `l`. */
  predicate Before(es: seq<Entry>, k: int, l: int) {
    0 <= k < |es| && 0 <= l < |es| ==> !Less(es[l].name, es[k].name)
  }

  /** In order of name, equal names allowed. */
  predicate Ordered(es: seq<Entry>) {
    forall k, l {:trigger Before(es, k, l)} :: 0 <= k < l < |es| ==> Before(es, k, l)
  }

  lemma DistinctOrderedSorted(es: seq<Entry>)
    requires Ordered(es) && forall i, j :: 0 <= i < j < |es| ==> es[i].name != es[j].name
    ensures Sorted(es)
  {
    forall i, j | 0 <= i < j < |es| ensures Less(es[i].name, es[j].name) {
      assert Before(es, i, j);
      Total(es[i].name, es[j].name);
    }
  }

  predicate After(es: seq<Entry>, k: int, key: Entry) {
    0 <= k < |es| ==> Less(key.name, es[k].name)
  }

  /** The elements before the gap, and after it up to `i`, are in order around `key`. */
  ghost predicate GapAt(es: seq<Entry>, gap: int, i: int, key: Entry) {
    && 0 <= gap <= i < |es|
    && (forall k, l {:trigger Before(es, k, l)} :: 0 <= k < l <= i && k != gap && l != gap ==> Before(es, k, l))
    && (forall k {:trigger After(es, k, key)} :: gap < k <= i ==> After(es, k, key))
  }

  lemma GapOpens(es: seq<Entry>, i: int)
    requires 0 < i < |es| && Ordered(es[..i])
    ensures GapAt(es, i, i, es[i])
  {
    forall k, l | 0 <= k < l < i ensures Before(es, k, l) {
      assert Before(es[..i], k, l);
    }
  }

  lemma GapMoves(es: seq<Entry>, j: int, i: int, key: Entry)
    requires 0 <= j < i < |es| && GapAt(es, j + 1, i, key) && Less(key.name, es[j].name)
    ensures GapAt(es[j + 1 := es[j]], j, i, key)
  {
    var r := es[j + 1 := es[j]];
    forall k, l | 0 <= k < l <= i && k != j && l != j ensures Before(r, k, l) {
      var x, y := if k == j + 1 then j else k, if l == j + 1 then j else l;
      assert Before(es, x, y) && r[k] == es[x] && r[l] == es[y];
    }
    forall k | j < k <= i ensures After(r, k, key) {
      assert k > j + 1 ==> After(es, k, key);
    }
  }

  lemma GapClosed(es: seq<Entry>, gap: int, i: int, key: Entry)
    requires GapAt(es, gap, i, key)
    requires gap > 0 ==> !Less(key.name, es[gap - 1].name)
    ensures Ordered(es[gap := key][..i + 1])
  {
    var r := es[gap := key][..i + 1];
    forall k, l | 0 <= k < l <= i ensures Before(r, k, l) {
      if l == gap {
        Trichotomy(key.name, es[gap - 1].name);
        Trichotomy(key.name, es[k].name);
        if k < gap - 1 {
          assert Before(es, k, gap - 1);
          Trichotomy(es[gap - 1].name, es[k].name);
          AtMostTransitive(es[k].name, es[gap - 1].name, key.name);
        }
      } else if k == gap {
        assert After(es, l, key);
        Trichotomy(es[l].name, key.name);
      } else {
        assert Before(es, k, l);
      }
    }
  }

  lemma ShiftedMembers(es: seq<Entry>, j: int, key: Entry)
    requires 0 <= j < |es| - 1
    ensures multiset(es[j + 1 := es[j]][j := key]) == multiset(es[j + 1 := key])
  {
    assert multiset(es[j + 1 := es[j]]) == multiset(es) - multiset{es[j + 1]} + multiset{es[j]};
    assert multiset(es[j + 1 := es[j]][j := key]) == multiset(es[j + 1 := es[j]]) - multiset{es[j]} + multiset{key};
    assert multiset(es[j + 1 := key]) == multiset(es) - multiset{es[j + 1]} + multiset{key};
  }

  /** With `key` put in the gap, the elements are those there were. */
  ghost predicate Shifting(es: seq<Entry>, gap: int, i: int, key: Entry, was: seq<Entry>) {
    GapAt(es, gap, i, key) && multiset(es[gap := key]) == multiset(was)
  }

  lemma Lifted(es: seq<Entry>, i: int)
    requires 0 < i < |es| && Ordered(es[..i])
    ensures Shifting(es, i, i, es[i], es)
  {
    GapOpens(es, i);
    assert es[i := es[i]] == es;
  }

  lemma ShiftOne(es: seq<Entry>, j: int, i: int, key: Entry, was: seq<Entry>)
    requires 0 <= j < i < |es| && Shifting(es, j + 1, i, key, was) && Less(key.name, es[j].name)
    ensures Shifting(es[j + 1 := es[j]], j, i, key, was)
  {
    ShiftedMembers(es, j, key);
    GapMoves(es, j, i, key);
  }

  /** Insertion sort, in place. */
  method SortEntries(a: array<Entry>)
    modifies a
    ensures Ordered(a[..]) && multiset(a[..]) == multiset(old(a[..]))
  {
    var i := 1;
    while i < a.Length
      invariant 1 <= i && (a.Length > 0 ==> i <= a.Length)
      invariant i <= a.Length ==> Ordered(a[..i])
      invariant multiset(a[..]) == multiset(old(a[..]))
    {
      InsertBack(a, i);
      i := i + 1;
    }
    if a.Length > 0 { assert a[..i] == a[..]; }
  }

  /** One round: the element at `i` moves back past the greater ones. */
  method InsertBack(a: array<Entry>, i: int)
    requires 1 <= i < a.Length && Ordered(a[..i])
    modifies a
    ensures Ordered(a[..i + 1]) && multiset(a[..]) == multiset(old(a[..]))
  {
    var key, j := a[i], i - 1;
    ghost var s := a[..];
    Lifted(s, i);
    while j >= 0 && Less(key.name, a[j].name)
      invariant -1 <= j < i && a[..] == s && |s| == a.Length && Shifting(s, j + 1, i, key, old(a[..]))
    {
      ShiftOne(s, j, i, key, old(a[..]));
      a[j + 1] := a[j];
      s := s[j + 1 := s[j]];
      j := j - 1;
    }
    Settled(s, j + 1, i, key, old(a[..]));
    a[j + 1] := key;
    assert a[..] == s[j + 1 := key];
  }

  lemma Settled(es: seq<Entry>, gap: int, i: int, key: Entry, was: seq<Entry>)
    requires 0 <= gap <= i < |es| && Shifting(es, gap, i, key, was) && (gap > 0 ==> !Less(key.name, es[gap - 1].name))
    ensures Ordered(es[gap := key][..i + 1]) && multiset(es[gap := key]) == multiset(was)
  {
    GapClosed(es, gap, i, key);
  }
}
