/** The three edits of a key's value list, as changes of its map. */
module ValueEdits {
  import opened HiveCells
  import opened Subtrees
  import opened Registry
  import opened KeyValues

  function VKs(vs: seq<ValueT>): (r: seq<int>)
    ensures |r| == |vs|
  {
    seq(|vs|, i requires 0 <= i < |vs| => vs[i].vk)
  }

  /** `v` is stored in new cells, and nothing else changed. */
  ghost predicate NewValue(a: Cells, b: Cells, v: ValueT, x: Value) {
    && Stored(b, v, x) && v.vk !in v.data && ValueCells(v) !! a.Keys
    && b.Keys == a.Keys + ValueCells(v) && Agree(a, b, a.Keys)
  }

  /** The key's cell has a new list in the new cell `lref`, or none; otherwise only `gone` is gone. */
  ghost predicate Listing(a: Cells, b: Cells, nk: int, vks: seq<int>, lref: int, gone: set<int>) {
    && nk in a && a[nk].Key? && nk !in gone && lref !in a && lref != 0 && (lref == INVALID <==> vks == [])
    && b == (if vks == [] then a else a[lref := ValueList(vks)])
            [nk := a[nk].(valueCount := |vks|, valueList := lref)] - gone
  }

  function ListCell(lref: int): set<int> {
    if lref == INVALID then {} else {lref}
  }

  lemma ListedValues(a: Cells, b: Cells, nk: int, vs: seq<ValueT>, lref: int, gone: set<int>)
    requires Listing(a, b, nk, VKs(vs), lref, gone) && lref !in gone
    ensures nk in b && b[nk].Key? && ValueListIs(b, b[nk].valueCount, b[nk].valueList, vs, ListCell(lref))
    ensures Agree(a, b, a.Keys - gone - {nk})
  {
  }

  lemma OldKept(a: Cells, nk: int, s: KeyState, i: nat)
    requires KeyOk(a, nk, s) && i < |s.vs|
    ensures ValueCells(s.vs[i]) <= a.Keys - {nk} && s.vs[i].name in s.m
  {
    InValuesCells(s.vs, i);
    ValueInKeys(a, s.vs[i]);
  }

  /** An old value away from what is written and freed is untouched. */
  lemma Untouched(a: Cells, mid: Cells, b: Cells, nk: int, gone: set<int>, cells: set<int>)
    requires Agree(a, mid, a.Keys) && Agree(mid, b, mid.Keys - gone - {nk})
    requires cells <= a.Keys - {nk} && cells !! gone
    ensures Agree(a, b, cells)
  {
    forall r | r in cells ensures r in a && r in b && a[r] == b[r] {
      assert r in a.Keys && r in mid.Keys - gone - {nk};
    }
  }

  lemma NamesAppend(vs: seq<ValueT>, v: ValueT)
    ensures NamesOf(vs + [v]) == NamesOf(vs) + {v.name}
  {
    assert (vs + [v])[|vs|] == v && forall i :: 0 <= i < |vs| ==> (vs + [v])[i] == vs[i];
  }

  // ----- A new name -----

  function Appended(s: KeyState, v: ValueT, x: Value, lref: int): KeyState {
    KeyState(ListCell(lref), s.vs + [v], s.m[v.name := x])
  }

  lemma AppendedAt(a: Cells, mid: Cells, b: Cells, nk: int, s: KeyState, v: ValueT, x: Value, lref: int, i: nat)
    requires KeyOk(a, nk, s) && v.name !in s.m && NewValue(a, mid, v, x) && i <= |s.vs|
    requires Listing(mid, b, nk, VKs(s.vs + [v]), lref, {})
    ensures var s' := Appended(s, v, x, lref);
      && KeptOrNew(a, b, s, s', ValueCells(v) + {lref}, s'.vs[i])
      && (s'.vs[i] in s.vs || ValueCells(s'.vs[i]) !! s'.list)
  {
    var s' := Appended(s, v, x, lref);
    ListedValues(mid, b, nk, s'.vs, lref, {});
    if i < |s.vs| {
      OldKept(a, nk, s, i);
      Untouched(a, mid, b, nk, {}, ValueCells(s.vs[i]));
      assert s'.vs[i] == s.vs[i] && s.vs[i].name != v.name;
    } else {
      assert nk in a;
      StoredFrame(mid, b, v, x);
    }
  }

  lemma AppendedOk(a: Cells, mid: Cells, b: Cells, nk: int, s: KeyState, v: ValueT, x: Value, lref: int)
    requires KeyOk(a, nk, s) && v.name !in s.m && NewValue(a, mid, v, x)
    requires Listing(mid, b, nk, VKs(s.vs + [v]), lref, {})
    ensures KeyOk(b, nk, Appended(s, v, x, lref))
  {
    var s' := Appended(s, v, x, lref);
    ListedValues(mid, b, nk, s'.vs, lref, {});
    NamesAppend(s.vs, v);
    forall i | 0 <= i < |s'.vs|
      ensures KeptOrNew(a, b, s, s', ValueCells(v) + {lref}, s'.vs[i])
      ensures s'.vs[i] in s.vs || ValueCells(s'.vs[i]) !! s'.list
    {
      AppendedAt(a, mid, b, nk, s, v, x, lref, i);
    }
    DistinctAppend(s.vs, v);
    EditedOk(a, b, nk, s, s', ValueCells(v) + {lref});
  }

  lemma DistinctAppend(vs: seq<ValueT>, v: ValueT)
    requires DistinctNames(vs) && v.name !in NamesOf(vs)
    ensures DistinctNames(vs + [v])
    ensures forall k, l :: 0 <= k < l <= |vs| && (vs + [v])[k] !in vs && (vs + [v])[l] !in vs ==> false
  {
    assert forall i :: 0 <= i < |vs| ==> vs[i].name in NamesOf(vs);
  }

  lemma AppendedIndex(idx: map<Edge, int>, nk: int, vs: seq<ValueT>, v: ValueT)
    requires IndexOk(idx, nk, vs) && v.name !in NamesOf(vs)
    ensures IndexOk(idx[Edge(nk, v.name) := v.vk], nk, vs + [v])
  {
    NamesAppend(vs, v);
    assert forall i :: 0 <= i < |vs| ==> vs[i].name in NamesOf(vs);
  }

  // ----- An old name -----

  function Replaced(s: KeyState, i: nat, v: ValueT, x: Value, lref: int): KeyState
    requires i < |s.vs|
  {
    KeyState(ListCell(lref), s.vs[i := v], s.m[v.name := x])
  }

  lemma NamesReplaced(vs: seq<ValueT>, i: nat, v: ValueT)
    requires i < |vs| && vs[i].name == v.name
    ensures NamesOf(vs[i := v]) == NamesOf(vs)
  {
    forall n | n in NamesOf(vs) ensures n in NamesOf(vs[i := v]) {
      var k :| 0 <= k < |vs| && vs[k].name == n;
      assert vs[i := v][k].name == n;
    }
    assert forall k :: 0 <= k < |vs| ==> vs[i := v][k].name == vs[k].name;
  }

  lemma ReplacedAt(a: Cells, mid: Cells, b: Cells, nk: int, s: KeyState, i: nat, v: ValueT, x: Value, lref: int,
                   gone: set<int>, k: nat)
    requires KeyOk(a, nk, s) && i < |s.vs| && s.vs[i].name == v.name && NewValue(a, mid, v, x) && k < |s.vs|
    requires gone <= ValueCells(s.vs[i])
    requires Listing(mid, b, nk, VKs(s.vs[i := v]), lref, gone)
    ensures var s' := Replaced(s, i, v, x, lref);
      && KeptOrNew(a, b, s, s', ValueCells(v) + {lref}, s'.vs[k])
      && (s'.vs[k] in s.vs || ValueCells(s'.vs[k]) !! s'.list)
  {
    var s' := Replaced(s, i, v, x, lref);
    OldKept(a, nk, s, i);
    ListedValues(mid, b, nk, s'.vs, lref, gone);
    if k != i {
      OldKept(a, nk, s, k);
      OldApart(Bare(nk, s), k, i);
      Untouched(a, mid, b, nk, gone, ValueCells(s.vs[k]));
      assert s'.vs[k] == s.vs[k] && s.vs[k].name != v.name;
    } else {
      assert nk in a;
      StoredFrame(mid, b, v, x);
    }
  }

  lemma ReplacedOk(a: Cells, mid: Cells, b: Cells, nk: int, s: KeyState, i: nat, v: ValueT, x: Value, lref: int,
          gone: set<int>)
    requires KeyOk(a, nk, s) && i < |s.vs| && s.vs[i].name == v.name && NewValue(a, mid, v, x)
    requires gone <= ValueCells(s.vs[i])
    requires Listing(mid, b, nk, VKs(s.vs[i := v]), lref, gone)
    ensures KeyOk(b, nk, Replaced(s, i, v, x, lref))
  {
    var s' := Replaced(s, i, v, x, lref);
    OldKept(a, nk, s, i);
    ListedValues(mid, b, nk, s'.vs, lref, gone);
    NamesReplaced(s.vs, i, v);
    forall k | 0 <= k < |s'.vs|
      ensures KeptOrNew(a, b, s, s', ValueCells(v) + {lref}, s'.vs[k])
      ensures s'.vs[k] in s.vs || ValueCells(s'.vs[k]) !! s'.list
    {
      ReplacedAt(a, mid, b, nk, s, i, v, x, lref, gone, k);
    }
    DistinctReplaced(s.vs, i, v);
    EditedOk(a, b, nk, s, s', ValueCells(v) + {lref});
  }

  lemma DistinctReplaced(vs: seq<ValueT>, i: nat, v: ValueT)
    requires DistinctNames(vs) && i < |vs| && v.name == vs[i].name
    ensures DistinctNames(vs[i := v])
    ensures var r := vs[i := v]; forall k, l :: 0 <= k < l < |r| && r[k] !in vs && r[l] !in vs ==> false
  {
    assert forall k :: 0 <= k < |vs| && k != i ==> vs[i := v][k] == vs[k];
  }

  lemma ReplacedIndex(idx: map<Edge, int>, nk: int, vs: seq<ValueT>, i: nat, v: ValueT)
    requires IndexOk(idx, nk, vs) && DistinctNames(vs) && i < |vs| && vs[i].name == v.name
    ensures IndexOk(idx[Edge(nk, v.name) := v.vk], nk, vs[i := v])
  {
    NamesReplaced(vs, i, v);
    assert vs[i].name in NamesOf(vs);
  }

  // ----- A name gone -----

  function Dropped(s: KeyState, i: nat, lref: int): KeyState
    requires i < |s.vs|
  {
    KeyState(ListCell(lref), s.vs[..i] + s.vs[i + 1..], s.m - {s.vs[i].name})
  }

  lemma NamesDropped(vs: seq<ValueT>, i: nat)
    requires i < |vs| && DistinctNames(vs)
    ensures NamesOf(vs[..i] + vs[i + 1..]) == NamesOf(vs) - {vs[i].name}
    ensures DistinctNames(vs[..i] + vs[i + 1..])
  {
    var r := vs[..i] + vs[i + 1..];
    forall n | n in NamesOf(vs) && n != vs[i].name ensures n in NamesOf(r) {
      var k :| 0 <= k < |vs| && vs[k].name == n;
      assert r[if k < i then k else k - 1].name == n;
    }
    assert forall k :: 0 <= k < |r| ==> r[k] == vs[if k < i then k else k + 1];
  }

  lemma DroppedAt(a: Cells, b: Cells, nk: int, s: KeyState, i: nat, lref: int, gone: set<int>, l: nat)
    requires KeyOk(a, nk, s) && i < |s.vs| && gone <= ValueCells(s.vs[i]) && l < |s.vs| && l != i
    requires Listing(a, b, nk, VKs(s.vs[..i] + s.vs[i + 1..]), lref, gone)
    ensures KeptOrNew(a, b, s, Dropped(s, i, lref), ListCell(lref), s.vs[l])
  {
    OldKept(a, nk, s, i);
    OldKept(a, nk, s, l);
    OldApart(Bare(nk, s), l, i);
    ListedValues(a, b, nk, s.vs[..i] + s.vs[i + 1..], lref, gone);
    Untouched(a, a, b, nk, gone, ValueCells(s.vs[l]));
  }

  /** The `k`-th of the values that stay. */
  lemma DroppedValue(a: Cells, b: Cells, nk: int, s: KeyState, i: nat, lref: int, gone: set<int>, k: nat)
    requires KeyOk(a, nk, s) && i < |s.vs| && gone <= ValueCells(s.vs[i]) && k < |Dropped(s, i, lref).vs|
    requires Listing(a, b, nk, VKs(s.vs[..i] + s.vs[i + 1..]), lref, gone)
    ensures KeptOrNew(a, b, s, Dropped(s, i, lref), ListCell(lref), Dropped(s, i, lref).vs[k])
    ensures Dropped(s, i, lref).vs[k] in s.vs
  {
    var l := if k < i then k else k + 1;
    assert Dropped(s, i, lref).vs[k] == s.vs[l];
    DroppedAt(a, b, nk, s, i, lref, gone, l);
  }

  lemma DroppedOk(a: Cells, b: Cells, nk: int, s: KeyState, i: nat, lref: int, gone: set<int>)
    requires KeyOk(a, nk, s) && i < |s.vs| && gone <= ValueCells(s.vs[i])
    requires Listing(a, b, nk, VKs(s.vs[..i] + s.vs[i + 1..]), lref, gone)
    ensures KeyOk(b, nk, Dropped(s, i, lref))
  {
    var s' := Dropped(s, i, lref);
    OldKept(a, nk, s, i);
    ListedValues(a, b, nk, s'.vs, lref, gone);
    NamesDropped(s.vs, i);
    forall k | 0 <= k < |s'.vs| ensures KeptOrNew(a, b, s, s', ListCell(lref), s'.vs[k]) && s'.vs[k] in s.vs {
      DroppedValue(a, b, nk, s, i, lref, gone, k);
    }
    EditedOk(a, b, nk, s, s', ListCell(lref));
  }

  lemma DroppedIndex(idx: map<Edge, int>, nk: int, vs: seq<ValueT>, i: nat)
    requires IndexOk(idx, nk, vs) && DistinctNames(vs) && i < |vs|
    ensures IndexOk(idx - {Edge(nk, vs[i].name)}, nk, vs[..i] + vs[i + 1..])
  {
    NamesDropped(vs, i);
    var r := vs[..i] + vs[i + 1..];
    forall k | 0 <= k < |r|
      ensures Edge(nk, r[k].name) in idx - {Edge(nk, vs[i].name)} && idx[Edge(nk, r[k].name)] == r[k].vk
    {
      assert r[k] == vs[if k < i then k else k + 1];
      assert r[k].name in NamesOf(r);
    }
  }
}
