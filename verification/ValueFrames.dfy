/** Which cells an edit of a key's values takes, gives back and leaves over (hive/edit/vkedit.go). */
module ValueFrames {
  import opened Bytes
  import opened HiveCells
  import opened Subtrees
  import opened Registry
  import opened BigDataCodec
  import opened Limits
  import opened CellFreeing
  import opened KeyValues
  import opened ValueEdits
  import BigData

  /** The cells of a key and its values. */
  function Own(nk: int, s: KeyState): set<int> {
    {nk} + s.list + ValuesCells(s.vs)
  }

  /** After an edit: cells that were not the key's are untouched and still not the key's, and of those that were,
      exactly `left` stay allocated without being the key's any more. */
  ghost predicate EditOf(a: Cells, b: Cells, nk: int, s: KeyState, s': KeyState, left: set<int>) {
    && Agree(a, b, a.Keys - Own(nk, s)) && Own(nk, s') !! a.Keys - Own(nk, s)
    && left <= Own(nk, s) && left !! Own(nk, s')
    && b.Keys == (a.Keys - Own(nk, s)) + Own(nk, s') + left
  }

  /** The same over several edits: `left` may have been allocated in between. */
  ghost predicate RunOf(a: Cells, b: Cells, nk: int, s: KeyState, s': KeyState, left: set<int>) {
    && Agree(a, b, a.Keys - Own(nk, s)) && Own(nk, s') !! a.Keys - Own(nk, s)
    && left !! Own(nk, s') && left !! a.Keys - Own(nk, s)
    && b.Keys == (a.Keys - Own(nk, s)) + Own(nk, s') + left
  }

  lemma NoRun(a: Cells, nk: int, s: KeyState)
    requires KeyOk(a, nk, s)
    ensures RunOf(a, a, nk, s, s, {}) && EditOf(a, a, nk, s, s, {})
  {
    KeyParts(a, nk, s);
  }

  lemma RunNext(a: Cells, b: Cells, c: Cells, nk: int, s: KeyState, s': KeyState, s'': KeyState, left: set<int>,
          more: set<int>)
    requires RunOf(a, b, nk, s, s', left) && EditOf(b, c, nk, s', s'', more)
    ensures RunOf(a, c, nk, s, s'', left + more)
  {
    var others := a.Keys - Own(nk, s);
    assert b.Keys - Own(nk, s') == others + left;
    forall r | r in others ensures r in a && r in c && a[r] == c[r] {
      assert r in b && r in b.Keys - Own(nk, s');
    }
  }

  lemma NewKept(a: Cells, mid: Cells, nk: int, s: KeyState, v: ValueT, x: Value)
    requires KeyOk(a, nk, s) && NewValue(a, mid, v, x)
    ensures KeyOk(mid, nk, s)
  {
    KeyParts(a, nk, s);
    ValuesAreFrame(a, mid, Bare(nk, s));
    forall i | 0 <= i < |s.vs| ensures Stored(mid, s.vs[i], s.m[s.vs[i].name]) {
      OldKept(a, nk, s, i);
      StoredFrame(a, mid, s.vs[i], s.m[s.vs[i].name]);
    }
  }

  lemma KeyParts(a: Cells, nk: int, s: KeyState)
    requires KeyOk(a, nk, s)
    ensures Own(nk, s) <= a.Keys && OwnCells(Bare(nk, s)) == Own(nk, s)
    ensures nk !in s.list + ValuesCells(s.vs) && s.list !! ValuesCells(s.vs)
  {
    forall c | c in ValuesCells(s.vs) ensures c in a {
      var i :| 0 <= i < |s.vs| && c in ValueCells(s.vs[i]);
      ValueInKeys(a, s.vs[i]);
    }
  }

  // ----- The cells of edited values -----

  /** The values' cells are theirs alone. */
  ghost predicate AllApart(vs: seq<ValueT>) {
    forall i, j :: 0 <= i < |vs| && 0 <= j < |vs| && i != j ==> ValueCells(vs[i]) !! ValueCells(vs[j])
  }

  lemma KeyApart(a: Cells, nk: int, s: KeyState)
    requires KeyOk(a, nk, s)
    ensures AllApart(s.vs)
  {
    forall i, j | 0 <= i < |s.vs| && 0 <= j < |s.vs| && i != j ensures ValueCells(s.vs[i]) !! ValueCells(s.vs[j]) {
      OldApart(Bare(nk, s), i, j);
    }
  }

  lemma AppendedCells(vs: seq<ValueT>, v: ValueT)
    ensures ValuesCells(vs + [v]) == ValuesCells(vs) + ValueCells(v)
  {
    var r := vs + [v];
    forall c ensures c in ValuesCells(r) <==> c in ValuesCells(vs) || c in ValueCells(v) {
      if c in ValueCells(v) { assert c in ValueCells(r[|vs|]); }
      if c in ValuesCells(vs) {
        var i :| 0 <= i < |vs| && c in ValueCells(vs[i]);
        assert c in ValueCells(r[i]);
      }
    }
  }

  lemma ReplacedCells(vs: seq<ValueT>, i: nat, v: ValueT)
    requires i < |vs| && AllApart(vs)
    ensures ValuesCells(vs[i := v]) == (ValuesCells(vs) - ValueCells(vs[i])) + ValueCells(v)
  {
    var r := vs[i := v];
    forall c ensures c in ValuesCells(r) <==> (c in ValuesCells(vs) && c !in ValueCells(vs[i])) || c in ValueCells(v) {
      if c in ValueCells(v) { assert c in ValueCells(r[i]); }
      if c in ValuesCells(vs) && c !in ValueCells(vs[i]) {
        var k :| 0 <= k < |vs| && c in ValueCells(vs[k]);
        assert c in ValueCells(r[k]);
      }
      if c in ValuesCells(r) {
        var k :| 0 <= k < |r| && c in ValueCells(r[k]);
        if k != i { assert ValueCells(vs[k]) !! ValueCells(vs[i]); }
      }
    }
  }

  lemma DroppedCells(vs: seq<ValueT>, i: nat)
    requires i < |vs| && AllApart(vs)
    ensures ValuesCells(vs[..i] + vs[i + 1..]) == ValuesCells(vs) - ValueCells(vs[i])
  {
    var r := vs[..i] + vs[i + 1..];
    forall c ensures c in ValuesCells(r) <==> c in ValuesCells(vs) && c !in ValueCells(vs[i]) {
      if c in ValuesCells(vs) && c !in ValueCells(vs[i]) {
        var k :| 0 <= k < |vs| && c in ValueCells(vs[k]);
        assert r[if k < i then k else k - 1] == vs[k];
      }
      if c in ValuesCells(r) {
        var k :| 0 <= k < |r| && c in ValueCells(r[k]);
        var l := if k < i then k else k + 1;
        assert r[k] == vs[l] && ValueCells(vs[l]) !! ValueCells(vs[i]);
      }
    }
  }

  /** The values' cells lose `dead` and gain `added`; of `dead`, `gone` is freed. */
  lemma EditIs(a: Cells, mid: Cells, b: Cells, nk: int, s: KeyState, s': KeyState, vks: seq<int>, lref: int,
               added: set<int>, dead: set<int>, gone: set<int>)
    requires Own(nk, s) <= a.Keys && nk !in s.list + ValuesCells(s.vs) && s.list !! ValuesCells(s.vs)
    requires Agree(a, mid, a.Keys) && mid.Keys == a.Keys + added && added !! a.Keys
    requires Listing(mid, b, nk, vks, lref, gone) && s'.list == ListCell(lref)
    requires gone <= dead <= ValuesCells(s.vs) && ValuesCells(s'.vs) == (ValuesCells(s.vs) - dead) + added
    ensures EditOf(a, b, nk, s, s', s.list + (dead - gone))
  {
    assert b.Keys == mid.Keys + ListCell(lref) - gone;
    forall r | r in a.Keys - Own(nk, s) ensures r in b && a[r] == b[r] {
      assert r in mid;
    }
  }

  lemma VksEdited(vs: seq<ValueT>, i: nat, v: ValueT)
    ensures VKs(vs) + [v.vk] == VKs(vs + [v])
    ensures i < |vs| ==> VKs(vs)[i := v.vk] == VKs(vs[i := v])
    ensures i < |vs| ==> VKs(vs)[..i] + VKs(vs)[i + 1..] == VKs(vs[..i] + vs[i + 1..])
  {
  }

  lemma CreatedEdit(a: Cells, mid: Cells, b: Cells, nk: int, s: KeyState, v: ValueT, x: Value, lref: int)
    requires KeyOk(a, nk, s) && NewValue(a, mid, v, x)
    requires Listing(mid, b, nk, VKs(s.vs + [v]), lref, {})
    ensures EditOf(a, b, nk, s, Appended(s, v, x, lref), s.list)
  {
    KeyParts(a, nk, s);
    AppendedCells(s.vs, v);
    EditIs(a, mid, b, nk, s, Appended(s, v, x, lref), VKs(s.vs + [v]), lref, ValueCells(v), {}, {});
  }

  /** What an update frees of the value it replaces: not its big data. */
  function Given(was: ValueT, x: Value): (r: set<int>)
    ensures r <= ValueCells(was)
  {
    {was.vk} + if |x.data| <= MAX_EXTERNAL then was.data else {}
  }

  /** What it leaves allocated. */
  function Kept(was: ValueT, x: Value): set<int> {
    if |x.data| <= MAX_EXTERNAL then {} else was.data
  }

  /** The whole effect of an update. */
  lemma UpdatedAll(a: Cells, mid: Cells, listed: Cells, nk: int, s: KeyState, i: nat, v: ValueT, x: Value, lref: int)
    requires KeyOk(a, nk, s) && i < |s.vs| && s.vs[i].name == v.name && NewValue(a, mid, v, x) && v.name in s.m
    requires Listing(mid, listed, nk, VKs(s.vs[i := v]), lref, {})
    ensures var b := listed - Given(s.vs[i], s.m[v.name]); var s' := Replaced(s, i, v, x, lref);
      KeyOk(b, nk, s') && EditOf(a, b, nk, s, s', s.list + Kept(s.vs[i], s.m[v.name]))
  {
    var gone := Given(s.vs[i], s.m[v.name]);
    OldKept(a, nk, s, i);
    ListingGone(mid, listed, nk, VKs(s.vs[i := v]), lref, gone);
    ReplacedOk(a, mid, listed - gone, nk, s, i, v, x, lref, gone);
    UpdatedEdit(a, mid, listed - gone, nk, s, i, v, x, lref);
  }

  lemma KeptRest(was: ValueT, x: Value)
    requires was.vk !in was.data
    ensures ValueCells(was) - Given(was, x) == Kept(was, x)
  {
  }

  lemma UpdatedEdit(a: Cells, mid: Cells, b: Cells, nk: int, s: KeyState, i: nat, v: ValueT, x: Value, lref: int)
    requires KeyOk(a, nk, s) && i < |s.vs| && NewValue(a, mid, v, x) && v.name in s.m
    requires Listing(mid, b, nk, VKs(s.vs[i := v]), lref, Given(s.vs[i], s.m[v.name]))
    ensures EditOf(a, b, nk, s, Replaced(s, i, v, x, lref), s.list + Kept(s.vs[i], s.m[v.name]))
  {
    var was, gone := s.vs[i], Given(s.vs[i], s.m[v.name]);
    KeyParts(a, nk, s);
    KeyApart(a, nk, s);
    InValuesCells(s.vs, i);
    ReplacedCells(s.vs, i, v);
    KeptRest(was, s.m[v.name]);
    EditIs(a, mid, b, nk, s, Replaced(s, i, v, x, lref), VKs(s.vs[i := v]), lref, ValueCells(v), ValueCells(was), gone);
  }

  /** The replaced value is still there when it is freed. */
  lemma StillStored(a: Cells, mid: Cells, b: Cells, nk: int, s: KeyState, i: nat, vks: seq<int>, lref: int)
    requires KeyOk(a, nk, s) && i < |s.vs| && Agree(a, mid, a.Keys) && Listing(mid, b, nk, vks, lref, {})
    ensures s.vs[i].name in s.m && Stored(b, s.vs[i], s.m[s.vs[i].name]) && s.vs[i].vk !in s.vs[i].data
    ensures Agree(a, b, ValueCells(s.vs[i]))
  {
    OldKept(a, nk, s, i);
    StoredFrame(a, b, s.vs[i], s.m[s.vs[i].name]);
  }

  lemma ListingGone(a: Cells, b: Cells, nk: int, vks: seq<int>, lref: int, gone: set<int>)
    requires Listing(a, b, nk, vks, lref, {}) && nk !in gone
    ensures Listing(a, b - gone, nk, vks, lref, gone)
  {
  }

  /** The whole effect of a removal. */
  lemma RemovedAll(a: Cells, listed: Cells, nk: int, s: KeyState, i: nat, lref: int)
    requires KeyOk(a, nk, s) && i < |s.vs| && Listing(a, listed, nk, VKs(s.vs[..i] + s.vs[i + 1..]), lref, {})
    ensures var b := listed - ValueCells(s.vs[i]); var s' := Dropped(s, i, lref);
      KeyOk(b, nk, s') && EditOf(a, b, nk, s, s', s.list)
  {
    var gone, vks := ValueCells(s.vs[i]), VKs(s.vs[..i] + s.vs[i + 1..]);
    OldKept(a, nk, s, i);
    ListingGone(a, listed, nk, vks, lref, gone);
    DroppedOk(a, listed - gone, nk, s, i, lref, gone);
    KeyParts(a, nk, s);
    KeyApart(a, nk, s);
    InValuesCells(s.vs, i);
    DroppedCells(s.vs, i);
    EditIs(a, a, listed - gone, nk, s, Dropped(s, i, lref), vks, lref, {}, gone, gone);
  }

  // ----- Data that deletion would follow -----

  /** Data of one cell that begins as a big-data header with a reference, or is so short that what its cell held before
      decides. */
  predicate Led(x: Value) {
    INLINE < |x.data| <= MAX_EXTERNAL && StartsDb(x.data) && (|x.data| < 8 || IsRef(GetU32(x.data, 4)))
  }

  lemma PlainIf(cells: Cells, v: ValueT, x: Value)
    requires Stored(cells, v, x) && !Led(x)
    ensures PlainValue(cells, v)
  {
    var k := cells[v.vk];
    if k.dataLen > MAX_EXTERNAL {
      assert k.dataRef in v.data && ReadDBHeader(cells[k.dataRef].payload).blocklist in v.data;
    } else if k.dataLen > INLINE {
      var p := cells[k.dataRef].payload;
      assert p[..|x.data|] == x.data;
      assert forall i :: 0 <= i < |x.data| ==> p[i] == x.data[i];
      assert |x.data| >= 8 ==> GetU32(p, 4) == GetU32(x.data, 4);
    }
  }

  /** The value of the name, if any, is freed with exactly its own cells. */
  ghost predicate Deletable(cells: Cells, s: KeyState, n: Name) {
    forall i :: 0 <= i < |s.vs| && s.vs[i].name == n ==> PlainValue(cells, s.vs[i])
  }

  lemma DeletableIf(cells: Cells, nk: int, s: KeyState, n: Name)
    requires KeyOk(cells, nk, s) && (n in s.m ==> !Led(s.m[n]))
    ensures Deletable(cells, s, n)
  {
    forall i | 0 <= i < |s.vs| && s.vs[i].name == n ensures PlainValue(cells, s.vs[i]) {
      PlainIf(cells, s.vs[i], s.m[n]);
    }
  }

  // ----- The index -----

  ghost predicate OthersKept(a: map<Edge, int>, b: map<Edge, int>, nk: int) {
    forall e: Edge :: e.parent != nk ==> (e in b <==> e in a) && (e in a ==> b[e] == a[e])
  }

  lemma OthersPut(idx: map<Edge, int>, nk: int, n: Name, r: int)
    ensures OthersKept(idx, idx[Edge(nk, n) := r], nk)
  {
  }

  lemma OthersDrop(idx: map<Edge, int>, nk: int, n: Name)
    ensures OthersKept(idx, idx - {Edge(nk, n)}, nk)
  {
  }

  /** Where the index's value is in the list. */
  lemma IndexOfName(idx: map<Edge, int>, nk: int, s: KeyState, n: Name) returns (i: nat)
    requires IndexOk(idx, nk, s.vs) && s.m.Keys == NamesOf(s.vs) && Edge(nk, n) in idx
    ensures i < |s.vs| && s.vs[i].name == n && s.vs[i].vk == idx[Edge(nk, n)] && n in s.m
  {
    assert n in NamesOf(s.vs);
    i :| 0 <= i < |s.vs| && s.vs[i].name == n;
  }

  lemma VksDistinct(nk: int, s: KeyState, i: nat)
    requires Apart(Bare(nk, s)) && i < |s.vs|
    ensures forall k :: 0 <= k < |s.vs| && VKs(s.vs)[k] == s.vs[i].vk ==> k == i
  {
    forall k | 0 <= k < |s.vs| && k != i ensures s.vs[k].vk != s.vs[i].vk {
      OldApart(Bare(nk, s), k, i);
      assert s.vs[k].vk in ValueCells(s.vs[k]) && s.vs[i].vk in ValueCells(s.vs[i]);
    }
  }
}
