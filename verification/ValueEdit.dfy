/** Setting and deleting the values of a key (hive/edit/vkedit.go). */
module ValueEdit {
  import opened Bytes
  import opened HiveCells
  import opened Subtrees
  import opened Registry
  import opened PlanMeaning
  import opened KeyValues
  import opened ValueEdits
  import opened ValueFrames
  import opened CellFreeing
  import opened Limits
  import opened ValueRuns
  import BigData

  const ONE_GB := 1024 * 1024 * 1024

  datatype AllocVK = Allocated(ref: int) | DataTooLarge | TooManyBlocks | NoRoom

  datatype Compared = Differs | Same | Unreadable

  datatype UpsertResult = Done | TooLarge | CannotCompare | HiveFull

  /** The cells for the data of a value. */
  function DataRoom(x: Value): nat {
    if |x.data| <= INLINE then 0 else if |x.data| <= MAX_EXTERNAL then 1 else BigData.BlocksFor(|x.data|) + 2
  }

  /** The value is to be written. */
  predicate NeedsRoom(m: Values, n: Name, x: Value) {
    |x.data| <= MOST && !Uncomparable(m, n, x) && !(n in m && m[n] == x)
  }

  /** The cells a run needs: for the data of what it sets, and two for every operation. */
  function RunRoom(ops: seq<Op>): nat {
    if ops == [] then 0
    else
      var rest, op := RunRoom(ops[..|ops| - 1]), ops[|ops| - 1];
      rest + 2 + if op.SetValue? then DataRoom(op.value) else 0
  }

  lemma {:induction false} RunRoomGrows(ops: seq<Op>, i: nat)
    requires i < |ops|
    ensures RunRoom(ops[..i]) + 2 + (if ops[i].SetValue? then DataRoom(ops[i].value) else 0) <= RunRoom(ops)
  {
    if i == |ops| - 1 {
      assert ops[..i] == ops[..|ops| - 1];
    } else {
      var before := ops[..|ops| - 1];
      assert before[..i] == ops[..i] && before[i] == ops[i];
      RunRoomGrows(before, i);
    }
  }

  /** No value the run deletes is, by then, data of one cell that begins as a big-data header. */
  predicate DeletesPlainAt(m: Values, ops: seq<Op>, i: int) {
    0 <= i < |ops| && ops[i].DeleteValue? ==>
      var now, n := ValuesAfter(m, ops[..i]), ops[i].ValueName(); n in now ==> !Led(now[n])
  }

  ghost predicate DeletesPlain(m: Values, ops: seq<Op>) {
    forall i {:trigger DeletesPlainAt(m, ops, i)} :: DeletesPlainAt(m, ops, i)
  }

  /** The cells of the data of the named value. */
  function DataOf(vs: seq<ValueT>, n: Name): set<int> {
    set i, c | 0 <= i < |vs| && vs[i].name == n && c in vs[i].data :: c
  }

  lemma DataOfName(vs: seq<ValueT>, i: nat)
    requires DistinctNames(vs) && i < |vs|
    ensures DataOf(vs, vs[i].name) == vs[i].data
  {
    forall k | 0 <= k < |vs| && vs[k].name == vs[i].name ensures k == i {
    }
    forall c | c in vs[i].data ensures c in DataOf(vs, vs[i].name) {
    }
  }

  /** What an update leaves allocated without an owner: the old list's cell, and the old data exactly if it is big. */
  function LeftBy(s: KeyState, n: Name): set<int> {
    s.list + if n in s.m && |s.m[n].data| > MAX_EXTERNAL then DataOf(s.vs, n) else {}
  }

  /** The first place of a reference. */
  method FindRef(vks: seq<int>, ref: int, ghost i: nat) returns (k: nat)
    requires i < |vks| && vks[i] == ref && forall j :: 0 <= j < |vks| && vks[j] == ref ==> j == i
    ensures k == i
  {
    k := 0;
    while vks[k] != ref
      invariant 0 <= k <= i
      decreases i - k
    {
      k := k + 1;
    }
  }

  class ValueEditor {
    const store: CellStore
    var vkIdx: map<Edge, int>

    constructor (s: CellStore, idx: map<Edge, int>)
      ensures store == s && vkIdx == idx
    {
      store, vkIdx := s, idx;
    }

    /** One cell with the data at its beginning. */
    method AllocateDataCell(data: seq<Byte>) returns (ref: int)
      requires store.Valid() && 0 < store.Room()
      modifies store
      ensures store.Valid() && ref !in old(store.cells) && BigData.BlockHas(store.cells, ref, data)
      ensures store.cells == old(store.cells)[ref := store.cells[ref]] && store.Room() == old(store.Room()) - 1
    {
      var payload;
      ref, payload := store.AllocRaw(|data|);
      store.Write(ref, Raw(data + payload[|data|..]));
      assert (data + payload[|data|..])[..|data|] == data;
    }

    /** The data goes to its place first, then the value cell is allocated: all in new cells. */
    method AllocateVK(name: Name, x: Value) returns (r: AllocVK, ghost data: set<int>)
      requires store.Valid()
      modifies store
      ensures store.Valid()
      ensures r.DataTooLarge? <==> |x.data| > ONE_GB
      ensures r.TooManyBlocks? <==> MOST < |x.data| <= ONE_GB
      ensures r.NoRoom? <==> |x.data| <= MOST && old(store.Room()) < DataRoom(x)
      ensures !r.Allocated? ==> store.cells == old(store.cells) && store.Room() == old(store.Room())
      ensures store.Room() + DataRoom(x) + 1 >= old(store.Room())
      ensures r.Allocated? ==> NewValue(old(store.cells), store.cells, ValueT(r.ref, Lower(name), data), x)
    {
      data := {};
      if |x.data| > ONE_GB { return DataTooLarge, data; }
      var dataRef, small := 0, [];
      if |x.data| <= INLINE {
        small := x.data;
      } else if |x.data| <= MAX_EXTERNAL {
        var ok := store.Reserve(|x.data| + 4, 1);
        if !ok { return NoRoom, data; }
        dataRef := AllocateDataCell(x.data);
        data := {dataRef};
      } else {
        var st;
        st, data := BigData.Store(store, x.data);
        if st.TooManyBlocks? { return TooManyBlocks, {}; }
        if st.NoRoom? { return NoRoom, {}; }
        dataRef := st.ref;
      }
      ghost var mid := store.cells;
      var ref := store.Alloc(ValueKey(Lower(name), x.typ, |x.data|, dataRef, small));
      if |x.data| > MAX_EXTERNAL {
        BigData.HoldsFrame(mid, store.cells, dataRef, x.data, data);
      }
      r := Allocated(ref);
    }

    /** A new value list cell, and the key's count of values. */
    method WriteList(nk: int, vks: seq<int>) returns (listRef: int)
      requires store.Valid() && nk in store.cells && store.cells[nk].Key?
      modifies store
      ensures store.Valid() && listRef !in old(store.cells) && (listRef == INVALID <==> vks == []) && listRef != 0
      ensures store.cells == (if vks == [] then old(store.cells) else old(store.cells)[listRef := ValueList(vks)])
        [nk := old(store.cells)[nk].(valueCount := |vks|, valueList := listRef)]
      ensures store.Room() + 1 >= old(store.Room())
    {
      listRef := INVALID;
      if |vks| > 0 {
        listRef := store.Alloc(ValueList(vks));
      }
      store.Write(nk, store.cells[nk].(valueCount := |vks|, valueList := listRef));
    }

    /** Whether an existing value is to be written again; one kept as big data is never read. */
    method NeedsUpdate(vkRef: int, x: Value, ghost v: ValueT, ghost was: Value) returns (c: Compared)
      requires Stored(store.cells, v, was) && v.vk == vkRef
      ensures c == if was.typ != x.typ || |was.data| != |x.data| then Differs
                   else if |x.data| > MAX_EXTERNAL then Unreadable
                   else if was.data == x.data then Same else Differs
    {
      var k := store.cells[vkRef];
      if k.typ != x.typ { return Differs; }
      if k.dataLen != |x.data| { return Differs; }
      if k.dataLen <= INLINE {
        c := if k.small == x.data then Same else Differs;
      } else {
        var payload := PayloadOf(store.cells, store.encode, k.dataRef);
        if |payload| < k.dataLen { return Unreadable; }
        c := if payload[..k.dataLen] == x.data then Same else Differs;
      }
    }

    /** The old value's cell, and its data unless that is big data. */
    method FreeVK(vkRef: int, ghost v: ValueT, ghost was: Value)
      requires store.Valid() && Stored(store.cells, v, was) && v.vk == vkRef && v.vk !in v.data
      modifies store`cells
      ensures store.Valid()
      ensures store.cells == old(store.cells) - Given(v, was)
    {
      var k := store.cells[vkRef];
      if k.dataLen > INLINE && k.dataRef != 0 && k.dataLen <= MAX_EXTERNAL {
        store.Free(k.dataRef);
      }
      store.Free(vkRef);
    }

    // ----- Operations -----

    method GetVK(nk: int, name: Name) returns (r: Option<int>)
      ensures r == if Edge(nk, Lower(name)) in vkIdx then Some(vkIdx[Edge(nk, Lower(name))]) else None
    {
      var e := Edge(nk, Lower(name));
      r := if e in vkIdx then Some(vkIdx[e]) else None;
    }

    method ReadList(nk: int, ghost s: KeyState) returns (vks: seq<int>)
      requires KeyOk(store.cells, nk, s)
      ensures vks == VKs(s.vs)
    {
      var k := store.cells[nk];
      if k.valueCount > 0 {
        vks := store.cells[k.valueList].vks;
      } else {
        vks := [];
      }
    }

    /** A new value at the end of the list. Of the key's cells, the old list's stays allocated. */
    method CreateValue(nk: int, name: Name, x: Value, ghost s: KeyState) returns (r: AllocVK, ghost s': KeyState)
      requires store.Valid() && KeyOk(store.cells, nk, s) && IndexOk(vkIdx, nk, s.vs) && Lower(name) !in s.m
      modifies store, this`vkIdx
      ensures store.Valid() && KeyOk(store.cells, nk, s') && IndexOk(vkIdx, nk, s'.vs)
      ensures r.NoRoom? <==> |x.data| <= MOST && old(store.Room()) < DataRoom(x)
      ensures r.Allocated? ==> |x.data| <= MOST
      ensures !r.Allocated? ==> s' == s && store.cells == old(store.cells) && vkIdx == old(vkIdx)
      ensures r.Allocated? ==> s'.m == s.m[Lower(name) := x] && EditOf(old(store.cells), store.cells, nk, s, s', s.list)
      ensures !r.Allocated? && !r.NoRoom? ==> |x.data| > MOST
      ensures OthersKept(old(vkIdx), vkIdx, nk) && store.Room() + DataRoom(x) + 2 >= old(store.Room())
    {
      ghost var a := store.cells;
      s' := s;
      ghost var data;
      r, data := AllocateVK(name, x);
      if !r.Allocated? { return; }
      ghost var v, mid := ValueT(r.ref, Lower(name), data), store.cells;
      NewKept(a, mid, nk, s, v, x);
      var vks := ReadList(nk, s);
      var lref := WriteList(nk, vks + [r.ref]);
      VksEdited(s.vs, 0, v);
      AppendedOk(a, mid, store.cells, nk, s, v, x, lref);
      CreatedEdit(a, mid, store.cells, nk, s, v, x, lref);
      AppendedIndex(vkIdx, nk, s.vs, v);
      OthersPut(vkIdx, nk, Lower(name), r.ref);
      vkIdx := vkIdx[Edge(nk, Lower(name)) := r.ref];
      s' := Appended(s, v, x, lref);
    }

    /** A new value cell in the place of the old one, which is freed. Of the key's cells, the old list's stays
        allocated, and those of the old data exactly if it is big. */
    method UpdateValue(nk: int, vkRef: int, name: Name, x: Value, ghost s: KeyState, ghost i: nat)
      returns (r: AllocVK, ghost s': KeyState)
      requires store.Valid() && KeyOk(store.cells, nk, s) && IndexOk(vkIdx, nk, s.vs)
      requires i < |s.vs| && s.vs[i].name == Lower(name) && vkRef == s.vs[i].vk
      modifies store, this`vkIdx
      ensures store.Valid() && KeyOk(store.cells, nk, s') && IndexOk(vkIdx, nk, s'.vs)
      ensures r.NoRoom? <==> |x.data| <= MOST && old(store.Room()) < DataRoom(x)
      ensures r.Allocated? ==> |x.data| <= MOST
      ensures !r.Allocated? ==> s' == s && store.cells == old(store.cells) && vkIdx == old(vkIdx)
      ensures r.Allocated? ==> s'.m == s.m[Lower(name) := x]
      ensures r.Allocated? ==> EditOf(old(store.cells), store.cells, nk, s, s', LeftBy(s, Lower(name)))
      ensures !r.Allocated? && !r.NoRoom? ==> |x.data| > MOST
      ensures OthersKept(old(vkIdx), vkIdx, nk) && store.Room() + DataRoom(x) + 2 >= old(store.Room())
    {
      ghost var a := store.cells;
      s' := s;
      ghost var data;
      r, data := AllocateVK(name, x);
      if !r.Allocated? { return; }
      ghost var v, mid := ValueT(r.ref, Lower(name), data), store.cells;
      var lref := ReplaceInValueList(nk, vkRef, r.ref, a, s, i, v, x);
      ReplacedIndex(vkIdx, nk, s.vs, i, v);
      OthersPut(vkIdx, nk, Lower(name), r.ref);
      vkIdx := vkIdx[Edge(nk, Lower(name)) := r.ref];
      FreeReplaced(nk, vkRef, a, mid, s, i, v, x, lref);
      s' := Replaced(s, i, v, x, lref);
    }

    method FreeReplaced(nk: int, vkRef: int, ghost a: Cells, ghost mid: Cells, ghost s: KeyState, ghost i: nat,
                        ghost v: ValueT, ghost x: Value, ghost lref: int)
      requires store.Valid() && KeyOk(a, nk, s) && i < |s.vs| && vkRef == s.vs[i].vk && v.name == s.vs[i].name
      requires NewValue(a, mid, v, x) && Listing(mid, store.cells, nk, VKs(s.vs[i := v]), lref, {}) && v.name in s.m
      requires Stored(store.cells, s.vs[i], s.m[v.name]) && s.vs[i].vk !in s.vs[i].data
      modifies store`cells
      ensures store.Valid()
      ensures var s' := Replaced(s, i, v, x, lref);
        KeyOk(store.cells, nk, s') && EditOf(a, store.cells, nk, s, s', LeftBy(s, v.name))
    {
      ghost var listed := store.cells;
      FreeVK(vkRef, s.vs[i], s.m[v.name]);
      UpdatedAll(a, mid, listed, nk, s, i, v, x, lref);
      DataOfName(s.vs, i);
    }

    method ReplaceInValueList(nk: int, oldRef: int, newRef: int, ghost a: Cells, ghost s: KeyState, ghost i: nat,
                              ghost v: ValueT, ghost x: Value)
      returns (lref: int)
      requires store.Valid() && KeyOk(a, nk, s) && i < |s.vs| && oldRef == s.vs[i].vk && NewValue(a, store.cells, v, x)
      requires newRef == v.vk
      modifies store
      ensures store.Valid() && Listing(old(store.cells), store.cells, nk, VKs(s.vs[i := v]), lref, {})
      ensures s.vs[i].name in s.m && Stored(store.cells, s.vs[i], s.m[s.vs[i].name]) && s.vs[i].vk !in s.vs[i].data
      ensures store.Room() + 1 >= old(store.Room())
    {
      ghost var mid := store.cells;
      NewKept(a, mid, nk, s, v, x);
      var vks := ReadList(nk, s);
      VksDistinct(nk, s, i);
      var k := FindRef(vks, oldRef, i);
      VksEdited(s.vs, i, v);
      vks := vks[k := newRef];
      lref := WriteList(nk, vks);
      StillStored(a, mid, store.cells, nk, s, i, vks, lref);
    }

    /** Removes the value, its cell and its data, if there is one of the name: exactly its cells are freed, unless its
        data is in one cell whose bytes are followed as a big-data header. */
    method DeleteValue(nk: int, name: Name, ghost s: KeyState) returns (ghost s': KeyState)
      requires store.Valid() && KeyOk(store.cells, nk, s) && IndexOk(vkIdx, nk, s.vs)
      modifies store, this`vkIdx
      ensures store.Valid() && OthersKept(old(vkIdx), vkIdx, nk) && store.Room() + 1 >= old(store.Room())
      ensures s'.m == s.m - {Lower(name)} && IndexOk(vkIdx, nk, s'.vs)
      ensures Lower(name) !in s.m ==> s' == s && store.cells == old(store.cells) && vkIdx == old(vkIdx)
      ensures Deletable(old(store.cells), s, Lower(name)) ==> KeyOk(store.cells, nk, s')
      ensures Deletable(old(store.cells), s, Lower(name)) && Lower(name) in s.m ==>
        EditOf(old(store.cells), store.cells, nk, s, s', s.list)
    {
      s' := s;
      var found := GetVK(nk, name);
      if found.None? {
        assert Lower(name) !in NamesOf(s.vs);
        return;
      }
      ghost var i := IndexOfName(vkIdx, nk, s, Lower(name));
      s' := RemoveValue(nk, found.value, s, i);
    }

    method RemoveValue(nk: int, vkRef: int, ghost s: KeyState, ghost i: nat) returns (ghost s': KeyState)
      requires store.Valid() && KeyOk(store.cells, nk, s) && IndexOk(vkIdx, nk, s.vs) && i < |s.vs|
      requires vkRef == s.vs[i].vk
      modifies store, this`vkIdx
      ensures store.Valid() && OthersKept(old(vkIdx), vkIdx, nk) && store.Room() + 1 >= old(store.Room())
      ensures s'.m == s.m - {s.vs[i].name} && IndexOk(vkIdx, nk, s'.vs)
      ensures PlainValue(old(store.cells), s.vs[i]) ==>
        KeyOk(store.cells, nk, s') && EditOf(old(store.cells), store.cells, nk, s, s', s.list)
    {
      ghost var a, was := store.cells, s.vs[i];
      OldKept(a, nk, s, i);
      var vk := store.cells[vkRef];
      var lref := RemoveFromValueList(nk, vkRef, s, i);
      ghost var listed := store.cells;
      FreeValue(vkRef, was);
      DroppedIndex(vkIdx, nk, s.vs, i);
      OthersDrop(vkIdx, nk, vk.name);
      vkIdx := vkIdx - {Edge(nk, vk.name)};
      if PlainValue(a, was) {
        PlainFrame(a, listed, was);
        RemovedAll(a, listed, nk, s, i, lref);
      }
      s' := Dropped(s, i, lref);
    }

    /** The data as its bytes tell, and then the value cell. */
    method FreeValue(vkRef: int, ghost v: ValueT)
      requires store.Valid() && ValueIs(store.cells, v) && v.vk == vkRef && v.vk !in v.data
      modifies store`cells
      ensures store.Valid()
      ensures PlainValue(old(store.cells), v) ==> store.cells == old(store.cells) - ValueCells(v)
    {
      var vk := store.cells[vkRef];
      if vk.dataLen > INLINE && IsRef(vk.dataRef) {
        if PlainValue(store.cells, v) {
          OwnedFreed(store.cells, store.encode, vk.dataLen, vk.dataRef, v.data);
        }
        FreeData(store, vk.dataRef);
      }
      var _ := store.TryFree(vkRef);
    }

    method RemoveFromValueList(nk: int, vkRef: int, ghost s: KeyState, ghost i: nat) returns (lref: int)
      requires store.Valid() && KeyOk(store.cells, nk, s) && i < |s.vs| && vkRef == s.vs[i].vk
      modifies store
      ensures store.Valid() && store.Room() + 1 >= old(store.Room())
      ensures Listing(old(store.cells), store.cells, nk, VKs(s.vs[..i] + s.vs[i + 1..]), lref, {})
      ensures ValueIs(store.cells, s.vs[i]) && Agree(old(store.cells), store.cells, ValueCells(s.vs[i]))
      ensures s.vs[i].vk !in s.vs[i].data
    {
      ghost var a := store.cells;
      var vks := ReadList(nk, s);
      VksDistinct(nk, s, i);
      var k := FindRef(vks, vkRef, i);
      VksEdited(s.vs, i, s.vs[i]);
      vks := vks[..k] + vks[k + 1..];
      OldKept(a, nk, s, i);
      lref := WriteList(nk, vks);
      StillStored(a, a, store.cells, nk, s, i, vks, lref);
    }

    /** Sets a value: nothing is done when it is there as it is; a value kept as big data that would only change its
        bytes cannot be compared and is refused. */
    method UpsertValue(nk: int, name: Name, x: Value, ghost s: KeyState)
      returns (r: UpsertResult, ghost s': KeyState, ghost left: set<int>)
      requires store.Valid() && KeyOk(store.cells, nk, s) && IndexOk(vkIdx, nk, s.vs)
      modifies store, this`vkIdx
      ensures store.Valid() && KeyOk(store.cells, nk, s') && IndexOk(vkIdx, nk, s'.vs)
      ensures r.CannotCompare? <==> Uncomparable(s.m, Lower(name), x)
      ensures r.TooLarge? <==> |x.data| > MOST && !Uncomparable(s.m, Lower(name), x)
      ensures r.HiveFull? <==> NeedsRoom(s.m, Lower(name), x) && old(store.Room()) < DataRoom(x)
      ensures !r.Done? ==> s' == s && store.cells == old(store.cells) && vkIdx == old(vkIdx)
      ensures r.Done? ==> s'.m == s.m[Lower(name) := x]
      ensures r.Done? && Lower(name) in s.m && s.m[Lower(name)] == x ==> store.cells == old(store.cells) && s' == s
      ensures EditOf(old(store.cells), store.cells, nk, s, s', left)
      ensures left == if r.Done? && !(Lower(name) in s.m && s.m[Lower(name)] == x) then LeftBy(s, Lower(name)) else {}
      ensures OthersKept(old(vkIdx), vkIdx, nk) && store.Room() + DataRoom(x) + 2 >= old(store.Room())
    {
      s', left := s, {};
      NoRun(store.cells, nk, s);
      var found := GetVK(nk, name);
      var a;
      if found.Some? {
        ghost var i := IndexOfName(vkIdx, nk, s, Lower(name));
        var c := NeedsUpdate(found.value, x, s.vs[i], s.m[s.vs[i].name]);
        if c == Unreadable { return CannotCompare, s, {}; }
        if c == Same {
          assert s.m[Lower(name) := x] == s.m;
          return Done, s, {};
        }
        a, s' := UpdateValue(nk, found.value, name, x, s, i);
      } else {
        assert Lower(name) !in NamesOf(s.vs);
        a, s' := CreateValue(nk, name, x, s);
      }
      if a.Allocated? { left := LeftBy(s, Lower(name)); }
      r := if a.Allocated? then Done else if a.NoRoom? then HiveFull else TooLarge;
    }

    /** One value operation. */
    method ApplyOne(nk: int, op: Op, ghost s: KeyState)
      returns (r: UpsertResult, ghost s': KeyState, ghost left: set<int>)
      requires store.Valid() && KeyOk(store.cells, nk, s) && IndexOk(vkIdx, nk, s.vs)
      requires op.DeleteValue? && op.ValueName() in s.m ==> !Led(s.m[op.ValueName()])
      modifies store, this`vkIdx
      ensures store.Valid() && KeyOk(store.cells, nk, s') && IndexOk(vkIdx, nk, s'.vs)
      ensures OthersKept(old(vkIdx), vkIdx, nk)
      ensures op.SetValue? && Refused(s.m, op) <==> r.TooLarge? || r.CannotCompare?
      ensures r.HiveFull? ==> op.SetValue? && old(store.Room()) < DataRoom(op.value)
      ensures s'.m == if r.Done? then ValueStep(s.m, op) else s.m
      ensures EditOf(old(store.cells), store.cells, nk, s, s', left)
      ensures store.Room() + 2 + (if op.SetValue? then DataRoom(op.value) else 0) >= old(store.Room())
    {
      r, s', left := Done, s, {};
      NoRun(store.cells, nk, s);
      match op {
        case SetValue(_, name, x) => r, s', left := UpsertValue(nk, name, x, s);
        case DeleteValue(_, name) =>
          DeletableIf(store.cells, nk, s, Lower(name));
          s' := DeleteValue(nk, name, s);
          if Lower(name) in s.m { left := s.list; }
        case _ =>
      }
    }

    /** One operation of a run. */
    method ApplyNext(nk: int, ops: seq<Op>, i: nat, ghost a: Cells, ghost s0: KeyState, ghost s: KeyState,
                     ghost left0: set<int>)
      returns (r: UpsertResult, ghost s': KeyState, ghost left: set<int>)
      requires store.Valid() && KeyOk(store.cells, nk, s) && IndexOk(vkIdx, nk, s.vs) && i < |ops|
      requires GotTo(s0.m, ops, i, s.m) && RunOf(a, store.cells, nk, s0, s, left0) && DeletesPlain(s0.m, ops)
      modifies store, this`vkIdx
      ensures store.Valid() && KeyOk(store.cells, nk, s') && IndexOk(vkIdx, nk, s'.vs)
      ensures OthersKept(old(vkIdx), vkIdx, nk) && RunOf(a, store.cells, nk, s0, s', left)
      ensures r.Done? ==> GotTo(s0.m, ops, i + 1, s'.m)
      ensures !r.Done? ==> s'.m == s.m && (r.HiveFull? <==> i < Taken(s0.m, ops)) && i <= Taken(s0.m, ops)
      ensures r.HiveFull? ==> old(store.Room()) + RunRoom(ops[..i]) < RunRoom(ops)
      ensures store.Room() + RunRoom(ops[..i + 1]) >= old(store.Room()) + RunRoom(ops[..i])
    {
      TakenNext(s0.m, ops, i, s.m);
      RunRoomGrows(ops, i);
      assert DeletesPlainAt(s0.m, ops, i);
      assert ops[..i + 1][..i] == ops[..i];
      ghost var b, more := store.cells, {};
      r, s', more := ApplyOne(nk, ops[i], s);
      RunNext(a, b, store.cells, nk, s0, s, s', left0, more);
      left := left0 + more;
    }

    /** A run of value operations: as far as it gets, the key's cells, its count of values and the index agree with the
        map that the same operations make; no other cell changes, and `left` is what is allocated without an owner. With
        room for the data of all of them it stops only at the first value that is refused. */
    method UpsertValues(nk: int, ops: seq<Op>, ghost s: KeyState)
      returns (r: UpsertResult, done: nat, ghost s': KeyState, ghost left: set<int>)
      requires store.Valid() && KeyOk(store.cells, nk, s) && IndexOk(vkIdx, nk, s.vs) && DeletesPlain(s.m, ops)
      modifies store, this`vkIdx
      ensures store.Valid() && KeyOk(store.cells, nk, s') && IndexOk(vkIdx, nk, s'.vs)
      ensures OthersKept(old(vkIdx), vkIdx, nk)
      ensures done <= Taken(s.m, ops) && s'.m == ValuesAfter(s.m, ops[..done]) && (r.Done? <==> done == |ops|)
      ensures done < Taken(s.m, ops) <==> r.HiveFull?
      ensures RunRoom(ops) <= old(store.Room()) ==> !r.HiveFull?
      ensures RunOf(old(store.cells), store.cells, nk, s, s', left)
      ensures store.cells[nk].valueCount == |s'.m|
    {
      ghost var a, room := store.cells, store.Room();
      r, done, s', left := Done, 0, s, {};
      NoRun(a, nk, s);
      while done < |ops|
        invariant store.Valid() && KeyOk(store.cells, nk, s') && IndexOk(vkIdx, nk, s'.vs)
        invariant GotTo(s.m, ops, done, s'.m) && r.Done?
        invariant OthersKept(old(vkIdx), vkIdx, nk) && RunOf(a, store.cells, nk, s, s', left)
        invariant store.Room() + RunRoom(ops[..done]) >= room
      {
        r, s', left := ApplyNext(nk, ops, done, a, s, s', left);
        if !r.Done? { break; }
        done := done + 1;
      }
      if done == |ops| { TakenAll(s.m, ops, s'.m); }
      CountIsSize(store.cells, nk, s');
    }
  }
}
