/** The decode cache: least-recently-used shards over raw name bytes (hive/namecache/cache.go), one operation at a
    time. */
module NameCache {
  import opened Bytes
  import opened Registry
  import NameIndex

  type Key = string

  datatype Decoded = Decoded(name: string, regHash: Word, fnvHash: Word)

  // ----- Recency -----

  function Minus(ks: seq<Key>, k: Key): seq<Key> {
    if ks == [] then []
    else if ks[0] == k then Minus(ks[1..], k)
    else [ks[0]] + Minus(ks[1..], k)
  }

  /** The keys of a history of touches, most recent first, each once. */
  function Recent(touched: seq<Key>): seq<Key> {
    if touched == [] then []
    else var k := touched[|touched| - 1]; [k] + Minus(Recent(touched[..|touched| - 1]), k)
  }

  function FirstOf(ks: seq<Key>, c: nat): seq<Key> {
    if c <= |ks| then ks[..c] else ks
  }

  predicate Distinct(ks: seq<Key>) {
    forall i, j :: 0 <= i < j < |ks| ==> ks[i] != ks[j]
  }

  lemma DistinctCons(x: Key, ks: seq<Key>)
    requires Distinct(ks) && x !in ks
    ensures Distinct([x] + ks)
  {
  }

  lemma {:induction false} MinusMembers(ks: seq<Key>, k: Key)
    ensures forall x :: x in Minus(ks, k) <==> x in ks && x != k
    ensures Distinct(ks) ==> Distinct(Minus(ks, k))
  {
    if ks != [] {
      MinusMembers(ks[1..], k);
      assert ks == [ks[0]] + ks[1..];
      if Distinct(ks) && ks[0] != k {
        DistinctCons(ks[0], Minus(ks[1..], k));
      }
    }
  }

  lemma {:induction false} MinusNone(ks: seq<Key>, k: Key)
    requires k !in ks
    ensures Minus(ks, k) == ks
  {
    if ks != [] {
      MinusNone(ks[1..], k);
      assert ks == [ks[0]] + ks[1..];
    }
  }

  lemma {:induction false} RecentDistinct(touched: seq<Key>)
    ensures Distinct(Recent(touched)) && forall k :: k in Recent(touched) <==> k in touched
  {
    if touched != [] {
      var before, k := touched[..|touched| - 1], touched[|touched| - 1];
      RecentDistinct(before);
      MinusMembers(Recent(before), k);
      DistinctCons(k, Minus(Recent(before), k));
      assert touched == before + [k];
    }
  }

  lemma FirstOfCons(x: Key, ks: seq<Key>, c: nat)
    requires c > 0
    ensures FirstOf([x] + ks, c) == [x] + FirstOf(ks, c - 1)
  {
  }

  lemma {:induction false} MinusHit(ks: seq<Key>, k: Key, c: nat)
    requires Distinct(ks) && k in FirstOf(ks, c)
    ensures c > 0 && FirstOf(Minus(ks, k), c - 1) == Minus(FirstOf(ks, c), k)
  {
    var rest := ks[1..];
    assert ks == [ks[0]] + rest && c > 0;
    FirstOfCons(ks[0], rest, c);
    if ks[0] == k {
      MinusNone(rest, k);
      MinusNone(FirstOf(rest, c - 1), k);
    } else {
      MinusHit(rest, k, c - 1);
      FirstOfCons(ks[0], Minus(rest, k), c - 1);
    }
  }

  lemma {:induction false} MinusMiss(ks: seq<Key>, k: Key, c: nat)
    requires c > 0 && k !in FirstOf(ks, c)
    ensures FirstOf(Minus(ks, k), c - 1) == FirstOf(ks, c - 1)
  {
    if ks != [] && c > 1 {
      var rest := ks[1..];
      assert ks == [ks[0]] + rest;
      FirstOfCons(ks[0], rest, c);
      MinusMiss(rest, k, c - 1);
      FirstOfCons(ks[0], Minus(rest, k), c - 1);
      FirstOfCons(ks[0], rest, c - 1);
    }
  }

  /** One more touch, of a key that is cached or that is not. */
  lemma Touched(touched: seq<Key>, k: Key, c: nat)
    ensures var was, after := FirstOf(Recent(touched), c), FirstOf(Recent(touched + [k]), c);
      && (k in was ==> after == [k] + Minus(was, k))
      && (k !in was && c > 0 ==> after == [k] + (if |was| < c then was else was[..c - 1]))
  {
    assert (touched + [k])[..|touched|] == touched;
    RecentDistinct(touched);
    var r := Recent(touched);
    if k in FirstOf(r, c) {
      MinusHit(r, k, c);
      FirstOfCons(k, Minus(r, k), c);
    } else if c > 0 {
      MinusMiss(r, k, c);
      FirstOfCons(k, Minus(r, k), c);
    }
  }

  function Reversed(ks: seq<Key>): seq<Key> {
    if ks == [] then [] else Reversed(ks[1..]) + [ks[0]]
  }

  lemma {:induction false} RecentReversed(ks: seq<Key>)
    requires Distinct(ks)
    ensures Recent(Reversed(ks)) == ks
  {
    if ks != [] {
      var t := Reversed(ks[1..]);
      RecentReversed(ks[1..]);
      assert (t + [ks[0]])[..|t|] == t;
      assert ks[0] !in ks[1..];
      MinusNone(ks[1..], ks[0]);
    }
  }

  // ----- One shard -----

  /** A list element; its decoded name is replaced in place. */
  class Element {
    const key: Key
    var decoded: Decoded

    constructor (k: Key, d: Decoded)
      ensures key == k && decoded == d
    {
      key, decoded := k, d;
    }
  }

  function KeysOf(es: seq<Element>): (ks: seq<Key>)
    ensures |ks| == |es|
  {
    seq(|es|, i requires 0 <= i < |es| => es[i].key)
  }

  /** The list without an element. */
  function Unlinked(es: seq<Element>, e: Element): seq<Element> {
    if es == [] then []
    else if es[0] == e then Unlinked(es[1..], e)
    else [es[0]] + Unlinked(es[1..], e)
  }

  lemma {:induction false} UnlinkedKeys(es: seq<Element>, e: Element)
    requires forall i :: 0 <= i < |es| && es[i].key == e.key ==> es[i] == e
    ensures KeysOf(Unlinked(es, e)) == Minus(KeysOf(es), e.key)
    ensures forall i :: 0 <= i < |Unlinked(es, e)| ==> Unlinked(es, e)[i] in es
    ensures forall i :: 0 <= i < |es| && es[i] != e ==> es[i] in Unlinked(es, e)
  {
    if es != [] {
      UnlinkedKeys(es[1..], e);
      assert KeysOf(es)[1..] == KeysOf(es[1..]);
      assert es == [es[0]] + es[1..];
    }
  }

  /** The map finds exactly the list's elements by their keys. */
  ghost predicate Linked(items: map<Key, Element>, order: seq<Element>) {
    && (forall i :: 0 <= i < |order| ==> order[i].key in items && items[order[i].key] == order[i])
    && forall k :: k in items ==> items[k] in order && items[k].key == k
  }

  lemma LinkedKeys(items: map<Key, Element>, order: seq<Element>, k: Key)
    requires Linked(items, order)
    ensures k in items <==> k in KeysOf(order)
  {
    if k in items {
      var i :| 0 <= i < |order| && order[i] == items[k];
      assert KeysOf(order)[i] == k;
    }
    if k in KeysOf(order) {
      var i :| 0 <= i < |order| && KeysOf(order)[i] == k;
      assert order[i] in order;
    }
  }

  lemma LinkedFront(items: map<Key, Element>, order: seq<Element>, e: Element)
    requires Linked(items, order) && e in order
    ensures var moved := [e] + Unlinked(order, e);
      && Linked(items, moved) && KeysOf(moved) == [e.key] + Minus(KeysOf(order), e.key)
      && (forall x :: x in moved <==> x in order)
  {
    UnlinkedKeys(order, e);
    var moved := [e] + Unlinked(order, e);
    forall i | 0 <= i < |moved| ensures moved[i] in order {
      if i > 0 { assert moved[i] == Unlinked(order, e)[i - 1]; }
    }
    forall x | x in order ensures x in moved {
      var i :| 0 <= i < |order| && order[i] == x;
    }
  }

  lemma LinkedPush(items: map<Key, Element>, order: seq<Element>, e: Element)
    requires Linked(items, order) && e.key !in items
    ensures Linked(items[e.key := e], [e] + order) && KeysOf([e] + order) == [e.key] + KeysOf(order)
  {
  }

  lemma LinkedPop(items: map<Key, Element>, order: seq<Element>)
    requires Linked(items, order) && order != [] && Distinct(KeysOf(order))
    ensures var n := |order| - 1; Linked(items - {order[n].key}, order[..n]) && KeysOf(order[..n]) == KeysOf(order)[..n]
  {
    var n := |order| - 1;
    forall e | e in order[..n] ensures e in order && e.key != order[n].key {
      var i :| 0 <= i < n && order[i] == e;
      assert KeysOf(order)[i] != KeysOf(order)[n];
    }
    forall k | k in items && k != order[n].key ensures items[k] in order[..n] {
      var i :| 0 <= i < |order| && order[i] == items[k];
      assert order[..n][i] == items[k];
    }
  }

  class Shard {
    var capacity: nat
    var items: map<Key, Element>
    var order: seq<Element>
    ghost var touched: seq<Key>
    ghost var last: map<Key, Decoded>

    ghost function Repr(): set<Element>
      reads this
    {
      set e | e in order
    }

    /** Map and list hold the same elements, once each: those of the most recently touched keys, in order, with what was
        stored last for each. */
    ghost predicate Valid()
      reads this, Repr()
    {
      && Linked(items, order)
      && KeysOf(order) == FirstOf(Recent(touched), capacity)
      && Remembers()
    }

    constructor (c: nat)
      ensures Valid() && capacity == c && order == [] && touched == [] && last == map[]
    {
      capacity, items, order, touched, last := c, map[], [], [], map[];
    }

    /** A hit gives what was stored last, and touches the key. */
    method Lookup(data: Key) returns (r: Option<Decoded>)
      requires Valid()
      modifies this`order, this`touched
      ensures Valid() && r.Some? == (data in old(items))
      ensures r.Some? ==> data in last && r.value == last[data] && touched == old(touched) + [data]
      ensures r.None? ==> order == old(order) && touched == old(touched)
      ensures forall x :: x in order <==> x in old(order)
    {
      if capacity == 0 {
        LinkedKeys(items, order, data);
        return None;
      }
      if data !in items { return None; }
      var elem := items[data];
      MoveToFront(elem);
      r := Some(elem.decoded);
    }

    method MoveToFront(e: Element)
      requires Valid() && e in order
      modifies this`order, this`touched
      ensures Valid() && touched == old(touched) + [e.key]
      ensures forall x :: x in order <==> x in old(order)
    {
      LinkedFront(items, order, e);
      LinkedKeys(items, order, e.key);
      Touched(touched, e.key, capacity);
      order := [e] + Unlinked(order, e);
      touched := touched + [e.key];
    }

    /** Stores a triple for a key and touches it; when the shard is full a new key takes the place of the least
        recently touched one. */
    method Store(data: Key, d: Decoded)
      requires Valid()
      modifies this, Repr()
      ensures Valid() && capacity == old(capacity) && fresh(Repr() - old(Repr()))
      ensures touched == if capacity == 0 then old(touched) else old(touched) + [data]
      ensures last == if capacity == 0 then old(last) else old(last)[data := d]
    {
      if capacity == 0 { return; }
      if data in items {
        var elem := items[data];
        MoveToFront(elem);
        elem.decoded := d;
        last := last[data := d];
      } else {
        Insert(data, d);
      }
    }

    method Insert(data: Key, d: Decoded)
      requires Valid() && capacity > 0 && data !in items
      modifies this`items, this`order, this`touched, this`last
      ensures Valid() && forall i :: 0 <= i < |order| ==> order[i] in old(order) || fresh(order[i])
      ensures touched == old(touched) + [data] && last == old(last)[data := d]
    {
      LinkedKeys(items, order, data);
      Touched(touched, data, capacity);
      RecentDistinct(touched);
      touched := touched + [data];
      InsertNew(data, d);
    }

    ghost predicate Remembers()
      reads this, Repr()
    {
      forall i :: 0 <= i < |order| ==> order[i].key in last && last[order[i].key] == order[i].decoded
    }

    method InsertNew(data: Key, d: Decoded)
      requires Linked(items, order) && Distinct(KeysOf(order)) && 0 < capacity && |order| <= capacity
      requires data !in items && Remembers()
      modifies this`items, this`order, this`last
      ensures Linked(items, order) && Remembers() && last == old(last)[data := d]
      ensures KeysOf(order) ==
        [data] + if |old(order)| < capacity then KeysOf(old(order)) else KeysOf(old(order))[..capacity - 1]
      ensures forall i :: 0 <= i < |order| ==> order[i] in old(order) || fresh(order[i])
    {
      MakeRoom();
      PushFront(data, d);
      last := last[data := d];
      forall i | 0 < i < |order| ensures order[i] == old(order)[i - 1] && order[i].key != data {
        assert order[1..][i - 1] == order[i];
        assert old(order)[i - 1].key in old(items);
      }
    }

    /** At capacity, the last element goes. */
    method MakeRoom()
      requires Linked(items, order) && Distinct(KeysOf(order)) && 0 < capacity && |order| <= capacity
      modifies this`order, this`items
      ensures Linked(items, order) && items.Keys <= old(items).Keys
      ensures order == if |old(order)| < capacity then old(order) else old(order)[..capacity - 1]
      ensures KeysOf(order) ==
        if |old(order)| < capacity then KeysOf(old(order)) else KeysOf(old(order))[..capacity - 1]
    {
      if |order| >= capacity {
        EvictBack();
      }
    }

    method PushFront(data: Key, d: Decoded)
      requires Linked(items, order) && data !in items
      modifies this`items, this`order
      ensures Linked(items, order) && KeysOf(order) == [data] + KeysOf(old(order))
      ensures |order| == |old(order)| + 1 && order[1..] == old(order) && fresh(order[0])
      ensures order[0].key == data && order[0].decoded == d
    {
      var elem := new Element(data, d);
      LinkedPush(items, order, elem);
      order := [elem] + order;
      items := items[data := elem];
    }

    /** The least recently touched element goes from the list and from the map. */
    method EvictBack()
      requires Linked(items, order) && order != [] && Distinct(KeysOf(order))
      modifies this`order, this`items
      ensures Linked(items, order) && order == old(order)[..|old(order)| - 1]
      ensures KeysOf(order) == KeysOf(old(order))[..|old(order)| - 1]
      ensures items == old(items) - {old(order)[|old(order)| - 1].key}
    {
      LinkedPop(items, order);
      var evicted := order[|order| - 1];
      order := order[..|order| - 1];
      items := items - {evicted.key};
    }

    /** Evicts what is over the new capacity, least recently touched first. What is left is the history from now on. */
    method SetCapacity(n: nat)
      requires Valid()
      modifies this`capacity, this`order, this`items, this`touched
      ensures Valid() && capacity == n && KeysOf(order) == FirstOf(KeysOf(old(order)), n)
      ensures last == old(last) && forall i :: 0 <= i < |order| ==> order[i] in old(order)
    {
      RecentDistinct(touched);
      capacity := n;
      EvictTo(n);
      RecentReversed(KeysOf(order));
      touched := Reversed(KeysOf(order));
    }

    method EvictTo(n: nat)
      requires Linked(items, order) && Distinct(KeysOf(order)) && Remembers()
      modifies this`order, this`items
      ensures Linked(items, order) && Remembers() && |order| <= |old(order)| && order == old(order)[..|order|]
      ensures KeysOf(order) == FirstOf(KeysOf(old(order)), n) && Distinct(KeysOf(order)) && |order| <= n
    {
      ghost var was := order;
      while |order| > n
        invariant Linked(items, order) && Remembers() && |order| <= |was| && order == was[..|order|]
        invariant KeysOf(order) == KeysOf(was)[..|order|] && (|order| < |was| ==> |order| >= n)
      {
        EvictBack();
      }
    }

    method Reset()
      requires Valid()
      modifies this`order, this`items, this`touched
      ensures Valid() && order == [] && touched == [] && capacity == old(capacity)
    {
      items, order, touched := map[], [], [];
    }

    method Len() returns (n: nat)
      requires Valid()
      ensures n == |order| <= capacity
    {
      n := |order|;
    }
  }

  // ----- Sixteen shards -----

  const NUM_SHARDS := 16

  function PerShard(capacity: nat): nat {
    if capacity / NUM_SHARDS < 1 && capacity > 0 then 1 else capacity / NUM_SHARDS
  }

  function ShardFor(data: Key): nat {
    NameIndex.Fnv(data) % NUM_SHARDS
  }

  class ShardedCache {
    const shards: seq<Shard>
    const capacity: nat

    ghost predicate Apart()
      reads shards
    {
      forall i, j :: 0 <= i < j < |shards| ==> shards[i] != shards[j] && shards[i].Repr() !! shards[j].Repr()
    }

    ghost predicate Valid()
      reads shards, set i, e | 0 <= i < |shards| && e in shards[i].Repr() :: e
    {
      && |shards| == NUM_SHARDS && Apart()
      && forall i :: 0 <= i < |shards| ==> shards[i].Valid() && shards[i].capacity == PerShard(capacity)
    }

    constructor (c: nat)
      ensures Valid() && capacity == c && forall i :: 0 <= i < |shards| ==> shards[i].order == []
    {
      var ss: seq<Shard> := [];
      for k := 0 to NUM_SHARDS
        invariant |ss| == k && forall i :: 0 <= i < k ==>
          fresh(ss[i]) && ss[i].Valid() && ss[i].capacity == PerShard(c) && ss[i].order == []
        invariant forall i, j :: 0 <= i < j < k ==> ss[i] != ss[j]
      {
        var s := new Shard(PerShard(c));
        ss := ss + [s];
      }
      shards, capacity := ss, c;
    }

    method Lookup(data: Key) returns (r: Option<Decoded>)
      requires Valid()
      modifies shards[ShardFor(data)]
      ensures Valid()
      ensures var s := shards[ShardFor(data)];
        && r.Some? == (data in old(s.items)) && (r.Some? ==> data in s.last && r.value == s.last[data])
    {
      r := shards[ShardFor(data)].Lookup(data);
    }

    method Store(data: Key, d: Decoded)
      requires Valid()
      modifies shards[ShardFor(data)], shards[ShardFor(data)].Repr()
      ensures Valid()
      ensures var s := shards[ShardFor(data)]; s.last == if s.capacity == 0 then old(s.last) else old(s.last)[data := d]
    {
      shards[ShardFor(data)].Store(data, d);
    }

    /** All shards together hold no more than the capacity, or one element each. */
    method Len() returns (total: nat)
      requires Valid()
      ensures total <= if capacity == 0 then 0 else if capacity < NUM_SHARDS then NUM_SHARDS else capacity
    {
      total := 0;
      ghost var c, bound: nat := PerShard(capacity), 0;
      for i := 0 to |shards|
        invariant total <= bound == i * c
      {
        var n := shards[i].Len();
        assert n <= c;
        total, bound := total + n, bound + c;
      }
      assert bound == 16 * c;
    }
  }
}
