/** The free-cell indexes of hive/alloc/fastalloc.go: one min-heap per size class, the large list,
    and the maps that find a free cell by its start or by its end. */
module FreeIndex {
  import opened Bytes
  import opened SizeClasses
  import opened CellHeap
  import opened LargeList

  const FIRST_CELL := 4096 + 32
  const FIT_TOLERANCE := 64

  function Without(m: map<int, int>, k: int): map<int, int> {
    m - {k}
  }

  /** The end map takes exactly the ends of the listed cells to their starts. */
  ghost predicate Ends(endIdx: map<int, int>, listed: map<int, int>) {
    && (forall o :: o in listed ==> End(o, listed[o]) in endIdx && endIdx[End(o, listed[o])] == o)
    && (forall e :: e in endIdx ==> endIdx[e] in listed && End(endIdx[e], listed[endIdx[e]]) == e)
  }

  /** A listed cell taken out takes exactly its end with it. */
  lemma EndsRemove(endIdx: map<int, int>, listed: map<int, int>, o: int)
    requires Ends(endIdx, listed) && o in listed
    ensures Ends(Without(endIdx, End(o, listed[o])), Without(listed, o))
  {
  }

  /** A cell put in overwrites whatever its end was mapped to. */
  lemma EndsInsert(endIdx: map<int, int>, listed: map<int, int>, o: int, size: int)
    requires Ends(Without(endIdx, End(o, size)), listed) && o !in listed
    ensures Ends(endIdx[End(o, size) := o], listed[o := size])
  {
    var e, w := End(o, size), Without(endIdx, End(o, size));
    forall x | x in endIdx && x != e ensures endIdx[x] in listed && End(endIdx[x], listed[endIdx[x]]) == x {
      assert x in w;
    }
    forall k | k in listed ensures End(k, listed[k]) in endIdx && endIdx[End(k, listed[k])] == k != o {
      assert End(k, listed[k]) in w;
    }
  }

  /** `c` sits in list `sc`, which is its class, and is found and listed under its start. */
  ghost predicate Filed(c: FreeCell, sc: int, bounds: seq<int>, byOff: map<int, FreeCell>, listed: map<int, int>) {
    && c.sc == sc == ClassOf(bounds, c.size)
    && c.off in byOff && byOff[c.off] == c
    && c.off in listed && listed[c.off] == c.size
  }

  ghost predicate AllFiled(h: seq<FreeCell>, sc: int, bounds: seq<int>, byOff: map<int, FreeCell>,
          listed: map<int, int>)
  {
    HeapOrder(h) && forall c :: c in h ==> Filed(c, sc, bounds, byOff, listed)
  }

  /** The heaps, the start map and the listed cells agree. */
  ghost predicate HeapsAgree(bounds: seq<int>, lists: seq<seq<FreeCell>>, byOff: map<int, FreeCell>,
          listed: map<int, int>)
  {
    && |lists| == |bounds|
    && (forall sc :: 0 <= sc < |lists| ==> AllFiled(lists[sc], sc, bounds, byOff, listed))
    && (forall o :: o in byOff ==> byOff[o].off == o && byOff[o].sc < |lists| && byOff[o] in lists[byOff[o].sc])
    && (forall o :: o in listed && ClassOf(bounds, listed[o]) < |bounds| ==> o in byOff)
  }

  /** The large list holds exactly the listed cells above the last class, each once. */
  ghost predicate LargeAgrees(bounds: seq<int>, spine: seq<LargeBlock>, listed: map<int, int>) {
    && (forall b :: b in spine ==>
          b.off in listed && listed[b.off] == b.size && ClassOf(bounds, b.size) == |bounds|)
    && (forall i, j :: 0 <= i < j < |spine| ==> spine[i].off != spine[j].off)
    && (forall o :: o in listed && ClassOf(bounds, listed[o]) == |bounds| ==> exists b :: b in spine && b.off == o)
  }

  lemma FileLarge(bounds: seq<int>, spine: seq<LargeBlock>, listed: map<int, int>, b: LargeBlock)
    requires LargeAgrees(bounds, spine, listed) && b.off !in listed && ClassOf(bounds, b.size) == |bounds|
    ensures LargeAgrees(bounds, [b] + spine, listed[b.off := b.size])
  {
    var spine', listed' := [b] + spine, listed[b.off := b.size];
    forall o | o in listed' && ClassOf(bounds, listed'[o]) == |bounds| ensures exists x :: x in spine' && x.off == o {
      if o == b.off {
        assert b in spine';
      } else {
        var x :| x in spine && x.off == o;
        assert x in spine';
      }
    }
  }

  lemma FileSmall(bounds: seq<int>, lists: seq<seq<FreeCell>>, byOff: map<int, FreeCell>, listed: map<int, int>,
                  c: FreeCell, r: seq<FreeCell>)
    requires HeapsAgree(bounds, lists, byOff, listed) && c.off !in listed
    requires c.sc == ClassOf(bounds, c.size) < |bounds| && HeapOrder(r)
    requires forall x :: x in r <==> x in lists[c.sc] || x == c
    ensures HeapsAgree(bounds, lists[c.sc := r], byOff[c.off := c], listed[c.off := c.size])
  {
    var lists', byOff', listed' := lists[c.sc := r], byOff[c.off := c], listed[c.off := c.size];
    forall sc | 0 <= sc < |lists'| ensures AllFiled(lists'[sc], sc, bounds, byOff', listed') {
      assert AllFiled(lists[sc], sc, bounds, byOff, listed);
    }
  }

  lemma UnfileSmall(bounds: seq<int>, lists: seq<seq<FreeCell>>, byOff: map<int, FreeCell>, listed: map<int, int>,
                    c: FreeCell, r: seq<FreeCell>)
    requires HeapsAgree(bounds, lists, byOff, listed)
    requires c.sc < |lists| && c in lists[c.sc] && HeapOrder(r)
    requires forall x :: x in r <==> x in lists[c.sc] && x != c
    ensures HeapsAgree(bounds, lists[c.sc := r], byOff - {c.off}, listed - {c.off})
  {
    var lists', byOff', listed' := lists[c.sc := r], byOff - {c.off}, listed - {c.off};
    assert AllFiled(lists[c.sc], c.sc, bounds, byOff, listed) && Filed(c, c.sc, bounds, byOff, listed);
    forall sc, x | 0 <= sc < |lists'| && x in lists'[sc] ensures Filed(x, sc, bounds, byOff', listed') {
      assert AllFiled(lists[sc], sc, bounds, byOff, listed) && Filed(x, sc, bounds, byOff, listed);
    }
    forall sc | 0 <= sc < |lists'| ensures AllFiled(lists'[sc], sc, bounds, byOff', listed') {
      assert AllFiled(lists[sc], sc, bounds, byOff, listed);
    }
  }

  /** A classed cell leaving the lists does not concern the large list. */
  lemma UnlistSmall(bounds: seq<int>, spine: seq<LargeBlock>, listed: map<int, int>, off: int)
    requires LargeAgrees(bounds, spine, listed)
    requires off in listed && ClassOf(bounds, listed[off]) < |bounds|
    ensures LargeAgrees(bounds, spine, listed - {off})
  {
  }

  /** Nor does one joining them. */
  lemma ListSmall(bounds: seq<int>, spine: seq<LargeBlock>, listed: map<int, int>, off: int, size: int)
    requires LargeAgrees(bounds, spine, listed)
    requires off !in listed && ClassOf(bounds, size) < |bounds|
    ensures LargeAgrees(bounds, spine, listed[off := size])
  {
  }

  /** A block leaving the large list is what leaves the listed cells. */
  lemma UnfileLarge(bounds: seq<int>, spine: seq<LargeBlock>, lists: seq<seq<FreeCell>>, byOff: map<int, FreeCell>,
                    listed: map<int, int>, k: int)
    requires LargeAgrees(bounds, spine, listed) && HeapsAgree(bounds, lists, byOff, listed) && 0 <= k < |spine|
    ensures spine[k].off in listed && listed[spine[k].off] == spine[k].size
    ensures LargeAgrees(bounds, Cut(spine, k), listed - {spine[k].off})
    ensures HeapsAgree(bounds, lists, byOff, listed - {spine[k].off})
  {
    var cut, listed' := Cut(spine, k), listed - {spine[k].off};
    assert spine[k] in spine;
    forall b | b in cut ensures b in spine && b.off != spine[k].off {
      var i :| 0 <= i < |cut| && cut[i] == b;
      assert b == spine[if i < k then i else i + 1];
    }
    forall o | o in listed' && ClassOf(bounds, listed'[o]) == |bounds| ensures exists b :: b in cut && b.off == o {
      var b :| b in spine && b.off == o;
      var i :| 0 <= i < |spine| && spine[i] == b;
      assert cut[if i < k then i else i - 1] == b;
    }
    forall sc | 0 <= sc < |lists| ensures AllFiled(lists[sc], sc, bounds, byOff, listed') {
      assert AllFiled(lists[sc], sc, bounds, byOff, listed);
      forall c | c in lists[sc] ensures Filed(c, sc, bounds, byOff, listed') {
        assert Filed(c, sc, bounds, byOff, listed);
      }
    }
  }

  /** The best cell of a heap whose root is too small, by position, or -1 when none fits: the first within
      FIT_TOLERANCE of the request, else the smallest that fits. */
  method ScanFit(h: seq<FreeCell>, need: int) returns (bestIdx: int)
    requires |h| > 0 && h[0].size < need
    requires forall i :: 0 <= i < |h| ==> h[i].size < MAX_I32
    ensures bestIdx == -1 ==> forall i :: 0 <= i < |h| ==> h[i].size < need
    ensures bestIdx != -1 ==> 0 <= bestIdx < |h| && GoodFit(h, bestIdx, need)
  {
    bestIdx := -1;
    var bestSize := MAX_I32;
    var i := 1;
    while i < |h|
      invariant 1 <= i <= |h|
      invariant bestIdx == -1 ==> bestSize == MAX_I32 && forall k :: 0 <= k < i ==> h[k].size < need
      invariant bestIdx != -1 ==> 0 <= bestIdx < i && bestSize == h[bestIdx].size >= need
      invariant forall k :: 0 <= k < i && h[k].size >= need ==> bestSize <= h[k].size
    {
      if h[i].size >= need {
        if h[i].size <= need + FIT_TOLERANCE {
          return i;
        }
        if h[i].size < bestSize {
          bestIdx, bestSize := i, h[i].size;
        }
      }
      i := i + 1;
    }
  }

  /** Cell `i` fits, and is within FIT_TOLERANCE of the request or no larger than any cell of the heap that fits. */
  predicate GoodFit(h: seq<FreeCell>, i: int, need: int)
    requires 0 <= i < |h|
  {
    && need <= h[i].size
    && (h[i].size <= need + FIT_TOLERANCE || forall k :: 0 <= k < |h| && need <= h[k].size ==> h[i].size <= h[k].size)
  }

  /** No listed cell of a class below `sc` fits. */
  ghost predicate NoFitBelow(bounds: seq<int>, listed: map<int, int>, sc: nat, need: int) {
    forall o :: o in listed && ClassOf(bounds, listed[o]) < sc ==> listed[o] < need
  }

  ghost predicate Classed(bounds: seq<int>, listed: map<int, int>, o: int) {
    o in listed && ClassOf(bounds, listed[o]) < |bounds|
  }

  /** What the class search promises of the cell at `off`: no classed cell that fits is smaller, up to the tolerance. */
  ghost predicate NearBest(bounds: seq<int>, listed: map<int, int>, off: int, need: int) {
    && Classed(bounds, listed, off) && need <= listed[off]
    && (listed[off] <= need + FIT_TOLERANCE
        || forall o :: Classed(bounds, listed, o) && need <= listed[o] ==> listed[off] <= listed[o])
  }

  /** The starts of the large blocks, in list order. */
  ghost function Starts(spine: seq<LargeBlock>): (r: seq<int>)
    ensures |r| == |spine|
  {
    seq(|spine|, i requires 0 <= i < |spine| => spine[i].off)
  }

  /** The first block of the list that fits is the `k`-th. */
  ghost predicate FirstAt(order: seq<int>, listed: map<int, int>, need: int, k: int) {
    && 0 <= k < |order| && order[k] in listed && need <= listed[order[k]]
    && forall i :: 0 <= i < k ==> order[i] in listed && listed[order[i]] < need
  }

  ghost predicate FirstFit(order: seq<int>, listed: map<int, int>, need: int, off: int) {
    exists k :: FirstAt(order, listed, need, k) && order[k] == off
  }

  lemma FirstFitIs(bounds: seq<int>, spine: seq<LargeBlock>, listed: map<int, int>, need: int, k: int)
    requires LargeAgrees(bounds, spine, listed) && 0 <= k < |spine| && need <= spine[k].size
    requires forall i :: 0 <= i < k ==> spine[i].size < need
    ensures FirstFit(Starts(spine), listed, need, spine[k].off)
  {
    assert forall i :: 0 <= i <= k ==> spine[i] in spine;
    assert FirstAt(Starts(spine), listed, need, k);
  }

  class FreeCellIndex {
    const bounds: seq<int>
    const large: LargeFreeList
    var freeLists: seq<seq<FreeCell>>
    var byOff: map<int, FreeCell>
    var endIdx: map<int, int>

    ghost var listed: map<int, int>  // start -> size of every free cell in the heaps and the large list
    ghost var Repr: set<object>

    ghost predicate Owns()
      reads this, large
    {
      && this in Repr && large in Repr
      && (forall sc :: 0 <= sc < |freeLists| ==> forall c :: c in freeLists[sc] ==> c in Repr)
      && (forall b :: b in large.spine ==> b in Repr)
    }

    /** Every back-pointer names its cell's place. */
    ghost predicate Placed()
      reads this, Repr, large
      requires Owns()
    {
      forall sc :: 0 <= sc < |freeLists| ==> Indexed(freeLists[sc])
    }

    ghost predicate Valid()
      reads this, Repr, large
    {
      && Increasing(bounds) && Owns() && Placed() && large.Valid()
      && HeapsAgree(bounds, freeLists, byOff, listed)
      && LargeAgrees(bounds, large.spine, listed)
    }

    constructor (bounds: seq<int>)
      requires Increasing(bounds)
      ensures Valid() && fresh(Repr) && this.bounds == bounds
      ensures listed == map[] && endIdx == map[]
    {
      this.bounds := bounds;
      large := new LargeFreeList();
      freeLists := seq(|bounds|, i => []);
      byOff, endIdx, listed := map[], map[], map[];
      new;
      Repr := {this, large};
    }

    /** Lists a free cell in the heap of its class, or at the head of the large list. A cell outside the
        hive is ignored. */
    method InsertFreeCell(off: int, size: int, hiveLen: int)
      requires Valid() && off !in listed
      modifies Repr
      ensures Valid() && fresh(Repr - old(Repr))
      ensures off < FIRST_CELL || off + size > hiveLen ==> listed == old(listed) && endIdx == old(endIdx)
      ensures FIRST_CELL <= off && off + size <= hiveLen ==>
        listed == old(listed)[off := size] && endIdx == old(endIdx)[End(off, size) := off]
    {
      if off < FIRST_CELL || off + size > hiveLen {
        return;
      }
      var sc := GetSizeClass(bounds, size);
      if sc < |freeLists| {
        InsertSmall(off, size, sc);
      } else {
        InsertLarge(off, size);
      }
      endIdx := endIdx[End(off, size) := off];
    }

    method InsertSmall(off: int, size: int, sc: nat)
      requires Valid() && off !in listed && sc == ClassOf(bounds, size) < |bounds|
      modifies Repr
      ensures Valid() && fresh(Repr - old(Repr))
      ensures listed == old(listed)[off := size] && endIdx == old(endIdx)
    {
      var cell := new FreeCell(off, size, sc);
      assert AllFiled(freeLists[sc], sc, bounds, byOff, listed);
      var r := Push(freeLists[sc], cell);
      forall k | 0 <= k < |freeLists| && k != sc ensures Indexed(freeLists[k]) {
        Apart(k, sc, cell);
      }
      FileSmall(bounds, freeLists, byOff, listed, cell, r);
      ListSmall(bounds, large.spine, listed, off, size);
      freeLists := freeLists[sc := r];
      byOff := byOff[off := cell];
      listed := listed[off := size];
      Repr := Repr + {cell};
    }

    /** Lists of different classes share no cell. */
    lemma Apart(k: nat, sc: nat, cell: FreeCell)
      requires HeapsAgree(bounds, freeLists, byOff, listed)
      requires k < |freeLists| && sc < |freeLists| && k != sc && cell.sc == sc
      ensures forall i :: 0 <= i < |freeLists[k]| ==> freeLists[k][i] !in freeLists[sc] && freeLists[k][i] != cell
    {
      assert AllFiled(freeLists[k], k, bounds, byOff, listed) && AllFiled(freeLists[sc], sc, bounds, byOff, listed);
      forall i | 0 <= i < |freeLists[k]| ensures freeLists[k][i] !in freeLists[sc] && freeLists[k][i] != cell {
        assert Filed(freeLists[k][i], k, bounds, byOff, listed);
      }
    }

    method InsertLarge(off: int, size: int)
      requires Valid() && off !in listed && ClassOf(bounds, size) == |bounds|
      modifies Repr
      ensures Valid() && fresh(Repr - old(Repr))
      ensures listed == old(listed)[off := size] && endIdx == old(endIdx)
    {
      var b := large.PushFront(off, size);
      FileLarge(bounds, old(large.spine), listed, b);
      listed := listed[off := size];
      Repr := Repr + {b};
    }

    /** Takes a free cell out of the indexes while it is coalesced. A cell that is not listed is left alone. */
    method RemoveFreeCell(off: int, size: int)
      requires Valid() && (off in listed ==> listed[off] == size)
      modifies Repr
      ensures Valid() && Repr == old(Repr)
      ensures off !in old(listed) ==> listed == old(listed) && endIdx == old(endIdx)
      ensures off in old(listed) ==>
        listed == Without(old(listed), off) && endIdx == Without(old(endIdx), End(off, size))
    {
      var sc := GetSizeClass(bounds, size);
      if sc < |freeLists| {
        if off !in byOff {
          return;
        }
        var cell := byOff[off];
        FoundIsFiled(off);
        cell := TakeAt(cell.sc, cell.heapIndex, End(off, size));
      } else {
        RemoveLarge(off, size);
      }
    }

    /** What the start map finds is listed, in its class, where its back-pointer says. */
    lemma FoundIsFiled(off: int)
      requires Valid() && off in byOff
      ensures var c := byOff[off];
        && c.off == off && off in listed && c.size == listed[off] && c.sc == ClassOf(bounds, c.size) < |bounds|
        && 0 <= c.heapIndex < |freeLists[c.sc]| && freeLists[c.sc][c.heapIndex] == c
    {
      var c := byOff[off];
      assert c in freeLists[c.sc] && AllFiled(freeLists[c.sc], c.sc, bounds, byOff, listed);
      assert Filed(c, c.sc, bounds, byOff, listed);
      var i :| 0 <= i < |freeLists[c.sc]| && freeLists[c.sc][i] == c;
      assert Indexed(freeLists[c.sc]);
    }

    /** Takes the cell at position `i` of class `sc` out of its heap, the start map, and `end` out of the end map. */
    method TakeAt(sc: nat, i: int, end: int) returns (cell: FreeCell)
      requires Valid() && sc < |freeLists| && 0 <= i < |freeLists[sc]|
      modifies Repr
      ensures Valid() && Repr == old(Repr)
      ensures cell == old(freeLists)[sc][i]
      ensures cell.off in old(listed) && old(listed)[cell.off] == cell.size && ClassOf(bounds, cell.size) == sc
      ensures listed == Without(old(listed), cell.off) && endIdx == Without(old(endIdx), end)
    {
      cell := freeLists[sc][i];
      assert AllFiled(freeLists[sc], sc, bounds, byOff, listed) && Filed(cell, sc, bounds, byOff, listed);
      var r := Remove(freeLists[sc], i);
      forall k | 0 <= k < |freeLists| && k != sc ensures Indexed(freeLists[k]) {
        Apart(k, sc, cell);
      }
      UnfileSmall(bounds, freeLists, byOff, listed, cell, r);
      UnlistSmall(bounds, large.spine, listed, cell.off);
      freeLists := freeLists[sc := r];
      byOff := byOff - {cell.off};
      listed := Without(listed, cell.off);
      endIdx := Without(endIdx, end);
    }

    method RemoveLarge(off: int, size: int)
      requires Valid() && (off in listed ==> listed[off] == size) && ClassOf(bounds, size) == |bounds|
      modifies Repr
      ensures Valid() && Repr == old(Repr)
      ensures off !in old(listed) ==> listed == old(listed) && endIdx == old(endIdx)
      ensures off in old(listed) ==>
        listed == Without(old(listed), off) && endIdx == Without(old(endIdx), End(off, size))
    {
      var found, k := large.RemoveAt(off);
      if found {
        UnfileLarge(bounds, old(large.spine), freeLists, byOff, listed, k);
        listed := Without(listed, off);
        endIdx := Without(endIdx, End(off, size));
      }
    }

    /** A cell of class `sc` lies in the heap of that class. */
    lemma InItsHeap(o: int)
      requires Valid() && Classed(bounds, listed, o)
      ensures var sc := ClassOf(bounds, listed[o]);
        exists i :: 0 <= i < |freeLists[sc]| && freeLists[sc][i].off == o && freeLists[sc][i].size == listed[o]
    {
      FoundIsFiled(o);
    }

    /** Where the best fit inside one class is: the root when it fits, else what the scan finds. */
    method BestIn(sc: nat, need: int) returns (best: int)
      requires Valid() && sc < |bounds| && NoFitBelow(bounds, listed, sc, need)
      requires forall o :: o in listed ==> listed[o] < MAX_I32
      ensures best == -1 ==> NoFitBelow(bounds, listed, sc + 1, need)
      ensures best != -1 ==> 0 <= best < |freeLists[sc]| && NearBest(bounds, listed, freeLists[sc][best].off, need)
    {
      HeapSizes(sc);
      if |freeLists[sc]| == 0 {
        NothingFits(sc, need);
        return -1;
      }
      best := 0;
      if freeLists[sc][0].size >= need {
        RootFits(sc, need);
      } else {
        best := ScanFit(freeLists[sc], need);
        if best == -1 {
          NothingFits(sc, need);
          return -1;
        }
      }
      GoodIsNearBest(sc, best, need);
    }

    method AllocFromSizeClass(sc: nat, need: int) returns (cell: FreeCell?)
      requires Valid() && sc < |bounds| && NoFitBelow(bounds, listed, sc, need)
      requires forall o :: o in listed ==> listed[o] < MAX_I32
      modifies Repr
      ensures Valid() && Repr == old(Repr)
      ensures cell == null ==> listed == old(listed) && endIdx == old(endIdx) && large.spine == old(large.spine)
      ensures cell == null ==> NoFitBelow(bounds, listed, sc + 1, need)
      ensures cell != null ==> cell.off in old(listed) && old(listed)[cell.off] == cell.size
      ensures cell != null ==> NearBest(bounds, old(listed), cell.off, need)
      ensures cell != null ==>
        listed == Without(old(listed), cell.off) && endIdx == Without(old(endIdx), AlignedEnd(cell.off, cell.size))
    {
      var best := BestIn(sc, need);
      if best == -1 {
        return null;
      }
      cell := freeLists[sc][best];
      cell := TakeAt(sc, best, AlignedEnd(cell.off, cell.size));
    }

    lemma HeapSizes(sc: nat)
      requires Valid() && sc < |bounds|
      ensures forall i :: 0 <= i < |freeLists[sc]| ==>
        && freeLists[sc][i].off in listed && listed[freeLists[sc][i].off] == freeLists[sc][i].size
        && ClassOf(bounds, freeLists[sc][i].size) == sc
    {
      assert AllFiled(freeLists[sc], sc, bounds, byOff, listed);
      forall i | 0 <= i < |freeLists[sc]| ensures Filed(freeLists[sc][i], sc, bounds, byOff, listed) {
        assert freeLists[sc][i] in freeLists[sc];
      }
    }

    lemma RootFits(sc: nat, need: int)
      requires Valid() && sc < |bounds| && |freeLists[sc]| > 0 && freeLists[sc][0].size >= need
      ensures GoodFit(freeLists[sc], 0, need)
    {
      assert AllFiled(freeLists[sc], sc, bounds, byOff, listed);
      forall i | 0 <= i < |freeLists[sc]| ensures freeLists[sc][0].size <= freeLists[sc][i].size {
        RootIsSmallest(freeLists[sc], i);
      }
    }

    lemma NothingFits(sc: nat, need: int)
      requires Valid() && sc < |bounds| && NoFitBelow(bounds, listed, sc, need)
      requires forall i :: 0 <= i < |freeLists[sc]| ==> freeLists[sc][i].size < need
      ensures NoFitBelow(bounds, listed, sc + 1, need)
    {
      forall o | o in listed && ClassOf(bounds, listed[o]) == sc ensures listed[o] < need {
        InItsHeap(o);
      }
    }

    /** A good fit in the lowest class with a fit is near best over all classes. */
    lemma GoodIsNearBest(sc: nat, i: int, need: int)
      requires Valid() && sc < |bounds| && NoFitBelow(bounds, listed, sc, need)
      requires 0 <= i < |freeLists[sc]| && GoodFit(freeLists[sc], i, need)
      ensures NearBest(bounds, listed, freeLists[sc][i].off, need)
    {
      HeapSizes(sc);
      var size := freeLists[sc][i].size;
      if size > need + FIT_TOLERANCE {
        forall o | Classed(bounds, listed, o) && need <= listed[o] ensures size <= listed[o] {
          var k := ClassOf(bounds, listed[o]);
          if k == sc {
            InItsHeap(o);
          } else {
            assert bounds[sc] < listed[o];
          }
        }
      }
    }

    /** The classes from the request's own up. */
    method AllocFromClasses(need: int) returns (cell: FreeCell?)
      requires Valid()
      requires forall o :: o in listed ==> listed[o] < MAX_I32
      modifies Repr
      ensures Valid() && Repr == old(Repr)
      ensures cell == null ==> listed == old(listed) && endIdx == old(endIdx) && large.spine == old(large.spine)
      ensures cell == null ==> NoFitBelow(bounds, listed, |bounds|, need)
      ensures cell != null ==> cell.off in old(listed) && old(listed)[cell.off] == cell.size
      ensures cell != null ==> NearBest(bounds, old(listed), cell.off, need)
      ensures cell != null ==>
        listed == Without(old(listed), cell.off) && endIdx == Without(old(endIdx), AlignedEnd(cell.off, cell.size))
    {
      var sc := GetSizeClass(bounds, need);
      while sc < |bounds|
        invariant Valid() && Repr == old(Repr) && sc <= |bounds|
        invariant listed == old(listed) && endIdx == old(endIdx) && NoFitBelow(bounds, listed, sc, need)
        invariant large.spine == old(large.spine)
      {
        cell := AllocFromSizeClass(sc, need);
        if cell != null {
          return;
        }
        sc := sc + 1;
      }
      cell := null;
    }

    /** First fit in the large list. The block's end stays in `endIdx`. */
    method AllocFromLarge(need: int) returns (block: LargeBlock?)
      requires Valid()
      modifies Repr
      ensures Valid() && Repr == old(Repr) && endIdx == old(endIdx)
      ensures block == null ==> listed == old(listed)
      ensures block == null ==> forall o :: o in listed && !Classed(bounds, listed, o) ==> listed[o] < need
      ensures block != null ==> block.off in old(listed) && old(listed)[block.off] == block.size >= need
      ensures block != null ==> ClassOf(bounds, block.size) == |bounds| && listed == Without(old(listed), block.off)
      ensures block != null ==> FirstFit(Starts(old(large.spine)), old(listed), need, block.off)
    {
      ghost var k;
      block, k := large.TakeFirstFit(need);
      if block != null {
        FirstFitIs(bounds, old(large.spine), listed, need, k);
        UnfileLarge(bounds, old(large.spine), freeLists, byOff, listed, k);
        listed := Without(listed, block.off);
      }
    }

    /** The search of Alloc: the classes, then the large list. */
    method TakeFit(need: int) returns (found: bool, off: int, size: int, fromLarge: bool)
      requires Valid()
      requires forall o :: o in listed ==> listed[o] < MAX_I32
      modifies Repr
      ensures Valid() && Repr == old(Repr)
      ensures !found ==> listed == old(listed) && endIdx == old(endIdx)
      ensures !found ==> forall o :: o in listed ==> listed[o] < need
      ensures found ==> off in old(listed) && size == old(listed)[off] >= need && listed == Without(old(listed), off)
      ensures found ==> fromLarge == !Classed(bounds, old(listed), off)
      ensures found && !fromLarge ==> NearBest(bounds, old(listed), off, need)
      ensures found && !fromLarge ==> endIdx == Without(old(endIdx), AlignedEnd(off, size))
      ensures found && fromLarge ==> endIdx == old(endIdx) && NoFitBelow(bounds, old(listed), |bounds|, need)
      ensures found && fromLarge ==> FirstFit(Starts(old(large.spine)), old(listed), need, off)
    {
      found, off, size, fromLarge := false, 0, 0, false;
      var cell := AllocFromClasses(need);
      if cell != null {
        return true, cell.off, cell.size, false;
      }
      var block := AllocFromLarge(need);
      if block != null {
        return true, block.off, block.size, true;
      }
    }
  }
}
