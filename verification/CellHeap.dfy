/** The min-heaps of free cells in hive/alloc/fastalloc.go: each cell knows its own position, so that
    coalescing can take it out of the middle. Sifting follows Go's container/heap. */
module CellHeap {
  /** A free cell; only its position in its heap changes while it is listed. */
  class FreeCell {
    const off: int
    const size: int
    const sc: nat
    var heapIndex: int

    constructor (off: int, size: int, sc: nat)
      ensures this.off == off && this.size == size && this.sc == sc
    {
      this.off, this.size, this.sc := off, size, sc;
      heapIndex := -1;
    }
  }

  /** Every cell's back-pointer is its position; so no cell is listed twice. */
  ghost predicate Indexed(h: seq<FreeCell>)
    reads h
  {
    forall i :: 0 <= i < |h| ==> h[i].heapIndex == i
  }

  predicate Above(h: seq<FreeCell>, j: int)
    requires 0 < j < |h|
  {
    h[(j - 1) / 2].size <= h[j].size
  }

  predicate HeapOrder(h: seq<FreeCell>) {
    forall j :: 0 < j < |h| ==> Above(h, j)
  }

  /** The root of a heap is its smallest cell. */
  lemma {:induction false} RootIsSmallest(h: seq<FreeCell>, i: int)
    requires HeapOrder(h) && 0 <= i < |h|
    ensures h[0].size <= h[i].size
  {
    if i > 0 {
      assert Above(h, i);
      RootIsSmallest(h, (i - 1) / 2);
    }
  }

  function Swapped(h: seq<FreeCell>, i: int, j: int): seq<FreeCell>
    requires 0 <= i < |h| && 0 <= j < |h|
  {
    h[i := h[j]][j := h[i]]
  }

  lemma SwappedKeeps(h: seq<FreeCell>, i: int, j: int)
    requires 0 <= i < |h| && 0 <= j < |h|
    ensures multiset(Swapped(h, i, j)) == multiset(h)
  {
  }

  method Swap(h: seq<FreeCell>, i: int, j: int) returns (r: seq<FreeCell>)
    requires 0 <= i < |h| && 0 <= j < |h| && Indexed(h)
    modifies h[i], h[j]
    ensures r == Swapped(h, i, j) && Indexed(r)
    ensures multiset(r) == multiset(h)
    ensures forall k :: 0 <= k < |r| ==> r[k] in h
  {
    SwappedKeeps(h, i, j);
    r := h[i := h[j]][j := h[i]];
    r[i].heapIndex := i;
    r[j].heapIndex := j;
  }

  /** In order everywhere but between `i` and its parent, and `i`'s children are not below that parent. */
  ghost predicate OrderedBut(h: seq<FreeCell>, i: int) {
    && (forall j :: 0 < j < |h| && j != i ==> Above(h, j))
    && (forall j :: 0 < j < |h| && (j - 1) / 2 == i && 0 < i < |h| ==> h[(i - 1) / 2].size <= h[j].size)
  }

  method Up(h: seq<FreeCell>, start: int) returns (r: seq<FreeCell>)
    requires 0 <= start < |h| && Indexed(h) && OrderedBut(h, start)
    modifies h
    ensures Indexed(r) && HeapOrder(r) && multiset(r) == multiset(h) && |r| == |h|
  {
    r := h;
    var j := start;
    while true
      invariant 0 <= j < |r| == |h| && Indexed(r) && OrderedBut(r, j)
      invariant multiset(r) == multiset(h)
      invariant forall k :: 0 <= k < |r| ==> r[k] in h
      decreases j
    {
      var i := if j == 0 then 0 else (j - 1) / 2;
      if i == j || !(r[j].size < r[i].size) {
        return;
      }
      UpStep(r, j);
      r := Swap(r, i, j);
      j := i;
    }
  }

  lemma UpStep(h: seq<FreeCell>, j: int)
    requires 0 < j < |h| && OrderedBut(h, j) && h[j].size < h[(j - 1) / 2].size
    ensures OrderedBut(Swapped(h, (j - 1) / 2, j), (j - 1) / 2)
  {
    var i := (j - 1) / 2;
    var r := Swapped(h, i, j);
    forall k | 0 < k < |r| && k != i ensures Above(r, k) {
      if k != j { assert Above(h, k); }
    }
    forall k | 0 < k < |r| && (k - 1) / 2 == i && 0 < i ensures r[(i - 1) / 2].size <= r[k].size {
      assert Above(h, i);
      if k != j { assert Above(h, k); }
    }
  }

  /** The first `n` cells are in order everywhere but around `i`, whose children are not below its parent. */
  ghost predicate SunkBut(h: seq<FreeCell>, i: int, n: int) {
    && (forall j :: 0 < j < n <= |h| && (j - 1) / 2 != i && j != i ==> Above(h, j))
    && (forall j :: 0 < j < n <= |h| && (j - 1) / 2 == i && 0 < i < n ==> h[(i - 1) / 2].size <= h[j].size)
  }

  ghost predicate OrderedTo(h: seq<FreeCell>, n: int) {
    forall j :: 0 < j < n <= |h| ==> Above(h, j)
  }

  ghost predicate ChildrenAbove(h: seq<FreeCell>, i: int, n: int) {
    forall j :: 0 < j < n <= |h| && (j - 1) / 2 == i ==> Above(h, j)
  }

  /** The smaller child of `i` among the first `n` cells; the left one when they are equal. */
  function LeastChild(h: seq<FreeCell>, i: int, n: int): (j: int)
    requires 0 <= i && 2 * i + 1 < n <= |h|
    ensures i < j < n && (j - 1) / 2 == i
    ensures forall k :: 0 < k < n && (k - 1) / 2 == i ==> h[j].size <= h[k].size
  {
    var j1, j2 := 2 * i + 1, 2 * i + 2;
    if j2 < n && h[j2].size < h[j1].size then j2 else j1
  }

  method Down(h: seq<FreeCell>, start: int, n: int) returns (r: seq<FreeCell>, moved: bool)
    requires 0 <= start <= n <= |h| && Indexed(h) && SunkBut(h, start, n)
    modifies h
    ensures Indexed(r) && multiset(r) == multiset(h) && |r| == |h|
    ensures forall k :: 0 <= k < |r| ==> r[k] in h
    ensures forall k :: n <= k < |h| ==> r[k] == h[k]
    ensures moved || start == 0 ==> OrderedTo(r, n)
    ensures !moved ==> r == h && ChildrenAbove(r, start, n)
  {
    r := h;
    var i := start;
    while true
      invariant start <= i <= n && |r| == |h| && Indexed(r)
      invariant multiset(r) == multiset(h)
      invariant forall k :: 0 <= k < |r| ==> r[k] in h
      invariant forall k :: n <= k < |h| ==> r[k] == h[k]
      invariant SunkBut(r, i, n)
      invariant i == start ==> r == h
      invariant i > start ==> i < n && Above(r, i)
      decreases n - i
    {
      if 2 * i + 1 >= n || !(r[LeastChild(r, i, n)].size < r[i].size) {
        Settled(r, i, n);
        return r, i > start;
      }
      var j := LeastChild(r, i, n);
      DownStep(r, i, j, n);
      r := Swap(r, i, j);
      i := j;
    }
  }

  lemma Settled(h: seq<FreeCell>, i: int, n: int)
    requires 0 <= i <= n <= |h| && SunkBut(h, i, n)
    requires 2 * i + 1 < n ==> h[i].size <= h[LeastChild(h, i, n)].size
    ensures ChildrenAbove(h, i, n)
    ensures i == 0 || i == n || Above(h, i) ==> OrderedTo(h, n)
  {
    forall j | 0 < j < n && (j - 1) / 2 == i ensures Above(h, j) {
      assert 2 * i + 1 < n;
    }
  }

  lemma DownStep(h: seq<FreeCell>, i: int, j: int, n: int)
    requires 0 <= i < j < n <= |h| && (j - 1) / 2 == i && h[j].size < h[i].size
    requires forall k :: 0 < k < n && (k - 1) / 2 == i ==> h[j].size <= h[k].size
    requires SunkBut(h, i, n)
    ensures SunkBut(Swapped(h, i, j), j, n) && Above(Swapped(h, i, j), j)
  {
    var r := Swapped(h, i, j);
    forall k | 0 < k < n && (k - 1) / 2 != j && k != j ensures Above(r, k) {
      if (k - 1) / 2 != i && k != i { assert Above(h, k); }
    }
    forall k | 0 < k < n && (k - 1) / 2 == j ensures r[(j - 1) / 2].size <= r[k].size {
      assert Above(h, k);
    }
  }

  method Push(h: seq<FreeCell>, c: FreeCell) returns (r: seq<FreeCell>)
    requires Indexed(h) && HeapOrder(h) && c !in h
    modifies h, c
    ensures Indexed(r) && HeapOrder(r) && |r| == |h| + 1
    ensures forall x :: x in r <==> x in h || x == c
  {
    c.heapIndex := |h|;
    var g := h + [c];
    assert forall j :: 0 < j < |h| ==> (Above(g, j) <==> Above(h, j));
    r := Up(g, |g| - 1);
    SameMembers(r, g);
  }

  lemma SameMembers(r: seq<FreeCell>, h: seq<FreeCell>)
    requires multiset(r) == multiset(h)
    ensures forall c :: c in r <==> c in h
  {
    forall c ensures c in r <==> c in h {
      assert c in r <==> c in multiset(r);
      assert c in h <==> c in multiset(h);
    }
  }

  /** Takes the cell at position `i` out: swap it last, sift what replaced it either way, drop the last. */
  method Remove(h: seq<FreeCell>, i: int) returns (r: seq<FreeCell>)
    requires Indexed(h) && HeapOrder(h) && 0 <= i < |h|
    modifies h
    ensures Indexed(r) && HeapOrder(r) && |r| == |h| - 1
    ensures forall x :: x in r <==> x in h && x != h[i]
    ensures h[i].heapIndex == -1
  {
    var n := |h| - 1;
    var g := h;
    if n != i {
      g := Swap(h, i, n);
      SwappedSunk(h, i);
      r := Resettle(g, i);
    } else {
      DropLast(g);
      Prefix(g, n);
      r := g[..n];
    }
    SameMembers(r + [h[i]], h);
    assert forall x :: x in r + [h[i]] <==> x in r || x == h[i];
    h[i].heapIndex := -1;
  }

  /** All but the last cell, once the one at `i` has sunk or risen to its place. */
  method Resettle(h: seq<FreeCell>, i: int) returns (r: seq<FreeCell>)
    requires 0 <= i < |h| - 1 && Indexed(h) && SunkBut(h, i, |h| - 1)
    modifies h
    ensures Indexed(r) && HeapOrder(r) && multiset(r) + multiset{h[|h| - 1]} == multiset(h) && |r| == |h| - 1
    ensures h[|h| - 1].heapIndex == |h| - 1
  {
    var n := |h| - 1;
    var g, moved := Down(h, i, n);
    DropLast(g);
    if moved {
      Prefix(g, n);
      r := g[..n];
    } else {
      OnlyAbove(g, i, n);
      r := Up(g[..n], i);
    }
  }

  lemma Prefix(g: seq<FreeCell>, n: int)
    requires 0 <= n <= |g| && OrderedTo(g, n)
    ensures HeapOrder(g[..n])
  {
    assert forall j :: 0 < j < n ==> (Above(g[..n], j) <==> Above(g, j));
  }

  lemma OnlyAbove(g: seq<FreeCell>, i: int, n: int)
    requires 0 <= i < n <= |g| && SunkBut(g, i, n) && ChildrenAbove(g, i, n)
    ensures OrderedBut(g[..n], i)
  {
    assert forall j :: 0 < j < n ==> (Above(g[..n], j) <==> Above(g, j));
  }

  lemma DropLast(g: seq<FreeCell>)
    requires |g| > 0
    ensures forall k :: 0 <= k < |g| - 1 ==> g[..|g| - 1][k] == g[k]
    ensures multiset(g[..|g| - 1]) + multiset{g[|g| - 1]} == multiset(g)
  {
    assert g == g[..|g| - 1] + [g[|g| - 1]];
  }

  lemma SwappedSunk(h: seq<FreeCell>, i: int)
    requires HeapOrder(h) && 0 <= i < |h| - 1
    ensures SunkBut(Swapped(h, i, |h| - 1), i, |h| - 1)
  {
    var n := |h| - 1;
    var r := Swapped(h, i, n);
    forall k | 0 < k < n && (k - 1) / 2 != i && k != i ensures Above(r, k) {
      assert Above(h, k);
    }
    forall k | 0 < k < n && (k - 1) / 2 == i && 0 < i ensures r[(i - 1) / 2].size <= r[k].size {
      assert Above(h, k) && Above(h, i);
    }
  }
}
