/** The singly linked list of free blocks above the last size class, in hive/alloc/fastalloc.go. */
module LargeList {
  class LargeBlock {
    const off: int
    const size: int
    var next: LargeBlock?

    constructor (off: int, size: int, next: LargeBlock?)
      ensures this.off == off && this.size == size && this.next == next
    {
      this.off, this.size, this.next := off, size, next;
    }
  }

  ghost function Cut(s: seq<LargeBlock>, k: int): seq<LargeBlock>
    requires 0 <= k < |s|
  {
    s[..k] + s[k + 1..]
  }

  class LargeFreeList {
    var head: LargeBlock?
    ghost var spine: seq<LargeBlock>  // the blocks from the head on

    ghost function At(i: int): LargeBlock?
      reads this
    {
      if 0 <= i < |spine| then spine[i] else null
    }

    ghost predicate Valid()
      reads this, spine
    {
      && head == At(0)
      && (forall i :: 0 <= i < |spine| ==> spine[i].next == At(i + 1))
      && (forall i, j :: 0 <= i < j < |spine| ==> spine[i] != spine[j])
    }

    constructor ()
      ensures Valid() && spine == []
    {
      head := null;
      spine := [];
    }

    method PushFront(off: int, size: int) returns (b: LargeBlock)
      requires Valid()
      modifies this
      ensures Valid() && fresh(b) && b.off == off && b.size == size && spine == [b] + old(spine)
    {
      b := new LargeBlock(off, size, head);
      head := b;
      spine := [b] + spine;
      assert forall i :: 0 <= i < |old(spine)| ==> spine[i + 1] == old(spine)[i];
    }

    /** Unlinks `curr`, whose predecessor is `prev`. */
    method Unlink(prev: LargeBlock?, curr: LargeBlock, ghost k: int)
      requires Valid() && 0 <= k < |spine| && curr == spine[k] && prev == At(k - 1)
      modifies this, spine
      ensures Valid() && spine == Cut(old(spine), k)
    {
      if prev == null {
        head := curr.next;
      } else {
        prev.next := curr.next;
      }
      spine := Cut(spine, k);
    }

    /** First fit: the first block of at least `need` bytes leaves the list. */
    method TakeFirstFit(need: int) returns (b: LargeBlock?, ghost k: int)
      requires Valid()
      modifies this, spine
      ensures Valid()
      ensures b == null ==> spine == old(spine) && forall i :: 0 <= i < |spine| ==> spine[i].size < need
      ensures b != null ==> 0 <= k < |old(spine)| && b == old(spine)[k] && b.size >= need
      ensures b != null ==> spine == Cut(old(spine), k) && forall i :: 0 <= i < k ==> old(spine)[i].size < need
    {
      k := 0;
      var prev: LargeBlock? := null;
      var curr := head;
      while curr != null
        invariant 0 <= k <= |spine| && curr == At(k) && prev == At(k - 1)
        invariant forall i :: 0 <= i < k ==> spine[i].size < need
        invariant Valid() && spine == old(spine)
        decreases |spine| - k
      {
        if curr.size >= need {
          Unlink(prev, curr, k);
          return curr, k;
        }
        prev := curr;
        curr := curr.next;
        k := k + 1;
      }
      b := null;
    }

    /** The block starting at `off` leaves the list, if there is one. */
    method RemoveAt(off: int) returns (found: bool, ghost k: int)
      requires Valid()
      modifies this, spine
      ensures Valid()
      ensures !found ==> spine == old(spine) && forall i :: 0 <= i < |spine| ==> spine[i].off != off
      ensures found ==> 0 <= k < |old(spine)| && old(spine)[k].off == off && spine == Cut(old(spine), k)
    {
      k := 0;
      var prev: LargeBlock? := null;
      var curr := head;
      while curr != null
        invariant 0 <= k <= |spine| && curr == At(k) && prev == At(k - 1)
        invariant forall i :: 0 <= i < k ==> spine[i].off != off
        invariant Valid() && spine == old(spine)
        decreases |spine| - k
      {
        if curr.off == off {
          Unlink(prev, curr, k);
          return true, k;
        }
        prev := curr;
        curr := curr.next;
        k := k + 1;
      }
      found := false;
    }
  }
}
