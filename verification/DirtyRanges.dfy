/** Dirty ranges and the pages they touch (hive/dirty/dirty.go). */
module DirtyRanges {
  const PAGE := 4096

  datatype Range = Range(off: int, len: int)
  {
    function End(): int { off + len }
  }

  /** A page is touched when some byte of the range lies in it. */
  predicate Touches(r: Range, page: int) {
    r.off < (page + 1) * PAGE && page * PAGE < r.End()
  }

  ghost predicate TouchedBy(rs: seq<Range>, page: int) {
    exists i :: 0 <= i < |rs| && Touches(rs[i], page)
  }

  predicate Positive(rs: seq<Range>) {
    forall i :: 0 <= i < |rs| ==> 0 <= rs[i].off && 0 < rs[i].len
  }

  predicate PageAligned(r: Range) {
    r.off % PAGE == 0 && r.len % PAGE == 0 && 0 <= r.off && 0 < r.len
  }

  /** In order, with at least a page between one range and the next. */
  predicate Separated(rs: seq<Range>) {
    forall i, j :: 0 <= i < j < |rs| ==> rs[i].End() < rs[j].off
  }

  /** Down to a page boundary and up to one, as the code rounds. */
  function Aligned(r: Range): Range {
    var start, end := r.off / PAGE * PAGE, r.End();
    var up := if end % PAGE != 0 then (end / PAGE + 1) * PAGE else end;
    Range(start, up - start)
  }

  /** Rounding touches no page more. */
  lemma AlignedTouches(r: Range, page: int)
    requires 0 <= r.off && 0 < r.len
    ensures PageAligned(Aligned(r)) && (Touches(Aligned(r), page) <==> Touches(r, page))
  {
  }

  predicate Before(rs: seq<Range>, i: int, j: int) {
    0 <= i < |rs| && 0 <= j < |rs| ==> rs[i].off <= rs[j].off
  }

  predicate InOrder(rs: seq<Range>) {
    forall i, j {:trigger Before(rs, i, j)} :: 0 <= i < j < |rs| ==> Before(rs, i, j)
  }

  lemma SameTouched(a: seq<Range>, b: seq<Range>, page: int)
    requires multiset(a) == multiset(b)
    ensures TouchedBy(a, page) <==> TouchedBy(b, page)
  {
    if TouchedBy(a, page) {
      var i :| 0 <= i < |a| && Touches(a[i], page);
      assert a[i] in multiset(b);
      var j :| 0 <= j < |b| && b[j] == a[i];
    }
    if TouchedBy(b, page) {
      var i :| 0 <= i < |b| && Touches(b[i], page);
      assert b[i] in multiset(a);
      var j :| 0 <= j < |a| && a[j] == b[i];
    }
  }

  /** Two aligned ranges that overlap or meet, as one. */
  function Joined(a: Range, b: Range): Range {
    var end := if b.End() > a.End() then b.End() else a.End();
    Range(a.off, end - a.off)
  }

  lemma JoinedTouches(a: Range, b: Range, page: int)
    requires PageAligned(a) && PageAligned(b) && a.off <= b.off <= a.End()
    ensures PageAligned(Joined(a, b)) && (Touches(Joined(a, b), page) <==> Touches(a, page) || Touches(b, page))
  {
  }

  lemma TouchedLast(rs: seq<Range>, r: Range, page: int)
    ensures TouchedBy(rs + [r], page) <==> TouchedBy(rs, page) || Touches(r, page)
  {
    assert (rs + [r])[|rs|] == r && forall i :: 0 <= i < |rs| ==> (rs + [r])[i] == rs[i];
  }

  lemma PutInOrder(rs: seq<Range>, j: nat, r: Range)
    requires InOrder(rs) && j <= |rs| && (forall k :: j <= k < |rs| ==> r.off < rs[k].off)
    requires j > 0 ==> rs[j - 1].off <= r.off
    ensures InOrder(rs[..j] + [r] + rs[j..]) && multiset(rs[..j] + [r] + rs[j..]) == multiset(rs) + multiset{r}
  {
    assert rs == rs[..j] + rs[j..];
    var put := rs[..j] + [r] + rs[j..];
    forall k, l | 0 <= k < l < |put| ensures Before(put, k, l) {
      if k != j && l != j {
        assert Before(rs, if k < j then k else k - 1, if l < j then l else l - 1);
      } else if l == j && k < j - 1 {
        assert Before(rs, k, j - 1);
      }
    }
  }

  class Tracker {
    var ranges: seq<Range>

    constructor ()
      ensures ranges == []
    {
      ranges := [];
    }

    method Add(off: int, len: int)
      modifies this
      ensures ranges == old(ranges) + [Range(off, len)]
    {
      ranges := ranges + [Range(off, len)];
    }

    /** The merged ranges are whole pages, in order, with gaps between them, and touch exactly the pages that the added
        ranges touch. */
    method Coalesce() returns (merged: seq<Range>)
      requires Positive(ranges)
      ensures forall i :: 0 <= i < |merged| ==> PageAligned(merged[i])
      ensures Separated(merged)
      ensures forall page :: TouchedBy(merged, page) <==> TouchedBy(ranges, page)
    {
      if |ranges| == 0 { return []; }
      var aligned := AlignAll();
      var sorted := SortByOffset(aligned);
      forall page ensures TouchedBy(sorted, page) <==> TouchedBy(ranges, page) {
        SameTouched(sorted, aligned, page);
      }
      assert forall i :: 0 <= i < |sorted| ==> sorted[i] in multiset(aligned);
      merged := MergeSorted(sorted);
    }

    method AlignAll() returns (aligned: seq<Range>)
      requires Positive(ranges)
      ensures |aligned| == |ranges| && forall i :: 0 <= i < |aligned| ==> PageAligned(aligned[i])
      ensures forall page :: TouchedBy(aligned, page) <==> TouchedBy(ranges, page)
    {
      aligned := [];
      for i := 0 to |ranges|
        invariant |aligned| == i && forall k :: 0 <= k < i ==> PageAligned(aligned[k])
        invariant forall page :: TouchedBy(aligned, page) <==> TouchedBy(ranges[..i], page)
      {
        var r := ranges[i];
        assert ranges[..i + 1] == ranges[..i] + [r];
        var start := r.off / PAGE * PAGE;
        var end := r.off + r.len;
        if end % PAGE != 0 {
          end := (end / PAGE + 1) * PAGE;
        }
        AlignedTouches(r, 0);
        forall page
          ensures TouchedBy(aligned + [Range(start, end - start)], page) <==> TouchedBy(ranges[..i] + [r], page)
        {
          AlignedTouches(r, page);
          TouchedLast(aligned, Aligned(r), page);
          TouchedLast(ranges[..i], r, page);
        }
        aligned := aligned + [Range(start, end - start)];
      }
      assert ranges[..|ranges|] == ranges;
    }

    static method SortByOffset(rs: seq<Range>) returns (sorted: seq<Range>)
      ensures InOrder(sorted) && multiset(sorted) == multiset(rs)
    {
      sorted := [];
      for i := 0 to |rs|
        invariant InOrder(sorted) && multiset(sorted) == multiset(rs[..i])
      {
        var j := |sorted|;
        while j > 0 && rs[i].off < sorted[j - 1].off
          invariant 0 <= j <= |sorted| && forall k :: j <= k < |sorted| ==> rs[i].off < sorted[k].off
        {
          j := j - 1;
        }
        PutInOrder(sorted, j, rs[i]);
        assert rs[..i + 1] == rs[..i] + [rs[i]];
        sorted := sorted[..j] + [rs[i]] + sorted[j..];
      }
      assert rs[..|rs|] == rs;
    }

    static method MergeSorted(rs: seq<Range>) returns (merged: seq<Range>)
      requires rs != [] && InOrder(rs) && forall i :: 0 <= i < |rs| ==> PageAligned(rs[i])
      ensures forall i :: 0 <= i < |merged| ==> PageAligned(merged[i])
      ensures Separated(merged)
      ensures forall page :: TouchedBy(merged, page) <==> TouchedBy(rs, page)
    {
      merged := [];
      var current := rs[0];
      forall page ensures TouchedBy([] + [current], page) <==> TouchedBy(rs[..1], page) {
        assert rs[..1] == [] + [current];
      }
      for i := 1 to |rs|
        invariant PageAligned(current) && current.off <= rs[i - 1].off
        invariant forall k :: 0 <= k < |merged| ==> PageAligned(merged[k]) && merged[k].End() < current.off
        invariant Separated(merged)
        invariant forall page :: TouchedBy(merged + [current], page) <==> TouchedBy(rs[..i], page)
      {
        var next := rs[i];
        assert Before(rs, i - 1, i);
        ghost var before := merged + [current];
        assert rs[..i + 1] == rs[..i] + [next];
        if next.off <= current.off + current.len {
          var end := current.off + current.len;
          var nextEnd := next.off + next.len;
          if nextEnd > end { end := nextEnd; }
          ghost var was := current;
          current := Range(current.off, end - current.off);
          forall page ensures TouchedBy(merged + [current], page) <==> TouchedBy(rs[..i] + [next], page) {
            JoinedTouches(was, next, page);
            TouchedLast(merged, current, page);
            TouchedLast(merged, was, page);
            TouchedLast(rs[..i], next, page);
          }
        } else {
          merged := merged + [current];
          current := next;
          forall page ensures TouchedBy(merged + [current], page) <==> TouchedBy(rs[..i] + [next], page) {
            TouchedLast(merged, current, page);
            TouchedLast(rs[..i], next, page);
          }
        }
      }
      merged := merged + [current];
      assert rs[..|rs|] == rs;
    }
  }
}
