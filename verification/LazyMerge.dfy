/** The merge of a list's raw entries with new ones, decoding names only where they are compared
    (mergeRawAndNewEntries in hive/edit/nkedit.go). A raw entry is the reference of its key's cell. */
module LazyMerge {
  import opened Lex
  import opened SubkeyList

  /** The lower-case name each key cell decodes to. */
  type Names = map<int, string>

  predicate Decodable(names: Names, raw: seq<int>) {
    forall i :: 0 <= i < |raw| ==> raw[i] in names
  }

  /** Raw entries with their names. */
  function Named(names: Names, raw: seq<int>): (r: seq<Entry>)
    requires Decodable(names, raw)
    ensures |r| == |raw|
  {
    seq(|raw|, i requires 0 <= i < |raw| => Entry(names[raw[i]], raw[i]))
  }

  /** The cache only holds names as they decode. */
  predicate Cached(names: Names, cache: Names) {
    forall r :: r in cache ==> r in names && cache[r] == names[r]
  }

  method ResolveRawEntryName(names: Names, ref: int, cache: Names) returns (name: string, cache': Names)
    requires ref in names && Cached(names, cache)
    ensures name == names[ref] && Cached(names, cache') && cache.Keys <= cache'.Keys
  {
    if ref in cache {
      return cache[ref], cache;
    }
    name := names[ref];
    cache' := cache[ref := name];
  }

  /** Where a name goes: after every smaller name, before every other. */
  predicate IsPlace(es: seq<Entry>, n: string, pos: int) {
    && 0 <= pos <= |es|
    && (forall k :: 0 <= k < pos ==> Less(es[k].name, n))
    && (forall k :: pos <= k < |es| ==> !Less(es[k].name, n))
  }

  /** That place in a sorted list. */
  function Place(es: seq<Entry>, n: string): nat {
    if es == [] || !Less(es[0].name, n) then 0 else 1 + Place(es[1..], n)
  }

  lemma {:induction false} PlaceIs(es: seq<Entry>, n: string)
    requires Sorted(es)
    ensures IsPlace(es, n, Place(es, n))
  {
    if es != [] {
      if Less(es[0].name, n) {
        PlaceIs(es[1..], n);
      } else {
        forall k | 0 < k < |es| ensures !Less(es[k].name, n) {
          if Less(es[k].name, n) {
            Transitive(es[0].name, es[k].name, n);
          }
        }
      }
    }
  }

  lemma OnePlace(es: seq<Entry>, n: string, pos: int)
    requires Sorted(es) && IsPlace(es, n, pos)
    ensures pos == Place(es, n)
  {
    PlaceIs(es, n);
    var q := Place(es, n);
    assert pos < |es| ==> !Less(es[pos].name, n);
    assert q < |es| ==> !Less(es[q].name, n);
  }

  method BinarySearchRawEntries(names: Names, raw: seq<int>, n: string, cache: Names) returns (pos: int, cache': Names)
    requires Decodable(names, raw) && Sorted(Named(names, raw)) && Cached(names, cache)
    ensures IsPlace(Named(names, raw), n, pos) && Cached(names, cache')
  {
    ghost var es := Named(names, raw);
    var lo, hi := 0, |raw|;
    cache' := cache;
    while lo < hi
      invariant 0 <= lo <= hi <= |raw| && Cached(names, cache')
      invariant forall k :: 0 <= k < lo ==> Less(es[k].name, n)
      invariant forall k :: hi <= k < |raw| ==> !Less(es[k].name, n)
    {
      var mid := lo + (hi - lo) / 2;
      var midName;
      midName, cache' := ResolveRawEntryName(names, raw[mid], cache');
      assert midName == es[mid].name;
      if Less(midName, n) {
        forall k | 0 <= k < mid ensures Less(es[k].name, n) {
          Transitive(es[k].name, es[mid].name, n);
        }
        lo := mid + 1;
      } else {
        forall k | mid < k < |raw| ensures !Less(es[k].name, n) {
          if Less(es[k].name, n) {
            Transitive(es[mid].name, es[k].name, n);
            assert false;
          }
        }
        hi := mid;
      }
    }
    pos := lo;
  }

  datatype Insertion = Insertion(pos: int, ref: int)

  /** The raw entries from `ri` on, with every insertion whose turn it is when its place comes up. */
  function Interleaved(raw: seq<int>, ri: nat, ins: seq<Insertion>): seq<int>
    requires ri <= |raw|
    decreases |raw| - ri, |ins|
  {
    if ins != [] && ins[0].pos == ri then [ins[0].ref] + Interleaved(raw, ri, ins[1..])
    else if ri < |raw| then [raw[ri]] + Interleaved(raw, ri + 1, ins)
    else []
  }

  /** How many insertions are made before the first whose place has gone by. */
  function Accepted(from: int, ins: seq<Insertion>): (r: nat)
    ensures r <= |ins|
    decreases |ins|
  {
    if ins == [] || ins[0].pos < from then 0 else 1 + Accepted(ins[0].pos, ins[1..])
  }

  /** The places never go back. */
  predicate Rising(from: int, ins: seq<Insertion>) {
    && (forall i :: 0 <= i < |ins| ==> from <= ins[i].pos)
    && (forall i, j :: 0 <= i < j < |ins| ==> ins[i].pos <= ins[j].pos)
  }

  lemma {:induction false} AllAcceptedIff(from: int, ins: seq<Insertion>)
    ensures Accepted(from, ins) == |ins| <==> Rising(from, ins)
    decreases |ins|
  {
    if ins != [] && from <= ins[0].pos {
      AllAcceptedIff(ins[0].pos, ins[1..]);
      if Rising(ins[0].pos, ins[1..]) {
        forall i, j | 0 <= i < j < |ins| ensures ins[i].pos <= ins[j].pos {
          assert ins[j] == ins[1..][j - 1];
        }
      }
      if Rising(from, ins) {
        assert forall i :: 0 <= i < |ins[1..]| ==> ins[1..][i] == ins[i + 1];
      }
    }
  }

  /** The references of new entries at their places. */
  function Places(es: seq<Entry>, added: seq<Entry>): (ins: seq<Insertion>)
    ensures |ins| == |added|
  {
    seq(|added|, i requires 0 <= i < |added| => Insertion(Place(es, added[i].name), added[i].ref))
  }

  /** What the merge writes: of new entries in any order. */
  function Merged(names: Names, raw: seq<int>, added: seq<Entry>): seq<int>
    requires Decodable(names, raw)
  {
    Interleaved(raw, 0, Places(Named(names, raw), added))
  }

  method MergeRawAndNewEntries(names: Names, raw: seq<int>, added: seq<Entry>) returns (merged: seq<int>)
    requires Decodable(names, raw) && Sorted(Named(names, raw))
    ensures merged == Merged(names, raw, added)
  {
    if |added| == 0 {
      RawStays(raw, 0);
      return raw;
    }
    if |raw| == 0 {
      merged := seq(|added|, i requires 0 <= i < |added| => added[i].ref);
      AllAtStart(added);
      return;
    }
    var insertions: seq<Insertion> := [];
    var nameCache: Names := map[];
    ghost var es := Named(names, raw);
    for i := 0 to |added|
      invariant insertions == Places(es, added)[..i] && Cached(names, nameCache)
    {
      var pos;
      pos, nameCache := BinarySearchRawEntries(names, raw, added[i].name, nameCache);
      OnePlace(es, added[i].name, pos);
      insertions := insertions + [Insertion(pos, added[i].ref)];
    }
    assert Places(es, added)[..|added|] == Places(es, added);
    merged := Interleave(raw, insertions);
  }

  /** Without new entries the raw ones stay. */
  lemma {:induction false} RawStays(raw: seq<int>, ri: nat)
    requires ri <= |raw|
    ensures Interleaved(raw, ri, []) == raw[ri..]
    decreases |raw| - ri
  {
    if ri < |raw| {
      RawStays(raw, ri + 1);
    }
  }

  /** Without raw entries the new ones come in their order. */
  lemma {:induction false} AllAtStart(added: seq<Entry>)
    ensures Interleaved([], 0, Places([], added)) == seq(|added|, i requires 0 <= i < |added| => added[i].ref)
  {
    if added != [] {
      AllAtStart(added[1..]);
      assert Places([], added)[1..] == Places([], added[1..]);
    }
  }

  method Interleave(raw: seq<int>, insertions: seq<Insertion>) returns (result: seq<int>)
    ensures result == Interleaved(raw, 0, insertions)
  {
    result := [];
    var insertIdx, ri := 0, 0;
    while ri <= |raw|
      invariant 0 <= ri <= |raw| + 1 && 0 <= insertIdx <= |insertions|
      invariant ri <= |raw| ==>
        Interleaved(raw, 0, insertions) == result + Interleaved(raw, ri, insertions[insertIdx..])
      invariant ri > |raw| ==> Interleaved(raw, 0, insertions) == result
    {
      while insertIdx < |insertions| && insertions[insertIdx].pos == ri
        invariant 0 <= insertIdx <= |insertions|
        invariant Interleaved(raw, 0, insertions) == result + Interleaved(raw, ri, insertions[insertIdx..])
      {
        ghost var rest := insertions[insertIdx..];
        assert rest[1..] == insertions[insertIdx + 1..];
        result := result + [insertions[insertIdx].ref];
        insertIdx := insertIdx + 1;
      }
      if ri < |raw| {
        result := result + [raw[ri]];
      }
      ri := ri + 1;
    }
  }

  // ----- The merge is sorted insertion -----

  /** The new entries carry the names their cells decode to. */
  predicate NamesRight(names: Names, added: seq<Entry>) {
    forall i :: 0 <= i < |added| ==> added[i].ref in names && names[added[i].ref] == added[i].name
  }

  lemma NamedFirst(names: Names, ref: int, rest: seq<int>)
    requires ref in names && Decodable(names, rest)
    ensures Decodable(names, [ref] + rest)
    ensures Named(names, [ref] + rest) == [Entry(names[ref], ref)] + Named(names, rest)
  {
  }

  /** Entry `j` goes before an old entry that entry `i` goes behind. */
  predicate GoesBack(es: seq<Entry>, added: seq<Entry>, i: int, j: int) {
    0 <= i < |added| && 0 <= j < |added| &&
    exists k :: 0 <= k < |es| && Less(es[k].name, added[i].name) && !Less(es[k].name, added[j].name)
  }

  /** Of two new entries, the later goes before the earlier exactly when some old name lies between them. */
  lemma PlacesBack(es: seq<Entry>, added: seq<Entry>, i: int, j: int)
    requires Sorted(es) && 0 <= i < |added| && 0 <= j < |added|
    ensures Place(es, added[j].name) < Place(es, added[i].name) <==> GoesBack(es, added, i, j)
  {
    PlaceIs(es, added[i].name);
    PlaceIs(es, added[j].name);
    if Place(es, added[j].name) < Place(es, added[i].name) {
      assert Less(es[Place(es, added[j].name)].name, added[i].name);
    }
  }

  /** No old name lies between a new entry and an earlier one behind it. */
  ghost predicate NeverBack(es: seq<Entry>, added: seq<Entry>) {
    forall i, j {:trigger GoesBack(es, added, i, j)} :: 0 <= i < j < |added| ==> !GoesBack(es, added, i, j)
  }

  lemma RisingIff(es: seq<Entry>, added: seq<Entry>)
    requires Sorted(es)
    ensures Rising(0, Places(es, added)) <==> NeverBack(es, added)
  {
    var ins := Places(es, added);
    if Rising(0, ins) {
      forall i, j | 0 <= i < j < |added| ensures !GoesBack(es, added, i, j) {
        PlacesBack(es, added, i, j);
        assert ins[i].pos <= ins[j].pos;
      }
    }
    if NeverBack(es, added) {
      forall i, j | 0 <= i < j < |ins| ensures ins[i].pos <= ins[j].pos {
        PlacesBack(es, added, i, j);
        assert !GoesBack(es, added, i, j);
      }
    }
  }

  function InsRefs(ins: seq<Insertion>): seq<int> {
    seq(|ins|, i requires 0 <= i < |ins| => ins[i].ref)
  }

  /** The raw entries all stay, with exactly the insertions before the first whose place has gone by. */
  ghost predicate MembersAre(raw: seq<int>, ri: nat, ins: seq<Insertion>)
    requires ri <= |raw|
  {
    multiset(Interleaved(raw, ri, ins)) == multiset(raw[ri..]) + multiset(InsRefs(ins[..Accepted(ri, ins)]))
  }

  lemma {:induction false} InterleavedMembers(raw: seq<int>, ri: nat, ins: seq<Insertion>)
    requires ri <= |raw| && forall i :: 0 <= i < |ins| ==> ins[i].pos <= |raw|
    ensures MembersAre(raw, ri, ins)
    decreases |raw| - ri, |ins|
  {
    if ins != [] && ins[0].pos == ri {
      InterleavedMembers(raw, ri, ins[1..]);
      InsertedMember(raw, ri, ins);
    } else if ri < |raw| {
      InterleavedMembers(raw, ri + 1, ins);
      RawMember(raw, ri, ins);
    }
  }

  lemma {:induction false} InsertedMember(raw: seq<int>, ri: nat, ins: seq<Insertion>)
    requires ri <= |raw| && ins != [] && ins[0].pos == ri && MembersAre(raw, ri, ins[1..])
    ensures MembersAre(raw, ri, ins)
  {
    FirstRefs(ins, Accepted(ri, ins[1..]));
    Cons(ins[0].ref, Interleaved(raw, ri, ins[1..]));
    Cons(ins[0].ref, InsRefs(ins[1..][..Accepted(ri, ins[1..])]));
  }

  lemma {:induction false} RawMember(raw: seq<int>, ri: nat, ins: seq<Insertion>)
    requires ri < |raw| && (ins == [] || ins[0].pos != ri) && MembersAre(raw, ri + 1, ins)
    ensures MembersAre(raw, ri, ins)
  {
    assert raw[ri..] == [raw[ri]] + raw[ri + 1..];
    Cons(raw[ri], Interleaved(raw, ri + 1, ins));
    Cons(raw[ri], raw[ri + 1..]);
  }

  lemma Cons(x: int, s: seq<int>)
    ensures multiset([x] + s) == multiset{x} + multiset(s)
  {
  }

  lemma FirstRefs(ins: seq<Insertion>, n: nat)
    requires n < |ins|
    ensures InsRefs(ins[..n + 1]) == [ins[0].ref] + InsRefs(ins[1..][..n])
  {
  }

  lemma {:induction false} AcceptedIff(from: int, ins: seq<Insertion>, i: nat)
    requires i < |ins|
    ensures i < Accepted(from, ins) <==> Rising(from, ins[..i + 1])
    decreases |ins|
  {
    var head := ins[..i + 1];
    if from <= ins[0].pos {
      if i > 0 {
        AcceptedIff(ins[0].pos, ins[1..], i - 1);
        assert ins[1..][..i] == head[1..];
        AllAcceptedIff(from, head);
        AllAcceptedIff(ins[0].pos, head[1..]);
      }
    } else {
      assert head[0] == ins[0];
    }
  }

  /** How many of the new entries the merge keeps: those before the first that goes back. */
  function KeptCount(es: seq<Entry>, added: seq<Entry>): (n: nat)
    ensures n <= |added|
  {
    Accepted(0, Places(es, added))
  }

  /** Entry `i` is kept exactly when nothing up to it goes back. */
  ghost predicate KeptIff(es: seq<Entry>, added: seq<Entry>, i: int) {
    0 <= i < |added| ==> (i < KeptCount(es, added) <==> NeverBack(es, added[..i + 1]))
  }

  /** Exactly the entries up to the first that goes back are in the merge, with every raw entry. */
  lemma MergeKeeps(names: Names, raw: seq<int>, added: seq<Entry>)
    requires Decodable(names, raw) && Sorted(Named(names, raw))
    ensures var n := KeptCount(Named(names, raw), added);
      && multiset(Merged(names, raw, added)) == multiset(raw) + multiset(EntryRefs(added[..n]))
      && forall i :: KeptIff(Named(names, raw), added, i)
  {
    var es := Named(names, raw);
    var ins, n := Places(es, added), KeptCount(es, added);
    forall i | 0 <= i < |ins| ensures ins[i].pos <= |raw| {
      PlaceIs(es, added[i].name);
    }
    InterleavedMembers(raw, 0, ins);
    assert raw[0..] == raw && InsRefs(ins[..n]) == EntryRefs(added[..n]);
    forall i ensures KeptIff(es, added, i) {
      if 0 <= i < |added| {
        AcceptedIff(0, ins, i);
        assert ins[..i + 1] == Places(es, added[..i + 1]);
        RisingIff(es, added[..i + 1]);
      }
    }
  }

  function EntryRefs(es: seq<Entry>): seq<int> {
    seq(|es|, i requires 0 <= i < |es| => es[i].ref)
  }

  /** Nothing is lost exactly when no old name lies between a new entry and an earlier one behind it. */
  lemma MergeCompleteIff(names: Names, raw: seq<int>, added: seq<Entry>)
    requires Decodable(names, raw) && Sorted(Named(names, raw))
    ensures multiset(Merged(names, raw, added)) == multiset(raw) + multiset(EntryRefs(added))
      <==> NeverBack(Named(names, raw), added)
  {
    var es, n := Named(names, raw), KeptCount(Named(names, raw), added);
    MergeKeeps(names, raw, added);
    RisingIff(es, added);
    AllAcceptedIff(0, Places(es, added));
    if n == |added| {
      assert added[..n] == added;
    } else {
      assert |multiset(raw) + multiset(EntryRefs(added[..n]))| == |raw| + n;
      assert |multiset(raw) + multiset(EntryRefs(added))| == |raw| + |added|;
    }
  }

  /** New entries in order have places that never go back. */
  lemma PlacesRise(es: seq<Entry>, added: seq<Entry>)
    requires Sorted(es) && Sorted(added)
    ensures Rising(0, Places(es, added))
  {
    forall i, j | 0 <= i < j < |added| ensures !GoesBack(es, added, i, j) {
      if GoesBack(es, added, i, j) {
        var k :| 0 <= k < |es| && Less(es[k].name, added[i].name) && !Less(es[k].name, added[j].name);
        Transitive(es[k].name, added[i].name, added[j].name);
      }
    }
    RisingIff(es, added);
  }

  /** `m` is in order and made of exactly the raw entries from `ri` on and the new entries. */
  ghost predicate MergedFrom(names: Names, raw: seq<int>, ri: nat, added: seq<Entry>, m: seq<int>)
    requires ri <= |raw| && Decodable(names, raw)
  {
    && Decodable(names, m) && Sorted(Named(names, m))
    && multiset(Named(names, m)) == multiset(Named(names, raw)[ri..]) + multiset(added)
  }

  lemma AddedFirst(names: Names, raw: seq<int>, ri: nat, added: seq<Entry>, rest: seq<int>)
    requires ri <= |raw| && Decodable(names, raw) && NamesRight(names, added) && added != []
    requires Sorted(added) && NewNames(Named(names, raw), added) && IsPlace(Named(names, raw), added[0].name, ri)
    requires MergedFrom(names, raw, ri, added[1..], rest)
    ensures MergedFrom(names, raw, ri, added, [added[0].ref] + rest)
  {
    NamedFirst(names, added[0].ref, rest);
    forall x | x in multiset(Named(names, rest)) ensures Less(added[0].name, x.name) {
      FirstAdded(Named(names, raw), ri, added, x);
    }
    SortedFirst(added[0], Named(names, rest));
    assert added == [added[0]] + added[1..];
  }

  lemma RawFirst(names: Names, raw: seq<int>, ri: nat, added: seq<Entry>, rest: seq<int>)
    requires ri < |raw| && Decodable(names, raw) && Sorted(Named(names, raw))
    requires forall k :: 0 <= k < |added| ==> Less(Named(names, raw)[ri].name, added[k].name)
    requires MergedFrom(names, raw, ri + 1, added, rest)
    ensures MergedFrom(names, raw, ri, added, [raw[ri]] + rest)
  {
    var es := Named(names, raw);
    assert es[ri..] == [es[ri]] + es[ri + 1..];
    NamedFirst(names, raw[ri], rest);
    forall x | x in multiset(Named(names, rest)) ensures Less(es[ri].name, x.name) {
      if x in multiset(added) {
        var k :| 0 <= k < |added| && added[k] == x;
      } else {
        var k :| 0 <= k < |es[ri + 1..]| && es[ri + 1..][k] == x;
        assert es[ri + 1 + k] == x;
      }
    }
    SortedFirst(es[ri], Named(names, rest));
  }

  lemma PlacesLater(es: seq<Entry>, added: seq<Entry>, ri: nat)
    requires ri < |es| && Sorted(es) && Rising(ri, Places(es, added))
    requires added != [] ==> ri < Places(es, added)[0].pos
    ensures forall k :: 0 <= k < |added| ==> Less(es[ri].name, added[k].name)
  {
    forall k | 0 <= k < |added| ensures Less(es[ri].name, added[k].name) {
      PlaceIs(es, added[k].name);
      assert ri < Places(es, added)[0].pos <= Places(es, added)[k].pos;
    }
  }

  /** What is left to merge: the raw entries from `ri` on and the new entries, with their places. */
  ghost predicate LeftToMerge(names: Names, raw: seq<int>, ri: nat, added: seq<Entry>, ins: seq<Insertion>) {
    && ri <= |raw| && Decodable(names, raw) && NamesRight(names, added)
    && Sorted(Named(names, raw)) && Sorted(added) && NewNames(Named(names, raw), added)
    && ins == Places(Named(names, raw), added) && Rising(ri, ins)
  }

  lemma LessToMerge(names: Names, raw: seq<int>, ri: nat, added: seq<Entry>, ins: seq<Insertion>)
    requires LeftToMerge(names, raw, ri, added, ins) && ins != []
    ensures ri <= ins[0].pos <= |raw| && IsPlace(Named(names, raw), added[0].name, ins[0].pos)
    ensures LeftToMerge(names, raw, ri, added[1..], ins[1..])
    ensures ri < ins[0].pos ==> LeftToMerge(names, raw, ri + 1, added, ins)
  {
    PlaceIs(Named(names, raw), added[0].name);
    assert ins[1..] == Places(Named(names, raw), added[1..]);
  }

  lemma {:induction false} InterleavedSorted(names: Names, raw: seq<int>, ri: nat, added: seq<Entry>,
          ins: seq<Insertion>)
    requires LeftToMerge(names, raw, ri, added, ins)
    ensures MergedFrom(names, raw, ri, added, Interleaved(raw, ri, ins))
    decreases |raw| - ri, |ins|
  {
    if ins != [] { LessToMerge(names, raw, ri, added, ins); }
    if ins != [] && ins[0].pos == ri {
      InterleavedSorted(names, raw, ri, added[1..], ins[1..]);
      AddedFirst(names, raw, ri, added, Interleaved(raw, ri, ins[1..]));
    } else if ri < |raw| {
      PlacesLater(Named(names, raw), added, ri);
      InterleavedSorted(names, raw, ri + 1, added, ins);
      RawFirst(names, raw, ri, added, Interleaved(raw, ri + 1, ins));
    }
  }

  lemma SortedFirst(e: Entry, es: seq<Entry>)
    requires Sorted(es) && forall x :: x in multiset(es) ==> Less(e.name, x.name)
    ensures Sorted([e] + es)
  {
    forall j | 0 <= j < |es| ensures Less(e.name, es[j].name) {
      assert es[j] in multiset(es);
    }
  }

  lemma FirstAdded(es: seq<Entry>, ri: nat, added: seq<Entry>, x: Entry)
    requires ri <= |es| && added != [] && Sorted(added) && NewNames(es, added)
    requires IsPlace(es, added[0].name, ri) && x in multiset(es[ri..]) + multiset(added[1..])
    ensures Less(added[0].name, x.name)
  {
    if x in multiset(es[ri..]) {
      var k :| 0 <= k < |es[ri..]| && es[ri..][k] == x;
      assert es[ri + k] == x && !HasName(es, added[0].name);
      Total(added[0].name, x.name);
    } else {
      var k :| 0 <= k < |added[1..]| && added[1..][k] == x;
      assert added[k + 1] == x;
    }
  }

  /** The lazy merge of sorted new names is their insertion one by one. */
  lemma MergeIsInsertion(names: Names, raw: seq<int>, added: seq<Entry>)
    requires Decodable(names, raw) && NamesRight(names, added)
    requires Sorted(Named(names, raw)) && Sorted(added) && NewNames(Named(names, raw), added)
    ensures var m := Merged(names, raw, added);
      Decodable(names, m) && Named(names, m) == InsertedAll(Named(names, raw), added)
  {
    var es := Named(names, raw);
    PlacesRise(es, added);
    InterleavedSorted(names, raw, 0, added, Places(es, added));
    assert es[0..] == es;
    InsertedAllSorted(es, added);
    SortedUnique(Named(names, Merged(names, raw, added)), InsertedAll(es, added));
  }

  /** A merge that comes out in order was given its new entries in order. */
  lemma {:induction false} SortedFromMerge(names: Names, raw: seq<int>, ri: nat, added: seq<Entry>, ins: seq<Insertion>)
    requires ri <= |raw| && Decodable(names, raw) && NamesRight(names, added) && Sorted(Named(names, raw))
    requires ins == Places(Named(names, raw), added) && Rising(ri, ins)
    requires Decodable(names, Interleaved(raw, ri, ins)) && Sorted(Named(names, Interleaved(raw, ri, ins)))
    ensures Sorted(added)
    decreases |raw| - ri, |ins|
  {
    var m := Interleaved(raw, ri, ins);
    forall i | 0 <= i < |ins| ensures ins[i].pos <= |raw| {
      PlaceIs(Named(names, raw), added[i].name);
    }
    if ins != [] && ins[0].pos == ri {
      var rest := Interleaved(raw, ri, ins[1..]);
      assert ins[1..] == Places(Named(names, raw), added[1..]);
      TailDecodable(names, m);
      assert m[1..] == rest;
      SortedFromMerge(names, raw, ri, added[1..], ins[1..]);
      FirstOfMerge(names, raw, ri, added, ins[1..]);
    } else if ri < |raw| {
      TailDecodable(names, m);
      assert m[1..] == Interleaved(raw, ri + 1, ins);
      SortedFromMerge(names, raw, ri + 1, added, ins);
    }
  }

  /** All later new entries are behind the first in the merge. */
  lemma FirstOfMerge(names: Names, raw: seq<int>, ri: nat, added: seq<Entry>, ins: seq<Insertion>)
    requires ri <= |raw| && Decodable(names, raw) && NamesRight(names, added) && added != [] && Rising(ri, ins)
    requires (forall i :: 0 <= i < |ins| ==> ins[i].pos <= |raw|) && |ins| == |added| - 1
    requires forall i :: 0 <= i < |ins| ==> ins[i].ref == added[i + 1].ref
    requires var m := [added[0].ref] + Interleaved(raw, ri, ins); Decodable(names, m) && Sorted(Named(names, m))
    ensures forall k :: 0 < k < |added| ==> Less(added[0].name, added[k].name)
  {
    var rest := Interleaved(raw, ri, ins);
    var m := [added[0].ref] + rest;
    InterleavedMembers(raw, ri, ins);
    AllAcceptedIff(ri, ins);
    assert ins[..|ins|] == ins;
    forall k | 0 < k < |added| ensures Less(added[0].name, added[k].name) {
      assert InsRefs(ins)[k - 1] == added[k].ref && added[k].ref in multiset(rest);
      var x :| 0 <= x < |rest| && rest[x] == added[k].ref;
      assert Less(Named(names, m)[0].name, Named(names, m)[x + 1].name);
    }
  }

  lemma TailDecodable(names: Names, m: seq<int>)
    requires Decodable(names, m) && m != [] && Sorted(Named(names, m))
    ensures Decodable(names, m[1..]) && Named(names, m[1..]) == Named(names, m)[1..] && Sorted(Named(names, m[1..]))
  {
  }

  /** For new names in any order, the merge is their insertion one by one exactly when they are given in order. */
  lemma MergeInsertsIff(names: Names, raw: seq<int>, added: seq<Entry>)
    requires Decodable(names, raw) && NamesRight(names, added)
    requires Sorted(Named(names, raw)) && NewNames(Named(names, raw), added)
    ensures var m := Merged(names, raw, added);
      Decodable(names, m) && Named(names, m) == InsertedAll(Named(names, raw), added) <==> Sorted(added)
  {
    var es, m := Named(names, raw), Merged(names, raw, added);
    if Sorted(added) {
      MergeIsInsertion(names, raw, added);
    } else if Decodable(names, m) && Named(names, m) == InsertedAll(es, added) {
      InsertedAllSorted(es, added);
      MergeKeeps(names, raw, added);
      assert |m| == |multiset(m)| == |raw| + KeptCount(es, added);
      assert |InsertedAll(es, added)| == |multiset(InsertedAll(es, added))| == |raw| + |added|;
      AllAcceptedIff(0, Places(es, added));
      SortedFromMerge(names, raw, 0, added, Places(es, added));
    }
  }

  /** Two new keys in the wrong order, the second one going before the only old key: it is lost. */
  lemma UnsortedMergeLoses()
    ensures var names: Names := map[1 := "b", 2 := "c", 3 := "a"];
      Merged(names, [1], [Entry("c", 2), Entry("a", 3)]) == [1, 2]
  {
    var names: Names := map[1 := "b", 2 := "c", 3 := "a"];
    var es, added := Named(names, [1]), [Entry("c", 2), Entry("a", 3)];
    assert es == [Entry("b", 1)] && es[1..] == [];
    assert Less("b", "c") && !Less("b", "a");
    assert Place(es, "c") == 1 && Place(es, "a") == 0;
    var ins := [Insertion(1, 2), Insertion(0, 3)];
    assert Places(es, added) == ins && ins[1..] == [Insertion(0, 3)];
    assert Interleaved([1], 1, [Insertion(0, 3)]) == [];
    assert Interleaved([1], 1, ins) == [2];
  }
}
