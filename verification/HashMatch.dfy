/** Finding children by hash first (hive/subkeys/match_by_hash.go, hive/subkeys/hash.go): the same children in the same
    order as looking at every child. Names are ASCII. */
module HashMatch {
  import opened Registry

  const WORD := 0x1_0000_0000

  function UpperCode(c: char): int {
    if 'a' <= c <= 'z' then c as int - 32 else c as int
  }

  /** hash * 37 + toupper(c), in 32 bits. */
  function HashOf(s: string): (h: int)
    ensures 0 <= h < WORD
  {
    if s == "" then 0 else (HashOf(s[..|s| - 1]) * 37 + UpperCode(s[|s| - 1])) % WORD
  }

  /** Names that differ in case only have the same hash. */
  lemma {:induction false} HashIgnoresCase(s: string)
    ensures HashOf(Lower(s)) == HashOf(s)
  {
    if s != "" {
      HashIgnoresCase(s[..|s| - 1]);
      assert Lower(s)[..|s| - 1] == Lower(s[..|s| - 1]);
    }
  }

  method Hash(name: string) returns (h: int)
    ensures h == HashOf(name)
  {
    h := 0;
    for i := 0 to |name|
      invariant h == HashOf(name[..i])
    {
      assert name[..i + 1][..i] == name[..i];
      var b := name[i] as int;
      if 'a' as int <= b <= 'z' as int {
        b := b - 32;
      }
      h := (h * 37 + b) % WORD;
    }
    assert name[..|name|] == name;
  }

  // ----- Targets -----

  type Targets = map<int, seq<string>>

  predicate Distinct(s: seq<string>) {
    forall i, j :: 0 <= i < j < |s| ==> s[i] != s[j]
  }

  /** Every wanted name is in the bucket of its hash, once. */
  ghost predicate Bucketed(targets: Targets, wanted: set<string>) {
    && (forall h :: h in targets ==> targets[h] != [] && Distinct(targets[h]))
    && (forall h, n :: h in targets && n in targets[h] ==> h == HashOf(n) && n in wanted)
    && (forall n :: n in wanted ==> HashOf(n) in targets && n in targets[HashOf(n)])
  }

  /** One more wanted name. */
  method AddHashTarget(targets: Targets, name: string, ghost wanted: set<string>) returns (t: Targets)
    requires Bucketed(targets, wanted) && Lower(name) !in wanted
    ensures Bucketed(t, wanted + {Lower(name)})
  {
    var lower := Lower(name);
    var h := Hash(lower);
    var bucket := if h in targets then targets[h] else [];
    t := targets[h := bucket + [lower]];
  }

  function Members(s: seq<string>): set<string> {
    set n | n in s
  }

  lemma {:induction false} DistinctCount(s: seq<string>)
    requires Distinct(s)
    ensures |Members(s)| == |s|
  {
    if s != [] {
      var before, last := s[..|s| - 1], s[|s| - 1];
      DistinctCount(before);
      assert last !in before;
      assert Members(s) == Members(before) + {last};
    }
  }

  /** The wanted names of some hashes. */
  ghost function OfHashes(wanted: set<string>, hashes: set<int>): set<string> {
    set n | n in wanted && HashOf(n) in hashes
  }

  method HashTargetCount(targets: Targets, ghost wanted: set<string>) returns (n: nat)
    requires Bucketed(targets, wanted)
    ensures n == |wanted|
  {
    n := 0;
    var left := targets.Keys;
    while left != {}
      invariant left <= targets.Keys && n == |OfHashes(wanted, targets.Keys - left)|
    {
      SomeHash(left);
      var h :| h in left;
      BucketCounts(targets, wanted, targets.Keys - left, h);
      assert targets.Keys - (left - {h}) == targets.Keys - left + {h};
      n := n + |targets[h]|;
      left := left - {h};
    }
    assert OfHashes(wanted, targets.Keys - left) == wanted;
  }

  lemma SomeHash(s: set<int>)
    requires s != {}
    ensures exists h :: h in s
  {
    assert (forall h :: h !in s) ==> s == {};
  }

  lemma BucketCounts(targets: Targets, wanted: set<string>, hashes: set<int>, h: int)
    requires Bucketed(targets, wanted) && h in targets && h !in hashes
    ensures |OfHashes(wanted, hashes + {h})| == |OfHashes(wanted, hashes)| + |targets[h]|
  {
    DistinctCount(targets[h]);
    assert OfHashes(wanted, hashes + {h}) == OfHashes(wanted, hashes) + Members(targets[h]);
    assert OfHashes(wanted, hashes) !! Members(targets[h]);
  }

  // ----- Lists -----

  datatype ListKind = LH | LF | LI

  datatype RawEntry = RawEntry(ref: int, hash: int)

  datatype LeafList = LeafList(kind: ListKind, entries: seq<RawEntry>)

  datatype Matched = Matched(ref: int, hash: int, name: string)

  /** The name of each key cell that can be read. */
  type Names = map<int, string>

  predicate Readable(names: Names, ref: int) {
    ref in names && names[ref] != ""
  }

  /** Looking at every child: those with a wanted name, in order. */
  function FullScan(names: Names, entries: seq<RawEntry>, wanted: set<string>): seq<Matched> {
    if entries == [] then []
    else
      var rest, e := FullScan(names, entries[..|entries| - 1], wanted), entries[|entries| - 1];
      if Readable(names, e.ref) && Lower(names[e.ref]) in wanted
      then rest + [Matched(e.ref, HashOf(Lower(names[e.ref])), Lower(names[e.ref]))]
      else rest
  }

  /** No two children have the same name. */
  predicate UniqueNames(names: Names, entries: seq<RawEntry>) {
    forall i, j :: 0 <= i < j < |entries| && Readable(names, entries[i].ref) && Readable(names, entries[j].ref) ==>
      Lower(names[entries[i].ref]) != Lower(names[entries[j].ref])
  }

  /** An LH list stores the hash of each name. */
  predicate HashesStored(names: Names, entries: seq<RawEntry>) {
    forall i :: 0 <= i < |entries| && Readable(names, entries[i].ref) ==>
      entries[i].hash == HashOf(Lower(names[entries[i].ref]))
  }

  function Found(ms: seq<Matched>): set<string> {
    set i | 0 <= i < |ms| :: ms[i].name
  }

  lemma {:induction false} FullScanConcat(names: Names, a: seq<RawEntry>, b: seq<RawEntry>, wanted: set<string>)
    ensures FullScan(names, a + b, wanted) == FullScan(names, a, wanted) + FullScan(names, b, wanted)
  {
    if b == [] {
      assert a + b == a;
    } else {
      var c := b[..|b| - 1];
      assert (a + b)[..|a + b| - 1] == a + c;
      FullScanConcat(names, a, c, wanted);
    }
  }

  /** A scan finds as many children as names, and each from some entry. */
  lemma {:induction false} ScanFinds(names: Names, entries: seq<RawEntry>, wanted: set<string>)
    requires UniqueNames(names, entries)
    ensures var ms := FullScan(names, entries, wanted); |ms| == |Found(ms)| && Found(ms) <= wanted
    ensures forall n :: n in Found(FullScan(names, entries, wanted)) ==>
      exists i :: 0 <= i < |entries| && Readable(names, entries[i].ref) && Lower(names[entries[i].ref]) == n
  {
    if entries != [] {
      var before, e := entries[..|entries| - 1], entries[|entries| - 1];
      ScanFinds(names, before, wanted);
      var ms := FullScan(names, before, wanted);
      forall n | n in Found(ms)
        ensures exists i :: 0 <= i < |entries| && Readable(names, entries[i].ref) && Lower(names[entries[i].ref]) == n
      {
        var i :| 0 <= i < |before| && Readable(names, before[i].ref) && Lower(names[before[i].ref]) == n;
        assert entries[i] == before[i];
      }
      if Readable(names, e.ref) && Lower(names[e.ref]) in wanted {
        var m := Matched(e.ref, HashOf(Lower(names[e.ref])), Lower(names[e.ref]));
        FoundMore(ms, m);
        assert m.name !in Found(ms);
      }
    }
  }

  lemma FoundMore(ms: seq<Matched>, m: Matched)
    ensures Found(ms + [m]) == Found(ms) + {m.name}
  {
    assert (ms + [m])[|ms|] == m;
    assert forall i :: 0 <= i < |ms| ==> (ms + [m])[i] == ms[i];
  }

  /** With every wanted name found, no later child matches. */
  lemma {:induction false} NothingMore(names: Names, a: seq<RawEntry>, b: seq<RawEntry>, wanted: set<string>)
    requires UniqueNames(names, a + b) && |FullScan(names, a, wanted)| == |wanted|
    ensures FullScan(names, a + b, wanted) == FullScan(names, a, wanted)
  {
    if b == [] {
      assert a + b == a;
    } else {
      var c, e := b[..|b| - 1], b[|b| - 1];
      assert (a + b)[..|a + b| - 1] == a + c;
      NothingMore(names, a, c, wanted);
      UniquePrefix(names, a, b);
      ScanFinds(names, a, wanted);
      SameSize(Found(FullScan(names, a, wanted)), wanted);
      assert (a + b)[|a + b| - 1] == e && forall k :: 0 <= k < |a| ==> (a + b)[k] == a[k];
      if Readable(names, e.ref) {
        var n := Lower(names[e.ref]);
        assert forall k :: 0 <= k < |a| && Readable(names, a[k].ref) ==> Lower(names[a[k].ref]) != n;
        assert n !in Found(FullScan(names, a, wanted));
      }
    }
  }

  lemma UniquePrefix(names: Names, a: seq<RawEntry>, b: seq<RawEntry>)
    requires UniqueNames(names, a + b)
    ensures UniqueNames(names, a) && UniqueNames(names, b)
  {
    assert forall i :: 0 <= i < |a| ==> (a + b)[i] == a[i];
    assert forall i :: 0 <= i < |b| ==> (a + b)[|a| + i] == b[i];
  }

  lemma SameSize(a: set<string>, b: set<string>)
    requires a <= b && |a| == |b|
    ensures a == b
  {
    assert |b - a| == |b| - |a|;
  }

  // ----- The matching -----

  /** The name of a key, if it is one of the names given. */
  method MatchInBucket(names: Names, ref: int, bucket: seq<string>) returns (r: Option<string>)
    ensures r == if Readable(names, ref) && Lower(names[ref]) in bucket then Some(Lower(names[ref])) else None
  {
    for i := 0 to |bucket|
      invariant !(Readable(names, ref) && Lower(names[ref]) in bucket[..i])
    {
      if Readable(names, ref) && Lower(names[ref]) == bucket[i] {
        return Some(bucket[i]);
      }
    }
    assert bucket[..|bucket|] == bucket;
    r := None;
  }

  lemma ScanOneMore(names: Names, entries: seq<RawEntry>, i: nat, wanted: set<string>)
    requires i < |entries|
    ensures entries[..i + 1][..i] == entries[..i] && entries[..i + 1][i] == entries[i]
  {
  }

  /** An LH list: a key's cell is only looked at when its stored hash is wanted. */
  method MatchLH(names: Names, entries: seq<RawEntry>, targets: Targets, ghost wanted: set<string>)
    returns (matched: seq<Matched>)
    requires Bucketed(targets, wanted) && UniqueNames(names, entries) && HashesStored(names, entries)
    ensures matched == FullScan(names, entries, wanted)
  {
    matched := [];
    var remaining := HashTargetCount(targets, wanted);
    for i := 0 to |entries|
      invariant matched == FullScan(names, entries[..i], wanted) && remaining + |matched| == |wanted|
    {
      assert entries == entries[..i] + entries[i..];
      if remaining == 0 {
        NothingMore(names, entries[..i], entries[i..], wanted);
        return;
      }
      ScanOneMore(names, entries, i, wanted);
      ScanFits(names, entries, i + 1, wanted);
      var e := entries[i];
      if e.hash in targets {
        var name := MatchInBucket(names, e.ref, targets[e.hash]);
        if name.Some? {
          matched := matched + [Matched(e.ref, e.hash, name.value)];
          remaining := remaining - 1;
        }
      }
    }
    assert entries[..|entries|] == entries;
  }

  /** A scan never finds more than is wanted. */
  lemma ScanFits(names: Names, entries: seq<RawEntry>, n: nat, wanted: set<string>)
    requires UniqueNames(names, entries) && n <= |entries|
    ensures |FullScan(names, entries[..n], wanted)| <= |wanted|
  {
    ScanFinds(names, entries[..n], wanted);
    var found := Found(FullScan(names, entries[..n], wanted));
    assert |wanted - found| == |wanted| - |found|;
  }

  /** The bucket that holds a key's name, looking in every one in any order. */
  method MatchInAny(names: Names, ref: int, targets: Targets, ghost wanted: set<string>) returns (r: Option<Matched>)
    requires Bucketed(targets, wanted)
    ensures r == if Readable(names, ref) && Lower(names[ref]) in wanted
                 then Some(Matched(ref, HashOf(Lower(names[ref])), Lower(names[ref]))) else None
  {
    if !Readable(names, ref) { return None; }
    var left := targets.Keys;
    while left != {}
      invariant left <= targets.Keys
      invariant Lower(names[ref]) in wanted ==> HashOf(Lower(names[ref])) in left
    {
      SomeHash(left);
      var h :| h in left;
      var name := MatchInBucket(names, ref, targets[h]);
      if name.Some? {
        return Some(Matched(ref, h, name.value));
      }
      left := left - {h};
    }
    r := None;
  }

  /** LF and LI lists hold no such hashes: every key's cell is looked at, until all are found. */
  method MatchLFLIFallback(names: Names, entries: seq<RawEntry>, targets: Targets, ghost wanted: set<string>)
    returns (matched: seq<Matched>)
    requires Bucketed(targets, wanted) && UniqueNames(names, entries)
    ensures matched == FullScan(names, entries, wanted)
  {
    matched := [];
    var remaining := HashTargetCount(targets, wanted);
    for i := 0 to |entries|
      invariant matched == FullScan(names, entries[..i], wanted) && remaining + |matched| == |wanted|
    {
      assert entries == entries[..i] + entries[i..];
      if remaining == 0 {
        NothingMore(names, entries[..i], entries[i..], wanted);
        return;
      }
      ScanOneMore(names, entries, i, wanted);
      ScanFits(names, entries, i + 1, wanted);
      var m := MatchInAny(names, entries[i].ref, targets, wanted);
      if m.Some? {
        matched := matched + [m.value];
        remaining := remaining - 1;
      }
    }
    assert entries[..|entries|] == entries;
  }

  method MatchDirectList(names: Names, list: LeafList, targets: Targets, ghost wanted: set<string>)
    returns (matched: seq<Matched>)
    requires Bucketed(targets, wanted) && UniqueNames(names, list.entries)
    requires list.kind == LH ==> HashesStored(names, list.entries)
    ensures matched == FullScan(names, list.entries, wanted)
  {
    if |list.entries| == 0 { return []; }
    if list.kind == LH {
      matched := MatchLH(names, list.entries, targets, wanted);
    } else {
      matched := MatchLFLIFallback(names, list.entries, targets, wanted);
    }
  }

  // ----- Lists of lists -----

  datatype SubkeyList = Direct(list: LeafList) | Indirect(subs: seq<int>)

  type Lists = map<int, SubkeyList>

  const INVALID := 0xFFFFFFFF

  /** The entries of the leaf lists that can be read, one after the other. */
  function Flattened(lists: Lists, subs: seq<int>): seq<RawEntry> {
    if subs == [] then []
    else
      var rest, s := Flattened(lists, subs[..|subs| - 1]), subs[|subs| - 1];
      if s in lists && lists[s].Direct? then rest + lists[s].list.entries else rest
  }

  function EntriesOf(lists: Lists, ref: int): seq<RawEntry> {
    if ref !in lists then []
    else match lists[ref]
      case Direct(list) => list.entries
      case Indirect(subs) => Flattened(lists, subs)
  }

  /** The leaf lists below a list store the hashes they should, and a list of lists only lists leaves. */
  predicate WellHashed(names: Names, lists: Lists, ref: int) {
    ref in lists ==>
      match lists[ref]
      case Direct(list) => list.kind == LH ==> HashesStored(names, list.entries)
      case Indirect(subs) => forall i :: 0 <= i < |subs| && subs[i] in lists ==>
        lists[subs[i]].Direct? && (lists[subs[i]].list.kind == LH ==> HashesStored(names, lists[subs[i]].list.entries))
  }

  lemma {:induction false} FlattenedSplit(lists: Lists, subs: seq<int>, i: nat)
    requires i <= |subs|
    ensures Flattened(lists, subs) == Flattened(lists, subs[..i]) + Flattened(lists, subs[i..])
  {
    if i == |subs| {
      assert subs[..i] == subs;
    } else {
      var front := subs[..|subs| - 1];
      FlattenedSplit(lists, front, i);
      assert front[..i] == subs[..i] && subs[i..][..|subs| - 1 - i] == front[i..];
    }
  }

  method MatchRIList(names: Names, lists: Lists, subs: seq<int>, targets: Targets, ghost wanted: set<string>)
    returns (matched: seq<Matched>)
    requires Bucketed(targets, wanted) && UniqueNames(names, Flattened(lists, subs))
    requires forall i :: 0 <= i < |subs| && subs[i] in lists ==>
      lists[subs[i]].Direct? && (lists[subs[i]].list.kind == LH ==> HashesStored(names, lists[subs[i]].list.entries))
    ensures matched == FullScan(names, Flattened(lists, subs), wanted)
  {
    matched := [];
    var remaining := HashTargetCount(targets, wanted);
    for i := 0 to |subs|
      invariant matched == FullScan(names, Flattened(lists, subs[..i]), wanted) && remaining + |matched| == |wanted|
    {
      FlattenedSplit(lists, subs, i);
      if remaining == 0 {
        NothingMore(names, Flattened(lists, subs[..i]), Flattened(lists, subs[i..]), wanted);
        return;
      }
      FlattenedSplit(lists, subs, i + 1);
      UniquePrefix(names, Flattened(lists, subs[..i + 1]), Flattened(lists, subs[i + 1..]));
      assert subs[..i + 1][..i] == subs[..i];
      if subs[i] in lists {
        var sub := lists[subs[i]].list;
        UniquePrefix(names, Flattened(lists, subs[..i]), sub.entries);
        var subMatched := MatchDirectList(names, sub, targets, wanted);
        FullScanConcat(names, Flattened(lists, subs[..i]), sub.entries, wanted);
        ghost var all := Flattened(lists, subs[..i + 1]);
        ScanFits(names, all, |all|, wanted);
        assert all[..|all|] == all;
        matched := matched + subMatched;
        remaining := remaining - |subMatched|;
      }
    }
    assert subs[..|subs|] == subs;
  }

  /** Hash-first matching finds what looking at every child finds; a list that cannot be read is an error. */
  method MatchByHash(names: Names, lists: Lists, listRef: int, targets: Targets, ghost wanted: set<string>)
    returns (r: Option<seq<Matched>>)
    requires Bucketed(targets, wanted) && UniqueNames(names, EntriesOf(lists, listRef))
    requires WellHashed(names, lists, listRef)
    requires 0 !in lists && INVALID !in lists
    ensures r.None? <==> wanted != {} && listRef != 0 && listRef != INVALID && listRef !in lists
    ensures r.Some? ==> r.value == FullScan(names, EntriesOf(lists, listRef), wanted)
  {
    if targets == map[] {
      ScanNothing(names, EntriesOf(lists, listRef));
      assert wanted == {};
      return Some([]);
    }
    assert targets.Keys != {};
    assert wanted != {} by {
      SomeHash(targets.Keys);
      var h :| h in targets.Keys;
      var n := targets[h][0];
      assert n in targets[h] && n in wanted;
    }
    if listRef == 0 || listRef == INVALID {
      return Some([]);
    }
    if listRef !in lists {
      return None;
    }
    var m;
    match lists[listRef] {
      case Direct(list) => m := MatchDirectList(names, list, targets, wanted);
      case Indirect(subs) => m := MatchRIList(names, lists, subs, targets, wanted);
    }
    r := Some(m);
  }

  lemma {:induction false} ScanNothing(names: Names, entries: seq<RawEntry>)
    ensures FullScan(names, entries, {}) == []
  {
    if entries != [] {
      ScanNothing(names, entries[..|entries| - 1]);
    }
  }
}
