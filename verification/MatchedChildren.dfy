/** The children a walk goes on with: what hash-first matching finds in the subkey list of a key
    (hive/merge/walk_apply.go, hive/subkeys/match_by_hash.go). */
module MatchedChildren {
  import opened Registry
  import opened KeyEditing
  import opened HashMatch

  predicate HasChild(names: Names, entries: seq<RawEntry>, n: string) {
    exists i :: 0 <= i < |entries| && Readable(names, entries[i].ref) && Lower(names[entries[i].ref]) == n
  }

  /** The list has exactly the children of `p`. */
  ghost predicate ShowsChildren(names: Names, entries: seq<RawEntry>, t: Tree, p: Path) {
    forall n: KeyName :: HasChild(names, entries, n) <==> Under(p, n) in t
  }

  /** A scan finds exactly the wanted names that are there. */
  lemma {:induction false} ScanHas(names: Names, entries: seq<RawEntry>, wanted: set<string>, n: string)
    ensures n in Found(FullScan(names, entries, wanted)) <==> n in wanted && HasChild(names, entries, n)
  {
    if entries != [] {
      var before, e := entries[..|entries| - 1], entries[|entries| - 1];
      ScanHas(names, before, wanted, n);
      HasOneMore(names, before, e, n);
      assert entries == before + [e];
      if Readable(names, e.ref) && Lower(names[e.ref]) in wanted {
        FoundMore(FullScan(names, before, wanted), Matched(e.ref, HashOf(Lower(names[e.ref])), Lower(names[e.ref])));
      }
    }
  }

  lemma HasOneMore(names: Names, before: seq<RawEntry>, e: RawEntry, n: string)
    ensures HasChild(names, before + [e], n) <==>
            HasChild(names, before, n) || (Readable(names, e.ref) && Lower(names[e.ref]) == n)
  {
    var entries := before + [e];
    assert entries[|before|] == e && forall i :: 0 <= i < |before| ==> entries[i] == before[i];
  }

  predicate NamedOnce(ms: seq<Matched>) {
    forall i, j :: 0 <= i < j < |ms| ==> ms[i].name != ms[j].name
  }

  lemma OnceMore(ms: seq<Matched>, m: Matched)
    requires NamedOnce(ms) && m.name !in Found(ms)
    ensures NamedOnce(ms + [m])
  {
    forall i, j | 0 <= i < j < |ms + [m]| ensures (ms + [m])[i].name != (ms + [m])[j].name {
      assert ms[i].name in Found(ms);
    }
  }

  /** No name is found twice. */
  lemma {:induction false} ScanDistinct(names: Names, entries: seq<RawEntry>, wanted: set<string>)
    requires UniqueNames(names, entries)
    ensures NamedOnce(FullScan(names, entries, wanted))
  {
    if entries != [] {
      var before, e := entries[..|entries| - 1], entries[|entries| - 1];
      var ms := FullScan(names, before, wanted);
      ScanDistinct(names, before, wanted);
      if Readable(names, e.ref) && Lower(names[e.ref]) in wanted {
        var n := Lower(names[e.ref]);
        ScanHas(names, before, wanted, n);
        forall i | 0 <= i < |before| && Readable(names, before[i].ref) ensures Lower(names[before[i].ref]) != n {
          assert before[i] == entries[i] && entries[|before|] == e;
        }
        OnceMore(ms, Matched(e.ref, HashOf(n), n));
      }
    }
  }

  /** Where the list shows the tree, what hash-first matching finds is what the walk is to go on with: the wanted names
      of keys that are there, each once. */
  lemma MatchIsWanted(names: Names, entries: seq<RawEntry>, t: Tree, p: Path, wanted: set<KeyName>)
    requires UniqueNames(names, entries) && ShowsChildren(names, entries, t, p)
    ensures var ms := FullScan(names, entries, wanted);
      && (forall n: KeyName :: n in Found(ms) <==> n in wanted && Under(p, n) in t)
      && NamedOnce(ms)
  {
    ScanDistinct(names, entries, wanted);
    forall n: KeyName ensures n in Found(FullScan(names, entries, wanted)) <==> n in wanted && Under(p, n) in t {
      ScanHas(names, entries, wanted, n);
      assert HasChild(names, entries, n) <==> Under(p, n) in t;
    }
  }
}
