/** A well-formed key stays well formed when one of its subkeys is deleted, and the cells that are left over. */
module KeyDeleteTree {
  import opened HiveCells
  import opened Subtrees
  import opened KeyDelete

  /** `p` without its `i`-th subkey, and with the cells `list` for its new list. */
  function Pruned(p: KeyT, i: nat, list: set<int>): KeyT
    requires i < |p.subs|
  {
    p.(subs := p.subs[..i] + p.subs[i + 1..], list := list)
  }

  /** The index of a remaining subkey among all. */
  function Old(i: nat, k: nat): nat {
    if k < i then k else k + 1
  }

  lemma PrunedSubs(p: KeyT, i: nat, list: set<int>, k: nat)
    requires i < |p.subs| && k < |p.subs| - 1
    ensures Old(i, k) < |p.subs| && Old(i, k) != i && Pruned(p, i, list).subs[k] == p.subs[Old(i, k)]
  {
  }

  lemma {:induction false} WithoutNone(refs: seq<int>, r: int)
    requires forall k :: 0 <= k < |refs| ==> refs[k] != r
    ensures Without(refs, r) == refs
  {
    if refs != [] {
      WithoutNone(refs[..|refs| - 1], r);
      assert refs == refs[..|refs| - 1] + [refs[|refs| - 1]];
    }
  }

  lemma {:induction false} WithoutAt(refs: seq<int>, i: nat)
    requires i < |refs| && Distinct(refs)
    ensures Without(refs, refs[i]) == refs[..i] + refs[i + 1..]
  {
    var n := |refs| - 1;
    if i == n {
      WithoutNone(refs[..n], refs[i]);
    } else {
      WithoutAt(refs[..n], i);
      assert refs[i + 1..] == refs[..n][i + 1..] + [refs[n]];
    }
  }

  /** The subkeys' cells are all different. */
  lemma NksDistinct(p: KeyT, refs: seq<int>)
    requires Apart(p) && |refs| == |p.subs| && forall k :: 0 <= k < |refs| ==> refs[k] == p.subs[k].nk
    ensures Distinct(refs)
  {
    forall k, l | 0 <= k < l < |refs| ensures refs[k] != refs[l] {
      assert AllCells(p.subs[k]) !! AllCells(p.subs[l]);
      assert p.subs[k].nk in AllCells(p.subs[k]) && p.subs[l].nk in AllCells(p.subs[l]);
    }
  }

  /** The cells of the other subkeys are untouched. */
  lemma OtherUntouched(a: Cells, p: KeyT, i: nat, k: nat, pp: int)
    requires Represents(a, p, pp) && Apart(p) && i < |p.subs| && k < |p.subs| && k != i
    ensures AllCells(p.subs[k]) <= a.Keys - AllCells(p.subs[i]) - {a[p.nk].subkeyList, p.nk}
  {
    ChildApart(a, p, k, pp);
    TreeInCells(a, p.subs[k], p.nk);
    if k < i {
      assert AllCells(p.subs[k]) !! AllCells(p.subs[i]);
    } else {
      assert AllCells(p.subs[i]) !! AllCells(p.subs[k]);
    }
  }

  lemma OwnUntouched(a: Cells, p: KeyT, i: nat, pp: int)
    requires Represents(a, p, pp) && Apart(p) && i < |p.subs|
    ensures p.valueList + ValuesCells(p.values) <= a.Keys - AllCells(p.subs[i]) - {a[p.nk].subkeyList, p.nk}
  {
    ChildApart(a, p, i, pp);
    assert a[p.nk].subkeyList in p.list;
  }

  /** The new list is the old one without the key. */
  lemma PrunedList(a: Cells, b: Cells, p: KeyT, i: nat, pp: int)
    requires NodeIs(a, p, pp) && Apart(p) && i < |p.subs|
    requires Relisted(a, b, p.nk, p.subs[i].nk, AllCells(p.subs[i]))
    ensures var list := b[p.nk].subkeyList; var q := Pruned(p, i, Owned(b, list));
      SubkeyListIs(b, b[p.nk].subkeyCount, list, q.subs, q.list)
  {
    var refs := Entries(a, a[p.nk].subkeyList);
    NksDistinct(p, refs);
    WithoutAt(refs, i);
    DroppedNks(refs, p.subs, i);
  }

  lemma DroppedNks(refs: seq<int>, ts: seq<KeyT>, i: nat)
    requires i < |ts| && |refs| == |ts| && forall k :: 0 <= k < |ts| ==> refs[k] == ts[k].nk
    ensures var (left, subs) := (refs[..i] + refs[i + 1..], ts[..i] + ts[i + 1..]);
      |left| == |subs| && forall k :: 0 <= k < |subs| ==> left[k] == subs[k].nk
  {
  }

  lemma PrunedNode(a: Cells, b: Cells, p: KeyT, i: nat, pp: int)
    requires Represents(a, p, pp) && Apart(p) && i < |p.subs| && INVALID !in b
    requires Relisted(a, b, p.nk, p.subs[i].nk, AllCells(p.subs[i]))
    ensures NodeIs(b, Pruned(p, i, Owned(b, b[p.nk].subkeyList)), pp)
  {
    PrunedList(a, b, p, i, pp);
    OwnUntouched(a, p, i, pp);
    ValuesFrame(a, b, p.values);
  }

  /** What is left of the key is well formed. */
  lemma PrunedRepresents(a: Cells, b: Cells, p: KeyT, i: nat, pp: int)
    requires Represents(a, p, pp) && Apart(p) && i < |p.subs| && INVALID !in b
    requires Relisted(a, b, p.nk, p.subs[i].nk, AllCells(p.subs[i]))
    ensures Represents(b, Pruned(p, i, Owned(b, b[p.nk].subkeyList)), pp)
  {
    PrunedNode(a, b, p, i, pp);
    var q := Pruned(p, i, Owned(b, b[p.nk].subkeyList));
    forall k | 0 <= k < |q.subs| ensures Represents(b, q.subs[k], q.nk) {
      PrunedSubs(p, i, q.list, k);
      OtherUntouched(a, p, i, Old(i, k), pp);
      TreeFrame(a, b, p.subs[Old(i, k)], p.nk);
    }
  }

  lemma PrunedApart(a: Cells, b: Cells, p: KeyT, i: nat, pp: int)
    requires Represents(a, p, pp) && Apart(p) && i < |p.subs|
    requires Relisted(a, b, p.nk, p.subs[i].nk, AllCells(p.subs[i]))
    ensures Apart(Pruned(p, i, Owned(b, b[p.nk].subkeyList)))
  {
    var list := Owned(b, b[p.nk].subkeyList);
    var q := Pruned(p, i, list);
    OwnUntouched(a, p, i, pp);
    ChildApart(a, p, i, pp);
    assert p.nk !in list;
    forall k | 0 <= k < |q.subs| ensures OwnCells(q) !! AllCells(q.subs[k]) && Apart(q.subs[k]) {
      PrunedSubs(p, i, list, k);
      OtherUntouched(a, p, i, Old(i, k), pp);
      assert OwnCells(p) !! AllCells(p.subs[Old(i, k)]);
      assert OwnCells(q) <= OwnCells(p) + list;
    }
    forall k, l | 0 <= k < l < |q.subs| ensures AllCells(q.subs[k]) !! AllCells(q.subs[l]) {
      PrunedSubs(p, i, list, k);
      PrunedSubs(p, i, list, l);
      assert Old(i, k) < Old(i, l);
    }
  }

  lemma PrunedCells(p: KeyT, i: nat, list: set<int>)
    requires i < |p.subs|
    ensures SubCells(p.subs) == SubCells(Pruned(p, i, list).subs) + AllCells(p.subs[i])
  {
    var q := Pruned(p, i, list);
    forall c | c in AllCells(p.subs[i]) ensures c in SubCells(p.subs) {
    }
    forall c | c in SubCells(p.subs) && c !in AllCells(p.subs[i]) ensures c in SubCells(q.subs) {
      var k :| 0 <= k < |p.subs| && c in AllCells(p.subs[k]);
      var l := if k < i then k else k - 1;
      assert q.subs[l] == p.subs[k];
    }
    forall c | c in SubCells(q.subs) ensures c in SubCells(p.subs) {
      var k :| 0 <= k < |q.subs| && c in AllCells(q.subs[k]);
      PrunedSubs(p, i, list, k);
    }
  }

  lemma ListApart(p: KeyT, c: int)
    requires Apart(p) && c in p.list
    ensures c != p.nk && c !in p.valueList && c !in ValuesCells(p.values) && c !in SubCells(p.subs)
  {
    forall k | 0 <= k < |p.subs| ensures c !in AllCells(p.subs[k]) {
      assert c in OwnCells(p);
    }
  }

  /** A list that holds entries is more than its head exactly when it is a list of lists. */
  lemma HeadIsAllIff(a: Cells, head: int)
    requires Listed(a, head) && head != INVALID && Entries(a, head) != []
    ensures Owned(a, head) != {head} <==> a[head].Indirect?
    ensures AsWritten(a, head) ==> (a[head].Indirect? <==> |Entries(a, head)| > RI_THRESHOLD)
  {
    if a[head].Indirect? {
      assert a[head].chunks != [];
      assert a[head].chunks[0] in Members(a[head].chunks) && LeafAt(a, a[head].chunks[0]);
    }
  }

  /** Cells are left over, allocated but in no list, exactly when the parent's old list was a list of lists: its
      leaves. For a list as it is written, that is when the parent had more than 1024 subkeys. */
  lemma LeftoversIff(a: Cells, b: Cells, p: KeyT, i: nat, pp: int)
    requires Represents(a, p, pp) && Apart(p) && i < |p.subs|
    requires Relisted(a, b, p.nk, p.subs[i].nk, AllCells(p.subs[i]))
    ensures var q := Pruned(p, i, Owned(b, b[p.nk].subkeyList));
      AllCells(p) * b.Keys - AllCells(q) == p.list - {a[p.nk].subkeyList}
    ensures p.list != {a[p.nk].subkeyList} <==> a[a[p.nk].subkeyList].Indirect?
    ensures AsWritten(a, a[p.nk].subkeyList) ==> (p.list != {a[p.nk].subkeyList} <==> |p.subs| > RI_THRESHOLD)
  {
    LeftoverCells(a, b, p, i, pp);
    ChildApart(a, p, i, pp);
    HeadIsAllIff(a, a[p.nk].subkeyList);
  }

  lemma LeftoverCells(a: Cells, b: Cells, p: KeyT, i: nat, pp: int)
    requires Represents(a, p, pp) && Apart(p) && i < |p.subs|
    requires Relisted(a, b, p.nk, p.subs[i].nk, AllCells(p.subs[i]))
    ensures var q := Pruned(p, i, Owned(b, b[p.nk].subkeyList));
      AllCells(p) * b.Keys - AllCells(q) == p.list - {a[p.nk].subkeyList}
  {
    var head, list := a[p.nk].subkeyList, Owned(b, b[p.nk].subkeyList);
    var q := Pruned(p, i, list);
    TreeInCells(a, p, pp);
    ChildApart(a, p, i, pp);
    PrunedCells(p, i, list);
    var own, t := {p.nk} + p.valueList + ValuesCells(p.values), AllCells(p.subs[i]);
    AllIs(p);
    AllIs(q);
    forall c | c in p.list ensures c !in own && c !in SubCells(p.subs) {
      ListApart(p, c);
    }
    Leftover(own, p.list, SubCells(q.subs), t, list, head, a.Keys, b.Keys);
  }

  lemma AllIs(p: KeyT)
    ensures AllCells(p) == ({p.nk} + p.valueList + ValuesCells(p.values)) + p.list + SubCells(p.subs)
  {
  }

  lemma Leftover(own: set<int>, heads: set<int>, subs: set<int>, gone: set<int>, list: set<int>, head: int,
                 before: set<int>, after: set<int>)
    requires heads !! own && heads !! subs && heads !! gone && head in heads && own + heads + subs + gone <= before
    requires list !! before - gone && after == (before - gone - {head}) + list
    ensures (own + heads + (subs + gone)) * after - (own + list + subs) == heads - {head}
  {
  }
}
