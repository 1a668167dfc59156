/** The meaning of merge plans: a registry tree as a map from lower-case key paths to values, and the
    one-operation-at-a-time application of hive/merge/session.go. */
module Registry {
  import opened Bytes

  datatype Option<+T> = None | Some(value: T)

  type Name = string

  /** A key's name: not empty, and without the separator of paths. */
  type KeyName = s: string | 0 < |s| && '\\' !in s witness "a"

  type Path = seq<KeyName>

  datatype Value = Value(typ: Word, data: seq<Byte>)

  type Values = map<Name, Value>
  type Tree = map<Path, Values>

  function LowerChar(c: char): char {
    if 'A' <= c <= 'Z' then c - 'A' + 'a' else c
  }

  /** ASCII lower case, as names are compared. */
  function Lower(s: Name): (r: Name)
    ensures |r| == |s|
  {
    seq(|s|, i requires 0 <= i < |s| => LowerChar(s[i]))
  }

  /** A key's name in lower case is a key's name. */
  function LowerName(s: KeyName): (r: KeyName)
    ensures r == Lower(s)
  {
    var r := Lower(s);
    assert forall i :: 0 <= i < |r| ==> r[i] == LowerChar(s[i]) && s[i] in s;
    r
  }

  function LowerPath(p: Path): (r: Path)
    ensures |r| == |p|
  {
    seq(|p|, i requires 0 <= i < |p| => LowerName(p[i]))
  }

  datatype Op =
    | EnsureKey(keyPath: Path)
    | DeleteKey(keyPath: Path)
    | SetValue(keyPath: Path, valueName: Name, value: Value)
    | DeleteValue(keyPath: Path, valueName: Name)
  {
    function Path(): Path {
      LowerPath(keyPath)
    }

    function ValueName(): Name
      requires SetValue? || DeleteValue?
    {
      Lower(valueName)
    }

    /** Operations for which walk-apply creates keys. */
    predicate Creates() {
      EnsureKey? || SetValue?
    }
  }

  // ----- Trees -----

  ghost predicate ParentIn(t: Tree, p: Path) {
    p in t && |p| > 0 ==> p[..|p| - 1] in t
  }

  /** Every key's parent is a key, and there is a root. */
  ghost predicate Closed(t: Tree) {
    [] in t && forall p {:trigger ParentIn(t, p)} :: ParentIn(t, p)
  }

  lemma {:induction false} PrefixIn(t: Tree, p: Path, q: Path)
    requires Closed(t) && q in t && p <= q
    ensures p in t
    decreases |q|
  {
    if p != q {
      assert ParentIn(t, q) && p <= q[..|q| - 1];
      PrefixIn(t, p, q[..|q| - 1]);
    }
  }

  function Prefixes(p: Path): set<Path> {
    set i | 0 <= i <= |p| :: p[..i]
  }

  lemma PrefixesAre(p: Path, q: Path)
    ensures q in Prefixes(p) <==> q <= p
  {
    if q <= p {
      assert q == p[..|q|];
    }
  }

  /** The path and every key above it exist; new keys have no values. */
  function Ensured(t: Tree, p: Path): Tree {
    map q | q in t.Keys + Prefixes(p) :: if q in t then t[q] else map[]
  }

  function WithValue(t: Tree, p: Path, n: Name, v: Value): Tree
    requires p in t
  {
    t[p := t[p][n := v]]
  }

  function WithoutValue(t: Tree, p: Path, n: Name): Tree
    requires p in t
  {
    t[p := t[p] - {n}]
  }

  /** A key goes with everything below it. */
  function WithoutKey(t: Tree, p: Path): Tree {
    map q | q in t && !(p <= q) :: t[q]
  }

  lemma EnsuredHas(t: Tree, p: Path)
    ensures forall q :: q in Ensured(t, p) <==> q in t || q <= p
    ensures forall q :: q in Ensured(t, p) ==> Ensured(t, p)[q] == if q in t then t[q] else map[]
  {
    forall q ensures q in Ensured(t, p) <==> q in t || q <= p {
      PrefixesAre(p, q);
    }
  }

  lemma EnsuredClosed(t: Tree, p: Path)
    requires Closed(t)
    ensures Closed(Ensured(t, p)) && p in Ensured(t, p)
  {
    EnsuredHas(t, p);
    forall q ensures ParentIn(Ensured(t, p), q) {
      assert ParentIn(t, q);
    }
  }

  lemma WithoutKeyClosed(t: Tree, p: Path)
    requires Closed(t) && p != []
    ensures Closed(WithoutKey(t, p))
  {
    forall q ensures ParentIn(WithoutKey(t, p), q) {
      assert ParentIn(t, q);
    }
  }

  // ----- One operation at a time -----

  /** What applyOp leaves: EnsureKey, SetValue and DeleteValue create the key's path; a missing key is not deleted. */
  function Applied(t: Tree, op: Op): Tree {
    match op
    case EnsureKey(_) => Ensured(t, op.Path())
    case SetValue(_, _, v) =>
      EnsuredHas(t, op.Path());
      WithValue(Ensured(t, op.Path()), op.Path(), op.ValueName(), v)
    case DeleteValue(_, _) =>
      EnsuredHas(t, op.Path());
      WithoutValue(Ensured(t, op.Path()), op.Path(), op.ValueName())
    case DeleteKey(_) => if op.Path() in t then WithoutKey(t, op.Path()) else t
  }

  function AppliedAll(t: Tree, ops: seq<Op>): Tree {
    if ops == [] then t else Applied(AppliedAll(t, ops[..|ops| - 1]), ops[|ops| - 1])
  }

  predicate RootDelete(op: Op) {
    op.DeleteKey? && op.keyPath == []
  }

  lemma AppliedClosed(t: Tree, op: Op)
    requires Closed(t) && !RootDelete(op)
    ensures Closed(Applied(t, op))
  {
    if op.DeleteKey? {
      WithoutKeyClosed(t, op.Path());
    } else {
      EnsuredClosed(t, op.Path());
      var e := Ensured(t, op.Path());
      forall q ensures ParentIn(Applied(t, op), q) {
        assert ParentIn(e, q);
      }
    }
  }
}
