/** The string form of paths that the walk uses as map keys (hive/merge/walk_apply.go). */
module NormalPath {
  import opened Registry

  /** The names of a path, separated by backslashes. */
  function Join(p: Path): (s: string)
    ensures p != [] ==> |s| >= |p[|p| - 1]|
  {
    if p == [] then ""
    else if |p| == 1 then p[0]
    else Join(p[..|p| - 1]) + "\\" + p[|p| - 1]
  }

  function Normalized(p: Path): string {
    Join(LowerPath(p))
  }

  /** What follows the last separator. */
  function AfterLast(s: string): (r: string)
    ensures |r| <= |s|
  {
    if s == "" || s[|s| - 1] == '\\' then "" else AfterLast(s[..|s| - 1]) + [s[|s| - 1]]
  }

  lemma {:induction false} AfterLastIs(s: string, a: string)
    requires '\\' !in a
    ensures AfterLast(s + "\\" + a) == a
  {
    var u := s + "\\" + a;
    if a == "" {
      assert u == s + "\\";
    } else {
      var b := a[..|a| - 1];
      assert u[..|u| - 1] == s + "\\" + b && a == b + [a[|a| - 1]];
      assert forall c :: c in b ==> c in a;
      AfterLastIs(s, b);
    }
  }

  lemma HasSeparator(p: Path)
    requires |p| > 1
    ensures '\\' in Join(p)
  {
    var s := Join(p[..|p| - 1]);
    assert (s + "\\" + p[|p| - 1])[|s|] == '\\';
  }

  /** Different paths have different strings. */
  lemma {:induction false} JoinInjective(p: Path, q: Path)
    requires Join(p) == Join(q)
    ensures p == q
  {
    if |p| > 1 { HasSeparator(p); }
    if |q| > 1 { HasSeparator(q); }
    if |p| > 1 && |q| > 1 {
      var s, t, a, b := p[..|p| - 1], q[..|q| - 1], p[|p| - 1], q[|q| - 1];
      AfterLastIs(Join(s), a);
      AfterLastIs(Join(t), b);
      assert Join(s) == Join(p)[..|Join(p)| - |a| - 1] && Join(t) == Join(q)[..|Join(q)| - |b| - 1];
      JoinInjective(s, t);
      assert p == s + [a] && q == t + [b];
    }
  }

  function SeparatorBefore(i: nat): nat {
    if i == 0 then 0 else 1
  }

  /** The string of a path is cut back to the string of a path above it: where each segment ends. */
  lemma {:induction false} Truncated(p: Path, i: nat)
    requires i <= |p|
    ensures |Join(p[..i])| <= |Join(p)| && Join(p)[..|Join(p[..i])|] == Join(p[..i])
    ensures i < |p| ==> |Join(p[..i + 1])| == |Join(p[..i])| + SeparatorBefore(i) + |p[i]|
    decreases |p| - i
  {
    if i == |p| {
      assert p[..i] == p;
    } else {
      var q := p[..i + 1];
      assert q[..i] == p[..i] && q[i] == p[i];
      Truncated(p, i + 1);
      Above(p, i);
      assert Join(q)[..|Join(p[..i])|] == Join(p[..i]);
      assert Join(p)[..|Join(p[..i])|] == Join(p)[..|Join(q)|][..|Join(p[..i])|];
    }
  }

  lemma Above(p: Path, i: nat)
    requires i < |p|
    ensures |Join(p[..i])| <= |Join(p[..i + 1])| && Join(p[..i + 1])[..|Join(p[..i])|] == Join(p[..i])
    ensures |Join(p[..i + 1])| == |Join(p[..i])| + SeparatorBefore(i) + |p[i]|
  {
    var q := p[..i + 1];
    assert q[..i] == p[..i] && q[i] == p[i];
  }

  method ToLowerASCII(s: Name) returns (r: Name)
    ensures r == Lower(s)
  {
    var hasUpper, i := false, 0;
    while i < |s| && !hasUpper
      invariant 0 <= i <= |s| && (!hasUpper ==> forall k :: 0 <= k < i ==> !('A' <= s[k] <= 'Z'))
    {
      hasUpper := 'A' <= s[i] <= 'Z';
      i := i + 1;
    }
    if !hasUpper {
      assert s == Lower(s);
      return s;
    }
    r := "";
    for k := 0 to |s|
      invariant r == Lower(s)[..k]
    {
      r := r + [if 'A' <= s[k] <= 'Z' then s[k] - 'A' + 'a' else s[k]];
    }
  }

  method WriteLower(b: string, s: Name) returns (r: string)
    ensures r == b + Lower(s)
  {
    r := b;
    for j := 0 to |s|
      invariant r == b + Lower(s)[..j]
    {
      var c := if 'A' <= s[j] <= 'Z' then s[j] - 'A' + 'a' else s[j];
      assert b + Lower(s)[..j + 1] == b + Lower(s)[..j] + [c];
      r := r + [c];
    }
    assert Lower(s)[..|s|] == Lower(s);
  }

  /** Join and lower-casing in one pass. */
  method NormalizePath(path: Path) returns (s: string)
    ensures s == Normalized(path)
  {
    if |path| == 0 { return ""; }
    if |path| == 1 {
      s := ToLowerASCII(path[0]);
      return;
    }
    s := "";
    ghost var low := LowerPath(path);
    for i := 0 to |path|
      invariant s == Join(low[..i])
    {
      Above(low, i);
      assert low[..i + 1][..i] == low[..i];
      if i > 0 { s := s + "\\"; }
      s := WriteLower(s, path[i]);
    }
    assert low[..|path|] == low;
  }
}
