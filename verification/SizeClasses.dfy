/** hive/alloc/size_classes.go: the size class table that segregates the free lists. */
module SizeClasses {
  datatype SizeClassConfig = SizeClassConfig(
    smallMin: int, smallMax: int, smallIncrement: int, mediumMax: int, growthFactor: real)
  {
    /** What the small loop needs to end. */
    predicate Usable() {
      0 < smallIncrement
    }
  }

  const CONFIG_FINE_GRAINED := SizeClassConfig(8, 256, 8, 16384, 1.5)
  const CONFIG_BALANCED := SizeClassConfig(8, 512, 16, 16384, 1.5)
  const CONFIG_COARSE := SizeClassConfig(8, 512, 32, 16384, 2.0)
  const CONFIG_REGISTRY := SizeClassConfig(8, 128, 8, 16384, 1.3)

  predicate Increasing(bounds: seq<int>) {
    forall i, j :: 0 <= i < j < |bounds| ==> bounds[i] < bounds[j]
  }

  function Ceil(r: real): int {
    -((-r).Floor)
  }

  /** The next medium size: the grown size, or one more when growth makes no progress. */
  function NextSize(size: int, growth: real): (next: int)
    ensures next > size
  {
    var grown := Ceil(size as real * growth);
    if grown <= size then size + 1 else grown
  }

  /** The boundary of a class is the last size before the next class. */
  function LastBefore(next: int): int {
    next - 1
  }

  function NextSmall(size: int, inc: int): int {
    size + inc
  }

  ghost function SmallBounds(size: int, max: int, inc: int): seq<int>
    requires 0 < inc
    decreases max - size
  {
    if size < max then (var next := NextSmall(size, inc); [LastBefore(next)] + SmallBounds(next, max, inc)) else []
  }

  ghost function MediumBounds(size: int, max: int, growth: real): seq<int>
    decreases max - size
  {
    if size < max then
      var next := NextSize(size, growth);
      [LastBefore(next)] + MediumBounds(next, max, growth)
    else
      []
  }

  lemma {:induction false} SmallShape(size: int, max: int, inc: int)
    requires 0 < inc
    ensures var b := SmallBounds(size, max, inc);
      && (|b| > 0 <==> size < max) && Increasing(b)
      && forall i :: 0 <= i < |b| ==> size + inc - 1 <= b[i]
    decreases max - size
  {
    if size < max {
      SmallShape(size + inc, max, inc);
    }
  }

  lemma {:induction false} MediumShape(size: int, max: int, growth: real)
    ensures var b := MediumBounds(size, max, growth);
      && (|b| > 0 <==> size < max) && Increasing(b)
      && (forall i :: 0 <= i < |b| ==> size <= b[i])
      && (|b| > 0 ==> b[0] == NextSize(size, growth) - 1 && b[|b| - 1] >= max - 1)
    decreases max - size
  {
    if size < max {
      MediumShape(NextSize(size, growth), max, growth);
    }
  }

  /** What the table of a configuration holds: linear classes, then geometric ones. */
  ghost function Bounds(c: SizeClassConfig): seq<int>
    requires c.Usable()
  {
    SmallBounds(c.smallMin, c.smallMax, c.smallIncrement) + MediumBounds(c.smallMax, c.mediumMax, c.growthFactor)
  }

  /** The last linear boundary, in closed form. */
  function LastSmall(c: SizeClassConfig): int
    requires c.Usable()
  {
    c.smallMin + (c.smallMax - c.smallMin + c.smallIncrement - 1) / c.smallIncrement * c.smallIncrement - 1
  }

  lemma {:induction false} LastSmallIsLast(size: int, max: int, inc: int)
    requires 0 < inc && size < max
    ensures var b := SmallBounds(size, max, inc);
      |b| > 0 && b[|b| - 1] == size + (max - size + inc - 1) / inc * inc - 1
    decreases max - size
  {
    var b := SmallBounds(size, max, inc);
    var q := (max - size + inc - 1) / inc;
    var rest := SmallBounds(size + inc, max, inc);
    assert b == [size + inc - 1] + rest;
    if size + inc < max {
      LastSmallIsLast(size + inc, max, inc);
      assert b[|b| - 1] == rest[|rest| - 1];
      DivStep(max - size - inc + inc - 1, inc);
      assert q * inc == (q - 1) * inc + inc;
    } else {
      DivBetween(max - size + inc - 1, inc);
    }
  }

  lemma DivStep(n: int, d: int)
    requires 0 < d
    ensures (n + d) / d == n / d + 1
  {
    var q := n / d;
    assert n == q * d + n % d;
    assert n + d == (q + 1) * d + n % d by { assert (q + 1) * d == q * d + d; }
    DivUnique(n + d, d, q + 1, n % d);
  }

  lemma DivUnique(n: int, d: int, q: int, r: int)
    requires 0 <= r < d && n == q * d + r
    ensures n / d == q
  {
    var k := n / d - q;
    assert n == n / d * d + n % d;
    assert k * d == r - n % d by { assert k * d == n / d * d - q * d; }
    assert k >= 1 ==> k * d >= d;
    assert k <= -1 ==> k * d <= -d;
  }

  lemma DivBetween(n: int, d: int)
    requires 0 < d <= n < 2 * d
    ensures n / d == 1
  {
    DivUnique(n, d, 1, n - d);
  }

  /** The boundaries increase exactly when the last linear one stays below the first geometric one. */
  lemma TableIncreasesIff(c: SizeClassConfig)
    requires c.Usable()
    ensures Increasing(Bounds(c)) <==>
      (c.smallMin >= c.smallMax || c.smallMax >= c.mediumMax
       || LastSmall(c) < NextSize(c.smallMax, c.growthFactor) - 1)
  {
    var s := SmallBounds(c.smallMin, c.smallMax, c.smallIncrement);
    var m := MediumBounds(c.smallMax, c.mediumMax, c.growthFactor);
    SmallShape(c.smallMin, c.smallMax, c.smallIncrement);
    MediumShape(c.smallMax, c.mediumMax, c.growthFactor);
    if |s| > 0 && |m| > 0 {
      LastSmallIsLast(c.smallMin, c.smallMax, c.smallIncrement);
      assert Bounds(c)[|s| - 1] == s[|s| - 1] == LastSmall(c) && Bounds(c)[|s|] == m[0];
      if LastSmall(c) < m[0] {
        forall i, j | 0 <= i < j < |s| + |m| ensures Bounds(c)[i] < Bounds(c)[j] {
          if i < |s| <= j {
            assert s[i] <= s[|s| - 1] && m[0] <= m[j - |s|];
          } else if |s| <= i {
            assert m[i - |s|] < m[j - |s|];
          }
        }
      }
    } else {
      assert Bounds(c) == s || Bounds(c) == m;
    }
  }

  /** The four shipped configurations all have increasing tables, with a last boundary of at least 16383. */
  lemma ShippedTablesIncrease(c: SizeClassConfig)
    requires c in [CONFIG_FINE_GRAINED, CONFIG_BALANCED, CONFIG_COARSE, CONFIG_REGISTRY]
    ensures Increasing(Bounds(c)) && |Bounds(c)| > 0 && Bounds(c)[|Bounds(c)| - 1] >= c.mediumMax - 1
  {
    TableIncreasesIff(c);
    MediumShape(c.smallMax, c.mediumMax, c.growthFactor);
    var s := SmallBounds(c.smallMin, c.smallMax, c.smallIncrement);
    var m := MediumBounds(c.smallMax, c.mediumMax, c.growthFactor);
    assert Bounds(c)[|Bounds(c)| - 1] == m[|m| - 1];
  }

  /** An increment that carries the last linear class past the first geometric one: the table goes back. */
  lemma CoarseTableGoesBack(max: int)
    requires 16 < max
    ensures var c := SizeClassConfig(8, 16, 100, max, 2.0); c.Usable() && !Increasing(Bounds(c))
  {
    var c := SizeClassConfig(8, 16, 100, max, 2.0);
    TableIncreasesIff(c);
    assert NextSize(16, 2.0) == 32;
  }

  method NewSizeClassTable(c: SizeClassConfig) returns (bounds: seq<int>)
    requires c.Usable()
    ensures bounds == Bounds(c)
  {
    var small := SmallTable(c.smallMin, c.smallMax, c.smallIncrement);
    var medium := MediumTable(c.smallMax, c.mediumMax, c.growthFactor);
    bounds := small + medium;
  }

  method SmallTable(min: int, max: int, inc: int) returns (bounds: seq<int>)
    requires 0 < inc
    ensures bounds == SmallBounds(min, max, inc)
  {
    bounds := [];
    var size := min;
    while size < max
      invariant bounds + SmallBounds(size, max, inc) == SmallBounds(min, max, inc)
    {
      var next := NextSmall(size, inc);
      Shift(bounds, LastBefore(next), SmallBounds(next, max, inc));
      bounds := bounds + [LastBefore(next)];
      size := next;
    }
  }

  method MediumTable(min: int, max: int, growth: real) returns (bounds: seq<int>)
    ensures bounds == MediumBounds(min, max, growth)
  {
    bounds := [];
    var size := min;
    while size < max
      invariant bounds + MediumBounds(size, max, growth) == MediumBounds(min, max, growth)
    {
      var next := NextSize(size, growth);
      Shift(bounds, LastBefore(next), MediumBounds(next, max, growth));
      bounds := bounds + [LastBefore(next)];
      size := next;
    }
  }

  lemma Shift(a: seq<int>, x: int, b: seq<int>)
    ensures a + ([x] + b) == (a + [x]) + b
  {
  }

  ghost predicate InClass(bounds: seq<int>, size: int, sc: nat) {
    && sc <= |bounds|
    && (forall i :: 0 <= i < sc ==> bounds[i] < size)
    && (sc < |bounds| ==> size <= bounds[sc])
  }

  /** The least class whose boundary is not below `size`, or the number of classes when there is none. */
  ghost function ClassOf(bounds: seq<int>, size: int): (sc: nat)
    ensures InClass(bounds, size, sc)
  {
    ClassExists(bounds, size, 0);
    var sc: nat :| InClass(bounds, size, sc);
    sc
  }

  lemma {:induction false} ClassExists(bounds: seq<int>, size: int, from: nat)
    requires from <= |bounds| && forall i :: 0 <= i < from ==> bounds[i] < size
    ensures exists sc: nat :: InClass(bounds, size, sc)
    decreases |bounds| - from
  {
    if from == |bounds| || size <= bounds[from] {
      assert InClass(bounds, size, from);
    } else {
      ClassExists(bounds, size, from + 1);
    }
  }

  /** On an increasing table, a larger cell is never in a smaller class. */
  lemma ClassOfMonotone(bounds: seq<int>, a: int, b: int)
    requires a <= b
    ensures ClassOf(bounds, a) <= ClassOf(bounds, b)
  {
  }

  /** The binary search. */
  method GetSizeClass(bounds: seq<int>, size: int) returns (sc: nat)
    requires Increasing(bounds)
    ensures sc == ClassOf(bounds, size)
  {
    var lo, hi := 0, |bounds| - 1;
    while lo <= hi
      invariant 0 <= lo <= hi + 1 <= |bounds|
      invariant forall i :: 0 <= i < lo ==> bounds[i] < size
      invariant forall i :: hi < i < |bounds| ==> size <= bounds[i]
      invariant hi < |bounds| - 1 ==> hi >= 0 && size <= bounds[hi]
    {
      var mid := (lo + hi) / 2;
      if size <= bounds[mid] {
        if mid == 0 || size > bounds[mid - 1] {
          return mid;
        }
        hi := mid - 1;
      } else {
        lo := mid + 1;
      }
    }
    return |bounds|;
  }
}
