/** The two indices of keys and values by parent and name (hive/index/numeric_index.go, hive/index/string_index.go).
    Names are ASCII; offsets are 32-bit. */
module NameIndex {
  import opened Bytes
  import opened Registry

  // ----- FNV-1a -----

  const WORD := 0x1_0000_0000
  const BASIS: Word := 2166136261
  const PRIME := 16777619

  /** Bit by bit. */
  function Xor(a: nat, b: nat): nat {
    if a == 0 && b == 0 then 0 else (a + b) % 2 + 2 * Xor(a / 2, b / 2)
  }

  function FnvStep(h: Word, c: char): Word {
    Xor(h, c as int) * PRIME % WORD
  }

  function Fnv(s: string): Word {
    if s == "" then BASIS else FnvStep(Fnv(s[..|s| - 1]), s[|s| - 1])
  }

  method Fnv32(s: string) returns (h: Word)
    ensures h == Fnv(s)
  {
    h := BASIS;
    for i := 0 to |s|
      invariant h == Fnv(s[..i])
    {
      assert s[..i + 1][..i] == s[..i];
      h := FnvStep(h, s[i]);
    }
    assert s[..|s|] == s;
  }

  /** Lower-cases as it hashes. */
  method Fnv32Lower(s: string) returns (h: Word)
    ensures h == Fnv(Lower(s))
  {
    h := BASIS;
    ghost var low := Lower(s);
    for i := 0 to |s|
      invariant h == Fnv(low[..i])
    {
      assert low[..i + 1][..i] == low[..i];
      var c := s[i];
      if 'A' <= c <= 'Z' {
        c := c - 'A' + 'a';
      }
      h := FnvStep(h, c);
    }
    assert low[..|s|] == low;
  }

  // ----- Keys -----

  /** (parent << 32) | hash */
  function NumericKey(parent: Word, hash: Word): int {
    parent * WORD + hash
  }

  lemma NumericKeyInjective(p: Word, h: Word, q: Word, k: Word)
    ensures NumericKey(p, h) == NumericKey(q, k) <==> p == q && h == k
  {
  }

  function Digit(d: int): char
    requires 0 <= d < 10
  {
    '0' + d as char
  }

  /** As strconv writes it. */
  function Decimal(n: nat): (s: string)
    ensures s != "" && forall c :: c in s ==> '0' <= c <= '9'
  {
    if n < 10 then [Digit(n)] else Decimal(n / 10) + [Digit(n % 10)]
  }

  function StringKey(parent: Word, name: string): string {
    Decimal(parent) + ":" + name
  }

  lemma {:induction false} DecimalInjective(m: nat, n: nat)
    requires Decimal(m) == Decimal(n)
    ensures m == n
  {
    var s := Decimal(m);
    if m >= 10 && n >= 10 {
      assert s[..|s| - 1] == Decimal(m / 10) == Decimal(n / 10);
      assert s[|s| - 1] == Digit(m % 10) == Digit(n % 10);
      DecimalInjective(m / 10, n / 10);
    }
  }

  lemma StringKeyInjective(p: Word, a: string, q: Word, b: string)
    requires StringKey(p, a) == StringKey(q, b)
    ensures p == q && a == b
  {
    var d, e, s := Decimal(p), Decimal(q), StringKey(p, a);
    assert s[|d|] == ':' && s[|e|] == ':';
    assert forall i :: 0 <= i < |d| ==> s[i] == d[i] && d[i] in d;
    assert forall i :: 0 <= i < |e| ==> s[i] == e[i] && e[i] in e;
    assert |d| == |e|;
    assert d == s[..|d|] && e == s[..|d|] && a == s[|d| + 1..] && b == s[|d| + 1..];
    DecimalInjective(p, q);
  }

  // ----- Runs -----

  /** A name, in lower case, below a parent. */
  datatype Slot = Slot(parent: Word, name: string)

  datatype Edit = Add(slot: Slot, offset: Word) | Remove(slot: Slot)

  function NumKey(s: Slot): int {
    NumericKey(s.parent, Fnv(s.name))
  }

  function StrKey(s: Slot): string {
    StringKey(s.parent, s.name)
  }

  function Put<K>(t: map<K, Word>, k: K, op: Edit): map<K, Word> {
    if op.Add? then t[k := op.offset] else t - {k}
  }

  function Find<K>(t: map<K, Word>, k: K): Option<Word> {
    if k in t then Some(t[k]) else None
  }

  function NumericRun(ops: seq<Edit>): map<int, Word> {
    if ops == [] then map[] else Put(NumericRun(ops[..|ops| - 1]), NumKey(ops[|ops| - 1].slot), ops[|ops| - 1])
  }

  function StringRun(ops: seq<Edit>): map<string, Word> {
    if ops == [] then map[] else Put(StringRun(ops[..|ops| - 1]), StrKey(ops[|ops| - 1].slot), ops[|ops| - 1])
  }

  /** One map by parent and lower-case name. */
  function MapRun(ops: seq<Edit>): map<Slot, Word> {
    if ops == [] then map[] else Put(MapRun(ops[..|ops| - 1]), ops[|ops| - 1].slot, ops[|ops| - 1])
  }

  /** The string index always answers as the map does. */
  lemma {:induction false} StringAgrees(ops: seq<Edit>, s: Slot)
    ensures Find(StringRun(ops), StrKey(s)) == Find(MapRun(ops), s)
  {
    if ops != [] {
      var op := ops[|ops| - 1];
      StringAgrees(ops[..|ops| - 1], s);
      if StrKey(op.slot) == StrKey(s) {
        StringKeyInjective(op.slot.parent, op.slot.name, s.parent, s.name);
      }
    }
  }

  /** No two of the names in use below one parent have the same hash. */
  predicate CollisionFree(used: set<Slot>) {
    forall a, b :: a in used && b in used && a.parent == b.parent && Fnv(a.name) == Fnv(b.name) ==> a == b
  }

  predicate Within(ops: seq<Edit>, used: set<Slot>) {
    forall i :: 0 <= i < |ops| ==> ops[i].slot in used
  }

  lemma {:induction false} NumericAgrees(ops: seq<Edit>, used: set<Slot>, s: Slot)
    requires CollisionFree(used) && Within(ops, used) && s in used
    ensures Find(NumericRun(ops), NumKey(s)) == Find(MapRun(ops), s)
  {
    if ops != [] {
      var op := ops[|ops| - 1];
      NumericAgrees(ops[..|ops| - 1], used, s);
      NumericKeyInjective(op.slot.parent, Fnv(op.slot.name), s.parent, Fnv(s.name));
    }
  }

  ghost predicate AgreesOn(ops: seq<Edit>, used: set<Slot>) {
    forall s :: s in used ==> Find(NumericRun(ops), NumKey(s)) == Find(MapRun(ops), s)
  }

  /** One name added, and the other is found. */
  lemma CollisionDiffers(a: Slot, b: Slot)
    requires a != b && NumKey(a) == NumKey(b)
    ensures Find(NumericRun([Add(a, 1)]), NumKey(b)) == Some(1) && Find(MapRun([Add(a, 1)]), b) == None
  {
    var ops := [Add(a, 1)];
    assert ops[..0] == [] && NumericRun([]) == map[] && MapRun([]) == map[];
    var (k, op) := (NumKey(a), ops[0]);
    assert NumericRun(ops) == Put(map[], k, op);
    assert MapRun(ops) == Put(map[], a, op);
  }

  /** The numeric index answers as the map does in every run over some names exactly when no two of them collide. */
  lemma NumericAgreesIff(used: set<Slot>)
    ensures (forall ops :: Within(ops, used) ==> AgreesOn(ops, used)) <==> CollisionFree(used)
  {
    if CollisionFree(used) {
      forall ops | Within(ops, used) ensures AgreesOn(ops, used) {
        forall s | s in used ensures Find(NumericRun(ops), NumKey(s)) == Find(MapRun(ops), s) {
          NumericAgrees(ops, used, s);
        }
      }
    } else {
      var a, b :| a in used && b in used && a.parent == b.parent && Fnv(a.name) == Fnv(b.name) && a != b;
      CollisionDiffers(a, b);
      assert Within([Add(a, 1)], used);
      assert !AgreesOn([Add(a, 1)], used);
    }
  }

  lemma RunOneMore(log: seq<Edit>, e: Edit)
    ensures NumericRun(log + [e]) == Put(NumericRun(log), NumKey(e.slot), e)
    ensures StringRun(log + [e]) == Put(StringRun(log), StrKey(e.slot), e)
  {
    assert (log + [e])[..|log|] == log;
  }

  /** In a run over names that do not collide, the numeric index answers as the map. */
  ghost predicate AnswersAsMap(log: seq<Edit>, s: Slot, r: Option<Word>) {
    forall used :: CollisionFree(used) && Within(log, used) && s in used ==> r == Find(MapRun(log), s)
  }

  lemma NumericAnswers(log: seq<Edit>, s: Slot)
    ensures AnswersAsMap(log, s, Find(NumericRun(log), NumKey(s)))
  {
    forall used | CollisionFree(used) && Within(log, used) && s in used
      ensures Find(NumericRun(log), NumKey(s)) == Find(MapRun(log), s)
    {
      NumericAgrees(log, used, s);
    }
  }

  // ----- The two indices -----

  /** Keyed by parent and hash; the logs are what was added and removed so far. */
  class NumericIndex {
    var nodes: map<int, Word>
    var values: map<int, Word>
    ghost var nodeLog: seq<Edit>
    ghost var valueLog: seq<Edit>

    ghost predicate Valid()
      reads this
    {
      nodes == NumericRun(nodeLog) && values == NumericRun(valueLog)
    }

    constructor ()
      ensures Valid() && nodeLog == valueLog == []
    {
      nodes, values := map[], map[];
      nodeLog, valueLog := [], [];
    }

    method AddNK(parent: Word, name: string, offset: Word)
      requires Valid()
      modifies this`nodes, this`nodeLog
      ensures Valid() && nodeLog == old(nodeLog) + [Add(Slot(parent, Lower(name)), offset)]
    {
      var hash := Fnv32(Lower(name));
      var key := NumericKey(parent, hash);
      nodes := nodes[key := offset];
      RunOneMore(nodeLog, Add(Slot(parent, Lower(name)), offset));
      nodeLog := nodeLog + [Add(Slot(parent, Lower(name)), offset)];
    }

    method GetNK(parent: Word, name: string) returns (r: Option<Word>)
      requires Valid()
      ensures r == Find(nodes, NumKey(Slot(parent, Lower(name))))
      ensures AnswersAsMap(nodeLog, Slot(parent, Lower(name)), r)
    {
      var hash := Fnv32Lower(name);
      var key := NumericKey(parent, hash);
      r := if key in nodes then Some(nodes[key]) else None;
      NumericAnswers(nodeLog, Slot(parent, Lower(name)));
    }

    method RemoveNK(parent: Word, name: string)
      requires Valid()
      modifies this`nodes, this`nodeLog
      ensures Valid() && nodeLog == old(nodeLog) + [Remove(Slot(parent, Lower(name)))]
    {
      var hash := Fnv32Lower(name);
      var key := NumericKey(parent, hash);
      nodes := nodes - {key};
      RunOneMore(nodeLog, Remove(Slot(parent, Lower(name))));
      nodeLog := nodeLog + [Remove(Slot(parent, Lower(name)))];
    }

    method AddVK(parent: Word, name: string, offset: Word)
      requires Valid()
      modifies this`values, this`valueLog
      ensures Valid() && valueLog == old(valueLog) + [Add(Slot(parent, Lower(name)), offset)]
    {
      var hash := Fnv32(Lower(name));
      var key := NumericKey(parent, hash);
      values := values[key := offset];
      RunOneMore(valueLog, Add(Slot(parent, Lower(name)), offset));
      valueLog := valueLog + [Add(Slot(parent, Lower(name)), offset)];
    }

    method GetVK(parent: Word, name: string) returns (r: Option<Word>)
      requires Valid()
      ensures r == Find(values, NumKey(Slot(parent, Lower(name))))
      ensures AnswersAsMap(valueLog, Slot(parent, Lower(name)), r)
    {
      var hash := Fnv32Lower(name);
      var key := NumericKey(parent, hash);
      r := if key in values then Some(values[key]) else None;
      NumericAnswers(valueLog, Slot(parent, Lower(name)));
    }

    method RemoveVK(parent: Word, name: string)
      requires Valid()
      modifies this`values, this`valueLog
      ensures Valid() && valueLog == old(valueLog) + [Remove(Slot(parent, Lower(name)))]
    {
      var hash := Fnv32Lower(name);
      var key := NumericKey(parent, hash);
      values := values - {key};
      RunOneMore(valueLog, Remove(Slot(parent, Lower(name))));
      valueLog := valueLog + [Remove(Slot(parent, Lower(name)))];
    }
  }

  /** Keyed by parent and name; the logs are what was added and removed so far. */
  class StringIndex {
    var nodes: map<string, Word>
    var values: map<string, Word>
    ghost var nodeLog: seq<Edit>
    ghost var valueLog: seq<Edit>

    ghost predicate Valid()
      reads this
    {
      nodes == StringRun(nodeLog) && values == StringRun(valueLog)
    }

    constructor ()
      ensures Valid() && nodeLog == valueLog == []
    {
      nodes, values := map[], map[];
      nodeLog, valueLog := [], [];
    }

    /** The offset in decimal, a colon and the name, appended into one buffer. */
    static method MakeKey(parent: Word, name: string) returns (key: string)
      ensures key == StringKey(parent, name)
    {
      var buf := Decimal(parent);
      buf := buf + ":";
      key := buf + name;
    }

    method AddNK(parent: Word, name: string, offset: Word)
      requires Valid()
      modifies this`nodes, this`nodeLog
      ensures Valid() && nodeLog == old(nodeLog) + [Add(Slot(parent, Lower(name)), offset)]
    {
      var key := MakeKey(parent, Lower(name));
      nodes := nodes[key := offset];
      RunOneMore(nodeLog, Add(Slot(parent, Lower(name)), offset));
      nodeLog := nodeLog + [Add(Slot(parent, Lower(name)), offset)];
    }

    method GetNK(parent: Word, name: string) returns (r: Option<Word>)
      requires Valid()
      ensures r == Find(nodes, StrKey(Slot(parent, Lower(name))))
      ensures r == Find(MapRun(nodeLog), Slot(parent, Lower(name)))
    {
      var key := MakeKey(parent, Lower(name));
      r := if key in nodes then Some(nodes[key]) else None;
      StringAgrees(nodeLog, Slot(parent, Lower(name)));
    }

    method RemoveNK(parent: Word, name: string)
      requires Valid()
      modifies this`nodes, this`nodeLog
      ensures Valid() && nodeLog == old(nodeLog) + [Remove(Slot(parent, Lower(name)))]
    {
      var key := MakeKey(parent, Lower(name));
      nodes := nodes - {key};
      RunOneMore(nodeLog, Remove(Slot(parent, Lower(name))));
      nodeLog := nodeLog + [Remove(Slot(parent, Lower(name)))];
    }

    method AddVK(parent: Word, name: string, offset: Word)
      requires Valid()
      modifies this`values, this`valueLog
      ensures Valid() && valueLog == old(valueLog) + [Add(Slot(parent, Lower(name)), offset)]
    {
      var key := MakeKey(parent, Lower(name));
      values := values[key := offset];
      RunOneMore(valueLog, Add(Slot(parent, Lower(name)), offset));
      valueLog := valueLog + [Add(Slot(parent, Lower(name)), offset)];
    }

    method GetVK(parent: Word, name: string) returns (r: Option<Word>)
      requires Valid()
      ensures r == Find(values, StrKey(Slot(parent, Lower(name))))
      ensures r == Find(MapRun(valueLog), Slot(parent, Lower(name)))
    {
      var key := MakeKey(parent, Lower(name));
      r := if key in values then Some(values[key]) else None;
      StringAgrees(valueLog, Slot(parent, Lower(name)));
    }

    method RemoveVK(parent: Word, name: string)
      requires Valid()
      modifies this`values, this`valueLog
      ensures Valid() && valueLog == old(valueLog) + [Remove(Slot(parent, Lower(name)))]
    {
      var key := MakeKey(parent, Lower(name));
      values := values - {key};
      RunOneMore(valueLog, Remove(Slot(parent, Lower(name))));
      valueLog := valueLog + [Remove(Slot(parent, Lower(name)))];
    }
  }
}
