/** REG_MULTI_SZ data (hive/builder/encode.go, hive/builder/regtext.go): strings of code points, encoded in UTF-16 and
    decoded unit by unit. */
module MultiString {
  import opened Bytes

  type Unit = u: int | 0 <= u < 0x1_0000

  type Units = seq<Unit>

  predicate Surrogate(u: int) {
    0xD800 <= u < 0xE000
  }

  /** A Unicode code point. */
  type Rune = r: int | 0 <= r < 0x11_0000 && !Surrogate(r) witness 0

  type Text = seq<Rune>

  const REPLACEMENT: Rune := 0xFFFD

  /** The units of a code point: one, or a surrogate pair (section 2.1 of RFC 2781). */
  function RuneUnits(r: Rune): (us: Units)
    ensures |us| == if r < 0x1_0000 then 1 else 2
  {
    var c: int := r;
    if c < 0x1_0000 then [c] else [0xD800 + (c - 0x1_0000) / 0x400, 0xDC00 + (c - 0x1_0000) % 0x400]
  }

  function Utf16(x: Text): Units {
    if x == [] then [] else Utf16(x[..|x| - 1]) + RuneUnits(x[|x| - 1])
  }

  function Utf16All(xs: seq<Text>): (r: seq<Units>)
    ensures |r| == |xs|
  {
    seq(|xs|, i requires 0 <= i < |xs| => Utf16(xs[i]))
  }

  /** A unit taken for a code point: one of a surrogate pair is none. */
  function UnitRune(u: Unit): Rune {
    if Surrogate(u) then REPLACEMENT else u
  }

  function Shown(us: Units): (x: Text)
    ensures |x| == |us|
  {
    seq(|us|, i requires 0 <= i < |us| => UnitRune(us[i]))
  }

  function ShownAll(uss: seq<Units>): (r: seq<Text>)
    ensures |r| == |uss|
  {
    seq(|uss|, i requires 0 <= i < |uss| => Shown(uss[i]))
  }

  function ToBytes(us: seq<Unit>): (b: seq<Byte>)
    ensures |b| == 2 * |us|
  {
    if us == [] then [] else
      var last: int := us[|us| - 1];
      ToBytes(us[..|us| - 1]) + [last % 0x100, last / 0x100]
  }

  /** Little-endian pairs; an odd last byte is dropped. */
  function ToUnits(data: seq<Byte>): seq<Unit> {
    if |data| < 2 then [] else [UnitAt(data, 0)] + ToUnits(data[2..])
  }

  function UnitAt(data: seq<Byte>, i: nat): Unit
    requires i + 1 < |data|
  {
    var lo: int, hi: int := data[i], data[i + 1];
    lo + 0x100 * hi
  }

  lemma {:induction false} UnitsAppend(data: seq<Byte>, u: Unit)
    requires |data| % 2 == 0
    ensures var v: int := u; ToUnits(data + [v % 0x100, v / 0x100]) == ToUnits(data) + [u]
    decreases |data|
  {
    var v: int := u;
    var all := data + [v % 0x100, v / 0x100];
    if data == [] {
      assert all[2..] == [];
    } else {
      assert all[2..] == data[2..] + [v % 0x100, v / 0x100];
      UnitsAppend(data[2..], u);
    }
  }

  lemma {:induction false} UnitsOfBytes(us: seq<Unit>)
    ensures ToUnits(ToBytes(us)) == us
  {
    if us != [] {
      var front := us[..|us| - 1];
      UnitsOfBytes(front);
      UnitsAppend(ToBytes(front), us[|us| - 1]);
      assert us == front + [us[|us| - 1]];
    }
  }

  lemma {:induction false} BytesConcat(a: seq<Unit>, b: seq<Unit>)
    ensures ToBytes(a + b) == ToBytes(a) + ToBytes(b)
  {
    if b == [] {
      assert a + b == a;
    } else {
      var c := b[..|b| - 1];
      assert (a + b)[..|a + b| - 1] == a + c;
      BytesConcat(a, c);
    }
  }

  // ----- Encoding -----

  /** Each string with a null after it. */
  function Terminated(xs: seq<Units>): seq<Unit> {
    if xs == [] then [] else Terminated(xs[..|xs| - 1]) + xs[|xs| - 1] + [0]
  }

  /** And a null after the last; two nulls for no strings. */
  function EncodedUnits(xs: seq<Units>): seq<Unit> {
    if xs == [] then [0, 0] else Terminated(xs) + [0]
  }

  method WriteUnits(buf: array<Byte>, at: nat, us: Units) returns (offset: nat)
    requires at + 2 * |us| <= buf.Length
    modifies buf
    ensures offset == at + 2 * |us|
    ensures buf[..at] == old(buf[..at]) && buf[at..offset] == ToBytes(us) && buf[offset..] == old(buf[offset..])
  {
    offset := at;
    for i := 0 to |us|
      invariant offset == at + 2 * i
      invariant buf[..at] == old(buf[..at]) && buf[at..offset] == ToBytes(us[..i])
      invariant forall k :: offset <= k < buf.Length ==> buf[k] == old(buf[k])
    {
      var code: int := us[i];
      buf[offset], buf[offset + 1] := code % 0x100, code / 0x100;
      assert us[..i + 1][..i] == us[..i];
      assert buf[at..offset + 2] == buf[at..offset] + [code % 0x100, code / 0x100];
      offset := offset + 2;
    }
    assert us[..|us|] == us;
  }

  method TotalSize(values: seq<Text>) returns (n: nat)
    ensures values != [] ==> n == 2 * |EncodedUnits(Utf16All(values))|
  {
    ghost var all := Utf16All(values);
    n := 0;
    for i := 0 to |values|
      invariant n == 2 * |Terminated(all[..i])|
    {
      assert all[..i + 1][..i] == all[..i];
      n := n + (|Utf16(values[i])| + 1) * 2;
    }
    assert all[..|values|] == all;
    n := n + 2;
  }

  method EncodeMultiString(values: seq<Text>) returns (buf: array<Byte>)
    ensures fresh(buf) && buf[..] == ToBytes(EncodedUnits(Utf16All(values)))
  {
    if |values| == 0 {
      buf := new Byte[4](_ => 0);
      ZeroUnit();
      BytesConcat([0], [0]);
      assert [0] + [0] == [0, 0];
      return;
    }
    var totalSize := TotalSize(values);
    buf := new Byte[totalSize](_ => 0);
    WriteAll(buf, values, Utf16All(values));
  }

  method WriteAll(buf: array<Byte>, values: seq<Text>, ghost all: seq<Units>)
    requires |all| == |values| && forall i :: 0 <= i < |all| ==> all[i] == Utf16(values[i])
    requires buf.Length == 2 * |Terminated(all)| + 2 && ZeroFrom(buf[..], 0)
    modifies buf
    ensures buf[..] == ToBytes(Terminated(all) + [0])
  {
    var offset := 0;
    for i := 0 to |values|
      invariant offset == 2 * |Terminated(all[..i])| <= buf.Length
      invariant buf[..offset] == ToBytes(Terminated(all[..i])) && ZeroFrom(buf[..], offset)
    {
      Room(all, i);
      TerminatedNext(all, i);
      offset := WriteTerminated(buf, offset, Utf16(values[i]));
    }
    assert all[..|values|] == all;
    assert buf[..] == buf[..offset] + [0, 0];
    assert ToBytes(Terminated(all) + [0]) == ToBytes(Terminated(all)) + [0, 0] by {
      BytesConcat(Terminated(all), [0]);
      ZeroUnit();
    }
  }

  lemma TerminatedNext(values: seq<Units>, i: nat)
    requires i < |values|
    ensures Terminated(values[..i + 1]) == Terminated(values[..i]) + (values[i] + [0])
    ensures ToBytes(Terminated(values[..i + 1])) == ToBytes(Terminated(values[..i])) + ToBytes(values[i] + [0])
  {
    assert values[..i + 1][..i] == values[..i];
    assert Terminated(values[..i + 1]) == Terminated(values[..i]) + (values[i] + [0]);
    BytesConcat(Terminated(values[..i]), values[i] + [0]);
  }

  predicate ZeroFrom(b: seq<Byte>, at: nat) {
    forall k :: at <= k < |b| ==> b[k] == 0
  }

  lemma ZeroUnit()
    ensures ToBytes([0]) == [0, 0]
  {
  }

  /** A string and the null after it, which is there already. */
  method WriteTerminated(buf: array<Byte>, at: nat, us: Units) returns (offset: nat)
    requires at + 2 * |us| + 2 <= buf.Length && ZeroFrom(buf[..], at)
    modifies buf
    ensures offset == at + 2 * |us| + 2
    ensures buf[..offset] == old(buf[..at]) + ToBytes(us + [0]) && ZeroFrom(buf[..], offset)
  {
    ghost var was := buf[..];
    offset := WriteUnits(buf, at, us);
    forall k | offset <= k < buf.Length ensures buf[k] == 0 {
      assert buf[offset..][k - offset] == was[offset..][k - offset];
    }
    BytesConcat(us, [0]);
    ZeroUnit();
    assert buf[..offset + 2] == buf[..at] + buf[at..offset] + [0, 0];
    offset := offset + 2;
  }

  lemma {:induction false} Room(values: seq<Units>, i: nat)
    requires i < |values|
    ensures |Terminated(values[..i])| + |values[i]| + 1 <= |Terminated(values)|
    decreases |values|
  {
    var front := values[..|values| - 1];
    if i < |front| {
      Room(front, i);
      assert front[..i] == values[..i];
    }
  }

  // ----- Decoding -----

  /** What is left to decode, with the string begun and the strings done; a null with nothing begun ends the list once
      there is a string. */
  function Decoded(us: seq<Unit>, current: Units, result: seq<Units>): seq<Units>
    decreases |us|
  {
    if us == [] then if current != [] then result + [current] else result
    else if us[0] != 0 then Decoded(us[1..], current + [us[0]], result)
    else if current != [] then Decoded(us[1..], [], result + [current])
    else if result != [] then result
    else Decoded(us[1..], [], [])
  }

  method DecodeMultiString(data: seq<Byte>) returns (result: seq<Text>)
    ensures result == ShownAll(Decoded(ToUnits(data), [], []))
  {
    result := [];
    if |data| == 0 { return; }
    ghost var done: seq<Units> := [];
    var current: Units := [];
    var i := 0;
    while i < |data| - 1
      invariant 0 <= i <= |data| && result == ShownAll(done)
      invariant Decoded(ToUnits(data[i..]), current, done) == Decoded(ToUnits(data), [], [])
    {
      var r := UnitAt(data, i);
      assert UnitAt(data[i..], 0) == r && data[i..][2..] == data[i + 2..];
      if r == 0 {
        if |current| > 0 {
          result, done := result + [Shown(current)], done + [current];
          current := [];
        } else if |result| > 0 {
          return;
        }
      } else {
        current := current + [r];
      }
      i := i + 2;
    }
    if |current| > 0 {
      result, done := result + [Shown(current)], done + [current];
    }
  }

  /** Strings that the format can hold: not empty, and without nulls. */
  predicate Clean(x: Units) {
    x != [] && 0 !in x
  }

  predicate AllClean(xs: seq<Units>) {
    forall i :: 0 <= i < |xs| ==> Clean(xs[i])
  }

  lemma {:induction false} DecodedText(x: Units, rest: seq<Unit>, current: Units, result: seq<Units>)
    requires 0 !in x
    ensures Decoded(x + rest, current, result) == Decoded(rest, current + x, result)
    decreases |x|
  {
    if x == [] {
      assert x + rest == rest && current + x == current;
    } else {
      assert x[0] in x && (x + rest)[0] == x[0] && (x + rest)[1..] == x[1..] + rest;
      assert forall u :: u in x[1..] ==> u in x;
      DecodedText(x[1..], rest, current + [x[0]], result);
      assert current + [x[0]] + x[1..] == current + x;
    }
  }

  lemma {:induction false} DecodedTerminated(xs: seq<Units>, rest: seq<Unit>, result: seq<Units>)
    requires AllClean(xs)
    ensures Decoded(Terminated(xs) + rest, [], result) == Decoded(rest, [], result + xs)
    decreases |xs|
  {
    if xs == [] {
      assert Terminated(xs) + rest == rest && result + xs == result;
    } else {
      var front, x := xs[..|xs| - 1], xs[|xs| - 1];
      assert Terminated(xs) + rest == Terminated(front) + (x + ([0] + rest));
      DecodedTerminated(front, x + ([0] + rest), result);
      DecodedText(x, [0] + rest, [], result + front);
      assert [] + x == x && ([0] + rest)[1..] == rest;
      assert result + front + [x] == result + xs;
    }
  }

  /** Whatever is decoded is clean. */
  lemma {:induction false} DecodedClean(us: seq<Unit>, current: Units, result: seq<Units>)
    requires 0 !in current && AllClean(result)
    ensures AllClean(Decoded(us, current, result))
    decreases |us|
  {
    if us == [] {
    } else if us[0] != 0 {
      DecodedClean(us[1..], current + [us[0]], result);
    } else if current != [] {
      DecodedClean(us[1..], [], result + [current]);
    } else if result == [] {
      DecodedClean(us[1..], [], []);
    }
  }

  /** Units come back exactly when no string is empty and none has a null in it. */
  lemma UnitsBackIff(xs: seq<Units>)
    ensures Decoded(ToUnits(ToBytes(EncodedUnits(xs))), [], []) == xs <==> AllClean(xs)
  {
    UnitsOfBytes(EncodedUnits(xs));
    DecodedClean(EncodedUnits(xs), [], []);
    if AllClean(xs) {
      if xs == [] {
        assert [0, 0][1..] == [0] && [0][1..] == [];
        assert Decoded([0], [], []) == [];
      } else {
        DecodedTerminated(xs, [0], []);
        assert [] + xs == xs;
      }
    }
  }

  // ----- Code points -----

  /** What decoding gives for what encoding made of the strings. */
  function Back(xs: seq<Text>): seq<Text> {
    ShownAll(Decoded(ToUnits(ToBytes(EncodedUnits(Utf16All(xs)))), [], []))
  }

  predicate Plain(x: Text) {
    forall i :: 0 <= i < |x| ==> x[i] < 0x1_0000
  }

  /** Code points above the basic plane, and only they, take two units. */
  lemma {:induction false} Utf16Length(x: Text)
    ensures |Utf16(x)| >= |x| && (|Utf16(x)| == |x| <==> Plain(x))
  {
    if x != [] {
      var front := x[..|x| - 1];
      Utf16Length(front);
      assert forall i :: 0 <= i < |front| ==> front[i] == x[i];
    }
  }

  lemma {:induction false} Utf16Plain(x: Text)
    requires Plain(x)
    ensures Shown(Utf16(x)) == x
  {
    if x != [] {
      var front := x[..|x| - 1];
      Utf16Plain(front);
      assert x == front + [x[|x| - 1]];
    }
  }

  lemma {:induction false} Utf16Nulls(x: Text)
    ensures 0 in Utf16(x) <==> 0 in x
  {
    if x != [] {
      var front, last := x[..|x| - 1], x[|x| - 1];
      Utf16Nulls(front);
      assert x == front + [last];
      assert forall u :: u in Utf16(x) <==> u in Utf16(front) || u in RuneUnits(last);
    }
  }

  lemma Utf16Clean(x: Text)
    ensures Clean(Utf16(x)) <==> x != [] && 0 !in x
  {
    Utf16Nulls(x);
    Utf16Length(x);
  }

  lemma ShownNulls(us: Units)
    requires Clean(us)
    ensures Shown(us) != [] && 0 !in Shown(us)
  {
    forall i | 0 <= i < |us| ensures Shown(us)[i] != 0 {
      assert us[i] in us;
    }
  }

  /** A string that the format gives back: not empty, without nulls, and without code points that take two units. */
  predicate Kept(x: Text) {
    x != [] && 0 !in x && Plain(x)
  }

  /** Strings that are not empty and have no nulls come back with both units of every pair replaced. */
  lemma BackShows(xs: seq<Text>)
    requires forall i :: 0 <= i < |xs| ==> xs[i] != [] && 0 !in xs[i]
    ensures Back(xs) == ShownAll(Utf16All(xs))
  {
    forall i | 0 <= i < |xs| ensures Clean(Utf16All(xs)[i]) {
      Utf16Clean(xs[i]);
    }
    UnitsBackIff(Utf16All(xs));
  }

  /** Decoding what was encoded gives the strings back exactly when none is empty, none has a null in it, and none has a
      code point above the basic plane. */
  lemma RoundTripIff(xs: seq<Text>)
    ensures Back(xs) == xs <==> forall i :: 0 <= i < |xs| ==> Kept(xs[i])
  {
    if Back(xs) == xs {
      var units := Decoded(ToUnits(ToBytes(EncodedUnits(Utf16All(xs)))), [], []);
      DecodedClean(ToUnits(ToBytes(EncodedUnits(Utf16All(xs)))), [], []);
      forall i | 0 <= i < |xs| ensures xs[i] != [] && 0 !in xs[i] {
        ShownNulls(units[i]);
      }
      BackShows(xs);
      forall i | 0 <= i < |xs| ensures Plain(xs[i]) {
        assert xs[i] == Shown(Utf16(xs[i]));
        Utf16Length(xs[i]);
      }
    }
    if forall i :: 0 <= i < |xs| ==> Kept(xs[i]) {
      BackShows(xs);
      forall i | 0 <= i < |xs| ensures ShownAll(Utf16All(xs))[i] == xs[i] {
        Utf16Plain(xs[i]);
      }
    }
  }

  /** One string of one code point above the basic plane comes back as two replacement characters. */
  lemma PairNotBack()
    ensures Back([[0x1_F600]]) == [[REPLACEMENT, REPLACEMENT]]
  {
    var x: Text := [0x1_F600];
    BackShows([x]);
    assert x[..0] == [] && Utf16(x) == [0xD83D, 0xDE00];
    assert Utf16All([x])[0] == Utf16(x) && Shown(Utf16(x)) == [REPLACEMENT, REPLACEMENT];
  }
}
