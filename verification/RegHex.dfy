/** Hex values in .reg text, on one line and wrapped (hive/printer/reg.go). */
module RegHex {
  import opened Bytes

  const MAX_LINE := 80
  const BREAK := "\\\n  "

  function HexDigit(d: int): char
    requires 0 <= d < 16
  {
    "0123456789abcdef"[d]
  }

  function Hex(b: Byte): string {
    [HexDigit(b / 16), HexDigit(b % 16)]
  }

  /** The bytes in hex, with commas between them. */
  function HexList(data: seq<Byte>): string {
    if data == [] then ""
    else if |data| == 1 then Hex(data[0])
    else HexList(data[..|data| - 1]) + "," + Hex(data[|data| - 1])
  }

  method FormatHexBytes(data: seq<Byte>) returns (s: string)
    ensures s == HexList(data)
  {
    s := "";
    for i := 0 to |data|
      invariant s == HexList(data[..i])
    {
      assert data[..i + 1][..i] == data[..i];
      if i > 0 { s := s + ","; }
      s := s + Hex(data[i]);
    }
    assert data[..|data|] == data;
  }

  // ----- Line breaks -----

  /** Every backslash starts a line break. */
  predicate WellBroken(s: string) {
    if s == "" then true
    else if s[0] == '\\' then |s| >= 4 && s[..4] == BREAK && WellBroken(s[4..])
    else WellBroken(s[1..])
  }

  /** The text with every line break deleted. */
  function Unwrapped(s: string): string {
    if s == "" then ""
    else if |s| >= 4 && s[..4] == BREAK then Unwrapped(s[4..])
    else [s[0]] + Unwrapped(s[1..])
  }

  lemma {:induction false} UnwrappedConcat(a: string, b: string)
    requires WellBroken(a)
    ensures Unwrapped(a + b) == Unwrapped(a) + Unwrapped(b)
    ensures WellBroken(b) ==> WellBroken(a + b)
    decreases |a|
  {
    if a == "" {
      assert a + b == b;
    } else if a[0] == '\\' {
      assert (a + b)[..4] == BREAK && (a + b)[4..] == a[4..] + b;
      UnwrappedConcat(a[4..], b);
    } else {
      assert (a + b)[0] == a[0] && (a + b)[1..] == a[1..] + b;
      UnwrappedConcat(a[1..], b);
      assert |a + b| >= 4 ==> (a + b)[..4][0] == a[0];
      assert |a| >= 4 ==> a[..4][0] == a[0];
    }
  }

  lemma {:induction false} Plain(s: string)
    requires '\\' !in s
    ensures WellBroken(s) && Unwrapped(s) == s
  {
    if s != "" {
      assert forall c :: c in s[1..] ==> c in s;
      assert |s| >= 4 ==> s[..4][0] == s[0] && s[0] in s;
      Plain(s[1..]);
    }
  }

  lemma HexPlain(b: Byte)
    ensures '\\' !in Hex(b) && '\n' !in Hex(b) && |Hex(b)| == 2
  {
    assert forall d :: 0 <= d < 16 ==> HexDigit(d) != '\\' && HexDigit(d) != '\n';
  }

  lemma BreakIs()
    ensures WellBroken(BREAK) && Unwrapped(BREAK) == ""
  {
    assert BREAK[4..] == "" && BREAK[..4] == BREAK;
  }

  // ----- Line lengths -----

  /** The length of the last line, when `start` characters stand before the first. */
  function Current(s: string, start: nat): nat {
    if s == "" then start
    else if s[|s| - 1] == '\n' then 0
    else Current(s[..|s| - 1], start) + 1
  }

  /** The length of the longest line. */
  function Longest(s: string, start: nat): nat {
    if s == "" then start
    else
      var before, now := Longest(s[..|s| - 1], start), Current(s, start);
      if before < now then now else before
  }

  lemma {:induction false} PlainAppended(s: string, t: string, start: nat)
    requires '\n' !in t
    ensures Current(s + t, start) == Current(s, start) + |t|
    ensures Longest(s + t, start) ==
      (if Longest(s, start) < Current(s, start) + |t| then Current(s, start) + |t| else Longest(s, start))
  {
    LongestAtLeast(s, start);
    if t == "" {
      assert s + t == s;
    } else {
      var u := t[..|t| - 1];
      assert (s + t)[..|s + t| - 1] == s + u && (s + t)[|s + t| - 1] == t[|t| - 1];
      assert t[|t| - 1] in t && forall c :: c in u ==> c in t;
      PlainAppended(s, u, start);
    }
  }

  lemma {:induction false} LongestAtLeast(s: string, start: nat)
    ensures Longest(s, start) >= Current(s, start)
  {
  }

  /** A break after a comma ends the line two characters on. */
  lemma BreakAppended(s: string, start: nat)
    ensures var w := s + "," + BREAK;
      && Current(w, start) == 2
      && Longest(w, start) ==
        (if Longest(s, start) < Current(s, start) + 2 then Current(s, start) + 2 else Longest(s, start))
  {
    LongestAtLeast(s, start);
    var a := s + ",\\";
    PlainAppended(s, ",\\", start);
    var b := a + "\n";
    assert b[..|b| - 1] == a;
    PlainAppended(b, "  ", start);
    assert s + "," + BREAK == b + "  ";
  }

  /** The state of the wrapping: what is written unwraps to the list, and its last line is as long as counted. */
  ghost predicate Wrapping(sb: string, done: seq<Byte>, prefix: string, len: nat) {
    && WellBroken(sb) && Unwrapped(sb) == HexList(done) && Current(sb, |prefix|) == len
  }

  lemma SameLine(sb: string, done: seq<Byte>, prefix: string, len: nat, b: Byte)
    requires Wrapping(sb, done, prefix, len) && done != []
    ensures Wrapping(sb + "," + Hex(b), done + [b], prefix, len + 3)
    ensures Longest(sb + "," + Hex(b), |prefix|) == Max(Longest(sb, |prefix|), len + 3)
  {
    HexPlain(b);
    Plain("," + Hex(b));
    assert (done + [b])[..|done|] == done;
    UnwrappedConcat(sb, "," + Hex(b));
    assert sb + ("," + Hex(b)) == sb + "," + Hex(b);
    PlainAppended(sb, "," + Hex(b), |prefix|);
  }

  lemma NextLine(sb: string, done: seq<Byte>, prefix: string, len: nat, b: Byte)
    requires Wrapping(sb, done, prefix, len) && done != []
    ensures Wrapping(sb + "," + BREAK + Hex(b), done + [b], prefix, 4)
    ensures Longest(sb + "," + BREAK + Hex(b), |prefix|) == Max(Longest(sb, |prefix|), Max(len + 2, 4))
  {
    HexPlain(b);
    Plain(Hex(b));
    Plain(",");
    BreakIs();
    assert (done + [b])[..|done|] == done;
    var w := sb + "," + BREAK;
    UnwrappedConcat(sb, ",");
    UnwrappedConcat(sb + ",", BREAK);
    UnwrappedConcat(w, Hex(b));
    BreakAppended(sb, |prefix|);
    PlainAppended(w, Hex(b), |prefix|);
  }

  function Max(a: int, b: int): int {
    if a < b then b else a
  }

  /** Deleting the line breaks gives the unwrapped list; and no line, the first one with the prefix before it, is longer
      than 80 characters exactly when the prefix leaves room for the first byte and what must follow it. */
  method FormatHexBytesWithWrapping(data: seq<Byte>, prefix: string) returns (s: string)
    ensures Unwrapped(s) == HexList(data)
    ensures data != [] ==>
      (Longest(s, |prefix|) <= MAX_LINE <==> |prefix| + (if |data| == 1 then 2 else 4) <= MAX_LINE)
  {
    s := "";
    if |data| == 0 { return; }
    HexPlain(data[0]);
    Plain(Hex(data[0]));
    PlainAppended("", Hex(data[0]), |prefix|);
    assert "" + Hex(data[0]) == Hex(data[0]) && data[..1] == [data[0]];
    s := Hex(data[0]);
    var currentLineLength: nat := |prefix| + 2;
    for i := 1 to |data|
      invariant Wrapping(s, data[..i], prefix, currentLineLength)
      invariant i == 1 ==> currentLineLength == |prefix| + 2 == Longest(s, |prefix|)
      invariant |prefix| + 4 <= MAX_LINE ==> currentLineLength <= MAX_LINE - 2 && Longest(s, |prefix|) <= MAX_LINE
      invariant |prefix| + 4 > MAX_LINE && i > 1 ==> Longest(s, |prefix|) > MAX_LINE
    {
      SameLine(s, data[..i], prefix, currentLineLength, data[i]);
      NextLine(s, data[..i], prefix, currentLineLength, data[i]);
      assert data[..i + 1] == data[..i] + [data[i]];
      var charsToAdd := 3;
      if currentLineLength + charsToAdd + 2 > MAX_LINE {
        s := s + "," + BREAK;
        currentLineLength := 2 + 2;
        s := s + Hex(data[i]);
      } else {
        s := s + ",";
        s := s + Hex(data[i]);
        currentLineLength := currentLineLength + charsToAdd;
      }
    }
    assert data[..|data|] == data;
  }
}
