/** The bytes of big-data headers and block lists (hive/bigdata/db.go). */
module BigDataCodec {
  import opened Bytes
  import opened Limits

  const DB_HEADER := 12

  /** The bytes begin with the signature of a big-data header. */
  predicate StartsDb(b: seq<Byte>) {
    |b| >= 2 && b[0] == 'd' as int && b[1] == 'b' as int
  }

  datatype Header = Header(count: Half, blocklist: Word, reserved: Word) | Truncated | InvalidSignature

  function ReadDBHeader(buf: seq<Byte>): (h: Header)
    ensures h.Truncated? <==> |buf| < DB_HEADER
    ensures h.InvalidSignature? <==> |buf| >= DB_HEADER && !StartsDb(buf)
  {
    if |buf| < DB_HEADER then Truncated
    else if !StartsDb(buf) then InvalidSignature
    else Header(GetU16(buf, 2), GetU32(buf, 4), GetU32(buf, 8))
  }

  method WriteDBHeader(buf: array<Byte>, count: Half, blocklistRef: Word) returns (ok: bool)
    modifies buf
    ensures ok <==> buf.Length >= DB_HEADER
    ensures ok ==> ReadDBHeader(buf[..]) == Header(count, blocklistRef, 0)
    ensures forall i :: 0 <= i < buf.Length && (!ok || DB_HEADER <= i) ==> buf[i] == old(buf[i])
  {
    if buf.Length < DB_HEADER { return false; }
    buf[0], buf[1] := 'd' as int, 'b' as int;
    buf[2], buf[3] := count % 0x100, count / 0x100;
    WriteWord(buf, 4, blocklistRef);
    WriteWord(buf, 8, 0);
    ok := true;
  }

  method WriteWord(buf: array<Byte>, at: nat, v: Word)
    requires at + 4 <= buf.Length
    modifies buf
    ensures buf[..] == PutU32(old(buf[..]), at, v)
    ensures GetU32(buf[..], at) == v
  {
    PutU32Reads(buf[..], at, v);
    buf[at] := v % 0x100;
    buf[at + 1] := v / 0x100 % 0x100;
    buf[at + 2] := v / 0x1_0000 % 0x100;
    buf[at + 3] := v / 0x100_0000;
  }

  /** The references of a block list, four bytes each. */
  function Words(buf: seq<Byte>, n: nat): (r: seq<Word>)
    requires n * 4 <= |buf|
    ensures |r| == n
  {
    seq(n, i requires 0 <= i < n => GetU32(buf, i * 4))
  }

  method WriteBlocklist(buf: array<Byte>, blockRefs: seq<Word>) returns (ok: bool)
    modifies buf
    ensures ok <==> buf.Length >= |blockRefs| * 4
    ensures ok ==> Words(buf[..], |blockRefs|) == blockRefs
  {
    if buf.Length < |blockRefs| * 4 { return false; }
    for i := 0 to |blockRefs|
      invariant forall k :: 0 <= k < i ==> GetU32(buf[..], k * 4) == blockRefs[k]
    {
      ghost var before := buf[..];
      PutU32Reads(before, i * 4, blockRefs[i]);
      WriteWord(buf, i * 4, blockRefs[i]);
      forall k | 0 <= k < i ensures GetU32(buf[..], k * 4) == blockRefs[k] {
        SameBut4Reads(before, buf[..], i * 4, k * 4);
      }
    }
    ok := true;
  }

  datatype Refs = Refs(refs: seq<Word>) | TooShort

  method ReadBlocklist(buf: seq<Byte>, count: Half) returns (r: Refs)
    ensures r.TooShort? <==> |buf| < count * 4
    ensures r.Refs? ==> r.refs == Words(buf, count)
  {
    if |buf| < count * 4 { return TooShort; }
    var refs: seq<Word> := [];
    for i := 0 to count
      invariant |refs| == i && forall k :: 0 <= k < i ==> refs[k] == GetU32(buf, k * 4)
    {
      refs := refs + [GetU32(buf, i * 4)];
    }
    r := Refs(refs);
  }

  /** What is written is read back. */
  method RoundTrip(buf: array<Byte>, blockRefs: seq<Word>) returns (r: Refs)
    requires buf.Length >= |blockRefs| * 4 && |blockRefs| <= MAX_BLOCKS
    modifies buf
    ensures r == Refs(blockRefs)
  {
    var _ := WriteBlocklist(buf, blockRefs);
    r := ReadBlocklist(buf[..], |blockRefs|);
  }
}
