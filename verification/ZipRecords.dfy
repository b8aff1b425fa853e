/** Records of a ZIP archive: little-endian fields, directory entries and local headers as
    the bytes spell them, and what it means for records to tile a byte range. */
module ZipRecords {
  import opened Prelude
  import opened DeflateFormat
  import opened Inflater
  import opened Crc32

  // --- fields ---

  /** The two-byte number at `p`. */
  function Le16(b: seq<byte>, p: nat): (v: nat)
    requires p + 2 <= |b|
    ensures v < 0x10000
  {
    var low: nat, high: nat := b[p], b[p + 1];
    low + 0x100 * high
  }

  /** The four-byte number at `p`. */
  function Le32(b: seq<byte>, p: nat): (v: nat)
    requires p + 4 <= |b|
    ensures v < 0x1_0000_0000
  {
    Le16(b, p) + 0x10000 * Le16(b, p + 2)
  }

  function U32(b: seq<byte>, p: nat): (r: Result<nat>) {
    if p + 4 <= |b| then Ok(Le32(b, p)) else Rejected
  }

  /** A four-byte number that must fit a signed 32-bit integer. */
  function Int32(b: seq<byte>, p: nat): (r: Result<nat>) {
    var v :- U32(b, p);
    if v <= INT_MAX then Ok(v) else Rejected
  }

  // --- intervals ---

  datatype Interval = Interval(start: nat, end: nat) {
    predicate Contains(p: nat) {
      start <= p < end
    }
  }

  /** The intervals follow each other without gap or overlap from `from` to `to`. */
  predicate Chain(rs: seq<Interval>, from: nat, to: nat) {
    if |rs| == 0 then from == to
    else rs[0].start == from && from < rs[0].end && Chain(rs[1..], rs[0].end, to)
  }

  lemma {:induction false} ChainForward(rs: seq<Interval>, from: nat, to: nat)
    requires Chain(rs, from, to)
    ensures from <= to
    ensures forall i :: 0 <= i < |rs| ==> from <= rs[i].start < rs[i].end <= to
    decreases |rs|
  {
    if |rs| > 0 {
      ChainForward(rs[1..], rs[0].end, to);
      forall i | 0 < i < |rs| ensures from <= rs[i].start < rs[i].end <= to {
        assert rs[i] == rs[1..][i - 1];
      }
    }
  }

  lemma {:induction false} ChainSnoc(rs: seq<Interval>, from: nat, r: Interval)
    requires Chain(rs, from, r.start) && r.start < r.end
    ensures Chain(rs + [r], from, r.end)
    decreases |rs|
  {
    if |rs| == 0 {
      assert (rs + [r])[1..] == [];
    } else {
      assert (rs + [r])[1..] == rs[1..] + [r];
      ChainSnoc(rs[1..], rs[0].end, r);
    }
  }

  lemma {:induction false} ChainConcat(rs: seq<Interval>, ts: seq<Interval>, from: nat, mid: nat, to: nat)
    requires Chain(rs, from, mid) && Chain(ts, mid, to)
    ensures Chain(rs + ts, from, to)
    decreases |rs|
  {
    if |rs| == 0 {
      assert rs + ts == ts;
    } else {
      assert (rs + ts)[1..] == rs[1..] + ts;
      ChainConcat(rs[1..], ts, rs[0].end, mid, to);
    }
  }

  /** In a chain every position lies in exactly one interval. */
  lemma {:induction false} ChainCovers(rs: seq<Interval>, from: nat, to: nat, p: nat) returns (i: nat)
    requires Chain(rs, from, to) && from <= p < to
    ensures i < |rs| && rs[i].Contains(p)
    ensures forall j :: 0 <= j < |rs| && rs[j].Contains(p) ==> j == i
    decreases |rs|
  {
    ChainForward(rs, from, to);
    if rs[0].Contains(p) {
      i := 0;
      ChainForward(rs[1..], rs[0].end, to);
      forall j | 0 < j < |rs| ensures !rs[j].Contains(p) {
        assert rs[j] == rs[1..][j - 1];
      }
    } else {
      var k := ChainCovers(rs[1..], rs[0].end, to, p);
      i := k + 1;
      forall j | 0 <= j < |rs| && rs[j].Contains(p) ensures j == i {
        assert j > 0 && rs[j] == rs[1..][j - 1];
      }
    }
  }

  // --- member names ---

  /** What the platform supplies about text: strict UTF-8 decoding, control characters,
      invariant upper-casing of one character, and normalisation form C. */
  datatype Unicode = Unicode(utf8: seq<byte> -> Option<string>, control: char -> bool, upper: char -> char,
                             normal: string -> bool)

  /** Case folding compares character by character after upper-casing. */
  function Fold(u: Unicode, s: string): (t: string)
    ensures |t| == |s|
  {
    seq(|s|, i requires 0 <= i < |s| => u.upper(s[i]))
  }

  function Ascii(bytes: seq<byte>): (s: string)
    ensures |s| == |bytes|
  {
    seq(|bytes|, i requires 0 <= i < |bytes| => bytes[i] as char)
  }

  /** The pieces of `s` between occurrences of `c`. */
  function Split(s: string, c: char): (parts: seq<string>)
    ensures |parts| > 0
  {
    if |s| == 0 then [""]
    else
      var rest := Split(s[1..], c);
      if s[0] == c then [""] + rest else [[s[0]] + rest[0]] + rest[1..]
  }

  predicate EndsIn(s: string, c: char) {
    |s| > 0 && s[|s| - 1] == c
  }

  predicate IsDeviceStem(stem: string) {
    || stem in {"CON", "PRN", "AUX", "NUL"}
    || (|stem| == 4 && (stem[..3] == "COM" || stem[..3] == "LPT") && '1' <= stem[3] <= '9')
  }

  predicate GoodComponent(u: Unicode, x: string) {
    && x != "" && x != "." && x != ".." && !EndsIn(x, '.') && !EndsIn(x, ' ')
    && (forall i :: 0 <= i < |x| ==> x[i] !in {'<', '>', '|', '?', '*'})
    && !IsDeviceStem(Fold(u, Split(x, '.')[0]))
  }

  predicate GoodName(u: Unicode, s: string) {
    && !(|s| > 0 && s[0] == '/')
    && (forall i :: 0 <= i < |s| ==> s[i] !in {'\\', ':', '\0'} && !u.control(s[i]))
    && (forall x :: x in Split(PathOf(s), '/') ==> GoodComponent(u, x))
    && u.normal(s)
  }

  /** A member's path: its name without the slash that marks a directory. */
  function PathOf(s: string): (path: string) {
    if EndsIn(s, '/') then s[..|s| - 1] else s
  }

  /** The name in the `n` bytes at `p`, or a rejection. */
  function NameAt(u: Unicode, b: seq<byte>, p: nat, n: nat, flags: nat): (r: Result<string>) {
    if p + n > |b| || n == 0 || n > 4096 then Rejected
    else
      var bytes := b[p..p + n];
      var s :-
        if flags / 0x800 % 2 == 1 then
          (match u.utf8(bytes) case Some(t) => Ok(t) case None => Rejected)
        else if forall i :: 0 <= i < n ==> bytes[i] < 128 then Ok(Ascii(bytes))
        else Rejected;
      if GoodName(u, s) then Ok(s) else Rejected
  }

  // --- extra fields ---

  /** A sequence of tagged blocks that fills the range exactly, none of them ZIP64. */
  predicate ExtraOk(b: seq<byte>, p: nat, n: nat)
    requires p + n <= |b|
    decreases n
  {
    n == 0 ||
    (&& n >= 4 && Le16(b, p) != 1 && Le16(b, p + 2) <= n - 4
     && ExtraOk(b, p + 4 + Le16(b, p + 2), n - 4 - Le16(b, p + 2)))
  }

  method Extra(b: seq<byte>, p: nat, n: nat) returns (r: Result<()>)
    ensures r.Ok? <==> p + n <= |b| && ExtraOk(b, p, n)
  {
    if p + n > |b| {
      return Rejected;
    }
    var at, end := p, p + n;
    while at < end
      invariant p <= at <= end
      invariant ExtraOk(b, at, end - at) <==> ExtraOk(b, p, n)
    {
      if end - at < 4 {
        return Rejected;
      }
      var tag, len := Le16(b, at), Le16(b, at + 2);
      at := at + 4;
      if len > end - at || tag == 1 {
        return Rejected;
      }
      at := at + len;
    }
    r := Ok(());
  }

  // --- records ---

  const CENTRAL_SIGNATURE: nat := 0x02014b50
  const LOCAL_SIGNATURE: nat := 0x04034b50
  const END_SIGNATURE: nat := 0x06054b50
  const DESCRIPTOR_SIGNATURE: nat := 0x08074b50

  /** A central directory entry: its byte range and the fields the checks use. */
  datatype Entry = Entry(range: Interval, name: string, method_: nat, flags: nat, needed: nat, time: nat, date: nat,
                         crc: nat, compressed: nat, size: nat, localOffset: nat, directory: bool)

  /** The entry is what the bytes at its range spell, within the limits. */
  predicate EntryAt(u: Unicode, b: seq<byte>, e: Entry) {
    var p := e.range.start;
    && p + 46 <= |b|
    && Le32(b, p) == CENTRAL_SIGNATURE && e.needed == Le16(b, p + 6) <= 20
    && e.flags == Le16(b, p + 8) && e.method_ == Le16(b, p + 10)
    && AllowedFlags(e.flags) && (e.method_ == 8 || (e.method_ == 0 && e.flags / 2 % 4 == 0))
    && e.time == Le16(b, p + 12) && e.date == Le16(b, p + 14)
    && e.crc == Le32(b, p + 16)
    && e.compressed == Le32(b, p + 20) <= INT_MAX && e.size == Le32(b, p + 24) <= MEMBER_LIMIT
    && Le16(b, p + 34) == 0
    && e.localOffset == Le32(b, p + 42) <= INT_MAX
    && e.range.end == p + 46 + Le16(b, p + 28) + Le16(b, p + 30) + Le16(b, p + 32) <= |b|
    && NameAt(u, b, p + 46, Le16(b, p + 28), e.flags) == Ok(e.name)
    && ExtraOk(b, p + 46 + Le16(b, p + 28), Le16(b, p + 30))
    && e.directory == EndsIn(e.name, '/') && (e.directory ==> e.size == 0)
    && AttributesAllow(Le32(b, p + 38), e.directory)
  }

  /** Only bits 1, 2, 3 and 11 of the flags may be set. */
  predicate AllowedFlags(flags: nat) {
    flags % 2 == 0 && flags / 0x10 % 0x80 == 0 && flags / 0x1000 == 0
  }

  /** The Unix mode, if present, says regular file or directory as the name does, and the
      DOS directory bit is set on directories only. */
  predicate AttributesAllow(attributes: nat, directory: bool) {
    var mode := attributes / 0x1000_0000;
    && (mode == 0 || (mode == 8 && !directory) || (mode == 4 && directory))
    && (attributes / 0x10 % 2 == 0 || directory)
  }

  /** A member once its local record has been checked. */
  datatype Member = Member(entry: Entry, dataOffset: nat, end: nat, content: seq<byte>)

  /** The content that the entry's data bytes at `data` stand for. */
  ghost predicate ContentOk(b: seq<byte>, e: Entry, data: nat, content: seq<byte>) {
    && data + e.compressed <= |b|
    && var window := b[data..data + e.compressed];
    && |content| == e.size && CrcOf(content) == e.crc
    && (e.method_ == 0 ==> content == window)
    && (e.method_ == 8 ==>
          exists blocks :: Encodes(blocks, window, e.size) && content == BlocksOutput(blocks, []))
  }

  /** The record at `p` ends at `end`: right after the data when the sizes and checksum stand
      in the header, else after a descriptor that holds them, with or without its signature. */
  predicate EndsAt(b: seq<byte>, p: nat, e: Entry, data: nat, end: nat) {
    && p + 30 <= data && data + e.compressed <= end <= |b|
    && (e.flags / 8 % 2 == 0 ==>
          && end == data + e.compressed
          && Le32(b, p + 14) == e.crc && Le32(b, p + 18) == e.compressed && Le32(b, p + 22) == e.size)
    && (e.flags / 8 % 2 == 1 ==>
          && end >= data + e.compressed + 12
          && end == data + e.compressed + (if Le32(b, data + e.compressed) == DESCRIPTOR_SIGNATURE then 16 else 12)
          && Le32(b, p + 14) in {0, e.crc} && Le32(b, p + 18) in {0, e.compressed} && Le32(b, p + 22) in {0, e.size}
          && Le32(b, end - 12) == e.crc && Le32(b, end - 8) == e.compressed && Le32(b, end - 4) == e.size)
  }

  /** The local record of a member: it starts at the entry's offset, repeats the entry's
      name and fields, and holds the data that stands for the content. */
  ghost predicate MemberAt(u: Unicode, b: seq<byte>, m: Member) {
    var p, e := m.entry.localOffset, m.entry;
    && p + 30 <= |b| && Le32(b, p) == LOCAL_SIGNATURE
    && Le16(b, p + 4) == e.needed && Le16(b, p + 6) == e.flags && Le16(b, p + 8) == e.method_
    && Le16(b, p + 10) == e.time && Le16(b, p + 12) == e.date
    && NameAt(u, b, p + 30, Le16(b, p + 26), e.flags) == Ok(e.name)
    && m.dataOffset == p + 30 + Le16(b, p + 26) + Le16(b, p + 28) <= |b|
    && ExtraOk(b, p + 30 + Le16(b, p + 26), Le16(b, p + 28))
    && EndsAt(b, p, e, m.dataOffset, m.end)
    && ContentOk(b, e, m.dataOffset, m.content)
  }
}
