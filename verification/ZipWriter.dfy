/** Archives as a writer lays them out, byte by byte, and what the verifier makes of them.
    Numbers are written low byte first at the offsets of PKWARE's APPNOTE; nothing here reads
    a field back. */
module ZipWriter {
  import opened Prelude
  import opened DeflateFormat
  import opened Inflater
  import opened BitStrings
  import opened Crc32
  import opened ZipRecords
  import opened ZipVerifier

  // --- numbers ---

  function B0(v: nat): (b: byte) {
    v % 256
  }

  function B1(v: nat): (b: byte) {
    v / 256 % 256
  }

  function B2(v: nat): (b: byte) {
    v / 65536 % 256
  }

  function B3(v: nat): (b: byte) {
    v / 16777216 % 256
  }

  // --- members ---

  /** A tagged block of an extra field. */
  datatype Tagged = Tagged(tag: nat, data: seq<byte>)

  /** A member as its writer sees it. `level` are the two compression hints, `described` says
      that sizes and checksum follow the data, `signed` that a signature precedes them there,
      `blank` that they are zero in the local header. */
  datatype File = File(name: string, nameBytes: seq<byte>, utf8: bool, deflated: bool, level: nat, described: bool,
                       signed: bool, blank: bool, data: seq<byte>, content: seq<byte>,
                       needed: nat, time: nat, date: nat, localExtra: seq<Tagged>, extra: seq<Tagged>,
                       comment: seq<byte>, madeBy: nat, internal: nat, unix: nat, dos: nat)
  {
    function Flags(): (v: nat) {
      2 * level + (if described then 8 else 0) + if utf8 then 0x800 else 0
    }

    function Method(): (v: nat) {
      if deflated then 8 else 0
    }

    function Checksum(): (v: nat) {
      CrcOf(content)
    }

    predicate IsDirectory() {
      |name| > 0 && name[|name| - 1] == '/'
    }

    /** The name without the slash of a directory. */
    function Path(): (p: string) {
      if IsDirectory() then name[..|name| - 1] else name
    }
  }

  function ExtraBytes(blocks: seq<Tagged>): (s: seq<byte>) {
    if |blocks| == 0 then []
    else
      var t := blocks[0];
      [B0(t.tag), B1(t.tag), B0(|t.data|), B1(|t.data|)] + t.data + ExtraBytes(blocks[1..])
  }

  /** Version needed, flags, method, time and date. */
  function Common(f: File): (s: seq<byte>)
    ensures |s| == 10
  {
    [B0(f.needed), B1(f.needed), B0(f.Flags()), B1(f.Flags()), B0(f.Method()), B1(f.Method()),
     B0(f.time), B1(f.time), B0(f.date), B1(f.date)]
  }

  /** Checksum, size of the data, size of the content. */
  function Sizes(crc: nat, packed: nat, size: nat): (s: seq<byte>)
    ensures |s| == 12
  {
    [B0(crc), B1(crc), B2(crc), B3(crc), B0(packed), B1(packed), B2(packed), B3(packed),
     B0(size), B1(size), B2(size), B3(size)]
  }

  function SizesOf(f: File): (s: seq<byte>)
    ensures |s| == 12
  {
    Sizes(f.Checksum(), |f.data|, |f.content|)
  }

  /** The fixed part of a local record. */
  function LocalHeader(f: File): (s: seq<byte>)
    ensures |s| == 30
  {
    [0x50, 0x4b, 3, 4] + (Common(f) + ((if f.described && f.blank then Sizes(0, 0, 0) else SizesOf(f))
      + [B0(|f.nameBytes|), B1(|f.nameBytes|), B0(|ExtraBytes(f.localExtra)|), B1(|ExtraBytes(f.localExtra)|)]))
  }

  /** What follows the data. */
  function Descriptor(f: File): (s: seq<byte>) {
    if !f.described then [] else if f.signed then [0x50, 0x4b, 7, 8] + SizesOf(f) else SizesOf(f)
  }

  function LocalRecord(f: File): (s: seq<byte>) {
    LocalHeader(f) + (f.nameBytes + (ExtraBytes(f.localExtra) + (f.data + Descriptor(f))))
  }

  /** Lengths of name, extra field and comment, disk, attributes, and the offset of the local record. */
  function CentralTail(f: File, offset: nat): (s: seq<byte>)
    ensures |s| == 18
  {
    [B0(|f.nameBytes|), B1(|f.nameBytes|), B0(|ExtraBytes(f.extra)|), B1(|ExtraBytes(f.extra)|),
     B0(|f.comment|), B1(|f.comment|), 0, 0, B0(f.internal), B1(f.internal),
     B0(f.dos), B1(f.dos), B0(f.unix), B1(f.unix), B0(offset), B1(offset), B2(offset), B3(offset)]
  }

  /** The fixed part of a directory entry for the record at `offset`. */
  function CentralHeader(f: File, offset: nat): (s: seq<byte>)
    ensures |s| == 46
  {
    [0x50, 0x4b, 1, 2, B0(f.madeBy), B1(f.madeBy)] + (Common(f) + (SizesOf(f) + CentralTail(f, offset)))
  }

  function CentralRecord(f: File, offset: nat): (s: seq<byte>) {
    CentralHeader(f, offset) + (f.nameBytes + (ExtraBytes(f.extra) + f.comment))
  }

  /** The records of the files one after the other, and their directory entries. */
  function Locals(fs: seq<File>): (s: seq<byte>) {
    if |fs| == 0 then [] else Locals(fs[..|fs| - 1]) + LocalRecord(fs[|fs| - 1])
  }

  function Centrals(fs: seq<File>): (s: seq<byte>) {
    if |fs| == 0 then []
    else Centrals(fs[..|fs| - 1]) + CentralRecord(fs[|fs| - 1], |Locals(fs[..|fs| - 1])|)
  }

  /** The fixed part of the end record: no disks, the number of entries twice, where the
      directory is, and the length of the comment. */
  function EndHeader(count: nat, length: nat, start: nat, comment: nat): (s: seq<byte>)
    ensures |s| == 22
  {
    [0x50, 0x4b, 5, 6] + ([0, 0, 0, 0, B0(count), B1(count), B0(count), B1(count)] + EndTail(length, start, comment))
  }

  function EndTail(length: nat, start: nat, comment: nat): (s: seq<byte>)
    ensures |s| == 10
  {
    [B0(length), B1(length), B2(length), B3(length), B0(start), B1(start), B2(start), B3(start),
     B0(comment), B1(comment)]
  }

  /** The whole archive. */
  function Written(fs: seq<File>, comment: seq<byte>): (b: seq<byte>) {
    Locals(fs) + (Centrals(fs) + (EndHeader(|fs|, |Centrals(fs)|, |Locals(fs)|, |comment|) + comment))
  }

  // --- reading back what stands somewhere ---

  /** `w` stands at `p`. */
  predicate Has(b: seq<byte>, p: nat, w: seq<byte>) {
    p + |w| <= |b| && forall k :: 0 <= k < |w| ==> b[p + k] == w[k]
  }

  lemma HasConcat(b: seq<byte>, p: nat, v: seq<byte>, w: seq<byte>)
    requires Has(b, p, v + w)
    ensures Has(b, p, v) && Has(b, p + |v|, w)
  {
    forall k | 0 <= k < |v| ensures b[p + k] == v[k] {
      assert (v + w)[k] == v[k];
    }
    forall k | 0 <= k < |w| ensures b[p + |v| + k] == w[k] {
      assert (v + w)[|v| + k] == w[k];
    }
  }

  lemma HasSlice(b: seq<byte>, p: nat, w: seq<byte>)
    requires Has(b, p, w)
    ensures b[p..p + |w|] == w
  {
  }

  /** Two bytes, low one first. */
  lemma Field16(b: seq<byte>, p: nat, w: seq<byte>, k: nat, v: nat)
    requires Has(b, p, w) && k + 2 <= |w| && v < 65536
    requires w[k] == v % 256 && w[k + 1] == v / 256 % 256
    ensures Le16(b, p + k) == v
  {
    assert b[p + k] == w[k] && b[p + (k + 1)] == w[k + 1];
  }

  lemma LowHalf(v: nat)
    ensures v % 65536 % 256 == v % 256 && v % 65536 / 256 % 256 == v / 256 % 256
  {
  }

  lemma HighHalf(v: nat)
    ensures v / 65536 / 256 % 256 == v / 16777216 % 256
  {
  }

  lemma Field32(b: seq<byte>, p: nat, w: seq<byte>, k: nat, v: nat)
    requires Has(b, p, w) && k + 4 <= |w| && v < 0x1_0000_0000
    requires w[k] == v % 256 && w[k + 1] == v / 256 % 256 && w[k + 2] == v / 65536 % 256
    requires w[k + 3] == v / 16777216 % 256
    ensures Le32(b, p + k) == v
  {
    hide Le16;
    var low, high := v % 65536, v / 65536;
    LowHalf(v);
    HighHalf(v);
    Field16(b, p, w, k, low);
    Field16(b, p, w, k + 2, high);
  }

  lemma {:induction false} ExtraReads(b: seq<byte>, p: nat, blocks: seq<Tagged>)
    requires Has(b, p, ExtraBytes(blocks)) && GoodBlocks(blocks)
    ensures ExtraOk(b, p, |ExtraBytes(blocks)|)
    decreases |blocks|
  {
    hide Le16;
    if |blocks| > 0 {
      var t, rest := blocks[0], ExtraBytes(blocks[1..]);
      var head := [B0(t.tag), B1(t.tag), B0(|t.data|), B1(|t.data|)];
      HasConcat(b, p, head + t.data, rest);
      HasConcat(b, p, head, t.data);
      Field16(b, p, head, 0, t.tag);
      Field16(b, p, head, 2, |t.data|);
      ExtraReads(b, p + 4 + |t.data|, blocks[1..]);
    }
  }

  // --- what may be written ---

  /** No block is tagged as ZIP64, and everything fits its field. */
  predicate GoodBlocks(blocks: seq<Tagged>) {
    forall i :: 0 <= i < |blocks| ==> blocks[i].tag < 65536 && blocks[i].tag != 1 && |blocks[i].data| < 65536
  }

  predicate Spelled(u: Unicode, f: File) {
    && 0 < |f.nameBytes| <= 4096 && GoodName(u, f.name)
    && (if f.utf8 then u.utf8(f.nameBytes) == Some(f.name)
        else |f.name| == |f.nameBytes| && forall i :: 0 <= i < |f.name| ==>
                                             f.nameBytes[i] < 128 && f.name[i] == f.nameBytes[i] as char)
  }

  /** The data is the content itself, or an encoding of it. */
  ghost predicate Packs(f: File) {
    if f.deflated then exists blocks :: Encodes(blocks, f.data, |f.content|) && BlocksOutput(blocks, []) == f.content
    else f.data == f.content
  }

  /** A member the verifier admits. A checksum that looks like a descriptor's signature needs
      the signature in front of it. */
  ghost predicate Writable(u: Unicode, f: File) {
    && Spelled(u, f) && Packs(f) && GoodBlocks(f.localExtra) && GoodBlocks(f.extra)
    && |ExtraBytes(f.localExtra)| < 65536 && |ExtraBytes(f.extra)| < 65536 && |f.comment| < 65536
    && f.level < 4 && (f.level > 0 ==> f.deflated) && f.needed <= 20
    && f.time < 65536 && f.date < 65536 && f.madeBy < 65536 && f.internal < 65536 && f.unix < 65536 && f.dos < 65536
    && |f.data| <= INT_MAX && |f.content| <= 0x800_0000
    && (f.unix / 4096 == 0 || f.unix / 4096 == if f.IsDirectory() then 4 else 8)
    && (f.dos / 16 % 2 == 1 ==> f.IsDirectory()) && (f.IsDirectory() ==> f.content == [])
    && (f.described && !f.signed ==> f.Checksum() != 0x08074b50)
  }

  // --- one record ---

  lemma FlagsSpelled(f: File)
    requires f.level < 4
    ensures f.Flags() < 65536 && AllowedFlags(f.Flags()) && f.Flags() / 2 % 4 == f.level
    ensures f.Flags() / 8 % 2 == (if f.described then 1 else 0)
    ensures f.Flags() / 0x800 % 2 == if f.utf8 then 1 else 0
  {
  }

  lemma ChecksumBound(content: seq<byte>)
    ensures CrcOf(content) < Pow2(32)
  {
    hide Pow2;
  }

  lemma ChecksumFits(f: File)
    ensures f.Checksum() < 0x1_0000_0000
  {
    hide CrcOf;
    assert Pow2(8) == 256;
    PowSum(8, 8);
    PowSum(16, 16);
    ChecksumBound(f.content);
  }

  lemma NameReads(u: Unicode, b: seq<byte>, p: nat, f: File)
    requires Has(b, p, f.nameBytes) && Spelled(u, f) && f.level < 4
    ensures NameAt(u, b, p, |f.nameBytes|, f.Flags()) == Ok(f.name)
  {
    hide GoodName;
    FlagsSpelled(f);
    HasSlice(b, p, f.nameBytes);
    if !f.utf8 {
      assert Ascii(f.nameBytes) == f.name;
    }
  }

  // --- a directory entry ---

  function EntryOf(f: File, start: nat, offset: nat): (e: Entry) {
    Entry(Interval(start, start + |CentralRecord(f, offset)|), f.name, f.Method(), f.Flags(), f.needed, f.time, f.date,
          f.Checksum(), |f.data|, |f.content|, offset, f.IsDirectory())
  }

  lemma CentralParts(b: seq<byte>, p: nat, f: File, offset: nat)
    requires Has(b, p, CentralRecord(f, offset))
    ensures var n, x := |f.nameBytes|, |ExtraBytes(f.extra)|;
      && Has(b, p, CentralHeader(f, offset)) && Has(b, p + 46, f.nameBytes) && Has(b, p + 46 + n, ExtraBytes(f.extra))
      && |CentralRecord(f, offset)| == 46 + n + x + |f.comment| && p + |CentralRecord(f, offset)| <= |b|
  {
    hide Has, CentralHeader;
    HasConcat(b, p, CentralHeader(f, offset), f.nameBytes + (ExtraBytes(f.extra) + f.comment));
    HasConcat(b, p + 46, f.nameBytes, ExtraBytes(f.extra) + f.comment);
    HasConcat(b, p + 46 + |f.nameBytes|, ExtraBytes(f.extra), f.comment);
    HasRoom(b, p, CentralRecord(f, offset));
  }

  lemma HasRoom(b: seq<byte>, p: nat, w: seq<byte>)
    requires Has(b, p, w)
    ensures p + |w| <= |b|
  {
  }

  /** The numbers of a file fit their fields. */
  predicate Fits(f: File) {
    && |f.nameBytes| <= 4096 && f.needed <= 20 && f.time < 65536 && f.date < 65536 && f.unix < 65536 && f.dos < 65536
    && |ExtraBytes(f.localExtra)| < 65536 && |ExtraBytes(f.extra)| < 65536 && |f.comment| < 65536 && f.level < 4
    && |f.data| <= INT_MAX && |f.content| <= 0x800_0000
  }

  lemma CommonReads(b: seq<byte>, p: nat, f: File)
    requires Has(b, p, Common(f)) && Fits(f)
    ensures p + 10 <= |b| && Le16(b, p) == f.needed && Le16(b, p + 2) == f.Flags() && Le16(b, p + 4) == f.Method()
    ensures Le16(b, p + 6) == f.time && Le16(b, p + 8) == f.date
  {
    hide Has, Le16, ExtraBytes;
    var h := Common(f);
    HasRoom(b, p, h);
    FlagsSpelled(f);
    Field16(b, p, h, 0, f.needed);
    Field16(b, p, h, 2, f.Flags());
    Field16(b, p, h, 4, f.Method());
    Field16(b, p, h, 6, f.time);
    Field16(b, p, h, 8, f.date);
  }

  lemma SizesRead(b: seq<byte>, p: nat, crc: nat, packed: nat, size: nat)
    requires Has(b, p, Sizes(crc, packed, size))
    requires crc < 0x1_0000_0000 && packed < 0x1_0000_0000 && size < 0x1_0000_0000
    ensures p + 12 <= |b| && Le32(b, p) == crc && Le32(b, p + 4) == packed && Le32(b, p + 8) == size
  {
    hide Has, Le32;
    var h := Sizes(crc, packed, size);
    HasRoom(b, p, h);
    Field32(b, p, h, 0, crc);
    Field32(b, p, h, 4, packed);
    Field32(b, p, h, 8, size);
  }

  lemma TailReads(b: seq<byte>, p: nat, f: File, offset: nat)
    requires Has(b, p, CentralTail(f, offset)) && Fits(f) && offset <= INT_MAX
    ensures p + 18 <= |b| && Le16(b, p) == |f.nameBytes| && Le16(b, p + 2) == |ExtraBytes(f.extra)|
    ensures Le16(b, p + 4) == |f.comment| && Le16(b, p + 6) == 0
    ensures Le32(b, p + 10) == f.dos + 65536 * f.unix && Le32(b, p + 14) == offset
  {
    hide Has, Le16, Le32, ExtraBytes;
    var h := CentralTail(f, offset);
    HasRoom(b, p, h);
    Field16(b, p, h, 0, |f.nameBytes|);
    Field16(b, p, h, 2, |ExtraBytes(f.extra)|);
    Field16(b, p, h, 4, |f.comment|);
    Field16(b, p, h, 6, 0);
    Halves(f.dos, f.unix);
    Field32(b, p, h, 10, f.dos + 65536 * f.unix);
    Field32(b, p, h, 14, offset);
  }

  /** "PK" and two more bytes. */
  lemma SignatureReads(b: seq<byte>, p: nat, x: byte, y: byte)
    requires Has(b, p, [0x50, 0x4b, x, y])
    ensures p + 4 <= |b| && Le32(b, p) == 0x4b50 + 0x10000 * x + 0x1000000 * y
  {
    hide Has, Le32;
    var h := [0x50, 0x4b, x, y];
    HasRoom(b, p, h);
    var high: nat := x + 256 * y;
    assert high % 256 == x && high / 256 % 256 == y;
    Halves(0x4b50, high);
    Field32(b, p, h, 0, 0x4b50 + 65536 * high);
  }

  lemma CentralReads(b: seq<byte>, p: nat, f: File, offset: nat)
    requires Has(b, p, CentralHeader(f, offset)) && Fits(f) && offset <= INT_MAX
    ensures p + 46 <= |b| && Le32(b, p) == 0x02014b50 && Le16(b, p + 6) == f.needed
    ensures Le16(b, p + 8) == f.Flags() && Le16(b, p + 10) == f.Method()
    ensures Le16(b, p + 12) == f.time && Le16(b, p + 14) == f.date
    ensures Le32(b, p + 16) == f.Checksum() && Le32(b, p + 20) == |f.data| && Le32(b, p + 24) == |f.content|
    ensures Le16(b, p + 28) == |f.nameBytes| && Le16(b, p + 30) == |ExtraBytes(f.extra)|
    ensures Le16(b, p + 32) == |f.comment| && Le16(b, p + 34) == 0
    ensures Le32(b, p + 38) == f.dos + 65536 * f.unix && Le32(b, p + 42) == offset
  {
    hide Has, Le16, Le32, ExtraBytes, File.Checksum, Common, Sizes, CentralTail;
    var head := [0x50, 0x4b, 1, 2, B0(f.madeBy), B1(f.madeBy)];
    HasConcat(b, p, head, Common(f) + (SizesOf(f) + CentralTail(f, offset)));
    HasConcat(b, p + 6, Common(f), SizesOf(f) + CentralTail(f, offset));
    HasConcat(b, p + 16, SizesOf(f), CentralTail(f, offset));
    assert head == [0x50, 0x4b, 1, 2] + [B0(f.madeBy), B1(f.madeBy)];
    HasConcat(b, p, [0x50, 0x4b, 1, 2], [B0(f.madeBy), B1(f.madeBy)]);
    SignatureReads(b, p, 1, 2);
    CommonReads(b, p + 6, f);
    ChecksumFits(f);
    SizesRead(b, p + 16, f.Checksum(), |f.data|, |f.content|);
    TailReads(b, p + 28, f, offset);
  }

  lemma Halves(low: nat, high: nat)
    requires low < 65536 && high < 65536
    ensures var v := low + 65536 * high;
      && v % 256 == low % 256 && v / 256 % 256 == low / 256 % 256
      && v / 65536 % 256 == high % 256 && v / 16777216 % 256 == high / 256 % 256
  {
    var v := low + 65536 * high;
    LowHalf(v);
    HighHalf(v);
    assert v % 65536 == low && v / 65536 == high;
  }

  lemma AttributesRead(f: File)
    requires f.unix < 65536 && f.dos < 65536
    requires f.unix / 4096 == 0 || f.unix / 4096 == if f.IsDirectory() then 4 else 8
    requires f.dos / 16 % 2 == 1 ==> f.IsDirectory()
    ensures AttributesAllow(f.dos + 65536 * f.unix, f.IsDirectory())
  {
    var v := f.dos + 65536 * f.unix;
    assert v / 0x1000_0000 == f.unix / 4096;
    assert v / 16 % 2 == f.dos / 16 % 2;
  }

  /** The entry is what the verifier reads at its place. */
  lemma EntryReads(u: Unicode, b: seq<byte>, p: nat, f: File, offset: nat)
    requires Has(b, p, CentralRecord(f, offset)) && Writable(u, f) && offset <= INT_MAX
    ensures EntryAt(u, b, EntryOf(f, p, offset))
  {
    hide Has, Le16, Le32, NameAt, ExtraOk, GoodName, Packs, ExtraBytes, CentralRecord, CentralHeader, Spelled,
      GoodBlocks, AllowedFlags, AttributesAllow, File.Checksum;
    SpelledShort(u, f);
    CentralParts(b, p, f, offset);
    CentralReads(b, p, f, offset);
    FlagsSpelled(f);
    AttributesRead(f);
    NameReads(u, b, p + 46, f);
    ExtraReads(b, p + 46 + |f.nameBytes|, f.extra);
  }

  lemma SpelledShort(u: Unicode, f: File)
    requires Spelled(u, f)
    ensures 0 < |f.nameBytes| <= 4096
  {
  }

  // --- a local record ---

  lemma LocalParts(b: seq<byte>, p: nat, f: File)
    requires Has(b, p, LocalRecord(f))
    ensures var n, x := |f.nameBytes|, |ExtraBytes(f.localExtra)|; var d := p + 30 + n + x;
      && Has(b, p, LocalHeader(f)) && Has(b, p + 30, f.nameBytes) && Has(b, p + 30 + n, ExtraBytes(f.localExtra))
      && Has(b, d, f.data) && Has(b, d + |f.data|, Descriptor(f))
      && p + |LocalRecord(f)| == d + |f.data| + |Descriptor(f)| <= |b|
  {
    hide Has, LocalHeader, Descriptor;
    var n, x := |f.nameBytes|, |ExtraBytes(f.localExtra)|;
    HasConcat(b, p, LocalHeader(f), f.nameBytes + (ExtraBytes(f.localExtra) + (f.data + Descriptor(f))));
    HasConcat(b, p + 30, f.nameBytes, ExtraBytes(f.localExtra) + (f.data + Descriptor(f)));
    HasConcat(b, p + 30 + n, ExtraBytes(f.localExtra), f.data + Descriptor(f));
    HasConcat(b, p + 30 + n + x, f.data, Descriptor(f));
    HasRoom(b, p, LocalRecord(f));
  }

  lemma LocalReads(b: seq<byte>, p: nat, f: File)
    requires Has(b, p, LocalHeader(f)) && Fits(f)
    ensures p + 30 <= |b| && Le32(b, p) == 0x04034b50 && Le16(b, p + 4) == f.needed && Le16(b, p + 6) == f.Flags()
    ensures Le16(b, p + 8) == f.Method() && Le16(b, p + 10) == f.time && Le16(b, p + 12) == f.date
    ensures var hidden := f.described && f.blank;
      && Le32(b, p + 14) == (if hidden then 0 else f.Checksum())
      && Le32(b, p + 18) == (if hidden then 0 else |f.data|)
      && Le32(b, p + 22) == (if hidden then 0 else |f.content|)
    ensures Le16(b, p + 26) == |f.nameBytes| && Le16(b, p + 28) == |ExtraBytes(f.localExtra)|
  {
    hide Has, Le16, Le32, ExtraBytes, File.Checksum, Common, Sizes;
    var n, x := |f.nameBytes|, |ExtraBytes(f.localExtra)|;
    var sizes := if f.described && f.blank then Sizes(0, 0, 0) else SizesOf(f);
    var tail := [B0(n), B1(n), B0(x), B1(x)];
    HasConcat(b, p, [0x50, 0x4b, 3, 4], Common(f) + (sizes + tail));
    HasConcat(b, p + 4, Common(f), sizes + tail);
    HasConcat(b, p + 14, sizes, tail);
    SignatureReads(b, p, 3, 4);
    CommonReads(b, p + 4, f);
    ChecksumFits(f);
    if f.described && f.blank {
      SizesRead(b, p + 14, 0, 0, 0);
    } else {
      SizesRead(b, p + 14, f.Checksum(), |f.data|, |f.content|);
    }
    HasRoom(b, p + 26, tail);
    Field16(b, p + 26, tail, 0, n);
    Field16(b, p + 26, tail, 2, x);
  }

  /** The verifier finds the record's end where the writer stopped. */
  lemma EndReads(b: seq<byte>, p: nat, f: File, start: nat, d: nat)
    requires Has(b, p, LocalHeader(f)) && Fits(f) && p + 30 <= d
    requires Has(b, d, f.data) && Has(b, d + |f.data|, Descriptor(f))
    requires f.described && !f.signed ==> f.Checksum() != 0x08074b50
    ensures EndsAt(b, p, EntryOf(f, start, p), d, d + |f.data| + |Descriptor(f)|)
  {
    hide Has, Le32, Le16, ExtraBytes, File.Checksum, Sizes, Fits, LocalHeader, CentralRecord;
    LocalReads(b, p, f);
    FitsFlags(f);
    FlagsSpelled(f);
    ChecksumFits(f);
    var end := d + |f.data|;
    HasRoom(b, d, f.data);
    if f.described {
      if f.signed {
        HasConcat(b, end, [0x50, 0x4b, 7, 8], SizesOf(f));
        SignatureReads(b, end, 7, 8);
        SizesRead(b, end + 4, f.Checksum(), |f.data|, |f.content|);
      } else {
        SizesRead(b, end, f.Checksum(), |f.data|, |f.content|);
      }
    }
  }

  lemma FitsFlags(f: File)
    requires Fits(f)
    ensures f.level < 4 && |f.data| <= INT_MAX && |f.content| <= 0x800_0000
  {
  }

  lemma ContentReads(b: seq<byte>, f: File, start: nat, p: nat, d: nat)
    requires Has(b, d, f.data) && Packs(f)
    ensures ContentOk(b, EntryOf(f, start, p), d, f.content)
  {
    hide Encodes, BlocksOutput, CrcOf, CentralRecord;
    HasSlice(b, d, f.data);
  }

  function MemberOf(f: File, start: nat, offset: nat): (m: Member) {
    Member(EntryOf(f, start, offset), offset + 30 + |f.nameBytes| + |ExtraBytes(f.localExtra)|,
           offset + |LocalRecord(f)|, f.content)
  }

  /** The member is what the verifier reads at its place. */
  lemma MemberReads(u: Unicode, b: seq<byte>, start: nat, f: File, offset: nat)
    requires Has(b, offset, LocalRecord(f)) && Writable(u, f)
    ensures MemberAt(u, b, MemberOf(f, start, offset))
  {
    hide Has, Le16, Le32, NameAt, ExtraOk, GoodName, Packs, ExtraBytes, LocalRecord, LocalHeader, Spelled,
      GoodBlocks, File.Checksum, EndsAt, ContentOk, Descriptor, CentralRecord;
    SpelledShort(u, f);
    var n, x := |f.nameBytes|, |ExtraBytes(f.localExtra)|;
    var d := offset + 30 + n + x;
    LocalParts(b, offset, f);
    LocalReads(b, offset, f);
    NameReads(u, b, offset + 30, f);
    ExtraReads(b, offset + 30 + n, f.localExtra);
    EndReads(b, offset, f, start, d);
    ContentReads(b, f, start, offset, d);
  }

  // --- all records ---

  lemma {:induction false} LocalStands(b: seq<byte>, fs: seq<File>, i: nat)
    requires Has(b, 0, Locals(fs)) && i < |fs|
    ensures Has(b, |Locals(fs[..i])|, LocalRecord(fs[i]))
    ensures |Locals(fs[..i + 1])| == |Locals(fs[..i])| + |LocalRecord(fs[i])|
    decreases |fs|
  {
    hide Has, LocalRecord;
    var n := |fs| - 1;
    HasConcat(b, 0, Locals(fs[..n]), LocalRecord(fs[n]));
    if i < n {
      LocalStands(b, fs[..n], i);
      assert fs[..n][..i] == fs[..i] && fs[..n][..i + 1] == fs[..i + 1];
    } else {
      assert fs[..i + 1] == fs;
    }
  }

  lemma {:induction false} CentralStands(b: seq<byte>, c: nat, fs: seq<File>, i: nat)
    requires Has(b, c, Centrals(fs)) && i < |fs|
    ensures Has(b, c + |Centrals(fs[..i])|, CentralRecord(fs[i], |Locals(fs[..i])|))
    ensures |Centrals(fs[..i + 1])| == |Centrals(fs[..i])| + |CentralRecord(fs[i], |Locals(fs[..i])|)|
    decreases |fs|
  {
    hide Has, CentralRecord, Locals;
    var n := |fs| - 1;
    HasConcat(b, c, Centrals(fs[..n]), CentralRecord(fs[n], |Locals(fs[..n])|));
    if i < n {
      CentralStands(b, c, fs[..n], i);
      assert fs[..n][..i] == fs[..i] && fs[..n][..i + 1] == fs[..i + 1];
    } else {
      assert fs[..i + 1] == fs;
    }
  }

  /** Where the record and the entry of the `i`-th file start. */
  function Offset(fs: seq<File>, i: nat): (p: nat)
    requires i <= |fs|
  {
    |Locals(fs[..i])|
  }

  function Start(fs: seq<File>, i: nat): (p: nat)
    requires i <= |fs|
  {
    |Locals(fs)| + |Centrals(fs[..i])|
  }

  /** What there is to read. */
  function DirectoryOf(fs: seq<File>): (es: seq<Entry>)
    ensures |es| == |fs|
  {
    seq(|fs|, i requires 0 <= i < |fs| => EntryOf(fs[i], Start(fs, i), Offset(fs, i)))
  }

  function MembersOf(fs: seq<File>): (ms: seq<Member>)
    ensures |ms| == |fs|
  {
    seq(|fs|, i requires 0 <= i < |fs| => MemberOf(fs[i], Start(fs, i), Offset(fs, i)))
  }

  function ArchiveOf(fs: seq<File>): (a: Archive) {
    Archive(DirectoryOf(fs), MembersOf(fs), |Locals(fs)|, |Locals(fs)| + |Centrals(fs)|)
  }

  lemma {:induction false} RecordsSnoc(fs: seq<File>, n: nat)
    requires n < |fs| && Offset(fs, n + 1) == Offset(fs, n) + |LocalRecord(fs[n])|
    ensures Records(MembersOf(fs)[..n + 1])
            == Records(MembersOf(fs)[..n]) + [Interval(Offset(fs, n), Offset(fs, n + 1))]
  {
    hide Locals, LocalRecord, MembersOf, Offset;
    OffsetOf(fs, n);
    var ms := MembersOf(fs);
    assert ms[..n + 1] == ms[..n] + [ms[n]];
  }

  lemma {:induction false} RecordsChain(b: seq<byte>, fs: seq<File>, n: nat)
    requires Has(b, 0, Locals(fs)) && n <= |fs|
    ensures Chain(Records(MembersOf(fs)[..n]), 0, Offset(fs, n))
  {
    hide Has, Locals, Chain, LocalRecord, MembersOf, Records;
    if n == 0 {
      EmptyChain(fs);
    } else {
      RecordsChain(b, fs, n - 1);
      LocalStands(b, fs, n - 1);
      RecordSize(fs[n - 1]);
      RecordsSnoc(fs, n - 1);
      ChainSnoc(Records(MembersOf(fs)[..n - 1]), 0, Interval(Offset(fs, n - 1), Offset(fs, n)));
    }
  }

  lemma OffsetOf(fs: seq<File>, i: nat)
    requires i < |fs|
    ensures MembersOf(fs)[i].entry.localOffset == Offset(fs, i)
    ensures MembersOf(fs)[i].end == Offset(fs, i) + |LocalRecord(fs[i])|
  {
    hide CentralRecord, LocalRecord, Locals, Centrals;
  }

  lemma EmptyChain(fs: seq<File>)
    ensures Chain(Records(MembersOf(fs)[..0]), 0, Offset(fs, 0))
    ensures Chain(Ranges(DirectoryOf(fs)[..0]), Start(fs, 0), Start(fs, 0))
  {
    assert fs[..0] == [];
  }

  lemma RecordSize(f: File)
    ensures |LocalRecord(f)| >= 30
  {
    hide LocalHeader, ExtraBytes, Descriptor;
  }

  lemma EntrySize(f: File, offset: nat)
    ensures |CentralRecord(f, offset)| >= 46
  {
    hide CentralHeader, ExtraBytes;
  }

  lemma {:induction false} RangesChain(b: seq<byte>, fs: seq<File>, n: nat)
    requires Has(b, |Locals(fs)|, Centrals(fs)) && n <= |fs|
    ensures Chain(Ranges(DirectoryOf(fs)[..n]), |Locals(fs)|, Start(fs, n))
  {
    hide Has, Locals, Chain, LocalRecord, CentralRecord, Centrals;
    if n == 0 {
      EmptyChain(fs);
      NoCentrals(fs);
    } else {
      RangesChain(b, fs, n - 1);
      CentralStands(b, |Locals(fs)|, fs, n - 1);
      EntrySize(fs[n - 1], Offset(fs, n - 1));
      var es := DirectoryOf(fs);
      ChainSnoc(Ranges(es[..n - 1]), |Locals(fs)|, es[n - 1].range);
      assert Ranges(es[..n]) == Ranges(es[..n - 1]) + [es[n - 1].range];
    }
  }

  lemma NoCentrals(fs: seq<File>)
    ensures |Centrals(fs[..0])| == 0
  {
    assert fs[..0] == [];
  }

  // --- names and sizes ---

  /** The same text up to case. */
  predicate SameText(u: Unicode, a: string, b: string) {
    |a| == |b| && forall k :: 0 <= k < |a| ==> u.upper(a[k]) == u.upper(b[k])
  }

  /** No two names and no two paths are the same text, and no path goes through a file. */
  predicate Tidy(u: Unicode, fs: seq<File>) {
    && (forall i, j :: 0 <= i < j < |fs| ==>
          !SameText(u, fs[i].name, fs[j].name) && !SameText(u, fs[i].Path(), fs[j].Path()))
    && (forall i, j, k :: 0 <= i < |fs| && 0 <= j < |fs| && !fs[j].IsDirectory()
                          && 0 <= k < |fs[i].Path()| && fs[i].Path()[k] == '/' ==>
                            !SameText(u, fs[i].Path()[..k], fs[j].Path()))
  }

  function ContentTotal(fs: seq<File>): (n: nat) {
    if |fs| == 0 then 0 else ContentTotal(fs[..|fs| - 1]) + |fs[|fs| - 1].content|
  }

  lemma FoldsSame(u: Unicode, a: string, b: string)
    ensures Fold(u, a) == Fold(u, b) <==> SameText(u, a, b)
  {
    if Fold(u, a) == Fold(u, b) {
      forall k | 0 <= k < |a| ensures u.upper(a[k]) == u.upper(b[k]) {
        assert Fold(u, a)[k] == Fold(u, b)[k];
      }
    }
  }

  lemma EntryNamed(fs: seq<File>, i: nat)
    requires i < |fs|
    ensures var e := DirectoryOf(fs)[i];
      && e.name == fs[i].name && e.directory == fs[i].IsDirectory() && PathOf(e.name) == fs[i].Path()
      && e.size == |fs[i].content|
  {
    hide CentralRecord, Locals, Centrals;
  }

  lemma TidyIsTree(u: Unicode, fs: seq<File>)
    requires Tidy(u, fs)
    ensures DistinctNames(u, DirectoryOf(fs)) && IsTree(u, DirectoryOf(fs))
  {
    hide Fold, SameText, DirectoryOf, PathOf, File.Path, File.IsDirectory;
    var es := DirectoryOf(fs);
    forall i, j | 0 <= i < j < |es|
      ensures Fold(u, es[i].name) != Fold(u, es[j].name) && PathKey(u, es[i]) != PathKey(u, es[j])
    {
      EntryNamed(fs, i);
      EntryNamed(fs, j);
      FoldsSame(u, fs[i].name, fs[j].name);
      FoldsSame(u, fs[i].Path(), fs[j].Path());
    }
    forall i: nat, j: nat, slash: nat | i < |es| && j < |es| ensures !Shadows(u, es[j], es[i], slash) {
      EntryNamed(fs, i);
      EntryNamed(fs, j);
      if slash < |fs[i].Path()| {
        FoldsSame(u, fs[i].Path()[..slash], fs[j].Path());
      }
    }
  }

  lemma {:induction false} SizesAddUp(fs: seq<File>, n: nat)
    requires n <= |fs|
    ensures TotalSize(DirectoryOf(fs)[..n]) == ContentTotal(fs[..n])
  {
    hide DirectoryOf;
    if n > 0 {
      SizesAddUp(fs, n - 1);
      EntryNamed(fs, n - 1);
      assert DirectoryOf(fs)[..n][..n - 1] == DirectoryOf(fs)[..n - 1] && fs[..n][..n - 1] == fs[..n - 1];
    }
  }

  // --- the end record ---

  /** The bytes at `i` look like an end record whose comment ends with the file. */
  predicate LooksLikeEnd(b: seq<byte>, i: nat) {
    && i + 22 <= |b| && b[i] == 0x50 && b[i + 1] == 0x4b && b[i + 2] == 5 && b[i + 3] == 6
    && i + 22 + b[i + 20] as nat + 256 * b[i + 21] as nat == |b|
  }

  lemma FourBytes(a: byte, b: byte, c: byte, d: byte)
    ensures a + 256 * b + 65536 * (c + 256 * d) == 0x06054b50 as int <==> a == 0x50 && b == 0x4b && c == 5 && d == 6
  {
  }

  lemma EndLooks(b: seq<byte>, i: nat)
    ensures IsEnd(b, i) <==> LooksLikeEnd(b, i)
  {
    if i + 22 <= |b| {
      FourBytes(b[i], b[i + 1], b[i + 2], b[i + 3]);
    }
  }

  lemma EndTailReads(b: seq<byte>, p: nat, length: nat, start: nat, comment: nat)
    requires Has(b, p, EndTail(length, start, comment)) && length <= INT_MAX && start <= INT_MAX && comment < 65536
    ensures p + 10 <= |b| && Le32(b, p) == length && Le32(b, p + 4) == start && Le16(b, p + 8) == comment
  {
    hide Has, Le16, Le32;
    var h := EndTail(length, start, comment);
    HasRoom(b, p, h);
    Field32(b, p, h, 0, length);
    Field32(b, p, h, 4, start);
    Field16(b, p, h, 8, comment);
  }

  lemma CountsRead(b: seq<byte>, p: nat, count: nat)
    requires Has(b, p, [0, 0, 0, 0, B0(count), B1(count), B0(count), B1(count)]) && count < 65536
    ensures p + 8 <= |b| && Le16(b, p) == 0 && Le16(b, p + 2) == 0
    ensures Le16(b, p + 4) == count && Le16(b, p + 6) == count
  {
    hide Has, Le16;
    var h := [0, 0, 0, 0, B0(count), B1(count), B0(count), B1(count)];
    HasRoom(b, p, h);
    Field16(b, p, h, 0, 0);
    Field16(b, p, h, 2, 0);
    Field16(b, p, h, 4, count);
    Field16(b, p, h, 6, count);
  }

  lemma EndParts(b: seq<byte>, p: nat, count: nat, length: nat, start: nat, comment: seq<byte>)
    requires Has(b, p, EndHeader(count, length, start, |comment|)) && |b| == p + 22 + |comment|
    requires count < 65536 && length <= INT_MAX && start <= INT_MAX && |comment| < 65536
    ensures IsEnd(b, p) && Le16(b, p + 4) == 0 && Le16(b, p + 6) == 0
    ensures Le16(b, p + 8) == count && Le16(b, p + 10) == count
    ensures Le32(b, p + 12) == length && Le32(b, p + 16) == start
  {
    hide Has, Le16, Le32, EndTail;
    var head, counts := [0x50, 0x4b, 5, 6], [0, 0, 0, 0, B0(count), B1(count), B0(count), B1(count)];
    var tail := EndTail(length, start, |comment|);
    HasConcat(b, p, head, counts + tail);
    HasConcat(b, p + 4, counts, tail);
    SignatureReads(b, p, 5, 6);
    CountsRead(b, p + 4, count);
    EndTailReads(b, p + 12, length, start, |comment|);
  }

  // --- the law ---

  /** An archive within the limits, of writable files with tidy names. */
  ghost predicate Archivable(u: Unicode, fs: seq<File>, comment: seq<byte>) {
    && (forall i :: 0 <= i < |fs| ==> Writable(u, fs[i])) && Tidy(u, fs)
    && |fs| <= 10000 && ContentTotal(fs) <= 0x1000_0000 && |Written(fs, comment)| <= 0x400_0000 && |comment| < 65536
  }

  /** Nothing else in the file looks like its end record. */
  ghost predicate Unambiguous(fs: seq<File>, comment: seq<byte>) {
    var b := Written(fs, comment);
    forall i: nat :: LooksLikeEnd(b, i) ==> i == |Locals(fs)| + |Centrals(fs)|
  }

  lemma {:induction false} WrittenParts(fs: seq<File>, comment: seq<byte>)
    ensures var b, c := Written(fs, comment), |Locals(fs)|; var e := c + |Centrals(fs)|;
      && Has(b, 0, Locals(fs)) && Has(b, c, Centrals(fs))
      && Has(b, e, EndHeader(|fs|, |Centrals(fs)|, c, |comment|)) && |b| == e + 22 + |comment|
  {
    hide Has, Locals, Centrals, EndHeader;
    var b, c := Written(fs, comment), |Locals(fs)|;
    var tail := EndHeader(|fs|, |Centrals(fs)|, c, |comment|) + comment;
    Whole(b);
    HasConcat(b, 0, Locals(fs), Centrals(fs) + tail);
    HasConcat(b, c, Centrals(fs), tail);
    HasConcat(b, c + |Centrals(fs)|, EndHeader(|fs|, |Centrals(fs)|, c, |comment|), comment);
  }

  lemma Whole(b: seq<byte>)
    ensures Has(b, 0, b)
  {
  }

  lemma {:induction false} DirectoryStands(u: Unicode, fs: seq<File>, comment: seq<byte>)
    requires Archivable(u, fs, comment)
    ensures DirectoryReads(u, Written(fs, comment), DirectoryOf(fs), |Locals(fs)|, |Locals(fs)| + |Centrals(fs)|)
  {
    hide Written, Locals, Centrals, CentralRecord, EntryAt, EntryOf, Chain, Writable, Tidy, IsTree, DistinctNames,
      ContentTotal, TotalSize, Ranges, Has;
    var b, es := Written(fs, comment), DirectoryOf(fs);
    WrittenParts(fs, comment);
    forall i | 0 <= i < |es| ensures EntryAt(u, b, es[i]) {
      CentralStands(b, |Locals(fs)|, fs, i);
      OffsetWithin(b, fs, i);
      EntryReads(u, b, Start(fs, i), fs[i], Offset(fs, i));
    }
    RangesChain(b, fs, |fs|);
    assert es[..|fs|] == es && fs[..|fs|] == fs;
    TidyIsTree(u, fs);
    SizesAddUp(fs, |fs|);
  }

  lemma {:induction false} OffsetWithin(b: seq<byte>, fs: seq<File>, i: nat)
    requires Has(b, 0, Locals(fs)) && i < |fs|
    ensures Offset(fs, i) <= |b|
  {
    hide Has, Locals, LocalRecord;
    LocalStands(b, fs, i);
    HasRoom(b, Offset(fs, i), LocalRecord(fs[i]));
  }

  lemma {:induction false} MembersStand(u: Unicode, fs: seq<File>, comment: seq<byte>)
    requires Archivable(u, fs, comment)
    ensures MembersOk(u, Written(fs, comment), DirectoryOf(fs), MembersOf(fs), |Locals(fs)|)
  {
    hide Written, Locals, Centrals, CentralRecord, LocalRecord, MemberAt, EntryOf, Chain, Writable, Tidy, Records, Has;
    var b, ms := Written(fs, comment), MembersOf(fs);
    WrittenParts(fs, comment);
    forall i | 0 <= i < |ms| ensures MemberAt(u, b, ms[i]) {
      LocalStands(b, fs, i);
      MemberReads(u, b, Start(fs, i), fs[i], Offset(fs, i));
    }
    RecordsChain(b, fs, |fs|);
    assert ms[..|fs|] == ms && fs[..|fs|] == fs;
    assert EntriesOf(ms) == DirectoryOf(fs);
  }

  /** The verifier reads back what was written, exactly if nothing else in the file looks
      like its end record. */
  lemma {:induction false} WrittenReads(u: Unicode, fs: seq<File>, comment: seq<byte>)
    requires Archivable(u, fs, comment)
    ensures Unambiguous(fs, comment) ==> ArchiveOk(u, Written(fs, comment), ArchiveOf(fs))
    ensures !Unambiguous(fs, comment) ==> !exists a :: ArchiveOk(u, Written(fs, comment), a)
  {
    hide Written, Locals, Centrals, IsEnd, LooksLikeEnd, DirectoryReads, MembersOk, IsTree, Writable, Tidy, Le16, Le32,
      Has, EndHeader, ContentTotal, DirectoryOf, MembersOf;
    var b, eocd := Written(fs, comment), |Locals(fs)| + |Centrals(fs)|;
    WrittenParts(fs, comment);
    EndParts(b, eocd, |fs|, |Centrals(fs)|, |Locals(fs)|, comment);
    DirectoryStands(u, fs, comment);
    MembersStand(u, fs, comment);
    TidyIsTree(u, fs);
    EndAt(b, eocd);
    forall i: int ensures IsEnd(b, i) ==> 0 <= i && LooksLikeEnd(b, i) {
      EndAt(b, i);
    }
    if !Unambiguous(fs, comment) {
      var i: nat :| LooksLikeEnd(b, i) && i != eocd;
      EndAt(b, i);
    }
  }

  lemma EndAt(b: seq<byte>, i: int)
    ensures IsEnd(b, i) <==> 0 <= i && LooksLikeEnd(b, i)
  {
    hide Le16, Le32, LooksLikeEnd;
    if i >= 0 {
      EndLooks(b, i);
    }
  }

  /** So the verifier returns the files, in their order, with their names and contents. */
  method ObserveWritten(u: Unicode, fs: seq<File>, comment: seq<byte>) returns (r: Result<Archive>)
    requires Archivable(u, fs, comment)
    ensures r.Ok? <==> Unambiguous(fs, comment)
    ensures r.Ok? ==> |r.value.members| == |fs|
    ensures r.Ok? ==> forall i :: 0 <= i < |fs| ==>
                        var m := r.value.members[i]; m.entry.name == fs[i].name && m.content == fs[i].content
  {
    hide ArchiveOk, Written, Unambiguous, Archivable, Locals, Centrals, CentralRecord, LocalRecord;
    WrittenReads(u, fs, comment);
    r := Observe(u, Written(fs, comment));
  }

  // --- what is never accepted, byte by byte ---

  /** Version at most 2.0, no encryption, patches or other flags than bits 1, 2, 3 and 11, stored
      or deflated, compression hints for deflated ones only, first disk, a plain file or a
      directory by its Unix type and its name, and no content in a directory. */
  predicate Ordinary(b: seq<byte>, p: nat, directory: bool)
    requires p + 46 <= |b|
  {
    && b[p] == 0x50 && b[p + 1] == 0x4b && b[p + 2] == 1 && b[p + 3] == 2
    && b[p + 6] <= 20 && b[p + 7] == 0
    && b[p + 8] < 16 && b[p + 8] % 2 == 0 && (b[p + 9] == 0 || b[p + 9] == 8)
    && (b[p + 10] == 0 || b[p + 10] == 8) && b[p + 11] == 0
    && (b[p + 10] == 0 ==> b[p + 8] == 0 || b[p + 8] == 8)
    && b[p + 34] == 0 && b[p + 35] == 0
    && (b[p + 41] / 16 == 0 || b[p + 41] / 16 == if directory then 4 else 8)
    && (b[p + 38] / 16 % 2 == 1 ==> directory)
    && (directory ==> b[p + 24] == 0 && b[p + 25] == 0 && b[p + 26] == 0 && b[p + 27] == 0)
    && b[p + 23] < 128 && b[p + 45] < 128 && b[p + 27] <= 8
  }

  lemma ShortFlags(low: byte, high: byte)
    requires AllowedFlags(low + 256 * high)
    ensures low < 16 && low % 2 == 0 && (high == 0 || high == 8)
    ensures (low + 256 * high) / 2 % 4 == 0 ==> low == 0 || low == 8
  {
  }

  lemma LongAttributes(a: byte, b: byte, c: byte, d: byte, directory: bool)
    requires AttributesAllow(a + 256 * b + 65536 * (c + 256 * d), directory)
    ensures d / 16 == 0 || d / 16 == if directory then 4 else 8
    ensures a / 16 % 2 == 1 ==> directory
  {
    var v := a + 256 * b + 65536 * (c + 256 * d);
    assert v / 0x1000_0000 == d / 16;
    assert v / 0x10 % 2 == a / 16 % 2;
  }

  lemma EntryOrdinary(u: Unicode, b: seq<byte>, e: Entry)
    requires EntryAt(u, b, e)
    ensures var p := e.range.start; p + 46 <= |b| && Ordinary(b, p, EndsIn(e.name, '/'))
    ensures e.size <= 134217728
  {
    hide NameAt, ExtraOk, AllowedFlags, AttributesAllow;
    var p := e.range.start;
    ShortFlags(b[p + 8], b[p + 9]);
    LongAttributes(b[p + 38], b[p + 39], b[p + 40], b[p + 41], e.directory);
    assert e.directory == EndsIn(e.name, '/');
    EntryNumbers(b[p], b[p + 1], b[p + 2], b[p + 3]);
  }

  lemma EntryNumbers(a: byte, b: byte, c: byte, d: byte)
    ensures a + 256 * b + 65536 * (c + 256 * d) == 0x02014b50 as int ==> a == 0x50 && b == 0x4b && c == 1 && d == 2
  {
  }

  /** The local record at `q` repeats version, flags, method, time and date of the entry at `p`. */
  predicate Repeats(b: seq<byte>, p: nat, q: nat) {
    && p + 46 <= |b| && q + 30 <= |b|
    && b[q] == 0x50 && b[q + 1] == 0x4b && b[q + 2] == 3 && b[q + 3] == 4
    && b[q + 4..q + 14] == b[p + 6..p + 16]
  }

  lemma LocalRepeats(u: Unicode, b: seq<byte>, m: Member)
    requires MemberAt(u, b, m) && EntryAt(u, b, m.entry)
    ensures Repeats(b, m.entry.range.start, m.entry.localOffset)
  {
    hide NameAt, ExtraOk, AllowedFlags, AttributesAllow, EndsAt, ContentOk, Le16, Le32, Repeats;
    SameFields(b, m.entry.range.start, m.entry.localOffset);
  }

  lemma SameFields(b: seq<byte>, p: nat, q: nat)
    requires p + 46 <= |b| && q + 30 <= |b| && Le32(b, q) == 0x04034b50
    requires Le16(b, p + 6) == Le16(b, q + 4) && Le16(b, p + 8) == Le16(b, q + 6) && Le16(b, p + 10) == Le16(b, q + 8)
    requires Le16(b, p + 12) == Le16(b, q + 10) && Le16(b, p + 14) == Le16(b, q + 12)
    ensures Repeats(b, p, q)
  {
    LocalNumbers(b[q], b[q + 1], b[q + 2], b[q + 3]);
    hide Le16, Le32;
    SameShort(b, p + 6, q + 4);
    SameShort(b, p + 8, q + 6);
    SameShort(b, p + 10, q + 8);
    SameShort(b, p + 12, q + 10);
    SameShort(b, p + 14, q + 12);
    TenBytes(b, p + 6, q + 4);
  }

  lemma TenBytes(b: seq<byte>, p: nat, q: nat)
    requires p + 10 <= |b| && q + 10 <= |b|
    requires b[p] == b[q] && b[p + 1] == b[q + 1] && b[p + 2] == b[q + 2] && b[p + 3] == b[q + 3]
    requires b[p + 4] == b[q + 4] && b[p + 5] == b[q + 5] && b[p + 6] == b[q + 6] && b[p + 7] == b[q + 7]
    requires b[p + 8] == b[q + 8] && b[p + 9] == b[q + 9]
    ensures b[q..q + 10] == b[p..p + 10]
  {
    var v, w := b[q..q + 10], b[p..p + 10];
    forall k | 0 <= k < 10 ensures v[k] == w[k] {
      assert k == 0 || k == 1 || k == 2 || k == 3 || k == 4 || k == 5 || k == 6 || k == 7 || k == 8 || k == 9;
    }
  }

  lemma SameShort(b: seq<byte>, p: nat, q: nat)
    requires p + 2 <= |b| && q + 2 <= |b| && Le16(b, p) == Le16(b, q)
    ensures b[p] == b[q] && b[p + 1] == b[q + 1]
  {
  }

  lemma LocalNumbers(a: byte, b: byte, c: byte, d: byte)
    ensures a + 256 * b + 65536 * (c + 256 * d) == 0x04034b50 as int ==> a == 0x50 && b == 0x4b && c == 3 && d == 4
  {
  }

  /** An accepted extra field is what a writer of tagged blocks wrote. */
  lemma {:induction false} ExtraIsBlocks(b: seq<byte>, p: nat, n: nat) returns (blocks: seq<Tagged>)
    requires p + n <= |b| && ExtraOk(b, p, n)
    ensures GoodBlocks(blocks) && b[p..p + n] == ExtraBytes(blocks)
    decreases n
  {
    if n == 0 {
      blocks := [];
    } else {
      var tag, len := Le16(b, p), Le16(b, p + 2);
      var more := ExtraIsBlocks(b, p + 4 + len, n - 4 - len);
      var t := Tagged(tag, b[p + 4..p + 4 + len]);
      blocks := [t] + more;
      ShortBytes(b, p);
      ShortBytes(b, p + 2);
      assert b[p..p + n] == [b[p], b[p + 1], b[p + 2], b[p + 3]] + t.data + b[p + 4 + len..p + n];
      assert blocks[0] == t && blocks[1..] == more;
    }
  }

  lemma ShortBytes(b: seq<byte>, p: nat)
    requires p + 2 <= |b|
    ensures b[p] == B0(Le16(b, p)) && b[p + 1] == B1(Le16(b, p))
  {
  }

  /** An accepted name is what its bytes spell: UTF-8 if the flag says so, ASCII otherwise. */
  lemma NameIsSpelled(u: Unicode, b: seq<byte>, p: nat, n: nat, flags: nat, name: string)
    requires NameAt(u, b, p, n, flags) == Ok(name)
    ensures 0 < n <= 4096 && p + n <= |b| && GoodName(u, name)
    ensures if flags / 0x800 % 2 == 1 then u.utf8(b[p..p + n]) == Some(name)
            else |name| == n && forall i :: 0 <= i < n ==> b[p + i] < 128 && name[i] == b[p + i] as char
  {
    hide GoodName;
    var bytes := b[p..p + n];
    if flags / 0x800 % 2 == 0 {
      assert name == Ascii(bytes);
      forall i | 0 <= i < n ensures b[p + i] < 128 && name[i] == b[p + i] as char {
        assert bytes[i] == b[p + i];
      }
    }
  }

  /** Four bytes are those at `c`. */
  predicate Same(b: seq<byte>, p: nat, c: nat)
    requires p + 4 <= |b| && c + 4 <= |b|
  {
    b[p..p + 4] == b[c..c + 4]
  }

  /** Four bytes are zero or those at `c`. */
  predicate ZeroOr(b: seq<byte>, p: nat, c: nat)
    requires p + 4 <= |b| && c + 4 <= |b|
  {
    b[p..p + 4] == [0, 0, 0, 0] || b[p..p + 4] == b[c..c + 4]
  }

  lemma SameLong(b: seq<byte>, p: nat, c: nat)
    requires p + 4 <= |b| && c + 4 <= |b|
    ensures Same(b, p, c) <==> Le32(b, p) == Le32(b, c)
    ensures ZeroOr(b, p, c) <==> Le32(b, p) == 0 || Le32(b, p) == Le32(b, c)
  {
    LongBytes(b, p);
    LongBytes(b, c);
    var v, w := b[p..p + 4], b[c..c + 4];
    assert v == [b[p], b[p + 1], b[p + 2], b[p + 3]] && w == [b[c], b[c + 1], b[c + 2], b[c + 3]];
  }

  lemma LongBytes(b: seq<byte>, p: nat)
    requires p + 4 <= |b|
    ensures var v := Le32(b, p); b[p] == v % 256 && b[p + 1] == v / 256 % 256
    ensures var v := Le32(b, p); b[p + 2] == v / 65536 % 256 && b[p + 3] == v / 65536 / 256
    ensures b[p] == 0 && b[p + 1] == 0 && b[p + 2] == 0 && b[p + 3] == 0 ==> Le32(b, p) == 0
    ensures Le32(b, p) == b[p] as nat + 256 * b[p + 1] as nat + 65536 * (b[p + 2] as nat + 256 * b[p + 3] as nat)
  {
  }

  /** Checksum and sizes stand in the local header as in the entry, or, if they follow the data,
      there, with the header's zero or the same. */
  lemma {:induction false} SizesRepeat(u: Unicode, b: seq<byte>, m: Member)
    requires MemberAt(u, b, m) && EntryAt(u, b, m.entry)
    ensures var p, c, e := m.entry.localOffset, m.entry.range.start, m.dataOffset + m.entry.compressed;
      && p + 30 <= |b| && c + 46 <= |b| && e <= m.end <= |b|
      && if b[c + 8] / 8 % 2 == 0 then
           m.end == e && Same(b, p + 14, c + 16) && Same(b, p + 18, c + 20) && Same(b, p + 22, c + 24)
         else
           && ZeroOr(b, p + 14, c + 16) && ZeroOr(b, p + 18, c + 20) && ZeroOr(b, p + 22, c + 24)
           && (m.end == e + 12
               || (m.end == e + 16 && b[e] == 0x50 && b[e + 1] == 0x4b && b[e + 2] == 7 && b[e + 3] == 8))
           && Same(b, m.end - 12, c + 16) && Same(b, m.end - 8, c + 20) && Same(b, m.end - 4, c + 24)
  {
    hide MemberAt, EntryAt, Le32, Le16, Same, ZeroOr;
    var p, c, e := m.entry.localOffset, m.entry.range.start, m.dataOffset + m.entry.compressed;
    SizesAsNumbers(u, b, m);
    SameLong(b, p + 14, c + 16);
    SameLong(b, p + 18, c + 20);
    SameLong(b, p + 22, c + 24);
    if b[c + 8] / 8 % 2 == 1 {
      SameLong(b, m.end - 12, c + 16);
      SameLong(b, m.end - 8, c + 20);
      SameLong(b, m.end - 4, c + 24);
      SignatureBytes(b, e);
    }
  }

  lemma {:induction false} SizesAsNumbers(u: Unicode, b: seq<byte>, m: Member)
    requires MemberAt(u, b, m) && EntryAt(u, b, m.entry)
    ensures var p, c, e := m.entry.localOffset, m.entry.range.start, m.dataOffset + m.entry.compressed;
      && p + 30 <= |b| && c + 46 <= |b| && e <= m.end <= |b|
      && if b[c + 8] / 8 % 2 == 0 then
           && m.end == e && Le32(b, p + 14) == Le32(b, c + 16) && Le32(b, p + 18) == Le32(b, c + 20)
           && Le32(b, p + 22) == Le32(b, c + 24)
         else
           && (Le32(b, p + 14) == 0 || Le32(b, p + 14) == Le32(b, c + 16))
           && (Le32(b, p + 18) == 0 || Le32(b, p + 18) == Le32(b, c + 20))
           && (Le32(b, p + 22) == 0 || Le32(b, p + 22) == Le32(b, c + 24))
           && (m.end == e + 12 || (m.end == e + 16 && Le32(b, e) == DESCRIPTOR_SIGNATURE))
           && Le32(b, m.end - 12) == Le32(b, c + 16) && Le32(b, m.end - 8) == Le32(b, c + 20)
           && Le32(b, m.end - 4) == Le32(b, c + 24)
  {
    hide NameAt, ExtraOk, AllowedFlags, AttributesAllow, ContentOk, Le32, Le16;
    FlagBit(b, m.entry.range.start + 8);
  }

  lemma FlagBit(b: seq<byte>, p: nat)
    requires p + 2 <= |b|
    ensures Le16(b, p) / 8 % 2 == b[p] / 8 % 2
  {
  }

  lemma SignatureBytes(b: seq<byte>, p: nat)
    requires p + 4 <= |b|
    ensures Le32(b, p) == DESCRIPTOR_SIGNATURE ==> b[p] == 0x50 && b[p + 1] == 0x4b && b[p + 2] == 7 && b[p + 3] == 8
  {
    LongBytes(b, p);
  }

  /** Every entry of an accepted file is ordinary, every local record repeats its entry, and the
      quotas of 64 MiB for the file, 10000 entries, 128 MiB for a member and 256 MiB for all
      members together are kept. */
  lemma {:induction false} AcceptedIsOrdinary(u: Unicode, b: seq<byte>, a: Archive)
    requires ArchiveOk(u, b, a)
    ensures |b| <= 67108864 && |a.directory| <= 10000 && TotalSize(a.directory) <= 268435456
    ensures forall i :: 0 <= i < |a.directory| ==> a.directory[i].size <= 134217728
    ensures forall i :: 0 <= i < |a.directory| ==>
      var e := a.directory[i]; e.range.start + 46 <= |b| && Ordinary(b, e.range.start, EndsIn(e.name, '/'))
    ensures forall i :: 0 <= i < |a.members| ==>
      Repeats(b, a.members[i].entry.range.start, a.members[i].entry.localOffset)
  {
    hide EntryAt, MemberAt, Chain, IsTree, DistinctNames, Ordinary, Repeats, IsEnd, Le16, Le32;
    forall i | 0 <= i < |a.directory| ensures EntryAt(u, b, a.directory[i]) {
    }
    forall i | 0 <= i < |a.directory|
      ensures var e := a.directory[i]; e.range.start + 46 <= |b| && Ordinary(b, e.range.start, EndsIn(e.name, '/'))
      ensures a.directory[i].size <= 134217728
    {
      EntryOrdinary(u, b, a.directory[i]);
    }
    forall i | 0 <= i < |a.members|
      ensures Repeats(b, a.members[i].entry.range.start, a.members[i].entry.localOffset)
    {
      var e := a.members[i].entry;
      assert EntriesOf(a.members)[i] == e;
      assert e in multiset(EntriesOf(a.members)) && e in multiset(a.directory);
      assert e in a.directory;
      LocalRepeats(u, b, a.members[i]);
    }
  }

  // --- two archives, byte for byte ---

  /** The empty archive. */
  lemma EmptyWritten(u: Unicode)
    ensures Written([], []) == [0x50, 0x4b, 5, 6, 0, 0, 0, 0, 0, 0, 0, 0, 0, 0, 0, 0, 0, 0, 0, 0, 0, 0]
    ensures Archivable(u, [], []) && Unambiguous([], [])
  {
    var b := Written([], []);
    assert Locals([]) == [] && Centrals([]) == [];
    assert EndTail(0, 0, 0) == [0, 0, 0, 0, 0, 0, 0, 0, 0, 0];
    assert b == EndHeader(0, 0, 0, 0);
  }

  /** A file "a" without content. */
  function Nothing(): (f: File) {
    File("a", [97], false, false, 0, false, false, false, [], [], 20, 0, 33, [], [], [], 20, 0, 0, 0)
  }

  const NO_SIZES: seq<byte> := [0, 0, 0, 0, 0, 0, 0, 0, 0, 0, 0, 0]
  const ONE_LOCAL: seq<byte> := [0x50, 0x4b, 3, 4, 20, 0, 0, 0, 0, 0, 0, 0, 33, 0] + (NO_SIZES + [1, 0, 0, 0, 97])
  const ONE_CENTRAL: seq<byte> :=
    [0x50, 0x4b, 1, 2, 20, 0, 20, 0, 0, 0, 0, 0, 0, 0, 33, 0]
    + (NO_SIZES + [1, 0, 0, 0, 0, 0, 0, 0, 0, 0, 0, 0, 0, 0, 0, 0, 0, 0, 97])
  const ONE_END: seq<byte> := [0x50, 0x4b, 5, 6, 0, 0, 0, 0, 1, 0, 1, 0, 47, 0, 0, 0, 31, 0, 0, 0, 0, 0]

  lemma {:induction false} NothingChecksum()
    ensures CrcOf([]) == 0
  {
    hide LsbAt;
    assert MessageBits([]) == [] && FeedAll(Ones(32), []) == Ones(32);
    assert Add(Ones(32), Ones(32)) == Zeros(32);
    ZerosValue(32);
  }

  lemma {:induction false} ZerosValue(n: nat)
    requires n <= 32
    ensures LsbAt(Zeros(32), 0, n) == 0
  {
    if n > 0 {
      ZerosValue(n - 1);
    }
  }

  lemma NothingParts()
    ensures var f := Nothing(); Common(f) == [20, 0, 0, 0, 0, 0, 0, 0, 33, 0] && SizesOf(f) == NO_SIZES
    ensures CentralTail(Nothing(), 0) == [1, 0, 0, 0, 0, 0, 0, 0, 0, 0, 0, 0, 0, 0, 0, 0, 0, 0]
    ensures ExtraBytes([]) == []
  {
    hide CrcOf;
    NothingChecksum();
  }

  lemma OneLocal()
    ensures LocalRecord(Nothing()) == ONE_LOCAL
  {
    hide CrcOf, Common, SizesOf, NO_SIZES;
    NothingParts();
    var f := Nothing();
    var common: seq<byte> := [20, 0, 0, 0, 0, 0, 0, 0, 33, 0];
    assert LocalHeader(f) == [0x50, 0x4b, 3, 4] + (common + (NO_SIZES + [1, 0, 0, 0]));
    assert LocalRecord(f) == LocalHeader(f) + [97];
    assert [0x50, 0x4b, 3, 4] + common == [0x50, 0x4b, 3, 4, 20, 0, 0, 0, 0, 0, 0, 0, 33, 0];
    assert [1, 0, 0, 0] + [97] == [1, 0, 0, 0, 97];
  }

  lemma OneCentral()
    ensures CentralRecord(Nothing(), 0) == ONE_CENTRAL
  {
    hide CrcOf, Common, SizesOf, CentralTail, NO_SIZES;
    NothingParts();
    var f := Nothing();
    var head: seq<byte>, common: seq<byte> := [0x50, 0x4b, 1, 2, 20, 0], [20, 0, 0, 0, 0, 0, 0, 0, 33, 0];
    var tail: seq<byte> := [1, 0, 0, 0, 0, 0, 0, 0, 0, 0, 0, 0, 0, 0, 0, 0, 0, 0];
    assert CentralHeader(f, 0) == head + (common + (NO_SIZES + tail));
    assert CentralRecord(f, 0) == CentralHeader(f, 0) + [97];
    assert head + common == [0x50, 0x4b, 1, 2, 20, 0, 20, 0, 0, 0, 0, 0, 0, 0, 33, 0];
    assert tail + [97] == [1, 0, 0, 0, 0, 0, 0, 0, 0, 0, 0, 0, 0, 0, 0, 0, 0, 0, 97];
    assert CentralRecord(f, 0) == (head + common) + (NO_SIZES + (tail + [97]));
  }

  lemma OneEnd()
    ensures EndHeader(1, 47, 31, 0) == ONE_END
  {
    assert EndTail(47, 31, 0) == [47, 0, 0, 0, 31, 0, 0, 0, 0, 0];
  }

  lemma {:induction false} OneWritten()
    ensures Written([Nothing()], []) == ONE_LOCAL + (ONE_CENTRAL + ONE_END)
    ensures |Locals([Nothing()])| == 31 && |Centrals([Nothing()])| == 47
  {
    hide LocalRecord, CentralRecord, EndHeader;
    OneLocal();
    OneCentral();
    OneEnd();
    var fs := [Nothing()];
    assert fs[..0] == [];
    assert Locals([]) == [] && Centrals([]) == [];
    assert Locals(fs) == ONE_LOCAL && Centrals(fs) == ONE_CENTRAL;
    assert ONE_END + [] == ONE_END;
  }

  lemma SmallP(i: nat)
    ensures 0 < i < 31 ==> ONE_LOCAL[i] != 0x50
    ensures 0 < i < 47 ==> ONE_CENTRAL[i] != 0x50
  {
  }

  lemma NoEndBefore(b: seq<byte>, i: nat)
    requires b == ONE_LOCAL + (ONE_CENTRAL + ONE_END) && i < 78
    ensures |b| == 100 && (b[i] != 0x50 || b[i + 2] != 5)
  {
    hide ONE_LOCAL, ONE_CENTRAL, ONE_END;
    OneSizes();
    if i < 31 {
      SmallP(i);
      assert b[i] == ONE_LOCAL[i] && b[2] == ONE_LOCAL[2];
    } else {
      SmallP(i - 31);
      assert b[i] == ONE_CENTRAL[i - 31] && b[33] == ONE_CENTRAL[2];
    }
  }

  lemma {:induction false} OneUnambiguous()
    ensures Unambiguous([Nothing()], [])
  {
    hide ONE_LOCAL, ONE_CENTRAL, ONE_END, Locals, Centrals, Written;
    OneWritten();
    var b := ONE_LOCAL + (ONE_CENTRAL + ONE_END);
    OneSizes();
    forall i: nat ensures LooksLikeEnd(b, i) ==> i == 78 {
      if i < 78 {
        NoEndBefore(b, i);
      }
    }
  }

  lemma OneSizes()
    ensures |ONE_LOCAL| == 31 && |ONE_CENTRAL| == 47 && |ONE_END| == 22
    ensures ONE_LOCAL[2] == 3 && ONE_CENTRAL[2] == 1
  {
  }

  lemma {:induction false} OneArchivable(u: Unicode)
    requires !u.control('a') && u.normal("a")
    ensures Archivable(u, [Nothing()], [])
  {
    hide ONE_LOCAL, ONE_CENTRAL, ONE_END, Locals, Centrals, Written, CrcOf;
    OneWritten();
    OneSizes();
    var f := Nothing();
    OneName(u);
    assert ExtraBytes([]) == [];
    assert ContentTotal([f]) == ContentTotal([f][..0]) + 0 && [f][..0] == [];
  }

  lemma OneName(u: Unicode)
    requires !u.control('a') && u.normal("a")
    ensures GoodName(u, "a")
  {
    var s := "a";
    assert |s| == 1 && s[0] == 'a' && s[1..] == "" && Split("", '/') == [""] && Split("", '.') == [""];
    assert [s[0]] + "" == s && [""][1..] == [];
    assert Split(s, '/') == ["a"] && Split(s, '.') == ["a"] && PathOf(s) == s;
    assert |Fold(u, "a")| == 1;
  }

  /** The verifier reads both. */
  method ObserveKnown(u: Unicode) returns (empty: Result<Archive>, one: Result<Archive>)
    requires !u.control('a') && u.normal("a")
    ensures empty.Ok? && empty.value.members == []
    ensures one.Ok? && |one.value.members| == 1
    ensures one.value.members[0].entry.name == "a" && one.value.members[0].content == []
  {
    hide ArchiveOk, Archivable, Unambiguous;
    EmptyWritten(u);
    empty := ObserveWritten(u, [], []);
    OneArchivable(u);
    OneUnambiguous();
    one := ObserveWritten(u, [Nothing()], []);
    assert Nothing().name == "a" && Nothing().content == [];
  }
}
