/** The archive verifier: one pass over the central directory, one over the local records
    in offset order. What it accepts is an exact tiling of the file. */
module ZipVerifier {
  import opened Prelude
  import opened DeflateFormat
  import opened Inflater
  import opened Crc32
  import opened ZipRecords

  const ARCHIVE_LIMIT: nat := 64 * 1024 * 1024
  const EXPANSION_LIMIT: nat := 256 * 1024 * 1024
  const ENTRY_LIMIT: nat := 10000

  // --- end of central directory ---

  /** An end record at `i` whose comment reaches exactly to the end of the file. */
  predicate IsEnd(b: seq<byte>, i: int) {
    0 <= i && i + 22 <= |b| && Le32(b, i) == END_SIGNATURE && i + 22 + Le16(b, i + 20) == |b|
  }

  /** The only end record in the part of the file where one can be. */
  method FindEnd(b: seq<byte>) returns (r: Result<nat>)
    requires |b| >= 22
    ensures r.Ok? ==> IsEnd(b, r.value) && forall i: int :: IsEnd(b, i) ==> i == r.value
    ensures r.Rejected? ==> (forall i: int :: !IsEnd(b, i)) || exists i, j: int :: IsEnd(b, i) && IsEnd(b, j) && i < j
  {
    var eocd := -1;
    var i := if |b| - 65557 > 0 then |b| - 65557 else 0;
    ghost var first := i;
    while i <= |b| - 22
      invariant first <= i <= |b| - 21
      invariant -1 <= eocd < i
      invariant eocd >= 0 ==> IsEnd(b, eocd)
      invariant forall k: int :: k < i && IsEnd(b, k) ==> k == eocd
    {
      if Le32(b, i) == END_SIGNATURE && i + 22 + Le16(b, i + 20) == |b| {
        if eocd >= 0 {
          assert IsEnd(b, i);
          return Rejected;
        }
        eocd := i;
      }
      i := i + 1;
    }
    if eocd < 0 {
      return Rejected;
    }
    r := Ok(eocd);
  }

  // --- central directory ---

  /** Reads and checks the entry at `pos`. */
  method ReadEntry(u: Unicode, b: seq<byte>, pos: nat) returns (r: Result<Entry>)
    ensures r.Ok? ==> EntryAt(u, b, r.value) && r.value.range.start == pos && r.value.range.end > pos
    ensures forall e :: EntryAt(u, b, e) && e.range.start == pos ==> r == Ok(e)
  {
    hide Le16, Le32, NameAt, ExtraOk, AllowedFlags, AttributesAllow, EndsIn;
    if pos + 46 > |b| || Le32(b, pos) != CENTRAL_SIGNATURE {
      return Rejected;
    }
    var flags, kind, needed := Le16(b, pos + 8), Le16(b, pos + 10), Le16(b, pos + 6);
    if needed > 20 || !AllowedFlags(flags) || !(kind == 8 || (kind == 0 && flags / 2 % 4 == 0)) {
      return Rejected;
    }
    var size :- Int32(b, pos + 24);
    var compressed :- Int32(b, pos + 20);
    if size > MEMBER_LIMIT || Le16(b, pos + 34) != 0 {
      return Rejected;
    }
    var nn, extra, comment := Le16(b, pos + 28), Le16(b, pos + 30), Le16(b, pos + 32);
    var end := pos + 46 + nn + extra + comment;
    if end > |b| {
      return Rejected;
    }
    var name :- NameAt(u, b, pos + 46, nn, flags);
    var _ :- Extra(b, pos + 46 + nn, extra);
    var directory := EndsIn(name, '/');
    if !AttributesAllow(Le32(b, pos + 38), directory) || (directory && size != 0) {
      return Rejected;
    }
    var offset :- Int32(b, pos + 42);
    r := Ok(Entry(Interval(pos, end), name, kind, flags, needed, Le16(b, pos + 12), Le16(b, pos + 14),
                  Le32(b, pos + 16), compressed, size, offset, directory));
  }

  function TotalSize(entries: seq<Entry>): (n: nat) {
    if |entries| == 0 then 0 else TotalSize(entries[..|entries| - 1]) + entries[|entries| - 1].size
  }

  function Ranges(entries: seq<Entry>): (rs: seq<Interval>)
    ensures |rs| == |entries|
  {
    seq(|entries|, i requires 0 <= i < |entries| => entries[i].range)
  }

  /** No two entries have the same name up to case. */
  predicate DistinctNames(u: Unicode, entries: seq<Entry>) {
    forall i, j :: 0 <= i < j < |entries| ==> Fold(u, entries[i].name) != Fold(u, entries[j].name)
  }

  function FoldedNames(u: Unicode, entries: seq<Entry>): (names: set<string>) {
    set e | e in entries :: Fold(u, e.name)
  }

  lemma AddName(u: Unicode, entries: seq<Entry>, e: Entry)
    requires DistinctNames(u, entries) && Fold(u, e.name) !in FoldedNames(u, entries)
    ensures DistinctNames(u, entries + [e])
    ensures FoldedNames(u, entries + [e]) == FoldedNames(u, entries) + {Fold(u, e.name)}
  {
    hide Fold;
    forall k | 0 <= k < |entries| ensures Fold(u, entries[k].name) != Fold(u, e.name) {
      assert entries[k] in entries;
    }
    assert e in entries + [e];
    forall s | s in FoldedNames(u, entries) + {Fold(u, e.name)} ensures s in FoldedNames(u, entries + [e]) {
      if s in FoldedNames(u, entries) {
        var f :| f in entries && Fold(u, f.name) == s;
        assert f in entries + [e];
      }
    }
  }

  lemma {:induction false} AddEntry(entries: seq<Entry>, e: Entry, from: nat)
    requires Chain(Ranges(entries), from, e.range.start) && e.range.start < e.range.end
    ensures Chain(Ranges(entries + [e]), from, e.range.end)
    ensures TotalSize(entries + [e]) == TotalSize(entries) + e.size
  {
    ChainSnoc(Ranges(entries), from, e.range);
    assert Ranges(entries + [e]) == Ranges(entries) + [e.range];
    assert (entries + [e])[..|entries|] == entries;
  }

  /** The entries fill the directory from `central` to `eocd`, each as its bytes spell it. */
  ghost predicate DirectoryReads(u: Unicode, b: seq<byte>, entries: seq<Entry>, central: nat, eocd: nat) {
    && Chain(Ranges(entries), central, eocd)
    && (forall i :: 0 <= i < |entries| ==> EntryAt(u, b, entries[i]))
    && TotalSize(entries) <= EXPANSION_LIMIT
    && DistinctNames(u, entries)
  }

  /** Where a chain's first part ends, the rest begins. */
  lemma {:induction false} ChainSplit(rs: seq<Interval>, from: nat, mid: nat, to: nat, i: nat)
    requires Chain(rs, from, to) && i <= |rs| && Chain(rs[..i], from, mid)
    ensures Chain(rs[i..], mid, to)
    decreases i
  {
    if i > 0 {
      assert rs[..i][1..] == rs[1..][..i - 1];
      assert rs[1..][i - 1..] == rs[i..];
      ChainSplit(rs[1..], rs[0].end, mid, to, i - 1);
    } else {
      assert rs[0..] == rs;
    }
  }

  lemma {:induction false} TotalOfPrefix(entries: seq<Entry>, i: nat)
    requires i <= |entries|
    ensures TotalSize(entries[..i]) <= TotalSize(entries)
    decreases |entries|
  {
    if i < |entries| {
      var front := entries[..|entries| - 1];
      assert front[..i] == entries[..i];
      TotalOfPrefix(front, i);
    } else {
      assert entries[..i] == entries;
    }
  }

  /** `e` can follow the entries read so far. */
  ghost predicate CanFollow(u: Unicode, b: seq<byte>, entries: seq<Entry>, e: Entry, pos: nat, eocd: nat) {
    && EntryAt(u, b, e) && e.range.start == pos < e.range.end <= eocd
    && TotalSize(entries) + e.size <= EXPANSION_LIMIT
    && Fold(u, e.name) !in FoldedNames(u, entries)
  }

  lemma {:induction false} DirectoryStep(u: Unicode, b: seq<byte>, es: seq<Entry>, central: nat, eocd: nat,
                                         entries: seq<Entry>, pos: nat)
    requires DirectoryReads(u, b, es, central, eocd) && |entries| < |es| && es[..|entries|] == entries
    requires Chain(Ranges(entries), central, pos)
    ensures CanFollow(u, b, entries, es[|entries|], pos, eocd)
  {
    hide EntryAt, Fold;
    var i := |entries|;
    assert Ranges(es)[..i] == Ranges(entries);
    ChainSplit(Ranges(es), central, pos, eocd, i);
    ChainForward(Ranges(es), central, eocd);
    assert Ranges(es)[i..][0] == Ranges(es)[i] == es[i].range;
    assert es[..i + 1][..i] == entries;
    TotalOfPrefix(es, i + 1);
    forall e | e in entries ensures Fold(u, e.name) != Fold(u, es[i].name) {
      var k :| 0 <= k < i && entries[k] == e;
      assert es[k] == e;
    }
  }

  lemma {:induction false} DirectoryEnds(u: Unicode, b: seq<byte>, es: seq<Entry>, central: nat, eocd: nat, pos: nat)
    requires DirectoryReads(u, b, es, central, eocd) && Chain(Ranges(es), central, pos)
    ensures pos == eocd
  {
    hide EntryAt, DistinctNames;
    var rs := Ranges(es);
    assert rs[..|rs|] == rs;
    ChainSplit(rs, central, pos, eocd, |rs|);
  }

  /** Reads `count` entries from `central` on; they must fill the directory exactly. */
  method ReadDirectory(u: Unicode, b: seq<byte>, central: nat, eocd: nat, count: nat) returns (r: Result<seq<Entry>>)
    requires central <= eocd <= |b|
    ensures r.Ok? ==> |r.value| == count && DirectoryReads(u, b, r.value, central, eocd)
    ensures forall es :: |es| == count && DirectoryReads(u, b, es, central, eocd) ==> r == Ok(es)
  {
    hide EntryAt, Fold, Chain, DistinctNames, Ranges, FoldedNames, TotalSize, DirectoryReads;
    var entries: seq<Entry> := [];
    var names: set<string> := {};
    var pos, expansion := central, 0;
    NoEntries(u, central);
    for i := 0 to count
      invariant |entries| == i && central <= pos <= eocd && expansion == TotalSize(entries) <= EXPANSION_LIMIT
      invariant Chain(Ranges(entries), central, pos)
      invariant forall k :: 0 <= k < i ==> EntryAt(u, b, entries[k])
      invariant names == FoldedNames(u, entries) && DistinctNames(u, entries)
      invariant forall es :: |es| == count && DirectoryReads(u, b, es, central, eocd) ==> es[..i] == entries
    {
      forall es | |es| == count && DirectoryReads(u, b, es, central, eocd)
        ensures CanFollow(u, b, entries, es[i], pos, eocd) && es[..i + 1] == entries + [es[i]]
      {
        DirectoryStep(u, b, es, central, eocd, entries, pos);
      }
      var e :- ReadEntry(u, b, pos);
      expansion := expansion + e.size;
      if e.range.end > eocd || expansion > EXPANSION_LIMIT || Fold(u, e.name) in names {
        return Rejected;
      }
      AddEntry(entries, e, central);
      AddName(u, entries, e);
      names := names + {Fold(u, e.name)};
      entries := entries + [e];
      pos := e.range.end;
    }
    forall es | |es| == count && DirectoryReads(u, b, es, central, eocd)
      ensures pos == eocd && es == entries
    {
      assert es[..count] == es;
      DirectoryEnds(u, b, es, central, eocd, pos);
    }
    if pos != eocd {
      return Rejected;
    }
    DirectoryRead(u, b, entries, central, eocd);
    r := Ok(entries);
  }

  lemma {:induction false} DirectoryRead(u: Unicode, b: seq<byte>, entries: seq<Entry>, central: nat, eocd: nat)
    requires Chain(Ranges(entries), central, eocd)
    requires forall i :: 0 <= i < |entries| ==> EntryAt(u, b, entries[i])
    requires TotalSize(entries) <= EXPANSION_LIMIT && DistinctNames(u, entries)
    ensures DirectoryReads(u, b, entries, central, eocd)
  {
    hide EntryAt, Chain, TotalSize, DistinctNames, Ranges;
  }

  lemma {:induction false} NoEntries(u: Unicode, from: nat)
    ensures Chain(Ranges([]), from, from) && TotalSize([]) == 0
    ensures FoldedNames(u, []) == {} && DistinctNames(u, [])
  {
  }

  // --- paths ---

  function PathKey(u: Unicode, e: Entry): (key: string) {
    Fold(u, PathOf(e.name))
  }

  /** `f` is a file that some proper ancestor of `e`'s path names. */
  predicate Shadows(u: Unicode, f: Entry, e: Entry, slash: nat) {
    var path := PathOf(e.name);
    && !f.directory && slash < |path| && path[slash] == '/'
    && Fold(u, path[..slash]) == PathKey(u, f)
  }

  /** The members form a tree of directories with files as leaves: no two share a path and
      no file's path is the directory part of another path, up to case. */
  ghost predicate IsTree(u: Unicode, entries: seq<Entry>) {
    && (forall i, j :: 0 <= i < j < |entries| ==> PathKey(u, entries[i]) != PathKey(u, entries[j]))
    && (forall i: nat, j: nat, slash: nat :: i < |entries| && j < |entries| ==>
                                               !Shadows(u, entries[j], entries[i], slash))
  }

  /** The path table: folded path to directory flag. */
  ghost predicate PathTable(u: Unicode, paths: map<string, bool>, entries: seq<Entry>) {
    && (forall i :: 0 <= i < |entries| ==>
          PathKey(u, entries[i]) in paths && paths[PathKey(u, entries[i])] == entries[i].directory)
    && (forall key :: key in paths ==> exists i :: 0 <= i < |entries| && PathKey(u, entries[i]) == key)
  }

  method CollectPaths(u: Unicode, entries: seq<Entry>) returns (r: Result<map<string, bool>>)
    ensures r.Ok? <==> forall i, j :: 0 <= i < j < |entries| ==> PathKey(u, entries[i]) != PathKey(u, entries[j])
    ensures r.Ok? ==> PathTable(u, r.value, entries)
  {
    hide PathKey;
    var paths: map<string, bool> := map[];
    for i := 0 to |entries|
      invariant PathTable(u, paths, entries[..i])
      invariant forall j, k :: 0 <= j < k < i ==> PathKey(u, entries[j]) != PathKey(u, entries[k])
    {
      var key := PathKey(u, entries[i]);
      if key in paths {
        return Rejected;
      }
      assert entries[..i + 1] == entries[..i] + [entries[i]];
      paths := paths[key := entries[i].directory];
    }
    assert entries[..|entries|] == entries;
    r := Ok(paths);
  }

  /** Looks at every slash of every path. */
  method CheckAncestors(u: Unicode, paths: map<string, bool>, entries: seq<Entry>) returns (r: Result<()>)
    requires PathTable(u, paths, entries)
    ensures r.Ok? <==> forall i: nat, j: nat, slash: nat :: i < |entries| && j < |entries| ==>
      !Shadows(u, entries[j], entries[i], slash)
  {
    hide PathKey, Fold;
    for i := 0 to |entries|
      invariant forall k: nat, j: nat, slash: nat :: k < i && j < |entries| ==>
                                                         !Shadows(u, entries[j], entries[k], slash)
    {
      var path := PathOf(entries[i].name);
      for slash := 0 to |path|
        invariant forall j: nat, m: nat :: j < |entries| && m < slash ==> !Shadows(u, entries[j], entries[i], m)
      {
        if path[slash] == '/' {
          var prefix := Fold(u, path[..slash]);
          if prefix in paths && !paths[prefix] {
            ghost var j :| 0 <= j < |entries| && PathKey(u, entries[j]) == prefix;
            assert Shadows(u, entries[j], entries[i], slash);
            return Rejected;
          }
        }
      }
    }
    r := Ok(());
  }

  // --- local records ---

  predicate Nondecreasing(entries: seq<Entry>) {
    forall i, j :: 0 <= i < j < |entries| ==> entries[i].localOffset <= entries[j].localOffset
  }

  /** Puts `e` before the first entry with a larger offset. */
  method Insert(sorted: seq<Entry>, e: Entry) returns (r: seq<Entry>)
    requires Nondecreasing(sorted)
    ensures Nondecreasing(r) && multiset(r) == multiset(sorted) + multiset{e}
  {
    var k := |sorted|;
    while k > 0 && sorted[k - 1].localOffset > e.localOffset
      invariant 0 <= k <= |sorted|
      invariant forall m :: k <= m < |sorted| ==> sorted[m].localOffset > e.localOffset
    {
      k := k - 1;
    }
    InsertKeeps(sorted, k, e);
    r := sorted[..k] + [e] + sorted[k..];
  }

  lemma InsertKeeps(s: seq<Entry>, k: nat, e: Entry)
    requires k <= |s|
    ensures multiset(s[..k] + [e] + s[k..]) == multiset(s) + multiset{e}
  {
    assert s == s[..k] + s[k..];
  }

  /** Entries in order of their local offsets; the library sort is unstable, so any order
      of equal offsets may come out. */
  method SortByOffset(entries: seq<Entry>) returns (sorted: seq<Entry>)
    ensures multiset(sorted) == multiset(entries) && Nondecreasing(sorted)
  {
    hide Nondecreasing;
    sorted := [];
    Sorted0();
    for i := 0 to |entries|
      invariant multiset(sorted) == multiset(entries[..i]) && Nondecreasing(sorted)
    {
      assert entries[..i + 1] == entries[..i] + [entries[i]];
      sorted := Insert(sorted, entries[i]);
    }
    assert entries[..|entries|] == entries;
  }

  lemma Sorted0()
    ensures Nondecreasing([])
  {
  }

  /** Where the record of `e` ends once its data has been passed. */
  method RecordEnd(b: seq<byte>, p: nat, e: Entry, data: nat) returns (r: Result<nat>)
    requires p + 30 <= data && data + e.compressed <= |b|
    ensures r.Ok? ==> EndsAt(b, p, e, data, r.value)
    ensures forall end: nat :: EndsAt(b, p, e, data, end) ==> r == Ok(end)
  {
    hide Le32;
    var end := data + e.compressed;
    var crc, compressed, size := Le32(b, p + 14), Le32(b, p + 18), Le32(b, p + 22);
    if e.flags / 8 % 2 == 0 {
      if crc != e.crc || compressed != e.compressed || size != e.size {
        return Rejected;
      }
      return Ok(end);
    }
    if !(crc in {0, e.crc} && compressed in {0, e.compressed} && size in {0, e.size}) {
      return Rejected;
    }
    var signature :- U32(b, end);
    var dp := if signature == DESCRIPTOR_SIGNATURE then end + 4 else end;
    if dp + 12 > |b| || Le32(b, dp) != e.crc || Le32(b, dp + 4) != e.compressed || Le32(b, dp + 8) != e.size {
      return Rejected;
    }
    r := Ok(dp + 12);
  }

  /** The bytes a member's data stands for, before its checksum is known to match. */
  ghost predicate Unpacks(e: Entry, window: seq<byte>, content: seq<byte>) {
    if e.method_ == 0 then content == window && |window| == e.size
    else exists blocks :: Encodes(blocks, window, e.size) && content == BlocksOutput(blocks, [])
  }

  method Unpack(b: seq<byte>, e: Entry, data: nat) returns (r: Result<seq<byte>>)
    requires data + e.compressed <= |b|
    ensures r.Ok? ==> Unpacks(e, b[data..data + e.compressed], r.value)
    ensures forall content :: Unpacks(e, b[data..data + e.compressed], content) ==> r == Ok(content)
  {
    hide Encodes, BlocksOutput, BlocksBits;
    if e.method_ == 0 {
      if e.compressed != e.size {
        return Rejected;
      }
      return Ok(b[data..data + e.compressed]);
    }
    var inflated :- Inflate(b, data, e.compressed, e.size);
    r := Ok(inflated.output);
  }

  lemma UnpacksToContent(b: seq<byte>, e: Entry, data: nat, content: seq<byte>)
    requires data + e.compressed <= |b| && (e.method_ == 0 || e.method_ == 8)
    ensures ContentOk(b, e, data, content) <==>
            Unpacks(e, b[data..data + e.compressed], content) && CrcOf(content) == e.crc
  {
    hide CrcOf, BlocksBits, LegalBlocks;
    var window := b[data..data + e.compressed];
    forall blocks | Encodes(blocks, window, e.size) ensures |BlocksOutput(blocks, [])| == e.size {
    }
  }

  /** Unpacks a member's data and checks its size and checksum. */
  method Content(b: seq<byte>, e: Entry, data: nat) returns (r: Result<seq<byte>>)
    requires data + e.compressed <= |b| && (e.method_ == 0 || e.method_ == 8)
    ensures r.Ok? ==> ContentOk(b, e, data, r.value)
    ensures forall content :: ContentOk(b, e, data, content) ==> r == Ok(content)
  {
    hide Unpacks, ContentOk, CrcOf;
    forall content
      ensures ContentOk(b, e, data, content) <==>
              Unpacks(e, b[data..data + e.compressed], content) && CrcOf(content) == e.crc
    {
      UnpacksToContent(b, e, data, content);
    }
    var content :- Unpack(b, e, data);
    var crc := Crc(content);
    if crc != e.crc {
      return Rejected;
    }
    r := Ok(content);
  }

  /** Checks the local record of `e`, which must start at `next` and end by `central`. */
  method ReadLocal(u: Unicode, b: seq<byte>, e: Entry, next: nat, central: nat) returns (r: Result<Member>)
    requires central <= |b| && (e.method_ == 0 || e.method_ == 8)
    ensures r.Ok? ==>
      && r.value.entry == e && e.localOffset == next < r.value.end <= central && MemberAt(u, b, r.value)
    ensures e.localOffset == next ==>
      forall m :: MemberAt(u, b, m) && m.entry == e && m.end <= central ==> r == Ok(m)
  {
    hide Le16, Le32, NameAt, ContentOk, ExtraOk;
    var p := e.localOffset;
    if p != next || p + 30 > |b| || Le32(b, p) != LOCAL_SIGNATURE {
      return Rejected;
    }
    if Le16(b, p + 4) != e.needed || Le16(b, p + 10) != e.time || Le16(b, p + 12) != e.date
      || Le16(b, p + 6) != e.flags || Le16(b, p + 8) != e.method_ {
      return Rejected;
    }
    var nn, extra := Le16(b, p + 26), Le16(b, p + 28);
    var name :- NameAt(u, b, p + 30, nn, e.flags);
    if name != e.name {
      return Rejected;
    }
    var _ :- Extra(b, p + 30 + nn, extra);
    var data := p + 30 + nn + extra;
    if data + e.compressed > central {
      return Rejected;
    }
    var end :- RecordEnd(b, p, e, data);
    if end > central {
      return Rejected;
    }
    var content :- Content(b, e, data);
    r := Ok(Member(e, data, end, content));
  }

  /** The byte ranges of the local records. */
  function Records(members: seq<Member>): (rs: seq<Interval>)
    ensures |rs| == |members|
  {
    seq(|members|, i requires 0 <= i < |members| => Interval(members[i].entry.localOffset, members[i].end))
  }

  function EntriesOf(members: seq<Member>): (es: seq<Entry>)
    ensures |es| == |members|
  {
    seq(|members|, i requires 0 <= i < |members| => members[i].entry)
  }

  lemma AddMember(members: seq<Member>, m: Member, sorted: seq<Entry>)
    requires |members| < |sorted| && m.entry == sorted[|members|] && m.entry.localOffset < m.end
    requires Chain(Records(members), 0, m.entry.localOffset) && EntriesOf(members) == sorted[..|members|]
    ensures Chain(Records(members + [m]), 0, m.end)
    ensures EntriesOf(members + [m]) == sorted[..|members| + 1]
  {
    var last := Interval(m.entry.localOffset, m.end);
    ChainSnoc(Records(members), 0, last);
    assert Records(members + [m]) == Records(members) + [last];
    assert EntriesOf(members + [m]) == EntriesOf(members) + [m.entry];
    assert sorted[..|members| + 1] == sorted[..|members|] + [m.entry];
  }

  /** The local records of `sorted`, in that order, fill the file up to `central`. */
  ghost predicate LocalsRead(u: Unicode, b: seq<byte>, members: seq<Member>, sorted: seq<Entry>, central: nat) {
    && EntriesOf(members) == sorted && Chain(Records(members), 0, central)
    && forall i :: 0 <= i < |members| ==> MemberAt(u, b, members[i])
  }

  lemma {:induction false} LocalStep(u: Unicode, b: seq<byte>, ms: seq<Member>, sorted: seq<Entry>, central: nat,
                                     members: seq<Member>, next: nat)
    requires LocalsRead(u, b, ms, sorted, central) && |members| < |sorted| && ms[..|members|] == members
    requires Chain(Records(members), 0, next)
    ensures |ms| == |sorted|
    ensures var m := ms[|members|];
            MemberAt(u, b, m) && m.entry == sorted[|members|] && m.entry.localOffset == next && m.end <= central
  {
    hide MemberAt;
    var i := |members|;
    assert |ms| == |EntriesOf(ms)|;
    assert EntriesOf(ms)[i] == ms[i].entry;
    assert Records(ms)[..i] == Records(members);
    ChainSplit(Records(ms), 0, next, central, i);
    ChainForward(Records(ms), 0, central);
    assert Records(ms)[i..][0] == Records(ms)[i] == Interval(ms[i].entry.localOffset, ms[i].end);
  }

  lemma {:induction false} LocalsEnd(u: Unicode, b: seq<byte>, ms: seq<Member>, sorted: seq<Entry>, central: nat,
                                     next: nat)
    requires LocalsRead(u, b, ms, sorted, central) && Chain(Records(ms), 0, next)
    ensures next == central
  {
    hide MemberAt;
    var rs := Records(ms);
    assert rs[..|rs|] == rs;
    ChainSplit(rs, 0, next, central, |rs|);
  }

  /** Checks every local record in turn; they must fill the file up to `central`. */
  method ReadLocals(u: Unicode, b: seq<byte>, sorted: seq<Entry>, central: nat) returns (r: Result<seq<Member>>)
    requires central <= |b| && forall e :: e in sorted ==> e.method_ == 0 || e.method_ == 8
    ensures r.Ok? ==> LocalsRead(u, b, r.value, sorted, central)
    ensures forall ms: seq<Member> :: LocalsRead(u, b, ms, sorted, central) ==> r == Ok(ms)
  {
    hide MemberAt, Chain, Records, EntriesOf, LocalsRead;
    var members: seq<Member> := [];
    var next: nat := 0;
    NoMembers(sorted);
    for i := 0 to |sorted|
      invariant |members| == i && EntriesOf(members) == sorted[..i]
      invariant next <= central && Chain(Records(members), 0, next)
      invariant forall k :: 0 <= k < i ==> MemberAt(u, b, members[k])
      invariant forall ms: seq<Member> :: LocalsRead(u, b, ms, sorted, central) ==> |ms| >= i && ms[..i] == members
    {
      forall ms: seq<Member> | LocalsRead(u, b, ms, sorted, central)
        ensures |ms| > i && MemberAt(u, b, ms[i]) && ms[i].entry == sorted[i]
        ensures ms[i].entry.localOffset == next && ms[i].end <= central && ms[..i + 1] == members + [ms[i]]
      {
        LocalStep(u, b, ms, sorted, central, members, next);
      }
      var m :- ReadLocal(u, b, sorted[i], next, central);
      AddMember(members, m, sorted);
      members := members + [m];
      next := m.end;
    }
    forall ms: seq<Member> | LocalsRead(u, b, ms, sorted, central)
      ensures next == central && ms == members
    {
      AllRead(u, b, ms, sorted, central);
      assert ms[..|sorted|] == ms;
      LocalsEnd(u, b, ms, sorted, central, next);
    }
    if next != central {
      return Rejected;
    }
    assert sorted[..|sorted|] == sorted;
    AllLocals(u, b, members, sorted, central);
    r := Ok(members);
  }

  lemma AllRead(u: Unicode, b: seq<byte>, ms: seq<Member>, sorted: seq<Entry>, central: nat)
    requires LocalsRead(u, b, ms, sorted, central)
    ensures |ms| == |sorted|
  {
    hide MemberAt, Chain, Records;
    assert |EntriesOf(ms)| == |ms|;
  }

  lemma {:induction false} AllLocals(u: Unicode, b: seq<byte>, ms: seq<Member>, sorted: seq<Entry>, central: nat)
    requires EntriesOf(ms) == sorted && Chain(Records(ms), 0, central)
    requires forall i :: 0 <= i < |ms| ==> MemberAt(u, b, ms[i])
    ensures LocalsRead(u, b, ms, sorted, central)
  {
    hide MemberAt, Chain, Records, EntriesOf;
  }

  lemma NoMembers(sorted: seq<Entry>)
    ensures Chain(Records([]), 0, 0) && EntriesOf([]) == sorted[..0]
  {
  }

  // --- the archive ---

  /** What is known of an accepted file: the directory in its own order, the members in
      offset order, and where the directory and the end record start. */
  datatype Archive = Archive(directory: seq<Entry>, members: seq<Member>, central: nat, eocd: nat)

  /** The end record describes one unsplit directory from `central` to the record itself. */
  predicate EndDescribes(b: seq<byte>, eocd: nat, central: nat, count: nat) {
    && IsEnd(b, eocd) && central <= eocd
    && Le16(b, eocd + 4) == 0 && Le16(b, eocd + 6) == 0
    && Le16(b, eocd + 8) == Le16(b, eocd + 10) == count <= ENTRY_LIMIT
    && Le32(b, eocd + 12) == eocd - central && Le32(b, eocd + 16) == central
  }

  ghost predicate DirectoryOk(u: Unicode, b: seq<byte>, entries: seq<Entry>, central: nat, eocd: nat) {
    DirectoryReads(u, b, entries, central, eocd) && IsTree(u, entries)
  }

  /** The members are the directory's entries in the order of their records, and those
      records fill the file up to the directory. */
  ghost predicate MembersOk(u: Unicode, b: seq<byte>, entries: seq<Entry>, members: seq<Member>, central: nat) {
    multiset(EntriesOf(members)) == multiset(entries) && LocalsRead(u, b, members, EntriesOf(members), central)
  }

  ghost predicate ArchiveOk(u: Unicode, b: seq<byte>, a: Archive) {
    && 22 <= |b| <= ARCHIVE_LIMIT
    && (forall i: int :: IsEnd(b, i) ==> i == a.eocd)
    && EndDescribes(b, a.eocd, a.central, |a.directory|)
    && DirectoryOk(u, b, a.directory, a.central, a.eocd)
    && MembersOk(u, b, a.directory, a.members, a.central)
  }

  /** Reads the fields of the end record at `eocd`. */
  method ReadEnd(b: seq<byte>, eocd: nat) returns (r: Result<(nat, nat)>)
    requires IsEnd(b, eocd) && |b| <= ARCHIVE_LIMIT
    ensures r.Ok? <==> exists central, count :: EndDescribes(b, eocd, central, count)
    ensures r.Ok? ==> EndDescribes(b, eocd, r.value.0, r.value.1)
  {
    if Le16(b, eocd + 4) != 0 || Le16(b, eocd + 6) != 0 {
      return Rejected;
    }
    var entries := Le16(b, eocd + 10);
    if entries != Le16(b, eocd + 8) || entries > ENTRY_LIMIT || entries == 65535 {
      return Rejected;
    }
    var centralLength := Le32(b, eocd + 12);
    if centralLength > INT_MAX {
      return Rejected;
    }
    var central := Le32(b, eocd + 16);
    if central > INT_MAX {
      return Rejected;
    }
    if central > eocd || centralLength != eocd - central {
      return Rejected;
    }
    assert EndDescribes(b, eocd, central, entries);
    r := Ok((central, entries));
  }

  lemma EndInside(b: seq<byte>, eocd: nat)
    requires IsEnd(b, eocd)
    ensures eocd + 22 <= |b|
  {
  }

  lemma TreeIs(u: Unicode, entries: seq<Entry>)
    ensures IsTree(u, entries) <==>
      && (forall i, j :: 0 <= i < j < |entries| ==> PathKey(u, entries[i]) != PathKey(u, entries[j]))
      && forall i: nat, j: nat, slash: nat :: i < |entries| && j < |entries| ==>
                                                !Shadows(u, entries[j], entries[i], slash)
  {
    hide PathKey, Shadows;
  }

  lemma MethodsKnown(u: Unicode, b: seq<byte>, entries: seq<Entry>, sorted: seq<Entry>, central: nat, eocd: nat)
    requires multiset(sorted) == multiset(entries) && DirectoryReads(u, b, entries, central, eocd)
    ensures forall e :: e in sorted ==> e.method_ == 0 || e.method_ == 8
  {
    hide EntryAt, Chain, DistinctNames;
    forall e | e in sorted ensures e.method_ == 0 || e.method_ == 8 {
      assert e in multiset(sorted);
      assert e in entries;
      KnownMethod(u, b, e);
    }
  }

  lemma KnownMethod(u: Unicode, b: seq<byte>, e: Entry)
    requires EntryAt(u, b, e)
    ensures e.method_ == 0 || e.method_ == 8
  {
    hide NameAt, ExtraOk, Le16, Le32, AllowedFlags, AttributesAllow;
  }

  predicate Ascending(entries: seq<Entry>) {
    forall i, j :: 0 <= i < j < |entries| ==> entries[i].localOffset < entries[j].localOffset
  }

  lemma RecordsAscend(u: Unicode, b: seq<byte>, ms: seq<Member>, central: nat)
    requires LocalsRead(u, b, ms, EntriesOf(ms), central)
    ensures Ascending(EntriesOf(ms))
  {
    hide MemberAt, Chain;
    var rs := Records(ms);
    ChainForward(rs, 0, central);
    forall i, j | 0 <= i < j < |ms| ensures EntriesOf(ms)[i].localOffset < EntriesOf(ms)[j].localOffset {
      ChainOrders(rs, 0, central, i, j);
      assert rs[i].start == EntriesOf(ms)[i].localOffset && rs[j].start == EntriesOf(ms)[j].localOffset;
    }
  }

  /** Sorting entries with different offsets has only one outcome. */
  lemma {:induction false} SortIsUnique(s: seq<Entry>, t: seq<Entry>)
    requires Ascending(s) && multiset(s) == multiset(t)
    requires Nondecreasing(t)
    ensures s == t
    decreases |s|
  {
    assert |multiset(s)| == |s| && |multiset(t)| == |t|;
    if |s| > 0 {
      var n := |s| - 1;
      LastIsSame(s, t);
      SortIsUnique(s[..n], t[..n]);
      assert s == s[..n] + [s[n]] && t == t[..n] + [t[n]];
    }
  }

  lemma LastIsSame(s: seq<Entry>, t: seq<Entry>)
    requires Ascending(s) && multiset(s) == multiset(t) && |s| == |t| > 0
    requires Nondecreasing(t)
    ensures s[|s| - 1] == t[|t| - 1]
    ensures multiset(s[..|s| - 1]) == multiset(t[..|t| - 1])
  {
    var n := |s| - 1;
    assert s[n] in multiset(t) && t[n] in multiset(s);
    var i :| 0 <= i <= n && t[i] == s[n];
    var j :| 0 <= j <= n && s[j] == t[n];
    assert s[n] == t[n];
    FrontBag(s);
    FrontBag(t);
  }

  lemma FrontBag(s: seq<Entry>)
    requires |s| > 0
    ensures multiset(s[..|s| - 1]) == multiset(s) - multiset{s[|s| - 1]}
  {
    assert s == s[..|s| - 1] + [s[|s| - 1]];
  }

  /** What the sort must produce if the file is acceptable at all. */
  lemma SortedAsRead(u: Unicode, b: seq<byte>, entries: seq<Entry>, sorted: seq<Entry>, ms: seq<Member>, central: nat)
    requires MembersOk(u, b, entries, ms, central) && multiset(sorted) == multiset(entries)
    requires Nondecreasing(sorted)
    ensures LocalsRead(u, b, ms, sorted, central)
  {
    hide LocalsRead;
    RecordsAscend(u, b, ms, central);
    SortIsUnique(EntriesOf(ms), sorted);
  }

  /** Verifies a whole archive: accepts exactly the files that can be read as one, and
      there is only one way to read them. */
  method Observe(u: Unicode, b: seq<byte>) returns (r: Result<Archive>)
    ensures r.Ok? ==> ArchiveOk(u, b, r.value)
    ensures forall a :: ArchiveOk(u, b, a) ==> r == Ok(a)
  {
    hide EntryAt, MemberAt, Chain, IsTree, DistinctNames, IsEnd, DirectoryReads, LocalsRead, MembersOk;
    if |b| < 22 || |b| > ARCHIVE_LIMIT {
      return Rejected;
    }
    var eocd :- FindEnd(b);
    var end :- ReadEnd(b, eocd);
    var (central, count) := end;
    EndInside(b, eocd);
    var entries :- ReadDirectory(u, b, central, eocd, count);
    TreeIs(u, entries);
    var paths :- CollectPaths(u, entries);
    var _ :- CheckAncestors(u, paths, entries);
    var sorted := SortByOffset(entries);
    MethodsKnown(u, b, entries, sorted, central, eocd);
    forall ms: seq<Member> | MembersOk(u, b, entries, ms, central) ensures LocalsRead(u, b, ms, sorted, central) {
      SortedAsRead(u, b, entries, sorted, ms, central);
    }
    var members :- ReadLocals(u, b, sorted, central);
    Reads(u, b, entries, sorted, members, central);
    r := Ok(Archive(entries, members, central, eocd));
  }

  lemma Reads(u: Unicode, b: seq<byte>, entries: seq<Entry>, sorted: seq<Entry>, ms: seq<Member>, central: nat)
    requires LocalsRead(u, b, ms, sorted, central) && multiset(sorted) == multiset(entries)
    ensures MembersOk(u, b, entries, ms, central)
  {
    hide MemberAt, Chain, Records;
  }

  /** Every record of an accepted file: local records, directory entries, end record. */
  function AllRecords(b: seq<byte>, a: Archive): (rs: seq<Interval>) {
    Records(a.members) + Ranges(a.directory) + [Interval(a.eocd, |b|)]
  }

  /** The records of an accepted file tile it. */
  lemma {:induction false} RecordsTile(u: Unicode, b: seq<byte>, a: Archive)
    requires ArchiveOk(u, b, a)
    ensures Chain(AllRecords(b, a), 0, |b|)
  {
    hide EntryAt, MemberAt, IsTree, DistinctNames, Chain, Records, Ranges;
    var last := Interval(a.eocd, |b|);
    ChainConcat(Records(a.members), Ranges(a.directory), 0, a.central, a.eocd);
    EndInside(b, a.eocd);
    ChainSnoc(Records(a.members) + Ranges(a.directory), 0, last);
  }

  /** Every byte of an accepted file lies in exactly one record. */
  lemma EveryByteOnce(u: Unicode, b: seq<byte>, a: Archive, p: nat) returns (i: nat)
    requires ArchiveOk(u, b, a) && p < |b|
    ensures i < |AllRecords(b, a)| && AllRecords(b, a)[i].Contains(p)
    ensures forall j :: 0 <= j < |AllRecords(b, a)| && AllRecords(b, a)[j].Contains(p) ==> j == i
  {
    hide ArchiveOk, AllRecords, Chain;
    RecordsTile(u, b, a);
    i := ChainCovers(AllRecords(b, a), 0, |b|, p);
  }

  /** In a chain an earlier interval ends before a later one starts. */
  lemma {:induction false} ChainOrders(rs: seq<Interval>, from: nat, to: nat, i: nat, j: nat)
    requires Chain(rs, from, to) && i < j < |rs|
    ensures rs[i].end <= rs[j].start
    decreases |rs|
  {
    if i == 0 {
      ChainForward(rs[1..], rs[0].end, to);
      assert rs[j] == rs[1..][j - 1];
    } else {
      ChainOrders(rs[1..], rs[0].end, to, i - 1, j - 1);
    }
  }

  /** Every member's data ends before the directory, and before the data of every later one. */
  lemma DataDisjoint(u: Unicode, b: seq<byte>, a: Archive, i: nat, j: nat)
    requires ArchiveOk(u, b, a) && i < |a.members| && j < |a.members|
    ensures a.members[i].dataOffset + a.members[i].entry.compressed <= a.central
    ensures i < j ==> a.members[i].dataOffset + a.members[i].entry.compressed <= a.members[j].dataOffset
  {
    hide EntryAt, MemberAt, IsTree, DistinctNames, Chain;
    var rs := Records(a.members);
    if i < j {
      ChainOrders(rs, 0, a.central, i, j);
    }
    ChainForward(rs, 0, a.central);
    assert MemberAt(u, b, a.members[i]) && MemberAt(u, b, a.members[j]);
    DataInside(u, b, a.members[i]);
    DataInside(u, b, a.members[j]);
    assert rs[i].end == a.members[i].end;
    assert rs[i].end <= a.central;
    assert rs[j].start == a.members[j].entry.localOffset;
  }

  lemma DataInside(u: Unicode, b: seq<byte>, m: Member)
    requires MemberAt(u, b, m)
    ensures m.entry.localOffset < m.dataOffset && m.dataOffset + m.entry.compressed <= m.end
  {
    hide NameAt, ExtraOk, Le16, Le32, ContentOk;
  }
}
