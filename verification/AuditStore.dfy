/** Appending to an audit log: the event goes into the right file for the verifier, which
    walks the files in listing order, to meet the events in the order they were appended. */
module AuditStore {
  import opened Prelude
  import opened AuditFiles
  import opened AuditChain

  // --- what one append does ---

  /** The events among the lines; a reader of the log skips what is not an event. */
  function EventsIn(lines: seq<Line>): (events: seq<Event>) {
    if |lines| == 0 then []
    else
      var front := EventsIn(lines[..|lines| - 1]);
      match lines[|lines| - 1]
      case Parsed(e) => front + [e]
      case Malformed => front
  }

  function FirstWithId(events: seq<Event>, id: string): (r: Option<Event>)
    ensures r.Some? ==> r.value in events && r.value.id == id
    ensures r.None? ==> forall e :: e in events ==> e.id != id
  {
    if |events| == 0 then None
    else if events[0].id == id then Some(events[0])
    else FirstWithId(events[1..], id)
  }

  /** The event as stored after `existing`. */
  function Linked(hash: Hash, existing: seq<Event>, event: Event): (stored: Event) {
    var last := if |existing| == 0 then None else Some(existing[|existing| - 1]);
    var sequence := match last
      case Some(previous) => (match previous.sequence case Some(n) => n + 1 case None => 1)
      case None => 1;
    var previousHash := if last.Some? && last.value.eventHash != "" then Some(last.value.eventHash) else None;
    var unhashed := event.(sequence := Some(sequence), previousHash := previousHash, chainStatus := Verified);
    unhashed.(eventHash := EventHash(hash, unhashed, previousHash))
  }

  /** One append of `event` when the files read as `existing` and are listed as `names`. */
  function Appended(hash: Hash, files: Directory, names: seq<string>, existing: seq<Event>, event: Event):
    (r: (Directory, Event))
  {
    var duplicate := FirstWithId(existing, event.id);
    if duplicate.Some? then (files, duplicate.value)
    else
      var stored := Linked(hash, existing, event);
      (Put(files, TargetName(names, event.timestamp), Parsed(stored)), stored)
  }

  // --- the state of a healthy log ---

  ghost predicate DistinctIds(log: seq<Event>) {
    forall i, j :: 0 <= i < j < |log| ==> log[i].id != log[j].id
  }

  /** Reading the files in listing order gives `log`, a chain without repeated ids, and the
      files are named by date or are the legacy file. */
  ghost predicate Holds(hash: Hash, files: Directory, log: seq<Event>, chainId: string) {
    && AllLines(files) == Lines(log)
    && Chained(hash, log, chainId) && DistinctIds(log)
    && forall n :: n in LogNames(files) ==> n == LEGACY_NAME || IsBucketName(n)
  }

  /** The log after one more append. */
  function Next(hash: Hash, log: seq<Event>, event: Event): (r: seq<Event>) {
    if FirstWithId(log, event.id).Some? then log else log + [Linked(hash, log, event)]
  }

  // --- reading back ---

  lemma {:induction false} EventsInLines(events: seq<Event>)
    ensures EventsIn(Lines(events)) == events
    decreases |events|
  {
    if |events| > 0 {
      var n := |events| - 1;
      assert |Lines(events)| == n + 1;
      assert Lines(events)[..n] == Lines(events[..n]);
      EventsInLines(events[..n]);
      assert events == events[..n] + [events[n]];
    }
  }

  // --- writing to the right file ---

  lemma {:induction false} ConcatUnchanged(files: Directory, other: Directory, names: seq<string>)
    requires forall n :: n in names ==> LinesOf(files, n) == LinesOf(other, n)
    ensures Concat(files, names) == Concat(other, names)
    decreases |names|
  {
    hide LinesOf;
    if |names| > 0 {
      ConcatUnchanged(files, other, names[..|names| - 1]);
    }
  }

  /** Writing to the last file of the listing appends to what is read. */
  lemma PutLast(files: Directory, names: seq<string>, line: Line)
    requires Sorted(names) && |names| > 0
    ensures Concat(Put(files, names[|names| - 1], line), names) == Concat(files, names) + [line]
  {
    hide Before;
    var n := |names| - 1;
    var after := Put(files, names[n], line);
    forall name | name in names[..n] ensures LinesOf(files, name) == LinesOf(after, name) {
      var k :| 0 <= k < n && names[k] == name;
      BeforeAsymmetric(names[k], names[n]);
    }
    ConcatUnchanged(files, after, names[..n]);
    assert LinesOf(after, names[n]) == LinesOf(files, names[n]) + [line];
    assert Concat(files, names[..n]) + (LinesOf(files, names[n]) + [line]) == Concat(files, names) + [line];
  }

  /** Writing to a new last file appends to what is read. */
  lemma {:induction false} PutNew(files: Directory, names: seq<string>, name: string, line: Line)
    requires name !in names && name !in files
    ensures Concat(Put(files, name, line), names + [name]) == Concat(files, names) + [line]
  {
    var after := Put(files, name, line);
    ConcatUnchanged(files, after, names);
    assert (names + [name])[..|names|] == names;
    assert LinesOf(after, name) == [line];
  }

  /** A date is the first ten characters of its file's name, and the names sort as the dates do. */
  lemma BucketOrder(a: string, b: string)
    requires IsBucketName(a) && |b| == 16 && b[10..] == EXTENSION && Less(a[..10], b[..10])
    ensures Before(a, b)
  {
    assert a == a[..10] + EXTENSION && b == b[..10] + EXTENSION;
    LessWithSuffix(a[..10], b[..10], EXTENSION);
    assert |LEGACY_NAME| == 12;
  }

  lemma BucketNamed(date: string)
    requires IsDate(date)
    ensures IsBucketName(date + EXTENSION) && IsLogName(date + EXTENSION)
    ensures (date + EXTENSION)[..10] == date && (date + EXTENSION)[10..] == EXTENSION
  {
  }

  /** In a sorted listing of dated files the latest bucket is the last name. */
  lemma {:induction false} LatestIsLast(names: seq<string>)
    requires Sorted(names) && forall n :: n in names ==> n == LEGACY_NAME || IsBucketName(n)
    ensures LatestBucket(names).Some? ==>
      |names| > 0 && IsBucketName(names[|names| - 1]) && LatestBucket(names).value + EXTENSION == names[|names| - 1]
    ensures LatestBucket(names).None? ==> forall n :: n in names ==> n == LEGACY_NAME
  {
    hide IsBucketName, Before, Less, IsDate, EXTENSION, LEGACY_NAME;
    if |names| > 0 {
      var n := |names| - 1;
      assert names[n] in names;
      LegacyIsNoBucket();
      if names[n] == LEGACY_NAME {
        LegacyAlone(names);
        assert LatestBucket(names[..n]) == None;
      } else {
        BucketSplits(names[n]);
      }
    }
  }

  lemma LegacyAlone(names: seq<string>)
    requires Sorted(names) && |names| > 0 && names[|names| - 1] == LEGACY_NAME
    ensures |names| == 1
  {
    var n := |names| - 1;
    assert n > 0 ==> Before(names[0], names[n]);
  }

  lemma LegacyIsNoBucket()
    ensures !IsBucketName(LEGACY_NAME)
  {
    assert |LEGACY_NAME| == 12;
  }

  lemma BucketSplits(name: string)
    requires IsBucketName(name)
    ensures |name| == 16 && name[..10] + EXTENSION == name && IsDate(name[..10]) && name != LEGACY_NAME
  {
    assert |LEGACY_NAME| == 12;
  }

  /** The target is the last name of the listing, or sorts after all of it. */
  lemma TargetIsLast(names: seq<string>, timestamp: string)
    requires Sorted(names) && forall n :: n in names ==> n == LEGACY_NAME || IsBucketName(n)
    requires IsDate(DateSegment(timestamp))
    ensures var target := TargetName(names, timestamp);
            && IsBucketName(target) && IsLogName(target)
            && ((|names| > 0 && target == names[|names| - 1])
                || forall n :: n in names ==> Before(n, target))
  {
    hide IsDate, Before, Less;
    var date, latest := DateSegment(timestamp), LatestBucket(names);
    var target := TargetName(names, timestamp);
    LatestIsLast(names);
    BucketNamed(date);
    if latest.None? {
      forall n | n in names ensures Before(n, target) {
        LegacyFirst(target);
      }
    } else {
      var last := names[|names| - 1];
      BucketSplits(last);
      LessTotal(date, latest.value);
      assert last[..10] == latest.value;
      BucketNamed(latest.value);
      if target != last {
        assert target == date + EXTENSION && Less(latest.value, date);
        BucketOrder(last, target);
        forall n | n in names ensures Before(n, target) {
          var k :| 0 <= k < |names| && names[k] == n;
          if k < |names| - 1 {
            BeforeTransitive(n, last, target);
          }
        }
      }
    }
  }

  lemma LegacyFirst(name: string)
    requires IsBucketName(name)
    ensures Before(LEGACY_NAME, name)
  {
    assert |LEGACY_NAME| == 12;
  }

  lemma ExtendedListing(names: seq<string>, all: set<string>, name: string)
    requires IsListing(names, all) && forall n :: n in names ==> Before(n, name)
    ensures IsListing(names + [name], all + {name}) && name !in names
  {
    hide Before;
    if name in names {
      BeforeAsymmetric(name, name);
    }
  }

  /** Writing `line` to the target file makes it the last line that is read. */
  lemma PutReadsLast(files: Directory, timestamp: string, line: Line)
    requires forall n :: n in LogNames(files) ==> n == LEGACY_NAME || IsBucketName(n)
    requires IsDate(DateSegment(timestamp))
    ensures var after := Put(files, TargetName(Listing(files), timestamp), line);
            && AllLines(after) == AllLines(files) + [line]
            && forall n :: n in LogNames(after) ==> n == LEGACY_NAME || IsBucketName(n)
  {
    hide IsDate, IsBucketName, Before, Concat, TargetName, IsLogName, Sorted;
    var names := Listing(files);
    var target := TargetName(names, timestamp);
    var after := Put(files, target, line);
    ListingSorted(names, LogNames(files));
    TargetIsLast(names, timestamp);
    assert LogNames(after) == LogNames(files) + {target};
    if |names| > 0 && target == names[|names| - 1] {
      assert target in names;
      assert LogNames(after) == LogNames(files);
      ListingUnique(names, Listing(after), LogNames(files));
      PutLast(files, names, line);
    } else {
      ExtendedListing(names, LogNames(files), target);
      ListingUnique(names + [target], Listing(after), LogNames(after));
      assert target !in files;
      PutNew(files, names, target, line);
    }
  }

  lemma ListingSorted(names: seq<string>, all: set<string>)
    requires IsListing(names, all)
    ensures Sorted(names)
  {
  }

  // --- which date a file holds ---

  /** The event's timestamp begins with a date. */
  predicate Stamped(e: Event) {
    |e.timestamp| >= 10 && IsDate(e.timestamp[..10])
  }

  function DayOf(e: Event): (day: nat)
    requires Stamped(e)
  {
    Day(e.timestamp[..10])
  }

  function BucketDay(name: string): (day: nat)
    requires IsBucketName(name)
  {
    Day(name[..10])
  }

  lemma {:induction false} BucketsOrder(a: string, b: string)
    requires IsBucketName(a) && IsBucketName(b) && Before(a, b)
    ensures BucketDay(a) < BucketDay(b)
  {
    hide IsDate, Day, Less, EXTENSION;
    BucketSplits(a);
    BucketSplits(b);
    LessInParts(a[..10], b[..10], EXTENSION, EXTENSION);
    NotLess(EXTENSION);
    DatesOrder(a[..10], b[..10]);
  }

  /** An event never goes to a file older than its own date. If its date is later than that of
      every file, it opens the file of its date; otherwise it goes to the latest file. */
  lemma TargetDay(names: seq<string>, e: Event)
    requires Sorted(names) && forall n :: n in names ==> n == LEGACY_NAME || IsBucketName(n)
    requires Stamped(e)
    ensures var target := TargetName(names, e.timestamp);
            && IsBucketName(target) && DayOf(e) <= BucketDay(target)
            && (forall n :: n in names && IsBucketName(n) ==> BucketDay(n) <= BucketDay(target))
            && (if forall n :: n in names && IsBucketName(n) ==> BucketDay(n) < DayOf(e)
                then target == e.timestamp[..10] + ".jsonl" else target in names)
  {
    hide IsDate, Less, Before, Day, Sorted;
    var date, latest := DateSegment(e.timestamp), LatestBucket(names);
    var target := TargetName(names, e.timestamp);
    TargetIsLast(names, e.timestamp);
    LatestIsLast(names);
    BucketNamed(date);
    LegacyIsNoBucket();
    if latest.Some? {
      var last := names[|names| - 1];
      assert last in names;
      BucketSplits(last);
      DatesOrder(date, latest.value);
      NoneAfterLast(names);
    }
  }

  lemma NoneAfterLast(names: seq<string>)
    requires Sorted(names) && |names| > 0 && IsBucketName(names[|names| - 1])
    ensures forall n :: n in names && IsBucketName(n) ==> BucketDay(n) <= BucketDay(names[|names| - 1])
  {
    hide IsBucketName, Before, BucketDay;
    forall n | n in names && IsBucketName(n) ensures BucketDay(n) <= BucketDay(names[|names| - 1]) {
      var k :| 0 <= k < |names| && names[k] == n;
      if k < |names| - 1 {
        BucketsOrder(n, names[|names| - 1]);
      }
    }
  }

  /** The line is an event of the file's date or before. */
  predicate InTime(line: Line, name: string)
    requires IsBucketName(name)
  {
    line.Parsed? && Stamped(line.event) && DayOf(line.event) <= BucketDay(name)
  }

  /** A dated file was opened by an event of its date and holds none of a later date. */
  predicate BucketOk(lines: seq<Line>, name: string)
    requires IsBucketName(name)
  {
    && |lines| > 0 && (forall i :: 0 <= i < |lines| ==> InTime(lines[i], name))
    && DayOf(lines[0].event) == BucketDay(name)
  }

  ghost predicate Dated(files: Directory) {
    forall n :: n in LogNames(files) && IsBucketName(n) ==> BucketOk(LinesOf(files, n), n)
  }

  lemma SameDate(names: seq<string>, e: Event)
    requires Sorted(names) && forall n :: n in names ==> n == LEGACY_NAME || IsBucketName(n)
    requires Stamped(e) && TargetName(names, e.timestamp) !in names
    ensures IsBucketName(TargetName(names, e.timestamp)) && DayOf(e) == BucketDay(TargetName(names, e.timestamp))
  {
    hide IsDate, Day, Sorted;
    TargetDay(names, e);
    BucketNamed(DateSegment(e.timestamp));
  }

  /** An append keeps the dates right. */
  lemma PutDated(files: Directory, e: Event)
    requires Dated(files) && forall n :: n in LogNames(files) ==> n == LEGACY_NAME || IsBucketName(n)
    requires Stamped(e)
    ensures Dated(Put(files, TargetName(Listing(files), e.timestamp), Parsed(e)))
  {
    hide IsDate, IsBucketName, Day, Sorted, TargetName, DayOf, BucketDay;
    var names := Listing(files);
    var target := TargetName(names, e.timestamp);
    var after := Put(files, target, Parsed(e));
    ListingSorted(names, LogNames(files));
    TargetDay(names, e);
    if target !in names {
      SameDate(names, e);
    }
    forall n | n in LogNames(after) && IsBucketName(n) ensures BucketOk(LinesOf(after, n), n) {
      if n != target {
        assert n in LogNames(files) && LinesOf(after, n) == LinesOf(files, n);
      } else if target in names {
        assert LinesOf(after, n) == LinesOf(files, n) + [Parsed(e)];
      } else {
        assert target !in files;
        assert LinesOf(after, n) == [Parsed(e)];
      }
    }
  }

  // --- the chain continues ---

  lemma LinkContinues(hash: Hash, log: seq<Event>, event: Event, chainId: string)
    requires NeverEmpty(hash) && Chained(hash, log, chainId) && event.chainId == chainId != ""
    ensures Continues(hash, log, Linked(hash, log, event), chainId)
  {
    if |log| > 0 {
      assert Continues(hash, log[..|log| - 1], log[|log| - 1], chainId);
    }
  }

  lemma NextChains(hash: Hash, log: seq<Event>, event: Event, chainId: string)
    requires NeverEmpty(hash) && Chained(hash, log, chainId) && DistinctIds(log) && event.chainId == chainId != ""
    ensures Chained(hash, Next(hash, log, event), chainId) && DistinctIds(Next(hash, log, event))
  {
    hide Continues, Chained, Linked, FirstWithId;
    if FirstWithId(log, event.id).None? {
      LinkContinues(hash, log, event, chainId);
      LinkKeepsId(hash, log, event);
      ChainedSnoc(hash, log, Linked(hash, log, event), chainId);
    }
  }

  /** The stored event says what the given one said; only its place in the chain is new. */
  predicate SameContent(stored: Event, event: Event) {
    && stored.id == event.id && stored.timestamp == event.timestamp && stored.body == event.body
    && stored.chainId == event.chainId
  }

  lemma LinkKeepsId(hash: Hash, log: seq<Event>, event: Event)
    ensures SameContent(Linked(hash, log, event), event)
  {
  }

  lemma LinesSnoc(log: seq<Event>, e: Event)
    ensures Lines(log + [e]) == Lines(log) + [Parsed(e)]
  {
  }

  /** One append to a healthy log keeps it healthy: the event becomes the newest one that
      is read, or was there already. */
  lemma AppendHolds(hash: Hash, files: Directory, log: seq<Event>, chainId: string, event: Event)
    requires NeverEmpty(hash) && Holds(hash, files, log, chainId)
    requires event.chainId == chainId != "" && IsDate(DateSegment(event.timestamp))
    ensures Holds(hash, Appended(hash, files, Listing(files), log, event).0, Next(hash, log, event), chainId)
    ensures var (after, stored) := Appended(hash, files, Listing(files), log, event);
            && stored in Next(hash, log, event) && stored.id == event.id
            && if exists e :: e in log && e.id == event.id then after == files && stored in log
               else SameContent(stored, event) && Next(hash, log, event) == log + [stored]
  {
    hide IsDate, IsBucketName, Chained, Linked, TargetName, DistinctIds, AllLines, Put, DateSegment, LogNames, Listing;
    NextChains(hash, log, event, chainId);
    LinkKeepsId(hash, log, event);
    if FirstWithId(log, event.id).None? {
      var stored := Linked(hash, log, event);
      PutReadsLast(files, event.timestamp, Parsed(stored));
      LinesSnoc(log, stored);
    }
  }

  /** The directory a log lives in. */
  class AuditDirectory {
    var files: Directory

    constructor ()
      ensures files == map[]
    {
      files := map[];
    }

    /** Appends `event`, or returns the stored event that already has its id. */
    method Append(hash: Hash, event: Event) returns (stored: Event)
      modifies this
      ensures (files, stored) ==
              Appended(hash, old(files), Listing(old(files)), EventsIn(AllLines(old(files))), event)
      ensures files == old(files) || SameContent(stored, event)
    {
      var names := ListAuditFiles(files);
      var lines := ReadAll(files, names);
      var existing := EventsIn(lines);
      var duplicate := FirstWithId(existing, event.id);
      if duplicate.Some? {
        return duplicate.value;
      }
      stored := Linked(hash, existing, event);
      files := Put(files, TargetName(names, event.timestamp), Parsed(stored));
    }

    /** Verifies the directory's files in listing order. */
    method Verify(hash: Hash) returns (v: Verdict)
      ensures IsVerdict(hash, AllLines(files), v)
    {
      var names := ListAuditFiles(files);
      v := VerifyAuditFiles(hash, files, names);
    }
  }

  /** Reads the named files one after the other. */
  method ReadAll(files: Directory, names: seq<string>) returns (lines: seq<Line>)
    ensures lines == Concat(files, names)
  {
    lines := [];
    for i := 0 to |names|
      invariant lines == Concat(files, names[..i])
    {
      assert names[..i + 1][..i] == names[..i];
      lines := lines + LinesOf(files, names[i]);
    }
    assert names[..|names|] == names;
  }
}
