/** The directory of an audit log: files named by date, and the order in which they are
    listed and read. */
module AuditFiles {
  import opened Prelude

  // --- string order ---

  /** Code-unit order, as string comparison has it. */
  predicate Less(a: string, b: string) {
    |b| > 0 && (|a| == 0 || a[0] < b[0] || (a[0] == b[0] && Less(a[1..], b[1..])))
  }

  lemma {:induction false} LessTotal(a: string, b: string)
    ensures a == b || Less(a, b) || Less(b, a)
  {
    if |a| > 0 && |b| > 0 && a[0] == b[0] {
      LessTotal(a[1..], b[1..]);
      assert a == [a[0]] + a[1..] && b == [b[0]] + b[1..];
    }
  }

  lemma {:induction false} LessAsymmetric(a: string, b: string)
    requires Less(a, b)
    ensures !Less(b, a) && a != b
  {
    if |a| > 0 && a[0] == b[0] {
      LessAsymmetric(a[1..], b[1..]);
    }
  }

  lemma {:induction false} LessTransitive(a: string, b: string, c: string)
    requires Less(a, b) && Less(b, c)
    ensures Less(a, c)
  {
    if |a| > 0 && a[0] == b[0] == c[0] {
      LessTransitive(a[1..], b[1..], c[1..]);
    }
  }

  /** A common ending does not change the order of strings of one length. */
  lemma {:induction false} LessWithSuffix(a: string, b: string, s: string)
    requires |a| == |b| && Less(a, b)
    ensures Less(a + s, b + s)
  {
    assert (a + s)[0] == a[0] && (b + s)[0] == b[0];
    if a[0] == b[0] {
      LessWithSuffix(a[1..], b[1..], s);
      assert (a + s)[1..] == a[1..] + s && (b + s)[1..] == b[1..] + s;
    }
  }

  // --- listing ---

  datatype Status = Verified | Broken | Unavailable

  /** An audit event; `body` stands for its remaining fields in canonical form. */
  datatype Event = Event(id: string, timestamp: string, body: string, chainId: string, sequence: Option<int>,
                         previousHash: Option<string>, eventHash: string, chainStatus: Status)

  /** A non-blank line of a file. */
  datatype Line = Parsed(event: Event) | Malformed

  type Directory = map<string, seq<Line>>

  const EXTENSION: string := ".jsonl"
  const LEGACY_NAME: string := "events.jsonl"

  predicate IsLogName(name: string) {
    |name| >= 6 && name[|name| - 6..] == EXTENSION
  }

  /** The legacy file comes first, the others in string order. */
  predicate Before(a: string, b: string) {
    b != LEGACY_NAME && (a == LEGACY_NAME || Less(a, b))
  }

  lemma BeforeTotal(a: string, b: string)
    ensures a == b || Before(a, b) || Before(b, a)
  {
    LessTotal(a, b);
  }

  lemma BeforeAsymmetric(a: string, b: string)
    requires Before(a, b)
    ensures !Before(b, a) && a != b
  {
    if Less(a, b) {
      LessAsymmetric(a, b);
    }
  }

  lemma BeforeTransitive(a: string, b: string, c: string)
    requires Before(a, b) && Before(b, c)
    ensures Before(a, c)
  {
    if a != LEGACY_NAME {
      LessTransitive(a, b, c);
    }
  }

  predicate Sorted(names: seq<string>) {
    forall i, j :: 0 <= i < j < |names| ==> Before(names[i], names[j])
  }

  function LogNames(files: Directory): (names: set<string>) {
    set n | n in files && IsLogName(n)
  }

  ghost predicate IsListing(names: seq<string>, all: set<string>) {
    Sorted(names) && forall n :: n in names <==> n in all
  }

  /** The position of `name` among sorted names. */
  function Insert(names: seq<string>, name: string): (r: seq<string>) {
    if |names| == 0 || Before(name, names[0]) then [name] + names
    else [names[0]] + Insert(names[1..], name)
  }

  lemma {:induction false} InsertHas(names: seq<string>, name: string)
    ensures forall n :: n in Insert(names, name) <==> n in names || n == name
  {
    if !(|names| == 0 || Before(name, names[0])) {
      InsertHas(names[1..], name);
    }
  }

  lemma {:induction false} InsertSorts(names: seq<string>, name: string)
    requires Sorted(names) && name !in names
    ensures Sorted(Insert(names, name))
  {
    hide Before;
    var r := Insert(names, name);
    if |names| > 0 {
      BeforeTotal(name, names[0]);
      if Before(name, names[0]) {
        forall j | 0 <= j < |names| ensures Before(name, names[j]) {
          if j > 0 {
            BeforeTransitive(name, names[0], names[j]);
          }
        }
      } else {
        var rest := names[1..];
        InsertSorts(rest, name);
        InsertHas(rest, name);
        forall n | n in Insert(rest, name) ensures Before(names[0], n) {
          if n in rest {
            var k :| 0 <= k < |rest| && rest[k] == n;
            assert names[k + 1] == n;
          }
        }
        forall i, j | 0 <= i < j < |r| ensures Before(r[i], r[j]) {
          assert r[j] == Insert(rest, name)[j - 1];
          assert r[j] in Insert(rest, name);
          if i > 0 {
            assert r[i] == Insert(rest, name)[i - 1];
          }
        }
      }
    }
  }

  /** There is only one listing of a set of names. */
  lemma {:induction false} ListingUnique(a: seq<string>, b: seq<string>, all: set<string>)
    requires IsListing(a, all) && IsListing(b, all)
    ensures a == b
    decreases |a|
  {
    hide Before;
    if |a| == 0 {
      if |b| > 0 {
        SomethingListed(b);
      }
    } else {
      FirstIsSame(a, b, all);
      RestLists(a, all);
      RestLists(b, all);
      ListingUnique(a[1..], b[1..], all - {a[0]});
      assert a == [a[0]] + a[1..] && b == [b[0]] + b[1..];
    }
  }

  lemma SomethingListed(names: seq<string>)
    requires |names| > 0
    ensures exists n :: n in names
  {
    assert names[0] in names;
  }

  lemma FirstIsSame(a: seq<string>, b: seq<string>, all: set<string>)
    requires IsListing(a, all) && IsListing(b, all) && |a| > 0
    ensures |b| > 0 && a[0] == b[0]
  {
    hide Before;
    assert a[0] in a && a[0] in b;
    assert b[0] in b && b[0] in a;
    var i :| 0 <= i < |b| && b[i] == a[0];
    var j :| 0 <= j < |a| && a[j] == b[0];
    if i > 0 && j > 0 {
      BeforeAsymmetric(a[0], b[0]);
    }
  }

  lemma RestLists(a: seq<string>, all: set<string>)
    requires IsListing(a, all) && |a| > 0
    ensures IsListing(a[1..], all - {a[0]})
  {
    hide Before;
    forall n ensures n in a[1..] <==> n in all - {a[0]} {
      if n in a[1..] {
        var k :| 0 <= k < |a| - 1 && a[1..][k] == n;
        assert a[k + 1] == n;
        BeforeAsymmetric(a[0], n);
      }
    }
  }

  lemma {:induction false} ListingExists(all: set<string>) returns (names: seq<string>)
    ensures IsListing(names, all)
    decreases |all|
  {
    if all == {} {
      names := [];
    } else {
      var n :| n in all;
      var rest := ListingExists(all - {n});
      names := Insert(rest, n);
      InsertHas(rest, n);
      InsertSorts(rest, n);
    }
  }

  /** The names of the log files, in the order they are read. */
  ghost function Listing(files: Directory): (names: seq<string>)
    ensures IsListing(names, LogNames(files))
  {
    assert exists ns :: IsListing(ns, LogNames(files)) by {
      var _ := ListingExists(LogNames(files));
    }
    var names :| IsListing(names, LogNames(files));
    names
  }

  /** Lists the log files of a directory in reading order. */
  method ListAuditFiles(files: Directory) returns (names: seq<string>)
    ensures names == Listing(files)
  {
    hide Before;
    names := [];
    var rest := files.Keys;
    while rest != {}
      invariant rest <= files.Keys && Sorted(names)
      invariant forall n :: n in names <==> n in LogNames(files) && n !in rest
      decreases |rest|
    {
      var n :| n in rest;
      rest := rest - {n};
      if IsLogName(n) {
        InsertHas(names, n);
        InsertSorts(names, n);
        names := Insert(names, n);
      }
    }
    ListingUnique(names, Listing(files), LogNames(files));
  }

  predicate ListedBefore(a: string, b: string) {
    b != "events.jsonl" && (a == "events.jsonl" || Less(a, b))
  }

  predicate NamedAsLog(n: string) {
    |n| >= 6 && n[|n| - 6..] == ".jsonl"
  }

  /** The listing holds the names that end in ".jsonl" and no others, "events.jsonl" first and
      the rest in ascending order. */
  lemma ListedNames(files: Directory)
    ensures var names := Listing(files);
      && (forall n :: n in names <==> n in files && NamedAsLog(n))
      && forall i, j :: 0 <= i < j < |names| ==> ListedBefore(names[i], names[j])
  {
    hide Listing, Before, IsLogName, NamedAsLog, ListedBefore;
    var names := Listing(files);
    forall n ensures n in names <==> n in files && NamedAsLog(n) {
      EndsAsLog(n);
    }
    forall i, j | 0 <= i < j < |names| ensures ListedBefore(names[i], names[j]) {
      ComesBefore(names[i], names[j]);
    }
  }

  lemma EndsAsLog(n: string)
    ensures IsLogName(n) <==> NamedAsLog(n)
  {
  }

  lemma {:induction false} ComesBefore(a: string, b: string)
    ensures Before(a, b) <==> ListedBefore(a, b)
  {
    hide Less;
  }

  // --- contents ---

  function LinesOf(files: Directory, name: string): (lines: seq<Line>) {
    if name in files then files[name] else []
  }

  function Concat(files: Directory, names: seq<string>): (lines: seq<Line>) {
    if |names| == 0 then []
    else Concat(files, names[..|names| - 1]) + LinesOf(files, names[|names| - 1])
  }

  /** Everything a reader of the whole directory sees, in order. */
  ghost function AllLines(files: Directory): (lines: seq<Line>) {
    Concat(files, Listing(files))
  }

  // --- dates ---

  predicate IsDigit(c: char) {
    '0' <= c <= '9'
  }

  /** A calendar date with a four-digit year, as the file names spell it. */
  predicate IsDate(s: string) {
    && |s| == 10 && s[4] == '-' && s[7] == '-'
    && forall i :: 0 <= i < 10 && i != 4 && i != 7 ==> IsDigit(s[i])
  }

  function Power10(n: nat): (p: nat)
    ensures p > 0
  {
    if n == 0 then 1 else 10 * Power10(n - 1)
  }

  predicate AllDigits(s: string) {
    forall i :: 0 <= i < |s| ==> IsDigit(s[i])
  }

  function Decimal(s: string): (n: nat)
    requires AllDigits(s)
    ensures n < Power10(|s|)
  {
    if |s| == 0 then 0
    else 10 * Decimal(s[..|s| - 1]) + ((s[|s| - 1] as int) - ('0' as int))
  }

  /** Year, month and day of a date as one number, which grows from day to day. */
  function Day(date: string): (n: nat)
    requires IsDate(date)
  {
    10000 * Decimal(date[..4]) + 100 * Decimal(date[5..7]) + Decimal(date[8..])
  }

  lemma {:induction false} LessInParts(a: string, b: string, c: string, d: string)
    requires |a| == |b|
    ensures Less(a + c, b + d) <==> Less(a, b) || (a == b && Less(c, d))
  {
    if |a| == 0 {
      assert a + c == c && b + d == d;
    } else {
      LessInParts(a[1..], b[1..], c, d);
      assert (a + c)[1..] == a[1..] + c && (b + d)[1..] == b[1..] + d;
      assert a == [a[0]] + a[1..] && b == [b[0]] + b[1..];
    }
  }

  lemma {:induction false} DigitsOrder(a: string, b: string)
    requires AllDigits(a) && AllDigits(b) && |a| == |b|
    ensures Less(a, b) <==> Decimal(a) < Decimal(b)
    ensures a == b <==> Decimal(a) == Decimal(b)
    decreases |a|
  {
    hide Less;
    if |a| == 0 {
      NotLess("");
    } else {
      var n := |a| - 1;
      DigitsOrder(a[..n], b[..n]);
      assert a == a[..n] + [a[n]] && b == b[..n] + [b[n]];
      LessInParts(a[..n], b[..n], [a[n]], [b[n]]);
      LessOne(a[n], b[n]);
    }
  }

  lemma LessOne(x: char, y: char)
    ensures Less([x], [y]) <==> x < y
  {
  }

  lemma DateParts(date: string)
    requires IsDate(date)
    ensures |date| == 10
    ensures AllDigits(date[..4]) && AllDigits(date[5..7]) && AllDigits(date[8..])
    ensures date == date[..4] + ("-" + (date[5..7] + ("-" + date[8..])))
    ensures Decimal(date[..4]) < 10000 && Decimal(date[5..7]) < 100 && Decimal(date[8..]) < 100
  {
    assert Power10(2) == 100 && Power10(4) == 10000;
  }

  /** Comparing dates as strings compares the days. */
  lemma {:induction false} DatesOrder(a: string, b: string)
    requires IsDate(a) && IsDate(b)
    ensures Less(a, b) <==> Day(a) < Day(b)
    ensures a == b <==> Day(a) == Day(b)
  {
    hide Less, Decimal, IsDate, AllDigits;
    DateParts(a);
    DateParts(b);
    assert |a| == |b| == 10;
    DigitsOrder(a[..4], b[..4]);
    DigitsOrder(a[5..7], b[5..7]);
    DigitsOrder(a[8..], b[8..]);
    LessInParts(a[..4], b[..4], "-" + (a[5..7] + ("-" + a[8..])), "-" + (b[5..7] + ("-" + b[8..])));
    LessInParts("-", "-", a[5..7] + ("-" + a[8..]), b[5..7] + ("-" + b[8..]));
    LessInParts(a[5..7], b[5..7], "-" + a[8..], "-" + b[8..]);
    LessInParts("-", "-", a[8..], b[8..]);
    NotLess("-");
  }

  lemma {:induction false} NotLess(s: string)
    ensures !Less(s, s)
  {
    if Less(s, s) {
      LessAsymmetric(s, s);
      assert false;
    }
  }

  /** A file that holds the events of one date. */
  predicate IsBucketName(name: string) {
    |name| == 16 && IsDate(name[..10]) && name[10..] == EXTENSION
  }

  function DateSegment(timestamp: string): (s: string) {
    if |timestamp| < 10 then timestamp else timestamp[..10]
  }

  /** The latest date among the listed names. */
  function LatestBucket(names: seq<string>): (latest: Option<string>) {
    if |names| == 0 then None
    else if IsBucketName(names[|names| - 1]) then Some(names[|names| - 1][..10])
    else LatestBucket(names[..|names| - 1])
  }

  /** Where the next event goes: its own date, or the latest file if that is later. */
  function TargetName(names: seq<string>, timestamp: string): (name: string) {
    var latest := LatestBucket(names);
    (if latest.Some? && Less(DateSegment(timestamp), latest.value) then latest.value else DateSegment(timestamp))
        + EXTENSION
  }

  function Put(files: Directory, name: string, line: Line): (r: Directory) {
    files[name := LinesOf(files, name) + [line]]
  }
}
