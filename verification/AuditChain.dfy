/** The hash chain that ties the events of an audit log together, its verifier, and what a
    verified log says about tampering. */
module AuditChain {
  import opened Prelude
  import opened AuditFiles

  /** What an event's hash covers: everything but the hash itself and the chain status. */
  datatype Payload = Payload(id: string, timestamp: string, body: string, chainId: string, sequence: Option<int>,
                             previousHash: Option<string>)

  type Hash = Payload -> string

  /** No two payloads share a hash. */
  ghost predicate Injective(hash: Hash) {
    forall p, q :: hash(p) == hash(q) ==> p == q
  }

  ghost predicate NeverEmpty(hash: Hash) {
    forall p :: hash(p) != ""
  }

  function EventHash(hash: Hash, e: Event, previousHash: Option<string>): (h: string) {
    hash(Payload(e.id, e.timestamp, e.body, e.chainId, e.sequence, previousHash))
  }

  function Lines(events: seq<Event>): (lines: seq<Line>)
    ensures |lines| == |events|
    ensures forall i :: 0 <= i < |events| ==> lines[i] == Parsed(events[i])
  {
    seq(|events|, i requires 0 <= i < |events| => Parsed(events[i]))
  }

  // --- verified logs ---

  /** The hash the event at `i` must carry as its predecessor's. */
  function Head(events: seq<Event>): (h: Option<string>) {
    if |events| == 0 then None else Some(events[|events| - 1].eventHash)
  }

  predicate HasMetadata(e: Event) {
    e.chainId != "" && e.sequence.Some? && e.eventHash != ""
  }

  /** `e` has the chain, the number and the link that follow `events`. */
  predicate Links(events: seq<Event>, e: Event, chainId: string) {
    e.chainId == chainId && e.sequence == Some(|events| + 1) && e.previousHash == Head(events)
  }

  /** `e` continues `events`, all of the chain `chainId`. */
  predicate Continues(hash: Hash, events: seq<Event>, e: Event, chainId: string) {
    && HasMetadata(e) && Links(events, e, chainId)
    && e.eventHash == EventHash(hash, e, Head(events))
  }

  /** Each event continues the ones before it. */
  predicate Chained(hash: Hash, events: seq<Event>, chainId: string) {
    forall i :: 0 <= i < |events| ==> Continues(hash, events[..i], events[i], chainId)
  }

  function ChainOf(events: seq<Event>): (chainId: string) {
    if |events| == 0 then "" else events[0].chainId
  }

  lemma ChainedSnoc(hash: Hash, events: seq<Event>, e: Event, chainId: string)
    requires Chained(hash, events, chainId) && Continues(hash, events, e, chainId)
    ensures Chained(hash, events + [e], chainId)
  {
    hide Continues;
    var all := events + [e];
    forall i | 0 <= i < |all| ensures Continues(hash, all[..i], all[i], chainId) {
      if i < |events| {
        assert all[..i] == events[..i];
      } else {
        assert all[..i] == events;
      }
    }
  }

  lemma ChainedPrefix(hash: Hash, events: seq<Event>, n: nat, chainId: string)
    requires Chained(hash, events, chainId) && n <= |events|
    ensures Chained(hash, events[..n], chainId)
  {
    hide Continues;
    var part := events[..n];
    forall i | 0 <= i < n ensures Continues(hash, part[..i], part[i], chainId) {
      assert part[..i] == events[..i];
    }
  }

  // --- the verifier ---

  datatype Reason = InvalidJsonl | MissingMetadata | LinkMismatch | HashMismatch | EmptyLog

  datatype Verdict = Verdict(status: Status, events: seq<Event>, brokenAt: Option<int>, reason: Option<Reason>)

  /** The first `n` lines verify. */
  ghost predicate GoodUpTo(hash: Hash, lines: seq<Line>, events: seq<Event>, n: nat) {
    && n == |events| <= |lines| && lines[..n] == Lines(events) && Chained(hash, events, ChainOf(events))
  }

  /** Line `n` is where verification stops, with this verdict. */
  ghost predicate FailsAt(hash: Hash, lines: seq<Line>, events: seq<Event>, n: nat, v: Verdict) {
    && GoodUpTo(hash, lines, events, n) && n < |lines| && v.brokenAt == Some(n + 1)
    && match lines[n]
       case Malformed => v.status == Broken && v.events == events && v.reason == Some(InvalidJsonl)
       case Parsed(e) =>
         && v.events == events + [e]
         && (if !HasMetadata(e) then v.status == Unavailable && v.reason == Some(MissingMetadata)
             else
               && v.status == Broken && !Continues(hash, events, e, ChainOf(events + [e]))
               && v.reason == Some(if Links(events, e, ChainOf(events + [e])) then HashMismatch else LinkMismatch))
  }

  /** What verification must say of `lines`. */
  ghost predicate IsVerdict(hash: Hash, lines: seq<Line>, v: Verdict) {
    || (lines == [] && v == Verdict(Unavailable, [], None, Some(EmptyLog)))
    || (lines != [] && v == Verdict(Verified, v.events, None, None) && GoodUpTo(hash, lines, v.events, |lines|))
    || (exists events, n: nat :: FailsAt(hash, lines, events, n, v))
  }

  /** Walks the files in listing order. */
  method VerifyAuditFiles(hash: Hash, files: Directory, names: seq<string>) returns (v: Verdict)
    ensures IsVerdict(hash, Concat(files, names), v)
  {
    hide Concat, LinesOf, GoodUpTo, FailsAt, IsVerdict;
    var events: seq<Event> := [];
    ghost var all := Concat(files, names);
    NothingRead(hash, files, names);
    for f := 0 to |names|
      invariant GoodUpTo(hash, all, events, |events|) && |events| == |Concat(files, names[..f])|
    {
      var lines := LinesOf(files, names[f]);
      FileWithin(files, names, f);
      for k := 0 to |lines|
        invariant GoodUpTo(hash, all, events, |events|) && |events| == |Concat(files, names[..f])| + k
      {
        match lines[k]
        case Malformed =>
          v := Verdict(Broken, events, Some(|events| + 1), Some(InvalidJsonl));
          StopsAt(hash, all, events, v);
          return;
        case Parsed(e) =>
          if !HasMetadata(e) {
            v := Verdict(Unavailable, events + [e], Some(|events| + 1), Some(MissingMetadata));
            StopsAt(hash, all, events, v);
            return;
          }
          var chainId := if |events| == 0 then e.chainId else events[0].chainId;
          var previousHash := if |events| == 0 then None else Some(events[|events| - 1].eventHash);
          LinkSpelled(hash, events, e);
          if e.chainId != chainId || e.sequence != Some(|events| + 1) || e.previousHash != previousHash {
            v := Verdict(Broken, events + [e], Some(|events| + 1), Some(LinkMismatch));
            StopsAt(hash, all, events, v);
            return;
          }
          if e.eventHash != EventHash(hash, e, previousHash) {
            v := Verdict(Broken, events + [e], Some(|events| + 1), Some(HashMismatch));
            StopsAt(hash, all, events, v);
            return;
          }
          OneMore(hash, all, events, e);
          events := events + [e];
      }
      assert names[..f + 1] == names[..f] + [names[f]];
      OneFile(files, names, f);
    }
    assert names[..|names|] == names;
    v := Outcome(events);
    AllRead(hash, all, events, v);
  }

  /** What is said of a log read to its end. */
  function Outcome(events: seq<Event>): (v: Verdict) {
    if |events| == 0 then Verdict(Unavailable, [], None, Some(EmptyLog)) else Verdict(Verified, events, None, None)
  }

  lemma LinkSpelled(hash: Hash, events: seq<Event>, e: Event)
    ensures var chainId := if |events| == 0 then e.chainId else events[0].chainId;
            var previousHash := if |events| == 0 then None else Some(events[|events| - 1].eventHash);
            Continues(hash, events, e, ChainOf(events + [e])) <==>
            && HasMetadata(e) && e.chainId == chainId && e.sequence == Some(|events| + 1)
            && e.previousHash == previousHash && e.eventHash == EventHash(hash, e, previousHash)
  {
    assert ChainOf(events + [e]) == if |events| == 0 then e.chainId else events[0].chainId;
  }

  lemma {:induction false} NothingRead(hash: Hash, files: Directory, names: seq<string>)
    ensures GoodUpTo(hash, Concat(files, names), [], 0) && Concat(files, names[..0]) == []
  {
  }

  lemma {:induction false} OneFile(files: Directory, names: seq<string>, f: nat)
    requires f < |names|
    ensures Concat(files, names[..f + 1]) == Concat(files, names[..f]) + LinesOf(files, names[f])
  {
    assert names[..f + 1][..f] == names[..f];
  }

  lemma {:induction false} ConcatPrefix(files: Directory, names: seq<string>, f: nat)
    requires f <= |names|
    ensures Concat(files, names[..f]) <= Concat(files, names)
    decreases |names|
  {
    if f < |names| {
      var front := names[..|names| - 1];
      assert front[..f] == names[..f];
      ConcatPrefix(files, front, f);
    } else {
      assert names[..f] == names;
    }
  }

  /** Where the lines of one file stand among all lines. */
  lemma {:induction false} FileWithin(files: Directory, names: seq<string>, f: nat)
    requires f < |names|
    ensures var at := |Concat(files, names[..f])|;
            at + |LinesOf(files, names[f])| <= |Concat(files, names)|
            && forall k :: 0 <= k < |LinesOf(files, names[f])| ==>
                             Concat(files, names)[at + k] == LinesOf(files, names[f])[k]
  {
    hide Concat, LinesOf;
    OneFile(files, names, f);
    ConcatPrefix(files, names, f + 1);
    var part := Concat(files, names[..f + 1]);
    assert part == Concat(files, names)[..|part|];
  }

  lemma StopsAt(hash: Hash, lines: seq<Line>, events: seq<Event>, v: Verdict)
    requires FailsAt(hash, lines, events, |events|, v)
    ensures IsVerdict(hash, lines, v)
  {
  }

  lemma OneMore(hash: Hash, lines: seq<Line>, events: seq<Event>, e: Event)
    requires GoodUpTo(hash, lines, events, |events|) && |events| < |lines| && lines[|events|] == Parsed(e)
    requires Continues(hash, events, e, ChainOf(events + [e]))
    ensures GoodUpTo(hash, lines, events + [e], |events| + 1)
  {
    hide Continues;
    ChainedSnoc(hash, events, e, ChainOf(events + [e]));
  }

  lemma AllRead(hash: Hash, lines: seq<Line>, events: seq<Event>, v: Verdict)
    requires GoodUpTo(hash, lines, events, |lines|)
    requires v == Outcome(events)
    ensures IsVerdict(hash, lines, v)
  {
    hide Continues;
  }

  lemma LinesInjective(a: seq<Event>, b: seq<Event>)
    requires Lines(a) == Lines(b)
    ensures a == b
  {
    assert |Lines(a)| == |a| && |Lines(b)| == |b|;
    forall i | 0 <= i < |a| ensures a[i] == b[i] {
      assert Lines(a)[i] == Parsed(a[i]) && Lines(b)[i] == Parsed(b[i]);
    }
  }

  /** A log that is good all the way has no line where verification stops. */
  lemma GoodNeverFails(hash: Hash, lines: seq<Line>, all: seq<Event>, events: seq<Event>, n: nat, v: Verdict)
    requires GoodUpTo(hash, lines, all, |lines|)
    ensures !FailsAt(hash, lines, events, n, v)
  {
    hide Continues;
    if FailsAt(hash, lines, events, n, v) {
      assert lines[..|lines|] == lines;
      assert Lines(all)[..n] == Lines(all[..n]);
      LinesInjective(all[..n], events);
      assert lines[n] == Lines(all)[n] == Parsed(all[n]);
      assert Continues(hash, all[..n], all[n], ChainOf(all));
      assert ChainOf(events + [all[n]]) == ChainOf(all);
      HasItsMetadata(hash, events, all[n], ChainOf(all));
      assert false;
    }
  }

  lemma HasItsMetadata(hash: Hash, events: seq<Event>, e: Event, chainId: string)
    requires Continues(hash, events, e, chainId)
    ensures HasMetadata(e)
  {
  }

  /** "verified" means exactly: not empty, every line an event, and each event continues
      the ones before it; the verdict then lists those events. */
  lemma VerifiedMeans(hash: Hash, lines: seq<Line>, v: Verdict)
    requires IsVerdict(hash, lines, v)
    ensures v.status == Verified <==> lines != [] && exists events :: GoodUpTo(hash, lines, events, |lines|)
    ensures v.status == Verified ==> lines == Lines(v.events)
  {
    hide Continues, Chained;
    if events :| GoodUpTo(hash, lines, events, |lines|) {
      forall es, n: nat ensures !FailsAt(hash, lines, es, n, v) {
        GoodNeverFails(hash, lines, events, es, n, v);
      }
    }
    assert lines[..|lines|] == lines;
  }

  // --- the same, field by field ---

  /** The event has the chain of the first one, the number of its place, the hash of the event
      before it, and its own hash. */
  predicate SpelledEvent(hash: Hash, events: seq<Event>, i: nat)
    requires i < |events|
  {
    var e, previous := events[i], if i == 0 then None else Some(events[i - 1].eventHash);
    && e.chainId == events[0].chainId != "" && e.sequence == Some(i + 1) && e.previousHash == previous
    && e.eventHash == hash(Payload(e.id, e.timestamp, e.body, e.chainId, e.sequence, previous)) != ""
  }

  predicate SpelledLog(hash: Hash, lines: seq<Line>, events: seq<Event>) {
    && |lines| == |events| && (forall i :: 0 <= i < |lines| ==> lines[i] == Parsed(events[i]))
    && forall i: nat :: i < |events| ==> SpelledEvent(hash, events, i)
  }

  lemma {:induction false} EventSpelled(hash: Hash, events: seq<Event>, i: nat)
    requires i < |events|
    ensures Continues(hash, events[..i], events[i], ChainOf(events)) <==> SpelledEvent(hash, events, i)
  {
  }

  lemma {:induction false} GoodSpelled(hash: Hash, lines: seq<Line>, events: seq<Event>)
    ensures GoodUpTo(hash, lines, events, |lines|) <==> SpelledLog(hash, lines, events)
  {
    hide Continues, SpelledEvent;
    assert lines[..|lines|] == lines;
    forall i: nat | i < |events|
      ensures Continues(hash, events[..i], events[i], ChainOf(events)) <==> SpelledEvent(hash, events, i)
    {
      EventSpelled(hash, events, i);
    }
    assert |Lines(events)| == |events|;
    if SpelledLog(hash, lines, events) {
      assert lines == Lines(events);
    }
  }

  /** A log is verified if and only if it holds events only, at least one, each as spelled. */
  lemma {:induction false} VerifiedSpelled(hash: Hash, lines: seq<Line>, v: Verdict)
    requires IsVerdict(hash, lines, v)
    ensures v.status == Verified <==> |lines| > 0 && exists events :: SpelledLog(hash, lines, events)
  {
    hide IsVerdict, FailsAt, GoodUpTo, SpelledLog;
    VerifiedMeans(hash, lines, v);
    forall events ensures GoodUpTo(hash, lines, events, |lines|) <==> SpelledLog(hash, lines, events) {
      GoodSpelled(hash, lines, events);
    }
  }

  lemma FailsNotBefore(hash: Hash, lines: seq<Line>, all: seq<Event>, m: nat, events: seq<Event>, n: nat, v: Verdict)
    requires GoodUpTo(hash, lines, all, m) && FailsAt(hash, lines, events, n, v)
    ensures m <= n
  {
    hide Continues, Links, HasMetadata;
    if n < m {
      var part := lines[..m];
      assert part[..m] == part && part[..n] == lines[..n] && part[n] == lines[n];
      assert GoodUpTo(hash, part, all, |part|) && FailsAt(hash, part, events, n, v);
      GoodNeverFails(hash, part, all, events, n, v);
      assert false;
    }
  }

  lemma SameEvents(hash: Hash, lines: seq<Line>, a: seq<Event>, b: seq<Event>, n: nat)
    requires GoodUpTo(hash, lines, a, n) && GoodUpTo(hash, lines, b, n)
    ensures a == b
  {
    hide Chained;
    LinesInjective(a, b);
  }

  /** Lines have only one verdict: status, reason, events and place. */
  lemma VerdictUnique(hash: Hash, lines: seq<Line>, v: Verdict, w: Verdict)
    requires IsVerdict(hash, lines, v) && IsVerdict(hash, lines, w)
    ensures v == w
  {
    hide GoodUpTo, Continues, Links, HasMetadata;
    VerifiedMeans(hash, lines, v);
    VerifiedMeans(hash, lines, w);
    if v.status == Verified {
      SameEvents(hash, lines, v.events, w.events, |lines|);
    } else if lines != [] {
      var a, n: nat :| FailsAt(hash, lines, a, n, v);
      var b, m: nat :| FailsAt(hash, lines, b, m, w);
      FailsNotBefore(hash, lines, a, n, b, m, w);
      FailsNotBefore(hash, lines, b, m, a, n, v);
      SameEvents(hash, lines, a, b, n);
    }
  }

  // --- tampering ---

  /** The event without the field the hash does not cover. */
  function Core(e: Event): (c: Event) {
    e.(chainStatus := Verified)
  }

  function Cores(events: seq<Event>): (cs: seq<Event>)
    ensures |cs| == |events|
  {
    seq(|events|, i requires 0 <= i < |events| => Core(events[i]))
  }

  lemma CoresSnoc(events: seq<Event>, e: Event)
    ensures Cores(events + [e]) == Cores(events) + [Core(e)]
  {
  }

  /** The last links of two chains that share a head are the same event. */
  lemma SameLast(hash: Hash, a: seq<Event>, x: Event, b: seq<Event>, y: Event, c: string, d: string)
    requires Injective(hash) && Continues(hash, a, x, c) && Continues(hash, b, y, d) && x.eventHash == y.eventHash
    ensures Core(x) == Core(y) && |a| == |b| && Head(a) == Head(b)
  {
    var p := Payload(x.id, x.timestamp, x.body, x.chainId, x.sequence, Head(a));
    var q := Payload(y.id, y.timestamp, y.body, y.chainId, y.sequence, Head(b));
    assert hash(p) == hash(q);
    assert p == q;
  }

  /** With an injective hash the head of a verified log fixes every event in it, up to the
      chain status, and their order. */
  lemma {:induction false} HeadFixesLog(hash: Hash, a: seq<Event>, b: seq<Event>, c: string, d: string)
    requires Injective(hash) && Chained(hash, a, c) && Chained(hash, b, d) && Head(a) == Head(b)
    ensures Cores(a) == Cores(b)
    decreases |a|
  {
    hide Continues, Core, Injective;
    if |a| > 0 {
      var n := |a| - 1;
      assert |b| > 0;
      var m := |b| - 1;
      SameLast(hash, a[..n], a[n], b[..m], b[m], c, d);
      ChainedPrefix(hash, a, n, c);
      ChainedPrefix(hash, b, m, d);
      HeadFixesLog(hash, a[..n], b[..m], c, d);
      CoresSnoc(a[..n], a[n]);
      CoresSnoc(b[..m], b[m]);
      assert a == a[..n] + [a[n]] && b == b[..m] + [b[m]];
    }
  }

  /** Changing, dropping, inserting or reordering events either stops the log from verifying
      or changes its head hash. */
  lemma TamperingShows(hash: Hash, before: seq<Line>, v: Verdict, after: seq<Line>, w: Verdict)
    requires Injective(hash) && IsVerdict(hash, before, v) && IsVerdict(hash, after, w)
    requires v.status == Verified && Cores(w.events) != Cores(v.events)
    ensures w.status != Verified || Head(w.events) != Head(v.events)
  {
    hide Cores, Chained;
    VerifiedMeans(hash, before, v);
    VerifiedMeans(hash, after, w);
    if w.status == Verified && Head(w.events) == Head(v.events) {
      HeadFixesLog(hash, v.events, w.events, ChainOf(v.events), ChainOf(w.events));
    }
  }

  /** Verification alone does not notice that the newest events are missing: every
      non-empty beginning of a verified log verifies, under another head. */
  lemma TruncationVerifies(hash: Hash, events: seq<Event>, n: nat, v: Verdict)
    requires Injective(hash) && Chained(hash, events, ChainOf(events)) && 0 < n < |events|
    requires IsVerdict(hash, Lines(events[..n]), v)
    ensures v.status == Verified && v.events == events[..n] && Head(v.events) != Head(events)
  {
    hide Continues;
    var part := events[..n];
    ChainedPrefix(hash, events, n, ChainOf(events));
    assert Lines(part)[..n] == Lines(part);
    assert GoodUpTo(hash, Lines(part), part, n);
    VerifiedMeans(hash, Lines(part), v);
    LinesInjective(part, v.events);
    assert |Cores(part)| == n && |Cores(events)| == |events|;
    if Head(part) == Head(events) {
      HeadFixesLog(hash, part, events, ChainOf(events), ChainOf(events));
      assert false;
    }
  }
}
