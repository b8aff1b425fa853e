/** Many writers, in any number of processes, append to one audit directory under a lock.
    Whatever the interleaving and the clocks, the log verifies and lists the events in the
    order they were written. */
module AuditWriters {
  import opened Prelude
  import opened AuditFiles
  import opened AuditChain
  import opened AuditStore

  /** How far a writer has come with one append. */
  datatype Phase =
    | Idle
    | Waiting(event: Event)
    | Locked(event: Event)
    | Listed(event: Event, names: seq<string>)
    | HasRead(event: Event, names: seq<string>, existing: seq<Event>)
    | Done(stored: Event)

  /** The directory, the lock's holder, the writers, and the events written so far. */
  datatype State = State(files: Directory, lock: Option<nat>, writers: map<nat, Phase>, written: seq<Event>)

  function PhaseOf(s: State, w: nat): (p: Phase) {
    if w in s.writers then s.writers[w] else Idle
  }

  function At(s: State, w: nat, p: Phase): (t: State) {
    s.(writers := s.writers[w := p])
  }

  // --- steps ---

  /** A writer starts an append with whatever its clock says. */
  predicate Request(s: State, t: State, w: nat, event: Event, chainId: string) {
    && PhaseOf(s, w).Idle? && event.chainId == chainId && IsDate(DateSegment(event.timestamp))
    && t == At(s, w, Waiting(event))
  }

  predicate Acquire(s: State, t: State, w: nat) {
    && PhaseOf(s, w).Waiting? && s.lock.None?
    && t == At(s, w, Locked(PhaseOf(s, w).event)).(lock := Some(w))
  }

  ghost predicate List(s: State, t: State, w: nat) {
    && PhaseOf(s, w).Locked? && t == At(s, w, Listed(PhaseOf(s, w).event, Listing(s.files)))
  }

  predicate ReadFiles(s: State, t: State, w: nat) {
    var p := PhaseOf(s, w);
    p.Listed? && t == At(s, w, HasRead(p.event, p.names, EventsIn(Concat(s.files, p.names))))
  }

  predicate Write(s: State, t: State, w: nat, hash: Hash) {
    var p := PhaseOf(s, w);
    && p.HasRead?
    && var (files, stored) := Appended(hash, s.files, p.names, p.existing, p.event);
    && t == At(s, w, Done(stored)).(files := files,
            written := if FirstWithId(p.existing, p.event.id).Some? then s.written else s.written + [stored])
  }

  /** The append returns and the lock is given back. */
  predicate Release(s: State, t: State, w: nat) {
    PhaseOf(s, w).Done? && t == At(s, w, Idle).(lock := None)
  }

  /** A writer dies; if it held the lock, the lock is recovered. */
  predicate Crash(s: State, t: State, w: nat) {
    && !PhaseOf(s, w).Idle?
    && t == At(s, w, Idle).(lock := if s.lock == Some(w) then None else s.lock)
  }

  /** One step of writer `w`. */
  ghost predicate StepOf(s: State, t: State, w: nat, hash: Hash, chainId: string) {
    || (exists event :: Request(s, t, w, event, chainId))
    || Acquire(s, t, w) || List(s, t, w) || ReadFiles(s, t, w) || Write(s, t, w, hash) || Release(s, t, w)
    || Crash(s, t, w)
  }

  ghost predicate Step(s: State, t: State, hash: Hash, chainId: string) {
    exists w: nat :: StepOf(s, t, w, hash, chainId)
  }

  // --- what every step keeps ---

  predicate Inside(p: Phase) {
    p.Locked? || p.Listed? || p.HasRead? || p.Done?
  }

  /** What a writer knows is still so. */
  ghost predicate UpToDate(p: Phase, files: Directory, log: seq<Event>, chainId: string) {
    match p
    case Idle => true
    case Waiting(e) => e.chainId == chainId && IsDate(DateSegment(e.timestamp))
    case Locked(e) => e.chainId == chainId && IsDate(DateSegment(e.timestamp))
    case Listed(e, names) => e.chainId == chainId && IsDate(DateSegment(e.timestamp)) && names == Listing(files)
    case HasRead(e, names, existing) =>
      && e.chainId == chainId && IsDate(DateSegment(e.timestamp))
      && names == Listing(files) && existing == log
    case Done(stored) => stored in log
  }

  ghost predicate Invariant(s: State, hash: Hash, chainId: string) {
    && Holds(hash, s.files, s.written, chainId)
    && (forall w: nat :: Inside(PhaseOf(s, w)) ==> s.lock == Some(w))
    && (forall w: nat :: UpToDate(PhaseOf(s, w), s.files, s.written, chainId))
  }

  lemma OthersUnchanged(s: State, w: nat, p: Phase)
    ensures forall v: nat :: PhaseOf(At(s, w, p), v) == if v == w then p else PhaseOf(s, v)
  {
  }

  lemma {:induction false} ReadsTheLog(hash: Hash, files: Directory, log: seq<Event>, chainId: string)
    requires Holds(hash, files, log, chainId)
    ensures EventsIn(Concat(files, Listing(files))) == log
  {
    hide Chained, DistinctIds;
    EventsInLines(log);
  }

  /** A writer that is not inside does not care what is written. */
  lemma OutsideStaysUpToDate(p: Phase, files: Directory, log: seq<Event>, other: Directory, longer: seq<Event>,
                             chainId: string)
    requires UpToDate(p, files, log, chainId) && !Inside(p)
    ensures UpToDate(p, other, longer, chainId)
  {
  }

  lemma WriteKeeps(s: State, t: State, w: nat, hash: Hash, chainId: string)
    requires NeverEmpty(hash) && chainId != "" && Invariant(s, hash, chainId) && Write(s, t, w, hash)
    ensures Invariant(t, hash, chainId)
  {
    hide Holds, IsDate, Appended, FirstWithId, DateSegment, Linked;
    var p := PhaseOf(s, w);
    assert UpToDate(p, s.files, s.written, chainId);
    AppendHolds(hash, s.files, s.written, chainId, p.event);
    AppendedIsNext(hash, s.files, s.written, p.event);
    assert t.written == Next(hash, s.written, p.event);
    var (files, stored) := Appended(hash, s.files, p.names, p.existing, p.event);
    OthersUnchanged(s, w, Done(stored));
    forall v: nat
      ensures Inside(PhaseOf(t, v)) ==> t.lock == Some(v)
      ensures UpToDate(PhaseOf(t, v), t.files, t.written, chainId)
    {
      assert PhaseOf(t, v) == if v == w then Done(stored) else PhaseOf(s, v);
      assert Inside(PhaseOf(s, w)) && s.lock == Some(w);
      if v != w {
        assert !Inside(PhaseOf(s, v));
        OutsideStaysUpToDate(PhaseOf(s, v), s.files, s.written, t.files, t.written, chainId);
      }
    }
  }

  lemma {:induction false} AppendedIsNext(hash: Hash, files: Directory, log: seq<Event>, event: Event)
    ensures var stored := Appended(hash, files, Listing(files), log, event).1;
            Next(hash, log, event) == if FirstWithId(log, event.id).Some? then log else log + [stored]
  {
  }

  lemma ListKeeps(s: State, t: State, w: nat, hash: Hash, chainId: string)
    requires Invariant(s, hash, chainId) && List(s, t, w)
    ensures Invariant(t, hash, chainId)
  {
    hide Holds, IsDate;
    assert UpToDate(PhaseOf(s, w), s.files, s.written, chainId);
    assert Inside(PhaseOf(s, w)) && s.lock == Some(w);
    OthersUnchanged(s, w, Listed(PhaseOf(s, w).event, Listing(s.files)));
  }

  lemma ReadKeeps(s: State, t: State, w: nat, hash: Hash, chainId: string)
    requires Invariant(s, hash, chainId) && ReadFiles(s, t, w)
    ensures Invariant(t, hash, chainId)
  {
    hide Holds, IsDate;
    var p := PhaseOf(s, w);
    ReadsTheLog(hash, s.files, s.written, chainId);
    assert UpToDate(p, s.files, s.written, chainId);
    assert Inside(p) && s.lock == Some(w);
    assert p.names == Listing(s.files);
    OthersUnchanged(s, w, HasRead(p.event, p.names, s.written));
  }

  lemma RequestKeeps(s: State, t: State, w: nat, event: Event, hash: Hash, chainId: string)
    requires Invariant(s, hash, chainId) && Request(s, t, w, event, chainId)
    ensures Invariant(t, hash, chainId)
  {
    hide Holds, IsDate;
    assert UpToDate(PhaseOf(s, w), s.files, s.written, chainId);
    forall v: nat
      ensures Inside(PhaseOf(t, v)) ==> t.lock == Some(v)
      ensures UpToDate(PhaseOf(t, v), t.files, t.written, chainId)
    {
      assert v != w ==> PhaseOf(t, v) == PhaseOf(s, v);
    }
  }

  lemma AcquireKeeps(s: State, t: State, w: nat, hash: Hash, chainId: string)
    requires Invariant(s, hash, chainId) && Acquire(s, t, w)
    ensures Invariant(t, hash, chainId)
  {
    hide Holds, IsDate;
    assert UpToDate(PhaseOf(s, w), s.files, s.written, chainId);
    forall v: nat
      ensures Inside(PhaseOf(t, v)) ==> t.lock == Some(v)
      ensures UpToDate(PhaseOf(t, v), t.files, t.written, chainId)
    {
      assert v != w ==> PhaseOf(t, v) == PhaseOf(s, v);
    }
  }

  lemma ReleaseKeeps(s: State, t: State, w: nat, hash: Hash, chainId: string)
    requires Invariant(s, hash, chainId) && Release(s, t, w)
    ensures Invariant(t, hash, chainId)
  {
    hide Holds, IsDate;
    assert Inside(PhaseOf(s, w)) ==> s.lock == Some(w);
    forall v: nat
      ensures Inside(PhaseOf(t, v)) ==> t.lock == Some(v)
      ensures UpToDate(PhaseOf(t, v), t.files, t.written, chainId)
    {
      assert v != w ==> PhaseOf(t, v) == PhaseOf(s, v);
    }
  }

  lemma CrashKeeps(s: State, t: State, w: nat, hash: Hash, chainId: string)
    requires Invariant(s, hash, chainId) && Crash(s, t, w)
    ensures Invariant(t, hash, chainId)
  {
    hide Holds, IsDate;
    assert Inside(PhaseOf(s, w)) ==> s.lock == Some(w);
    forall v: nat
      ensures Inside(PhaseOf(t, v)) ==> t.lock == Some(v)
      ensures UpToDate(PhaseOf(t, v), t.files, t.written, chainId)
    {
      assert v != w ==> PhaseOf(t, v) == PhaseOf(s, v);
    }
  }

  lemma StepKeeps(s: State, t: State, hash: Hash, chainId: string)
    requires NeverEmpty(hash) && chainId != "" && Invariant(s, hash, chainId) && Step(s, t, hash, chainId)
    ensures Invariant(t, hash, chainId)
  {
    hide Invariant, Request, Acquire, List, ReadFiles, Write, Release, Crash;
    var w: nat :| StepOf(s, t, w, hash, chainId);
    if event :| Request(s, t, w, event, chainId) {
      RequestKeeps(s, t, w, event, hash, chainId);
    } else if Acquire(s, t, w) {
      AcquireKeeps(s, t, w, hash, chainId);
    } else if Release(s, t, w) {
      ReleaseKeeps(s, t, w, hash, chainId);
    } else if Crash(s, t, w) {
      CrashKeeps(s, t, w, hash, chainId);
    } else if Write(s, t, w, hash) {
      WriteKeeps(s, t, w, hash, chainId);
    } else if List(s, t, w) {
      ListKeeps(s, t, w, hash, chainId);
    } else {
      ReadKeeps(s, t, w, hash, chainId);
    }
  }

  // --- runs ---

  function Empty(): (s: State) {
    State(map[], None, map[], [])
  }

  ghost predicate IsRun(run: seq<State>, hash: Hash, chainId: string) {
    && |run| > 0 && run[0] == Empty()
    && forall i :: 0 <= i < |run| - 1 ==> Step(run[i], run[i + 1], hash, chainId)
  }

  lemma EmptyHolds(hash: Hash, chainId: string)
    ensures Invariant(Empty(), hash, chainId)
  {
    assert Listing(map[]) == [] by {
      assert LogNames(map[]) == {};
      ListingUnique(Listing(map[]), [], {});
    }
  }

  lemma {:induction false} RunKeeps(run: seq<State>, hash: Hash, chainId: string, k: nat)
    requires NeverEmpty(hash) && chainId != "" && IsRun(run, hash, chainId) && k < |run|
    ensures Invariant(run[k], hash, chainId)
    decreases k
  {
    hide Invariant, Step;
    if k == 0 {
      EmptyHolds(hash, chainId);
    } else {
      RunKeeps(run, hash, chainId, k - 1);
      StepKeeps(run[k - 1], run[k], hash, chainId);
    }
  }

  lemma {:induction false} AppendDated(hash: Hash, files: Directory, log: seq<Event>, chainId: string, event: Event)
    requires Holds(hash, files, log, chainId) && Dated(files) && IsDate(DateSegment(event.timestamp))
    ensures Dated(Appended(hash, files, Listing(files), log, event).0)
  {
    hide IsDate, Chained, DistinctIds, Dated, AllLines, TargetName, Put, IsBucketName, Listing, DateSegment;
    if FirstWithId(log, event.id).None? {
      LinkKeepsTime(hash, log, event);
      DatedStamped(event.timestamp);
      PutDated(files, Linked(hash, log, event));
    }
  }

  lemma DatedStamped(timestamp: string)
    ensures IsDate(DateSegment(timestamp)) ==> |timestamp| >= 10 && IsDate(timestamp[..10])
  {
  }

  lemma LinkKeepsTime(hash: Hash, log: seq<Event>, event: Event)
    ensures Linked(hash, log, event).timestamp == event.timestamp
  {
  }

  lemma {:induction false} StepDated(s: State, t: State, hash: Hash, chainId: string)
    requires Invariant(s, hash, chainId) && Step(s, t, hash, chainId) && Dated(s.files)
    ensures Dated(t.files)
  {
    hide Dated, Holds, IsDate, Appended, FirstWithId, DateSegment, Listing;
    var w: nat :| StepOf(s, t, w, hash, chainId);
    if Write(s, t, w, hash) {
      var p := PhaseOf(s, w);
      assert UpToDate(p, s.files, s.written, chainId);
      AppendDated(hash, s.files, s.written, chainId, p.event);
    } else {
      assert t.files == s.files;
    }
  }

  /** After any run every dated file was opened by an event of its own date and holds no event
      of a later one: the log changes files with the calendar, and only forward. */
  lemma {:induction false} RunDated(run: seq<State>, hash: Hash, chainId: string, k: nat)
    requires NeverEmpty(hash) && chainId != "" && IsRun(run, hash, chainId) && k < |run|
    ensures Dated(run[k].files)
    decreases k
  {
    hide Invariant, Step, Dated;
    if k == 0 {
      NothingDated();
    } else {
      RunDated(run, hash, chainId, k - 1);
      RunKeeps(run, hash, chainId, k - 1);
      StepDated(run[k - 1], run[k], hash, chainId);
    }
  }

  lemma NothingDated()
    ensures Dated(Empty().files)
  {
  }

  /** After any run, verifying the directory lists the written events in the order they were
      written, numbered from 1, each id once. */
  lemma RunVerifies(run: seq<State>, hash: Hash, chainId: string, k: nat, v: Verdict)
    requires NeverEmpty(hash) && chainId != "" && IsRun(run, hash, chainId) && k < |run|
    requires IsVerdict(hash, AllLines(run[k].files), v)
    ensures v.events == run[k].written && v.status == (if run[k].written == [] then Unavailable else Verified)
    ensures forall i :: 0 <= i < |v.events| ==> v.events[i].sequence == Some(i + 1)
    ensures forall i, j :: 0 <= i < j < |v.events| ==> v.events[i].id != v.events[j].id
  {
    hide IsRun, IsVerdict, GoodUpTo, AllLines;
    var s := run[k];
    RunKeeps(run, hash, chainId, k);
    var log := s.written;
    HealthyVerifies(hash, s.files, log, chainId, v);
    forall i | 0 <= i < |log| ensures log[i].sequence == Some(i + 1) {
      assert Continues(hash, log[..i], log[i], chainId);
    }
  }

  lemma HealthyVerifies(hash: Hash, files: Directory, log: seq<Event>, chainId: string, v: Verdict)
    requires Holds(hash, files, log, chainId) && IsVerdict(hash, AllLines(files), v)
    ensures v.events == log && v.status == (if log == [] then Unavailable else Verified)
  {
    hide Continues, DistinctIds, AllLines;
    var lines := AllLines(files);
    assert |lines| == |log|;
    if |log| == 0 {
      assert !exists es, n: nat :: FailsAt(hash, lines, es, n, v);
    } else {
      assert Continues(hash, log[..0], log[0], chainId);
      ChainNamed(hash, log[..0], log[0], chainId);
      assert lines[..|log|] == Lines(log);
      assert GoodUpTo(hash, lines, log, |lines|);
      VerifiedMeans(hash, lines, v);
      LinesInjective(log, v.events);
    }
  }

  lemma ChainNamed(hash: Hash, events: seq<Event>, e: Event, chainId: string)
    requires Continues(hash, events, e, chainId)
    ensures e.chainId == chainId
  {
  }

  /** Events once written stay, in place: a later state's log extends an earlier one's. */
  lemma {:induction false} LogOnlyGrows(run: seq<State>, hash: Hash, chainId: string, j: nat, k: nat)
    requires IsRun(run, hash, chainId) && j <= k < |run|
    ensures run[j].written <= run[k].written
    decreases k
  {
    hide Request, Acquire, List, ReadFiles, Release, Crash, Appended, FirstWithId;
    if j < k {
      LogOnlyGrows(run, hash, chainId, j, k - 1);
      assert Step(run[k - 1], run[k], hash, chainId);
      StepGrows(run[k - 1], run[k], hash, chainId);
    }
  }

  lemma StepGrows(s: State, t: State, hash: Hash, chainId: string)
    requires Step(s, t, hash, chainId)
    ensures s.written <= t.written
  {
    hide Appended, FirstWithId, EventsIn, Concat, IsDate, DateSegment;
    var w: nat :| StepOf(s, t, w, hash, chainId);
    assert s.written == t.written || Write(s, t, w, hash);
  }
}
