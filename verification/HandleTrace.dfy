/** Traces of native handle operations, and what it means for them to be well bracketed. */
module HandleTrace {

  /** One operation on the resource with an ordinal; `status` is the native answer. */
  datatype Event =
    | Acquired(ordinal: nat, view: bool)
    | ViewClosed(ordinal: nat, status: nat)
    | Closed(ordinal: nat, status: nat)

  /** A resource that has not been closed; `failed` if an attempt to close it was refused. */
  datatype Slot = Slot(ordinal: nat, view: bool, viewClosed: bool, failed: bool)

  /** The open resources, oldest first, and how many were ever acquired; or a trace that
      breaks the discipline. */
  datatype Machine = Machine(open: seq<Slot>, count: nat) | Bad

  function Top(open: seq<Slot>): (s: Slot)
    requires |open| > 0
  {
    open[|open| - 1]
  }

  function Rest(open: seq<Slot>): (r: seq<Slot>)
    requires |open| > 0
  {
    open[..|open| - 1]
  }

  /** Only the newest open resource may be closed, once, after its view if it has one. */
  function Advance(m: Machine, e: Event): (r: Machine) {
    match m
    case Bad => Bad
    case Machine(open, count) =>
      match e
      case Acquired(o, view) =>
        if o == count + 1 then Machine(open + [Slot(o, view, false, false)], count + 1) else Bad
      case ViewClosed(o, status) =>
        if |open| > 0 && Top(open).ordinal == o && Top(open).view && !Top(open).viewClosed && !Top(open).failed then
          Machine(Rest(open) + [Slot(o, true, status == 0, status != 0)], count)
        else Bad
      case Closed(o, status) =>
        if |open| > 0 && Top(open).ordinal == o && !Top(open).failed && (Top(open).view ==> Top(open).viewClosed) then
          if status == 0 then Machine(Rest(open), count)
          else Machine(Rest(open) + [Top(open).(failed := true)], count)
        else Bad
  }

  function Run(trace: seq<Event>): (m: Machine) {
    if |trace| == 0 then Machine([], 0)
    else Advance(Run(trace[..|trace| - 1]), trace[|trace| - 1])
  }

  lemma {:induction false} RunSnoc(trace: seq<Event>, e: Event)
    ensures Run(trace + [e]) == Advance(Run(trace), e)
  {
    assert (trace + [e])[..|trace|] == trace;
  }

  // --- what well-bracketed traces look like ---

  predicate Ordinals(open: seq<Slot>, count: nat) {
    && (forall k :: 0 <= k < |open| ==> 1 <= open[k].ordinal <= count)
    && (forall j, k :: 0 <= j < k < |open| ==> open[j].ordinal < open[k].ordinal)
  }

  predicate IsOpen(open: seq<Slot>, ordinal: nat) {
    exists k :: 0 <= k < |open| && open[k].ordinal == ordinal
  }

  lemma {:induction false} OrdinalsHold(trace: seq<Event>)
    requires Run(trace).Machine?
    ensures Ordinals(Run(trace).open, Run(trace).count)
  {
    if |trace| > 0 {
      OrdinalsHold(trace[..|trace| - 1]);
    }
  }

  /** The state before the event at `k`. */
  function Before(trace: seq<Event>, k: nat): (m: Machine)
    requires k <= |trace|
  {
    Run(trace[..k])
  }

  lemma OneStep(trace: seq<Event>, k: nat)
    requires k < |trace|
    ensures Before(trace, k + 1) == Advance(Before(trace, k), trace[k])
  {
    assert trace[..k + 1] == trace[..k] + [trace[k]];
    RunSnoc(trace[..k], trace[k]);
  }

  /** A trace that keeps the discipline kept it all along. */
  lemma {:induction false} GoodBefore(trace: seq<Event>, k: nat)
    requires Run(trace).Machine? && k <= |trace|
    ensures Before(trace, k).Machine? && Before(trace, k).count <= Run(trace).count
    ensures Ordinals(Before(trace, k).open, Before(trace, k).count)
    decreases |trace|
  {
    hide Ordinals;
    if k < |trace| {
      var front := trace[..|trace| - 1];
      GoodBefore(front, k);
      assert front[..k] == trace[..k];
    } else {
      assert trace[..k] == trace;
      OrdinalsHold(trace);
    }
  }

  lemma {:induction false} CountGrows(trace: seq<Event>, j: nat, k: nat)
    requires Run(trace).Machine? && j <= k <= |trace|
    ensures Before(trace, j).Machine? && Before(trace, k).Machine? && Before(trace, j).count <= Before(trace, k).count
  {
    GoodBefore(trace, k);
    GoodBefore(trace[..k], j);
    assert trace[..k][..j] == trace[..j];
  }

  predicate AcquiredAt(trace: seq<Event>, i: nat, ordinal: nat) {
    i < |trace| && trace[i].Acquired? && trace[i].ordinal == ordinal
  }

  /** An attempt to close `ordinal`, successful or not. */
  predicate CloseTriedAt(trace: seq<Event>, i: nat, ordinal: nat) {
    i < |trace| && trace[i].Closed? && trace[i].ordinal == ordinal
  }

  predicate ClosedAt(trace: seq<Event>, i: nat, ordinal: nat) {
    i < |trace| && trace[i] == Closed(ordinal, 0)
  }

  predicate ViewClosedAt(trace: seq<Event>, i: nat, ordinal: nat) {
    i < |trace| && trace[i] == ViewClosed(ordinal, 0)
  }

  /** An ordinal is given out once, and to later acquisitions only larger ones. */
  lemma {:induction false} OrdinalsAscend(trace: seq<Event>, i: nat, j: nat)
    requires Run(trace).Machine? && i < j < |trace| && trace[i].Acquired? && trace[j].Acquired?
    ensures trace[i].ordinal < trace[j].ordinal
  {
    CountGrows(trace, i + 1, j);
    GoodBefore(trace, j + 1);
    GoodBefore(trace, i);
    OneStep(trace, i);
    OneStep(trace, j);
  }

  /** Once acquired and no longer open, never open again. */
  lemma {:induction false} StaysClosed(trace: seq<Event>, j: nat, k: nat, o: nat)
    requires Run(trace).Machine? && j <= k <= |trace|
    requires Before(trace, j).Machine? && o <= Before(trace, j).count && !IsOpen(Before(trace, j).open, o)
    ensures Before(trace, k).Machine? && !IsOpen(Before(trace, k).open, o)
    decreases k
  {
    hide Ordinals;
    GoodBefore(trace, k);
    if j < k {
      StaysClosed(trace, j, k - 1, o);
      CountGrows(trace, j, k - 1);
      OneStep(trace, k - 1);
      StepOpensOnlyNew(Before(trace, k - 1), trace[k - 1], o);
    }
  }

  lemma StepOpensOnlyNew(m: Machine, e: Event, o: nat)
    requires m.Machine? && Advance(m, e).Machine? && o <= m.count && !IsOpen(m.open, o)
    ensures !IsOpen(Advance(m, e).open, o)
  {
    var after := Advance(m, e).open;
    forall k | 0 <= k < |after| ensures after[k].ordinal != o {
      assert k < |m.open| ==> after[k].ordinal == m.open[k].ordinal;
    }
  }

  /** What was open and no longer is was closed in between. */
  lemma {:induction false} ClosedBetween(trace: seq<Event>, j: nat, k: nat, o: nat) returns (i: nat)
    requires Run(trace).Machine? && j <= k <= |trace|
    requires Before(trace, j).Machine? && IsOpen(Before(trace, j).open, o)
    requires Before(trace, k).Machine? && !IsOpen(Before(trace, k).open, o)
    ensures j <= i < k && ClosedAt(trace, i, o)
    decreases k
  {
    hide Advance;
    GoodBefore(trace, k - 1);
    if IsOpen(Before(trace, k - 1).open, o) {
      i := k - 1;
      OneStep(trace, i);
      StepCloses(Before(trace, i), trace[i], o);
    } else {
      i := ClosedBetween(trace, j, k - 1, o);
    }
  }

  lemma SameOrdinal(m: Machine, e: Event, k: nat)
    requires m.Machine? && Advance(m, e).Machine? && k < |m.open| && k < |Advance(m, e).open|
    ensures Advance(m, e).open[k].ordinal == m.open[k].ordinal
  {
  }

  lemma StepCloses(m: Machine, e: Event, o: nat)
    requires m.Machine? && Advance(m, e).Machine? && IsOpen(m.open, o) && !IsOpen(Advance(m, e).open, o)
    ensures e == Closed(o, 0)
  {
    var after := Advance(m, e).open;
    var k :| 0 <= k < |m.open| && m.open[k].ordinal == o;
    if k < |after| {
      SameOrdinal(m, e, k);
      assert false;
    }
  }

  /** At a close the resource is the newest open one; if that succeeds it is open no more. */
  lemma {:induction false} AtClose(trace: seq<Event>, i: nat, o: nat)
    requires Run(trace).Machine? && CloseTriedAt(trace, i, o)
    ensures Before(trace, i).Machine? && IsOpen(Before(trace, i).open, o) && o <= Before(trace, i).count
    ensures forall b :: b > o ==> !IsOpen(Before(trace, i).open, b)
    ensures ClosedAt(trace, i, o) ==>
      Before(trace, i + 1).Machine? && !IsOpen(Before(trace, i + 1).open, o) && o <= Before(trace, i + 1).count
  {
    GoodBefore(trace, i);
    GoodBefore(trace, i + 1);
    OneStep(trace, i);
    var open := Before(trace, i).open;
    assert Top(open).ordinal == o == open[|open| - 1].ordinal;
    forall b | b > o ensures !IsOpen(open, b) {
      NoneAboveTop(open, Before(trace, i).count, b);
    }
    if ClosedAt(trace, i, o) {
      TopGone(open, Before(trace, i).count);
    }
  }

  lemma NoneAboveTop(open: seq<Slot>, count: nat, b: nat)
    requires Ordinals(open, count) && |open| > 0 && b > Top(open).ordinal
    ensures !IsOpen(open, b)
  {
  }

  lemma TopGone(open: seq<Slot>, count: nat)
    requires Ordinals(open, count) && |open| > 0
    ensures !IsOpen(Rest(open), Top(open).ordinal)
  {
  }

  // --- the three properties of well-bracketed traces ---

  /** Nothing is closed twice. */
  lemma {:induction false} ClosedOnce(trace: seq<Event>, i: nat, j: nat, o: nat)
    requires Run(trace).Machine? && ClosedAt(trace, i, o) && CloseTriedAt(trace, j, o)
    ensures j <= i
  {
    AtClose(trace, i, o);
    AtClose(trace, j, o);
    if i < j {
      StaysClosed(trace, i + 1, j, o);
    }
  }

  lemma {:induction false} AcquiredIsOpen(trace: seq<Event>, i: nat, o: nat)
    requires Run(trace).Machine? && AcquiredAt(trace, i, o)
    ensures Before(trace, i + 1).Machine? && IsOpen(Before(trace, i + 1).open, o)
  {
    GoodBefore(trace, i);
    GoodBefore(trace, i + 1);
    OneStep(trace, i);
    var open := Before(trace, i + 1).open;
    assert open[|open| - 1].ordinal == o;
  }

  /** When nothing is left open, everything acquired was closed, later and with success. */
  lemma AllClosed(trace: seq<Event>, i: nat, o: nat) returns (j: nat)
    requires Run(trace).Machine? && Run(trace).open == [] && AcquiredAt(trace, i, o)
    ensures i < j && ClosedAt(trace, j, o)
  {
    AcquiredIsOpen(trace, i, o);
    assert trace[..|trace|] == trace;
    j := ClosedBetween(trace, i + 1, |trace|, o);
  }

  /** Closes come in the reverse order of acquisitions: what was acquired while `o` was open
      is closed before `o` is. */
  lemma LastInFirstOut(trace: seq<Event>, i: nat, o: nat, k: nat, b: nat, j: nat) returns (l: nat)
    requires Run(trace).Machine? && AcquiredAt(trace, i, o) && AcquiredAt(trace, k, b) && ClosedAt(trace, j, o)
    requires i < k < j
    ensures k < l < j && ClosedAt(trace, l, b)
  {
    OrdinalsAscend(trace, i, k);
    AcquiredIsOpen(trace, k, b);
    AtClose(trace, j, o);
    l := ClosedBetween(trace, k + 1, j, b);
  }

  /** The slot of an open resource tells how it was acquired and whether its view is closed. */
  ghost predicate SlotTells(trace: seq<Event>, s: Slot) {
    && (exists i: nat :: AcquiredAt(trace, i, s.ordinal) && trace[i].view == s.view)
    && (s.viewClosed ==> exists i: nat :: ViewClosedAt(trace, i, s.ordinal))
  }

  lemma SlotTellsLonger(trace: seq<Event>, e: Event, s: Slot)
    requires SlotTells(trace, s)
    ensures SlotTells(trace + [e], s)
  {
    var t := trace + [e];
    var i: nat :| AcquiredAt(trace, i, s.ordinal) && trace[i].view == s.view;
    assert AcquiredAt(t, i, s.ordinal) && t[i].view == s.view;
    if s.viewClosed {
      var k: nat :| ViewClosedAt(trace, k, s.ordinal);
      assert ViewClosedAt(t, k, s.ordinal);
    }
  }

  lemma {:induction false} SlotsTell(trace: seq<Event>, k: nat)
    requires Run(trace).Machine? && k < |Run(trace).open|
    ensures SlotTells(trace, Run(trace).open[k])
    decreases |trace|
  {
    hide SlotTells;
    var n := |trace| - 1;
    var front, e := trace[..n], trace[n];
    assert trace == front + [e];
    var before, after := Run(front), Run(trace);
    if k < |before.open| {
      SlotsTell(front, k);
      SlotTellsLonger(front, e, before.open[k]);
    }
    NewSlotTells(front, e, k);
  }

  lemma {:induction false} NewSlotTells(front: seq<Event>, e: Event, k: nat)
    requires Run(front).Machine? && Advance(Run(front), e).Machine? && k < |Advance(Run(front), e).open|
    requires k < |Run(front).open| ==> SlotTells(front + [e], Run(front).open[k])
    ensures SlotTells(front + [e], Advance(Run(front), e).open[k])
  {
    var t, s := front + [e], Advance(Run(front), e).open[k];
    if e.Acquired? && k == |Run(front).open| {
      assert AcquiredAt(t, |front|, s.ordinal) && t[|front|].view == s.view;
    } else {
      var old_ := Run(front).open[k];
      var i: nat :| AcquiredAt(t, i, old_.ordinal) && t[i].view == old_.view;
      assert AcquiredAt(t, i, s.ordinal) && t[i].view == s.view;
      if s.viewClosed && !old_.viewClosed {
        assert ViewClosedAt(t, |front|, s.ordinal);
      }
    }
  }

  /** A view's handle is closed only after the view itself was closed with success. */
  lemma ViewsCloseFirst(trace: seq<Event>, i: nat, o: nat, j: nat) returns (k: nat)
    requires Run(trace).Machine? && AcquiredAt(trace, i, o) && trace[i].view && ClosedAt(trace, j, o)
    ensures k < j && ViewClosedAt(trace, k, o)
  {
    GoodBefore(trace, j);
    GoodBefore(trace, j + 1);
    OneStep(trace, j);
    var past := trace[..j];
    var open := Run(past).open;
    SlotsTell(past, |open| - 1);
    var h: nat :| AcquiredAt(past, h, o) && past[h].view == Top(open).view;
    assert AcquiredAt(trace, h, o);
    if h != i {
      OrdinalsAscend(trace, if h < i then h else i, if h < i then i else h);
    }
    k :| ViewClosedAt(past, k, o);
  }
}
