/** The read-only MSI reader: every native handle it is given is handed back, newest first,
    whatever the native side answers. A native call, a callback or a quota may throw at any
    point; where the reader retains its state for good, the method never returns. */
module MsiReader {
  import opened Prelude
  import opened HandleTrace

  /** How a method ends. `Stuck` is the retention loop: control never comes back. */
  datatype Outcome = Returned | Threw | Stuck {
    predicate IsFailure() {
      !Returned?
    }

    function PropagateFailure(): Outcome
      requires !Returned?
    {
      this
    }
  }

  // --- quotas ---

  const RECEIPT_LIMIT: int := 536870912
  const ROW_LIMIT: int := 500000
  const STREAM_LIMIT: int := 268435456

  class Budget {
    var rows: int
    var streamBytes: int
    var receiptBytes: int

    ghost predicate Valid()
      reads this
    {
      0 <= receiptBytes <= RECEIPT_LIMIT && 0 <= streamBytes <= STREAM_LIMIT && 0 <= rows
    }

    constructor ()
      ensures Valid()
    {
      rows, streamBytes, receiptBytes := 0, 0, 0;
    }

    method Charge(bytes: int) returns (o: Outcome)
      requires Valid()
      modifies this`receiptBytes
      ensures Valid() && o != Stuck
      ensures o == Returned <==> 0 <= bytes <= 536870912 - old(receiptBytes)
      ensures receiptBytes == old(receiptBytes) + if o == Returned then bytes else 0
    {
      if bytes < 0 || bytes > RECEIPT_LIMIT - receiptBytes {
        return Threw;
      }
      receiptBytes := receiptBytes + bytes;
      o := Returned;
    }

    method Row(tableRows: int) returns (o: Outcome)
      requires Valid()
      modifies this
      ensures Valid() && o != Stuck && streamBytes == old(streamBytes)
      ensures o == Returned <==>
        tableRows <= 100000 && old(rows) < 500000 && 128 <= 536870912 - old(receiptBytes)
      ensures rows == old(rows) + (if tableRows <= 100000 then 1 else 0)
      ensures receiptBytes == old(receiptBytes) + if o == Returned then 128 else 0
    {
      if tableRows > 100000 {
        return Threw;
      }
      rows := rows + 1;
      if rows > ROW_LIMIT {
        return Threw;
      }
      o := Charge(128);
    }

    method Stream(bytes: int) returns (o: Outcome)
      requires Valid()
      modifies this
      ensures Valid() && o != Stuck && rows == old(rows)
      ensures o == Returned <==>
        0 <= bytes <= 268435456 - old(streamBytes) && bytes * 2 + 128 <= 536870912 - old(receiptBytes)
      ensures streamBytes == old(streamBytes) + if 0 <= bytes <= 268435456 - old(streamBytes) then bytes else 0
      ensures receiptBytes == old(receiptBytes) + if o == Returned then bytes * 2 + 128 else 0
    {
      if bytes < 0 || bytes > STREAM_LIMIT - streamBytes {
        return Threw;
      }
      streamBytes := streamBytes + bytes;
      o := Charge(bytes * 2 + 128);
    }
  }

  // --- the resource list ---

  datatype Resource = Resource(handle: nat, view: bool, closeStatus: Option<nat>, viewCloseStatus: Option<nat>)

  predicate ClosedWell(r: Resource) {
    r.closeStatus == Some(0) && (r.view ==> r.viewCloseStatus == Some(0))
  }

  predicate Tracks(r: Resource, s: Slot) {
    && r.view == s.view
    && (!s.failed ==> r.closeStatus.None?)
    && (s.viewClosed ==> r.viewCloseStatus == Some(0))
  }

  /** The list says of every resource what the trace says. */
  ghost predicate Recorded(resources: seq<Resource>, m: Machine) {
    && m.Machine? && |resources| == m.count && Ordinals(m.open, m.count)
    && (forall i :: 0 <= i < |resources| ==> resources[i].handle != 0)
    && (forall k :: 0 <= k < |m.open| ==> Tracks(resources[m.open[k].ordinal - 1], m.open[k]))
    && (forall i: nat :: i < |resources| && !IsOpen(m.open, i + 1) ==> ClosedWell(resources[i]))
  }

  lemma RecordAcquire(resources: seq<Resource>, m: Machine, handle: nat, view: bool)
    requires Recorded(resources, m) && handle != 0
    ensures Recorded(resources + [Resource(handle, view, None, None)], Advance(m, Acquired(|resources| + 1, view)))
  {
    hide ClosedWell;
    var after := Advance(m, Acquired(|resources| + 1, view));
    assert after.open[|m.open|].ordinal == |resources| + 1;
    forall o | IsOpen(m.open, o) ensures IsOpen(after.open, o) {
      StillOpen(m.open, after.open, o);
    }
  }

  lemma StillOpen(open: seq<Slot>, after: seq<Slot>, o: nat)
    requires IsOpen(open, o)
    requires forall k :: 0 <= k < |open| && open[k].ordinal == o ==> k < |after| && after[k].ordinal == o
    ensures IsOpen(after, o)
  {
    var k :| 0 <= k < |open| && open[k].ordinal == o;
    assert after[k].ordinal == o;
  }

  /** Only the entry of the newest open resource may change, together with its slot. */
  lemma RecordTop(resources: seq<Resource>, m: Machine, r: Resource, s: Slot)
    requires Recorded(resources, m) && |m.open| > 0 && s.ordinal == Top(m.open).ordinal
    requires r.handle != 0 && Tracks(r, s)
    ensures Recorded(resources[s.ordinal - 1 := r], Machine(Rest(m.open) + [s], m.count))
  {
    hide Tracks, ClosedWell;
    var open := Rest(m.open) + [s];
    assert open[|open| - 1].ordinal == s.ordinal;
    forall o | IsOpen(m.open, o) ensures IsOpen(open, o) {
      StillOpen(m.open, open, o);
    }
  }

  lemma TopRecorded(resources: seq<Resource>, m: Machine)
    requires Recorded(resources, m) && |m.open| > 0
    ensures var s := Top(m.open);
            && 0 < s.ordinal <= |resources| && resources[s.ordinal - 1].handle != 0
            && Tracks(resources[s.ordinal - 1], s)
  {
  }

  lemma RecordClose(resources: seq<Resource>, m: Machine, r: Resource)
    requires Recorded(resources, m) && |m.open| > 0 && r.handle != 0 && ClosedWell(r)
    ensures Recorded(resources[Top(m.open).ordinal - 1 := r], Machine(Rest(m.open), m.count))
  {
    hide Tracks, ClosedWell;
    var open := Rest(m.open);
    forall o | IsOpen(m.open, o) && o != Top(m.open).ordinal ensures IsOpen(open, o) {
      StillOpen(m.open, open, o);
    }
  }

  function OpenOf(trace: seq<Event>): (open: seq<Slot>) {
    match Run(trace)
    case Machine(open, _) => open
    case Bad => []
  }

  lemma {:induction false} OpenRecorded(resources: seq<Resource>, trace: seq<Event>)
    requires Recorded(resources, Run(trace)) && |OpenOf(trace)| > 0
    ensures var s := Top(OpenOf(trace));
            0 < s.ordinal <= |resources| && Tracks(resources[s.ordinal - 1], s)
  {
    hide Recorded;
    TopRecorded(resources, Run(trace));
  }

  /** A handle was acquired on top of what was open, or none was. */
  predicate SlotTaken(slot: Option<nat>, view: bool, before: seq<Slot>, after: seq<Slot>) {
    match slot
    case None => after == before
    case Some(o) => after == before + [Slot(o, view, false, false)]
  }

  lemma NothingTaken(view: bool, open: seq<Slot>)
    ensures SlotTaken(None, view, open, open)
  {
  }

  lemma {:induction false} AcquisitionRecorded(resources: seq<Resource>, trace: seq<Event>, handle: nat, view: bool)
    requires Recorded(resources, Run(trace)) && handle != 0
    ensures var more := trace + [Acquired(|resources| + 1, view)];
            && Recorded(resources + [Resource(handle, view, None, None)], Run(more))
            && SlotTaken(Some(|resources| + 1), view, OpenOf(trace), OpenOf(more))
  {
    var acquired := Acquired(|resources| + 1, view);
    RunSnoc(trace, acquired);
    RecordAcquire(resources, Run(trace), handle, view);
    hide Recorded;
    assert Run(trace).Machine? by { RunsOn(resources, Run(trace)); }
  }

  lemma RunsOn(resources: seq<Resource>, m: Machine)
    requires Recorded(resources, m)
    ensures m.Machine? && m.count == |resources|
  {
  }

  const TABLE_COUNT: nat := 20

  class Reader {
    var resources: seq<Resource>
    var pendingCall: bool
    var capturing: bool
    var entered: bool
    const budget: Budget
    ghost var trace: seq<Event>

    ghost predicate Valid()
      reads this, budget
    {
      Recorded(resources, Run(trace)) && budget.Valid()
    }

    /** What a method leaves behind: the discipline holds so far, and if control comes back
        the open resources are the same as before. */
    ghost predicate Kept(o: Outcome, before: seq<Event>, wasCapturing: bool)
      reads this, budget
    {
      && Valid() && before <= trace
      && (o != Stuck ==> !pendingCall && capturing == wasCapturing && OpenOf(trace) == OpenOf(before))
    }

    constructor ()
      ensures Valid() && !pendingCall && !capturing && !entered && trace == [] && fresh(budget)
    {
      resources, pendingCall, capturing, entered := [], false, false, false;
      budget := new Budget();
      trace := [];
    }

    /** A callback into the module, which may throw. */
    method Before() returns (o: Outcome)
      ensures o != Stuck
    {
      if * {
        return Threw;
      }
      o := Returned;
    }

    /** A native call that hands out no handle. An exception leaves the call pending. */
    method Call() returns (o: Outcome)
      requires !pendingCall
      modifies this`pendingCall
      ensures o != Threw && (o == Returned ==> !pendingCall)
    {
      pendingCall := true;
      if * {
        return Stuck;
      }
      pendingCall := false;
      o := Returned;
    }

    /** A native call that may hand out a handle: the slot is reserved first and published
        by the call itself. A zero handle acquires nothing. */
    method Acquire(view: bool) returns (o: Outcome, slot: Option<nat>)
      requires Valid() && !pendingCall
      modifies this`pendingCall, this`resources, this`trace
      ensures Valid() && old(trace) <= trace && o != Threw
      ensures o == Returned ==> !pendingCall && SlotTaken(slot, view, OpenOf(old(trace)), OpenOf(trace))
    {
      hide Recorded, Run, OpenOf, SlotTaken;
      NothingTaken(view, OpenOf(trace));
      pendingCall := true;
      if * {
        return Stuck, None;
      }
      var handle: nat := *;
      slot := None;
      if handle != 0 {
        if * {
          return Stuck, None;
        }
        slot := Some(|resources| + 1);
        AcquisitionRecorded(resources, trace, handle, view);
        trace := trace + [Acquired(|resources| + 1, view)];
        resources := resources + [Resource(handle, view, None, None)];
      }
      pendingCall := false;
      o := Returned;
    }

    /** Notes the answer of a call; a failure is followed up with the native error record,
        unless that is what is being read. */
    method Observe(status: nat, error: bool) returns (o: Outcome)
      requires Valid() && !pendingCall
      modifies this, budget
      ensures Kept(o, old(trace), old(capturing))
      decreases if capturing then 0 else 1, 1
    {
      if error && !capturing && status != 0 && status != 234 && status != 259 {
        :- CaptureExtendedError();
      }
      :- Before();
      :- budget.Charge(128);
      o := Returned;
    }

    method CaptureExtendedError() returns (o: Outcome)
      requires Valid() && !pendingCall && !capturing
      modifies this, budget
      ensures Kept(o, old(trace), old(capturing))
      decreases 1, 0
    {
      capturing := true;
      o := CaptureOneExtendedError();
      capturing := false;
    }

    method CaptureOneExtendedError() returns (o: Outcome)
      requires Valid() && !pendingCall && capturing
      modifies this, budget
      ensures Kept(o, old(trace), old(capturing))
      decreases 0, 6
    {
      hide Recorded, Run;
      :- Before();
      var slot :- Acquire(false);
      if slot.None? {
        return Returned;
      }
      o := ErrorFields();
      if o != Stuck {
        var r := Release(slot);
        o := if r == Stuck then Stuck else o;
      }
    }

    method ErrorFields() returns (o: Outcome)
      requires Valid() && !pendingCall && capturing
      modifies this, budget
      ensures Kept(o, old(trace), old(capturing))
      decreases 0, 5
    {
      hide Recorded, Run, OpenOf;
      var count :- FieldCount();
      for field := 0 to count + 1
        invariant Kept(Returned, old(trace), old(capturing)) && capturing
      {
        :- Before();
        :- Call();
        var isNull: int := *;
        if isNull == 0 {
          :- Before();
          :- Call();
          :- ReadText(false);
        }
      }
      o := Returned;
    }

    method FieldCount() returns (o: Outcome, count: nat)
      requires Valid() && !pendingCall
      modifies this`pendingCall
      ensures Kept(o, old(trace), old(capturing)) && (o == Returned ==> count <= 64)
    {
      count := 0;
      :- Before();
      :- Call();
      count := *;
      if count > 64 {
        return Threw, count;
      }
      o := Returned;
    }

    method ReadText(capture: bool) returns (o: Outcome)
      requires Valid() && !pendingCall
      modifies this, budget
      ensures Kept(o, old(trace), old(capturing))
      decreases if capturing then 0 else 1, 3
    {
      hide Recorded, Run, OpenOf;
      :- Before();
      :- Call();
      var status: nat, count: nat := *, *;
      :- Observe(status, capture);
      if (status != 0 && status != 234) || count > 1048576 {
        return Threw;
      }
      :- budget.Charge(count * 12 + 128);
      :- Before();
      :- Call();
      var available: nat, length: nat := *, *;
      status := *;
      :- Observe(status, capture);
      if status != 0 || available != count || length != count {
        return Threw;
      }
      o := Returned;
    }

    /** A failure to note the answer of a close does not undo the close. */
    method ObserveCloseResult(status: nat) returns (o: Outcome)
      requires Valid() && !pendingCall
      modifies this, budget
      ensures Kept(o, old(trace), old(capturing)) && o != Threw
      decreases if capturing then 0 else 1, 2
    {
      o := Observe(status, true);
      if o == Threw {
        o := Returned;
      }
    }

    /** Keeps the answer of a view close. */
    method NoteViewClose(ordinal: nat, status: nat)
      requires Valid() && |OpenOf(trace)| > 0 && Top(OpenOf(trace)) == Slot(ordinal, true, false, false)
      modifies this`resources, this`trace
      ensures Valid() && trace == old(trace) + [ViewClosed(ordinal, status)]
      ensures OpenOf(trace) == Rest(OpenOf(old(trace))) + [Slot(ordinal, true, status == 0, status != 0)]
    {
      hide Recorded;
      TopRecorded(resources, Run(trace));
      var r := resources[ordinal - 1].(viewCloseStatus := Some(status));
      RunSnoc(trace, ViewClosed(ordinal, status));
      RecordTop(resources, Run(trace), r, Slot(ordinal, true, status == 0, status != 0));
      trace := trace + [ViewClosed(ordinal, status)];
      resources := resources[ordinal - 1 := r];
    }

    /** Closes the view of the newest open resource. */
    method CloseView(ordinal: nat) returns (o: Outcome)
      requires Valid() && !pendingCall && |OpenOf(trace)| > 0
      requires Top(OpenOf(trace)) == Slot(ordinal, true, false, false)
      modifies this, budget
      ensures Valid() && old(trace) <= trace && o != Threw
      ensures o == Returned ==> !pendingCall && capturing == old(capturing)
                                && OpenOf(trace) == Rest(OpenOf(old(trace))) + [Slot(ordinal, true, true, false)]
      decreases if capturing then 0 else 1, 3
    {
      hide Recorded, OpenOf, Run;
      :- Call();
      var status: nat := *;
      NoteViewClose(ordinal, status);
      :- ObserveCloseResult(status);
      o := if status != 0 then Stuck else Returned;
    }

    /** Keeps the answer of a handle close. */
    method NoteClose(ordinal: nat, status: nat)
      requires Valid() && |OpenOf(trace)| > 0
      requires var s := Top(OpenOf(trace)); s.ordinal == ordinal && !s.failed && s.viewClosed == s.view
      modifies this`resources, this`trace
      ensures Valid() && trace == old(trace) + [Closed(ordinal, status)]
      ensures status == 0 ==> OpenOf(trace) == Rest(OpenOf(old(trace)))
    {
      hide Recorded;
      TopRecorded(resources, Run(trace));
      var r := resources[ordinal - 1].(closeStatus := Some(status));
      RunSnoc(trace, Closed(ordinal, status));
      if status == 0 {
        RecordClose(resources, Run(trace), r);
      } else {
        RecordTop(resources, Run(trace), r, Top(OpenOf(trace)).(failed := true));
      }
      trace := trace + [Closed(ordinal, status)];
      resources := resources[ordinal - 1 := r];
    }

    /** Closes the handle of the newest open resource. */
    method CloseHandle(ordinal: nat) returns (o: Outcome)
      requires Valid() && !pendingCall && |OpenOf(trace)| > 0
      requires var s := Top(OpenOf(trace)); s.ordinal == ordinal && !s.failed && s.viewClosed == s.view
      modifies this, budget
      ensures Valid() && old(trace) <= trace && o != Threw
      ensures o == Returned ==>
        !pendingCall && capturing == old(capturing) && OpenOf(trace) == Rest(OpenOf(old(trace)))
      decreases if capturing then 0 else 1, 3
    {
      hide Recorded, OpenOf, Run;
      :- Call();
      var status: nat := *;
      NoteClose(ordinal, status);
      :- ObserveCloseResult(status);
      o := if status != 0 then Stuck else Returned;
    }

    /** Hands back the newest open resource, if one was acquired. Returns only after every
        close was answered with success. */
    method Release(slot: Option<nat>) returns (o: Outcome)
      requires Valid()
      requires slot.Some? ==> |OpenOf(trace)| > 0 && Top(OpenOf(trace)).ordinal == slot.value
                              && !Top(OpenOf(trace)).failed && !Top(OpenOf(trace)).viewClosed
      modifies this, budget
      ensures Valid() && old(trace) <= trace && o != Threw
      ensures o == Returned ==> !pendingCall && capturing == old(capturing)
                                && OpenOf(trace) == if slot.Some? then Rest(OpenOf(old(trace))) else OpenOf(old(trace))
      decreases if capturing then 0 else 1, 4
    {
      hide Recorded, Run, OpenOf;
      if slot.Some? {
        OpenRecorded(resources, trace);
      }
      if pendingCall {
        return Stuck;
      }
      if slot.None? || resources[slot.value - 1].closeStatus.Some? {
        return Returned;
      }
      if resources[slot.value - 1].view {
        var b := Before();
        if b == Threw {
          return Stuck;
        }
        :- CloseView(slot.value);
      }
      var b := Before();
      if b == Threw {
        return Stuck;
      }
      o := CloseHandle(slot.value);
    }

    /** Column information: the number of columns described. */
    method Info() returns (o: Outcome, count: nat)
      requires Valid() && !pendingCall
      modifies this, budget
      ensures Kept(o, old(trace), old(capturing)) && (o == Returned ==> 0 < count <= 64)
    {
      hide Recorded, Run, OpenOf;
      count := 0;
      :- Before();
      var slot :- Acquire(false);
      o, count := InfoFields(slot);
      if o != Stuck {
        var r := Release(slot);
        o := if r == Stuck then Stuck else o;
      }
    }

    method InfoFields(slot: Option<nat>) returns (o: Outcome, count: nat)
      requires Valid() && !pendingCall
      modifies this, budget
      ensures Kept(o, old(trace), old(capturing)) && (o == Returned ==> 0 < count <= 64)
    {
      hide Recorded, Run, OpenOf;
      count := 0;
      var status: nat := *;
      :- Observe(status, true);
      if status != 0 || slot.None? {
        return Threw, count;
      }
      count :- FieldCount();
      if count == 0 {
        return Threw, count;
      }
      for field := 1 to count + 1
        invariant Kept(Returned, old(trace), old(capturing))
      {
        :- ReadText(true);
      }
      o := Returned;
    }

    /** One cell: what is read depends on its column's descriptor. */
    method Cell() returns (o: Outcome)
      requires Valid() && !pendingCall
      modifies this, budget
      ensures Kept(o, old(trace), old(capturing))
    {
      hide Recorded, Run, OpenOf;
      :- Before();
      :- Call();
      var isNull: int, descriptor: char := *, *;
      if isNull != 0 {
        return Returned;
      }
      if descriptor == 'i' {
        :- Before();
        :- Call();
        var integer: int := *;
        if integer != -0x8000_0000 {
          :- budget.Charge(64);
        }
      } else if descriptor == 's' {
        :- ReadText(true);
      } else if descriptor == 'v' {
        :- ReadStream();
      }
      o := Returned;
    }

    method ReadStream() returns (o: Outcome)
      requires Valid() && !pendingCall
      modifies this, budget
      ensures Kept(o, old(trace), old(capturing))
    {
      hide Recorded, Run, OpenOf;
      var total: nat := 0;
      for index := 0 to 257
        invariant Kept(Returned, old(trace), old(capturing))
      {
        :- Before();
        :- Call();
        var status: nat, count: nat := *, *;
        :- Observe(status, true);
        if status != 0 || count > 65536 {
          return Threw;
        }
        if count == 0 {
          return Returned;
        }
        if count > 16777216 - total {
          return Threw;
        }
        :- budget.Stream(count);
        total := total + count;
      }
      o := Threw;
    }

    /** One table: its view stays open until the last row has been given back. */
    method ReadTable() returns (o: Outcome)
      requires Valid() && !pendingCall
      modifies this, budget
      ensures Kept(o, old(trace), old(capturing))
    {
      hide Recorded, Run, OpenOf;
      :- Before();
      var slot :- Acquire(true);
      o := ReadRows(slot);
      if o != Stuck {
        var r := Release(slot);
        o := if r == Stuck then Stuck else o;
      }
    }

    method ReadRows(slot: Option<nat>) returns (o: Outcome)
      requires Valid() && !pendingCall
      modifies this, budget
      ensures Kept(o, old(trace), old(capturing))
    {
      hide Recorded, Run, OpenOf;
      var status: nat := *;
      :- Observe(status, true);
      if status != 0 || slot.None? {
        return Returned;
      }
      var names :- Info();
      var types :- Info();
      var supported: bool := *;
      if names != types || !supported {
        return Returned;
      }
      :- Before();
      :- Call();
      status := *;
      :- Observe(status, true);
      if status != 0 {
        return Returned;
      }
      for row := 1 to 100002
        invariant Kept(Returned, old(trace), old(capturing))
      {
        var last :- FetchRow(row, types);
        if last {
          return Returned;
        }
      }
      o := Threw;
    }

    /** Fetches one row and gives it back; `last` if the table is done with. */
    method FetchRow(row: nat, types: nat) returns (o: Outcome, last: bool)
      requires Valid() && !pendingCall
      modifies this, budget
      ensures Kept(o, old(trace), old(capturing))
    {
      hide Recorded, Run, OpenOf;
      last := true;
      :- Before();
      var slot :- Acquire(false);
      o, last := ReadCells(slot, row, types);
      if o != Stuck {
        var r := Release(slot);
        o := if r == Stuck then Stuck else o;
      }
    }

    method ReadCells(slot: Option<nat>, row: nat, types: nat) returns (o: Outcome, last: bool)
      requires Valid() && !pendingCall
      modifies this, budget
      ensures Kept(o, old(trace), old(capturing))
    {
      hide Recorded, Run, OpenOf;
      last := true;
      var status: nat := *;
      :- Observe(status, true);
      if status != 0 || slot.None? {
        return Returned, true;
      }
      :- budget.Row(row);
      var count :- FieldCount();
      if count != types {
        return Returned, true;
      }
      for field := 1 to types + 1
        invariant Kept(Returned, old(trace), old(capturing))
      {
        :- Cell();
      }
      return Returned, false;
    }

    method ReadSummary() returns (o: Outcome)
      requires Valid() && !pendingCall
      modifies this, budget
      ensures Kept(o, old(trace), old(capturing))
    {
      hide Recorded, Run, OpenOf;
      :- Before();
      var slot :- Acquire(false);
      o := ReadProperties(slot);
      if o != Stuck {
        var r := Release(slot);
        o := if r == Stuck then Stuck else o;
      }
    }

    method ReadProperties(slot: Option<nat>) returns (o: Outcome)
      requires Valid() && !pendingCall
      modifies this, budget
      ensures Kept(o, old(trace), old(capturing))
    {
      hide Recorded, Run, OpenOf;
      var status: nat := *;
      :- Observe(status, true);
      if status != 0 || slot.None? {
        return Returned;
      }
      for property := 1 to 20
        invariant Kept(Returned, old(trace), old(capturing))
      {
        :- Before();
        :- Call();
        var count: nat := *;
        status := *;
        :- Observe(status, true);
        if status == 0 || status == 234 {
          :- ReadProperty(count);
        }
      }
      o := Returned;
    }

    /** Reads a property a second time, now with room for its text. */
    method ReadProperty(count: nat) returns (o: Outcome)
      requires Valid() && !pendingCall
      modifies this, budget
      ensures Kept(o, old(trace), old(capturing))
    {
      hide Recorded, Run, OpenOf;
      if count > 1048576 {
        return Threw;
      }
      :- budget.Charge(count * 12 + 128);
      :- Before();
      :- Call();
      var status: nat, changed: bool := *, *;
      :- Observe(status, true);
      o := if status != 0 || changed then Threw else Returned;
    }

    /** Everything that happens while the database is open. */
    method ReadDatabase(slot: Option<nat>) returns (o: Outcome)
      requires Valid() && !pendingCall
      modifies this, budget
      ensures Kept(o, old(trace), old(capturing))
    {
      hide Recorded, Run, OpenOf;
      var status: nat := *;
      :- Observe(status, true);
      if status != 0 || slot.None? {
        return Returned;
      }
      :- Before();
      for table := 0 to TABLE_COUNT
        invariant Kept(Returned, old(trace), old(capturing))
      {
        :- ReadTable();
      }
      :- JoinSchema();
      o := ReadSummary();
    }

    /** Compares the tables read with the schema tables; touches no handle. */
    method JoinSchema() returns (o: Outcome)
      ensures o != Stuck
    {
      if * {
        return Threw;
      }
      o := Returned;
    }

    /** Opens the database and reads it; whether that ends well or throws, the database
        handle, if there is one, is the only thing more that is open. */
    method OpenAndRead() returns (o: Outcome, slot: Option<nat>)
      requires Valid() && !pendingCall
      modifies this, budget
      ensures Valid() && old(trace) <= trace
      ensures o != Stuck ==>
        !pendingCall && capturing == old(capturing) && SlotTaken(slot, false, OpenOf(old(trace)), OpenOf(trace))
    {
      hide Recorded, Run, OpenOf;
      slot := None;
      :- Before();
      o, slot := Acquire(false);
      if o == Stuck {
        return;
      }
      o := ReadDatabase(slot);
    }

    /** The whole reading. If it comes back, no handle is open, every resource was closed with
        success (a view's handle after its view), and the trace is well bracketed. */
    method Read() returns (o: Outcome)
      requires Valid() && !pendingCall && OpenOf(trace) == []
      modifies this, budget
      ensures Valid() && old(trace) <= trace
      ensures old(entered) ==> o == Threw && trace == old(trace)
      ensures o != Stuck ==> OpenOf(trace) == [] && forall i :: 0 <= i < |resources| ==> ClosedWell(resources[i])
    {
      hide Recorded, Run, OpenOf;
      AllGivenBack(resources, trace);
      if entered {
        return Threw;
      }
      entered := true;
      :- Before();
      var slot;
      o, slot := OpenAndRead();
      if o == Stuck {
        return;
      }
      if pendingCall {
        return Stuck;
      }
      o := Release(slot);
      AllGivenBack(resources, trace);
    }
  }

  lemma {:induction false} AllGivenBack(resources: seq<Resource>, trace: seq<Event>)
    requires Recorded(resources, Run(trace))
    ensures OpenOf(trace) == [] ==> forall i :: 0 <= i < |resources| ==> ClosedWell(resources[i])
  {
  }
}
