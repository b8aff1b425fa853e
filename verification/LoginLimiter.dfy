/** The limiter for remote logins: how many credential checks one address can get, over any
    run of login calls by any clients. */
module LoginLimiter {
  import opened Prelude

  const MAX_FAILURES: nat := 5
  const WINDOW_MS: int := 15 * 60 * 1000

  datatype Window = Window(failures: nat, startedAt: int)

  type Table = map<string, Window>

  /** White space as string trimming has it. */
  predicate IsSpace(c: char) {
    || '\t' <= c <= '\r' || c == ' ' || c == '\U{00A0}' || c == '\U{1680}' || '\U{2000}' <= c <= '\U{200A}'
    || c == '\U{2028}' || c == '\U{2029}' || c == '\U{202F}' || c == '\U{205F}' || c == '\U{3000}' || c == '\U{FEFF}'
  }

  function Trim(s: string): (r: string) {
    if |s| > 0 && IsSpace(s[0]) then Trim(s[1..])
    else if |s| > 0 && IsSpace(s[|s| - 1]) then Trim(s[..|s| - 1])
    else s
  }

  function AttemptKey(address: Option<string>): (key: string)
    ensures key != ""
  {
    if address.Some? && Trim(address.value) != "" then Trim(address.value) else "unknown"
  }

  // --- which addresses share a window ---

  predicate Blank(s: string) {
    forall i :: 0 <= i < |s| ==> IsSpace(s[i])
  }

  /** Text without white space at its ends. */
  predicate Stripped(s: string) {
    |s| > 0 ==> !IsSpace(s[0]) && !IsSpace(s[|s| - 1])
  }

  /** The address is `core` with white space around it. */
  ghost predicate Spells(address: Option<string>, core: string) {
    address.Some? && exists before, after :: Blank(before) && Blank(after) && address.value == before + core + after
  }

  lemma {:induction false} TrimmedParts(s: string) returns (before: string, after: string)
    ensures Blank(before) && Blank(after) && s == before + Trim(s) + after && Stripped(Trim(s))
    decreases |s|
  {
    hide IsSpace;
    before, after := "", "";
    if |s| > 0 && IsSpace(s[0]) {
      var inner;
      inner, after := TrimmedParts(s[1..]);
      before := [s[0]] + inner;
      assert s == [s[0]] + s[1..];
      assert [s[0]] + (inner + Trim(s) + after) == before + Trim(s) + after;
    } else if |s| > 0 && IsSpace(s[|s| - 1]) {
      var inner;
      before, inner := TrimmedParts(s[..|s| - 1]);
      after := inner + [s[|s| - 1]];
      assert s == s[..|s| - 1] + [s[|s| - 1]];
      assert (before + Trim(s) + inner) + [s[|s| - 1]] == before + Trim(s) + after;
    } else {
      assert Trim(s) == s && "" + s + "" == s;
    }
  }

  /** Trimming gives back whatever stripped text white space was put around. */
  lemma {:induction false} TrimStrips(before: string, core: string, after: string)
    requires Blank(before) && Blank(after) && Stripped(core)
    ensures Trim(before + core + after) == core
    decreases |before| + |after|
  {
    var s := before + core + after;
    if |before| > 0 {
      assert s[1..] == before[1..] + core + after;
      TrimStrips(before[1..], core, after);
    } else if |after| > 0 && core == "" {
      assert s[1..] == before + core + after[1..];
      TrimStrips(before, core, after[1..]);
    } else if |after| > 0 {
      assert s[..|s| - 1] == before + core + after[..|after| - 1];
      assert s[0] == core[0];
      TrimStrips(before, core, after[..|after| - 1]);
    }
  }

  lemma {:induction false} SpellsTrimmed(address: Option<string>, core: string)
    requires Stripped(core)
    ensures Spells(address, core) <==> address.Some? && Trim(address.value) == core
  {
    if address.Some? {
      if before, after :| Blank(before) && Blank(after) && address.value == before + core + after {
        TrimStrips(before, core, after);
      }
      var before, after := TrimmedParts(address.value);
    }
  }

  /** Two callers are counted together exactly when their addresses differ in surrounding white
      space only, where a missing or blank address reads "unknown". */
  lemma {:induction false} KeyIsAddress(address: Option<string>, core: string)
    requires Stripped(core) && core != ""
    ensures AttemptKey(address) == core
            <==> Spells(address, core) || (core == "unknown" && (address.None? || Blank(address.value)))
  {
    SpellsTrimmed(address, core);
    if address.Some? {
      SpellsTrimmed(address, "");
      BlankSpells(address.value);
    }
  }

  lemma BlankSpells(s: string)
    ensures Blank(s) <==> Spells(Some(s), "")
  {
    hide IsSpace;
    if Blank(s) {
      assert Blank("") && s == s + "" + "";
    }
  }

  // --- one key ---

  predicate IsOver(w: Option<Window>, now: int) {
    w.None? || now - w.value.startedAt > WINDOW_MS
  }

  /** The window a call at `now` finds or starts. */
  function Current(w: Option<Window>, now: int): (r: Window) {
    if IsOver(w, now) then Window(0, now) else w.value
  }

  /** The window after a failure at `now`. */
  function Failed(w: Option<Window>, now: int): (r: Window) {
    if IsOver(w, now) then Window(1, now) else w.value.(failures := w.value.failures + 1)
  }

  // --- one call ---

  /** A login call: `forced` if it is remote and only single sign-on is allowed, `valid` if
      its credentials are right; the clock is read at `first`, and at `second` if they are not. */
  datatype Call = Call(address: Option<string>, loopback: bool, forced: bool, first: int, second: int, valid: bool)

  datatype Answer = Accepted | Rejected401 | ForceSso401 | Limited429

  function Find(table: Table, key: string): (w: Option<Window>) {
    if key in table then Some(table[key]) else None
  }

  /** Whether the call gets as far as having its credentials checked. */
  predicate IsChecked(table: Table, c: Call) {
    !c.forced && (c.loopback || Current(Find(table, AttemptKey(c.address)), c.first).failures < MAX_FAILURES)
  }

  function AnswerTo(table: Table, c: Call): (a: Answer) {
    if c.forced then ForceSso401
    else if !IsChecked(table, c) then Limited429
    else if c.valid then Accepted
    else Rejected401
  }

  /** The table after the call. */
  function After(table: Table, c: Call): (r: Table) {
    var key := AttemptKey(c.address);
    if c.forced then table
    else
      var seen := if c.loopback then table else table[key := Current(Find(table, key), c.first)];
      if !IsChecked(table, c) then seen
      else if c.valid then seen - {key}
      else if c.loopback then seen
      else seen[key := Failed(Find(seen, key), c.second)]
  }

  /** A call leaves every other key's window as it was. */
  lemma OtherKeyKept(table: Table, c: Call, key: string)
    requires AttemptKey(c.address) != key
    ensures Find(After(table, c), key) == Find(table, key)
  {
    hide AttemptKey;
  }

  /** A call's answer, and what it leaves of its own window, depend on that window only. */
  lemma OwnKeyOnly(table: Table, other: Table, c: Call)
    requires Find(table, AttemptKey(c.address)) == Find(other, AttemptKey(c.address))
    ensures AnswerTo(table, c) == AnswerTo(other, c)
    ensures Find(After(table, c), AttemptKey(c.address)) == Find(After(other, c), AttemptKey(c.address))
  {
    hide AttemptKey;
  }

  /** A login that succeeds wipes out the failures before it: whoever calls next from that
      address, at any time, has the credentials checked. */
  lemma SuccessForgives(table: Table, c: Call, next: Call)
    requires AnswerTo(table, c) == Accepted
    requires AttemptKey(next.address) == AttemptKey(c.address) && !next.forced
    ensures AnswerTo(After(table, c), next) in {Accepted, Rejected401}
  {
    hide AttemptKey;
  }

  /** Five failures within a window lock the address for exactly the rest of it. */
  lemma FiveLock(table: Table, c: Call, start: int)
    requires Find(table, AttemptKey(c.address)) == Some(Window(5, start))
    requires !c.forced && !c.loopback && start <= c.first
    ensures AnswerTo(table, c) == Limited429 <==> c.first <= start + 900_000
  {
    hide AttemptKey;
  }

  /** Local callers are never locked out and never lock anybody out. */
  lemma LoopbackUncounted(table: Table, c: Call, key: string)
    requires c.loopback && !c.forced
    ensures AnswerTo(table, c) == if c.valid then Accepted else Rejected401
    ensures Find(After(table, c), key) == Find(table, key) || (c.valid && Find(After(table, c), key).None?)
  {
    hide AttemptKey;
  }

  class Limiter {
    var attempts: Table

    constructor ()
      ensures attempts == map[]
    {
      attempts := map[];
    }

    method Consume(address: Option<string>, loopback: bool, now: int) returns (allowed: bool)
      modifies this
      ensures var key := AttemptKey(address); var w := Current(Find(old(attempts), key), now);
              && attempts == (if loopback then old(attempts) else old(attempts)[key := w])
              && (allowed <==> loopback || w.failures < MAX_FAILURES)
    {
      if loopback {
        return true;
      }
      var key := AttemptKey(address);
      if key !in attempts || now - attempts[key].startedAt > WINDOW_MS {
        attempts := attempts[key := Window(0, now)];
        return true;
      }
      allowed := attempts[key].failures < MAX_FAILURES;
    }

    method RecordFailure(address: Option<string>, loopback: bool, now: int)
      modifies this
      ensures var key := AttemptKey(address);
              attempts == if loopback then old(attempts)
                          else old(attempts)[key := Failed(Find(old(attempts), key), now)]
    {
      if loopback {
        return;
      }
      var key := AttemptKey(address);
      if key !in attempts || now - attempts[key].startedAt > WINDOW_MS {
        attempts := attempts[key := Window(1, now)];
        return;
      }
      var current := attempts[key];
      attempts := attempts[key := current.(failures := current.failures + 1)];
    }

    method Reset(address: Option<string>)
      modifies this
      ensures attempts == old(attempts) - {AttemptKey(address)}
    {
      attempts := attempts - {AttemptKey(address)};
    }

    method Validate(c: Call) returns (answer: Answer)
      modifies this
      ensures attempts == After(old(attempts), c) && answer == AnswerTo(old(attempts), c)
    {
      if c.forced {
        return ForceSso401;
      }
      var allowed := Consume(c.address, c.loopback, c.first);
      if !allowed {
        return Limited429;
      }
      if !c.valid {
        RecordFailure(c.address, c.loopback, c.second);
        return Rejected401;
      }
      Reset(c.address);
      answer := Accepted;
    }
  }

  // --- runs ---

  function TableAfter(calls: seq<Call>): (table: Table) {
    if |calls| == 0 then map[] else After(TableAfter(calls[..|calls| - 1]), calls[|calls| - 1])
  }

  /** The answers a run gives to the calls from one address. */
  ghost function AnswersFrom(calls: seq<Call>, core: string): (answers: seq<Answer>) {
    if |calls| == 0 then []
    else
      var front, c := calls[..|calls| - 1], calls[|calls| - 1];
      AnswersFrom(front, core) + if Spells(c.address, core) then [AnswerTo(TableAfter(front), c)] else []
  }

  /** The run as it would be without anybody else's calls. */
  ghost function Alone(calls: seq<Call>, core: string): (own: seq<Call>) {
    if |calls| == 0 then []
    else
      var front, c := calls[..|calls| - 1], calls[|calls| - 1];
      Alone(front, core) + if Spells(c.address, core) then [c] else []
  }

  /** Addresses do not influence each other: whoever else calls, in any order and with any
      outcome, an address gets the answers it would get alone, and is left with the same window. */
  lemma {:induction false} AddressesIndependent(calls: seq<Call>, core: string)
    requires Stripped(core) && core != "" && core != "unknown"
    ensures AnswersFrom(calls, core) == AnswersFrom(Alone(calls, core), core)
    ensures Find(TableAfter(calls), core) == Find(TableAfter(Alone(calls, core)), core)
    decreases |calls|
  {
    hide AnswerTo, After, Spells, AttemptKey;
    if |calls| > 0 {
      var front, c := calls[..|calls| - 1], calls[|calls| - 1];
      AddressesIndependent(front, core);
      KeyIsAddress(c.address, core);
      var own := Alone(front, core);
      if Spells(c.address, core) {
        OwnKeyOnly(TableAfter(front), TableAfter(own), c);
        assert (own + [c])[..|own|] == own;
      } else {
        OtherKeyKept(TableAfter(front), c, core);
        assert own + [] == own;
      }
    }
  }

  /** A credential check granted to a remote caller, and the start of the window it fell in. */
  datatype Check = Check(at: int, start: int)

  /** The checks the run grants to remote callers of one key. */
  function ChecksOf(calls: seq<Call>, key: string): (checks: seq<Check>) {
    if |calls| == 0 then []
    else
      var front, c := calls[..|calls| - 1], calls[|calls| - 1];
      if AttemptKey(c.address) == key && !c.loopback && IsChecked(TableAfter(front), c) then
        ChecksOf(front, key) + [Check(c.first, Current(Find(TableAfter(front), key), c.first).startedAt)]
      else ChecksOf(front, key)
  }

  /** The clock never runs backwards, and nobody logs in under `key`. */
  predicate FailingRun(calls: seq<Call>, key: string) {
    && (forall i :: 0 <= i < |calls| ==> calls[i].first <= calls[i].second)
    && (forall i :: 0 <= i < |calls| - 1 ==> calls[i].second <= calls[i + 1].first)
    && (forall i :: 0 <= i < |calls| && AttemptKey(calls[i].address) == key ==> !calls[i].valid)
  }

  /** All that matters of the past: `checks` were granted up to time `t`, and the last
      `w.failures` of them, no others, are charged to the window `w`. */
  predicate Charged(w: Option<Window>, checks: seq<Check>, t: int) {
    var n: nat := |checks|;
    && (forall k :: 0 <= k < n ==> checks[k].start <= checks[k].at <= checks[k].start + WINDOW_MS && checks[k].at <= t)
    && (forall j, k :: 0 <= j < k < n ==> checks[j].start <= checks[k].start && checks[j].at <= checks[k].at)
    && (w.None? ==> n == 0)
    && (w.Some? ==>
          && w.value.failures <= n && w.value.startedAt <= t
          && (forall k :: 0 <= k < n ==>
                checks[k].start == w.value.startedAt || checks[k].start + WINDOW_MS < w.value.startedAt)
          && (forall k :: 0 <= k < n - w.value.failures ==> checks[k].start + WINDOW_MS < w.value.startedAt)
          && (w.value.failures > 0 && checks[n - w.value.failures].start == w.value.startedAt ==>
                checks[n - w.value.failures].at == w.value.startedAt))
  }

  /** The sixth check is in a later window; the fifth in a window comes with its opening one. */
  predicate Spaced(checks: seq<Check>) {
    && (forall j, k :: 0 <= j < k < |checks| ==>
          checks[j].start == checks[k].start || checks[j].start + WINDOW_MS < checks[k].start)
    && (forall k :: 0 <= k < |checks| - 5 ==> checks[k].start + WINDOW_MS < checks[k + 5].start)
    && (forall k :: 0 <= k < |checks| - 4 && checks[k].start == checks[k + 4].start ==> checks[k].at == checks[k].start)
  }

  /** Finding or starting a window charges nothing. */
  lemma CurrentKeeps(w: Option<Window>, checks: seq<Check>, t: int, now: int)
    requires Charged(w, checks, t) && t <= now && (w.Some? ==> w.value.failures > 0)
    ensures Charged(Some(Current(w, now)), checks, now)
    ensures Current(w, now).failures == 0 ==> now == Current(w, now).startedAt
    ensures Current(w, now).startedAt <= now <= Current(w, now).startedAt + WINDOW_MS
  {
  }

  /** A granted check that fails is charged to the window it fell in, or opens the next. */
  lemma FailureCharges(w: Window, checks: seq<Check>, now: int, later: int)
    requires Charged(Some(w), checks, now) && w.startedAt <= now <= w.startedAt + WINDOW_MS && now <= later
    requires w.failures == 0 ==> now == w.startedAt
    ensures Charged(Some(Failed(Some(w), later)), checks + [Check(now, w.startedAt)], later)
    ensures Failed(Some(w), later).failures > 0
  {
    var after, f := checks + [Check(now, w.startedAt)], Failed(Some(w), later);
    if !IsOver(Some(w), later) && w.failures > 0 {
      assert after[|after| - f.failures] == checks[|checks| - w.failures];
    }
  }

  lemma GrantSpaces(w: Window, checks: seq<Check>, now: int)
    requires Charged(Some(w), checks, now) && Spaced(checks) && w.failures < MAX_FAILURES
    ensures Spaced(checks + [Check(now, w.startedAt)])
  {
    var n: nat := |checks|;
    var after := checks + [Check(now, w.startedAt)];
    forall j, k | 0 <= j < k <= n
      ensures after[j].start == after[k].start || after[j].start + WINDOW_MS < after[k].start
    {
      assert after[j] == checks[j] && (k < n ==> after[k] == checks[k]);
    }
    forall k | 0 <= k <= n - 5 ensures after[k].start + WINDOW_MS < after[k + 5].start {
      assert after[k] == checks[k] && (k < n - 5 ==> after[k + 5] == checks[k + 5]);
    }
    forall k | 0 <= k <= n - 4 && after[k].start == after[k + 4].start ensures after[k].at == after[k].start {
      assert after[k] == checks[k] && (k < n - 4 ==> after[k + 4] == checks[k + 4]);
      if k == n - 4 {
        assert w.failures == 4;
      }
    }
  }

  function LastTime(calls: seq<Call>, otherwise: int): (t: int) {
    if |calls| == 0 then otherwise else calls[|calls| - 1].second
  }

  lemma LaterStillCharged(w: Option<Window>, checks: seq<Check>, t: int, later: int)
    requires Charged(w, checks, t) && t <= later
    ensures Charged(w, checks, later)
  {
  }

  /** After any failing run the past is as `Charged` and `Spaced` say. */
  lemma {:induction false} RunCharges(calls: seq<Call>, key: string, t: int)
    requires FailingRun(calls, key) && (|calls| > 0 ==> t <= calls[0].first)
    ensures Charged(Find(TableAfter(calls), key), ChecksOf(calls, key), LastTime(calls, t))
    ensures Spaced(ChecksOf(calls, key))
    ensures key in TableAfter(calls) ==> TableAfter(calls)[key].failures > 0
    decreases |calls|
  {
    hide Charged, Spaced, AttemptKey, Current, Failed, FailingRun;
    if |calls| == 0 {
      NothingCharged(t);
    } else {
      var front, c := calls[..|calls| - 1], calls[|calls| - 1];
      FrontFails(calls, key);
      RunCharges(front, key, t);
      var table, checks, last := TableAfter(front), ChecksOf(front, key), LastTime(front, t);
      TimesFit(calls, key, t);
      var w := Find(table, key);
      LaterStillCharged(w, checks, last, c.second);
      if AttemptKey(c.address) == key && !c.forced && !c.loopback {
        var found := Current(w, c.first);
        CurrentKeeps(w, checks, last, c.first);
        if IsChecked(table, c) {
          FailureCharges(found, checks, c.first, c.second);
          GrantSpaces(found, checks, c.first);
        } else {
          LaterStillCharged(Some(found), checks, c.first, c.second);
        }
      }
    }
  }

  lemma NothingCharged(t: int)
    ensures Charged(None, [], t) && Spaced([])
  {
  }

  lemma FrontFails(calls: seq<Call>, key: string)
    requires FailingRun(calls, key) && |calls| > 0
    ensures FailingRun(calls[..|calls| - 1], key)
    ensures AttemptKey(calls[|calls| - 1].address) == key ==> !calls[|calls| - 1].valid
  {
    hide AttemptKey;
  }

  lemma TimesFit(calls: seq<Call>, key: string, t: int)
    requires FailingRun(calls, key) && |calls| > 0 && t <= calls[0].first
    ensures var front, c := calls[..|calls| - 1], calls[|calls| - 1];
            LastTime(front, t) <= c.first <= c.second
  {
    hide AttemptKey;
    var n := |calls| - 1;
    if n > 0 {
      assert calls[n - 1].second <= calls[n - 1 + 1].first;
    }
  }

  /** At most five checks fall in one window. */
  lemma {:induction false} FivePerWindow(calls: seq<Call>, key: string, i: nat, j: nat)
    requires FailingRun(calls, key) && i <= j < |ChecksOf(calls, key)|
    requires ChecksOf(calls, key)[i].start == ChecksOf(calls, key)[j].start
    ensures j - i < 5
  {
    hide FailingRun;
    var checks := ChecksOf(calls, key);
    assert |calls| > 0;
    RunCharges(calls, key, calls[0].first);
    SixSpread(checks, i, j, LastTime(calls, 0), Find(TableAfter(calls), key));
  }

  /** Any stretch of time as long as a window sees at most nine checks of one address. */
  lemma {:induction false} NinePerSpan(calls: seq<Call>, key: string, i: nat, j: nat)
    requires FailingRun(calls, key) && i <= j < |ChecksOf(calls, key)|
    requires ChecksOf(calls, key)[j].at - ChecksOf(calls, key)[i].at <= 900_000
    ensures j - i < 9
  {
    hide FailingRun;
    var checks := ChecksOf(calls, key);
    assert |calls| > 0;
    RunCharges(calls, key, calls[0].first);
    TenSpread(checks, i, j, LastTime(calls, 0), Find(TableAfter(calls), key));
  }

  lemma SixSpread(checks: seq<Check>, i: nat, j: nat, t: int, w: Option<Window>)
    requires Charged(w, checks, t) && Spaced(checks) && i < |checks| && j < |checks|
    ensures i + 5 <= j ==> checks[i].start < checks[j].start
  {
    assert i + 5 <= j ==> checks[i].start + WINDOW_MS < checks[i + 5].start;
  }

  lemma TenSpread(checks: seq<Check>, i: nat, j: nat, t: int, w: Option<Window>)
    requires Charged(w, checks, t) && Spaced(checks) && i < |checks| && j < |checks|
    ensures i + 9 <= j ==> checks[j].at - checks[i].at > WINDOW_MS
  {
    if i + 9 <= j {
      assert checks[i + 4].start + WINDOW_MS < checks[i + 4 + 5].start;
      assert checks[i + 9].start <= checks[i + 9].at <= checks[j].at;
      if checks[i].start == checks[i + 4].start {
        assert checks[i].at == checks[i].start;
      } else {
        assert checks[i].start + WINDOW_MS < checks[i + 4].start;
      }
    }
  }

  // --- nine is reached ---

  /** One attempt at the very start of a window, four at its last moment, then five more
      one millisecond later. */
  function BurstTime(i: nat): (t: int) {
    if i == 0 then 0 else if i < 5 then WINDOW_MS else WINDOW_MS + 1
  }

  function Burst(n: nat): (calls: seq<Call>)
    ensures |calls| == n
    ensures forall i :: 0 <= i < n ==>
      calls[i] == Call(Some("peer"), false, false, BurstTime(i), BurstTime(i), false)
  {
    seq(n, i requires 0 <= i < n => Call(Some("peer"), false, false, BurstTime(i), BurstTime(i), false))
  }

  lemma GrantedAndFailed(table: Table, t: int, key: string)
    requires key == AttemptKey(Some("peer")) && Current(Find(table, key), t).failures < MAX_FAILURES
    ensures var c, w := Call(Some("peer"), false, false, t, t, false), Current(Find(table, key), t);
            IsChecked(table, c) && Find(After(table, c), key) == Some(Window(w.failures + 1, w.startedAt))
  {
    hide AttemptKey;
  }

  lemma {:induction false} BurstState(n: nat, key: string)
    requires n <= 10 && key == AttemptKey(Some("peer"))
    ensures Find(TableAfter(Burst(n)), key) ==
            if n == 0 then None else Some(if n <= 5 then Window(n, 0) else Window(n - 5, WINDOW_MS + 1))
    ensures |ChecksOf(Burst(n), key)| == n && forall i :: 0 <= i < n ==> ChecksOf(Burst(n), key)[i].at == BurstTime(i)
  {
    hide AttemptKey, IsChecked, After;
    if n > 0 {
      BurstState(n - 1, key);
      assert Burst(n)[..n - 1] == Burst(n - 1);
      GrantedAndFailed(TableAfter(Burst(n - 1)), BurstTime(n - 1), key);
    }
  }

  /** The bound of nine per stretch is exact: here nine checks fall within one millisecond. */
  lemma NineReached() returns (calls: seq<Call>, key: string)
    ensures FailingRun(calls, key) && |ChecksOf(calls, key)| == 10
    ensures ChecksOf(calls, key)[9].at - ChecksOf(calls, key)[1].at == 1
  {
    hide AttemptKey;
    calls, key := Burst(10), AttemptKey(Some("peer"));
    BurstState(10, key);
  }
}
