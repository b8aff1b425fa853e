/** The one-shot grants of the Darwin host runner as values: the grant table, the append-only
    journal, and what each step may do to them. */
module GrantLedger {

  const MAX_GRANTS: nat := 64
  const LIFETIME: nat := 60

  /** A slot of the grant table. `pipe` identifies the pipe behind the capability. */
  datatype Grant = Grant(live: bool, pipe: nat, peer: nat, nonce: nat, expiry: nat)

  datatype JobState = Issued | Consumed | Revoked

  datatype Entry = Entry(nonce: nat, expiry: nat, state: JobState)

  /** What became of one journal append: the line is there and success was reported; no line;
      or the line is there although failure was reported, because only the sync failed. */
  datatype Append = Written | Missing | Unsynced

  /** A completion that was answered with success, and the clock it was checked against. */
  datatype Acceptance = Acceptance(nonce: nat, at: nat, expiry: nat)

  /** `outputs` are the nonces whose output file exists, `issuedAt` the clock a grant was
      checked against when issued. */
  datatype Ledger = Ledger(table: seq<Grant>, journal: seq<Entry>, outputs: set<nat>, issuedAt: map<nat, nat>,
                           accepted: seq<Acceptance>)

  function Appended(journal: seq<Entry>, e: Entry, a: Append): (r: seq<Entry>) {
    if a == Missing then journal else journal + [e]
  }

  /** The journal's lines for one nonce. */
  function StatesOf(journal: seq<Entry>, nonce: nat): (states: seq<JobState>) {
    if |journal| == 0 then []
    else
      var front, last := StatesOf(journal[..|journal| - 1], nonce), journal[|journal| - 1];
      if last.nonce == nonce then front + [last.state] else front
  }

  lemma {:induction false} StatesAfter(journal: seq<Entry>, e: Entry, a: Append, nonce: nat)
    ensures StatesOf(Appended(journal, e, a), nonce) ==
            if a != Missing && e.nonce == nonce then StatesOf(journal, nonce) + [e.state] else StatesOf(journal, nonce)
  {
    assert (journal + [e])[..|journal|] == journal;
  }

  /** "issued" first, then at most one of "consumed" and "revoked". */
  predicate Orderly(states: seq<JobState>) {
    states == [] || states == [Issued] || states == [Issued, Consumed] || states == [Issued, Revoked]
  }

  // --- what always holds ---

  predicate LiveNonces(l: Ledger) {
    && (forall i, j :: 0 <= i < j < |l.table| && l.table[i].live && l.table[j].live ==>
                         l.table[i].nonce != l.table[j].nonce)
    && (forall i :: 0 <= i < |l.table| && l.table[i].live ==> LiveOk(l, l.table[i]))
  }

  predicate LiveOk(l: Ledger, g: Grant) {
    && StatesOf(l.journal, g.nonce) == [Issued]
    && g.nonce in l.issuedAt && g.expiry <= l.issuedAt[g.nonce] + LIFETIME
  }

  predicate AcceptedOk(l: Ledger, a: Acceptance) {
    && StatesOf(l.journal, a.nonce) == [Issued, Consumed]
    && a.nonce in l.issuedAt && a.at < a.expiry <= l.issuedAt[a.nonce] + LIFETIME
  }

  predicate AcceptedOnce(l: Ledger) {
    && (forall i, j :: 0 <= i < j < |l.accepted| ==> l.accepted[i].nonce != l.accepted[j].nonce)
    && (forall i :: 0 <= i < |l.accepted| ==> AcceptedOk(l, l.accepted[i]))
  }

  /** Only nonces with an output file are in the journal. */
  ghost predicate Fresh(l: Ledger) {
    forall n: nat :: n !in l.outputs ==> StatesOf(l.journal, n) == []
  }

  ghost predicate Good(l: Ledger) {
    LiveNonces(l) && AcceptedOnce(l) && Fresh(l)
  }

  // --- steps ---

  function Noted(l: Ledger, e: Entry, a: Append): (r: Ledger) {
    l.(journal := Appended(l.journal, e, a))
  }

  /** Takes the grant out of use. */
  function Dropped(l: Ledger, i: nat): (r: Ledger)
    requires i < |l.table|
  {
    l.(table := l.table[i := l.table[i].(live := false)])
  }

  /** Revokes the grant at `i` if it is live; whether the journal takes the line is not looked at. */
  function RevokedAt(l: Ledger, i: nat, a: Append): (r: Ledger)
    requires i < |l.table|
  {
    var g := l.table[i];
    if g.live then Dropped(Noted(l, Entry(g.nonce, g.expiry, Revoked), a), i) else l
  }

  /** A completion that found the live grant at `i`: if all checks passed and the journal
      took the line, the grant is used up; otherwise it is revoked. */
  function CompletedAt(l: Ledger, i: nat, now: nat, checks: bool, a: Append, b: Append): (r: Ledger)
    requires i < |l.table|
  {
    var g := l.table[i];
    if !checks then RevokedAt(l, i, b)
    else
      var noted := Noted(l, Entry(g.nonce, g.expiry, Consumed), a);
      if a == Written then Dropped(noted, i).(accepted := l.accepted + [Acceptance(g.nonce, now, g.expiry)])
      else RevokedAt(noted, i, b)
  }

  /** The output file of `nonce` was created, exclusively, and the journal was asked to note
      the issue; the grant itself is not in the table yet. */
  function Announced(l: Ledger, nonce: nat, expiry: nat, a: Append): (r: Ledger) {
    Noted(l, Entry(nonce, expiry, Issued), a).(outputs := l.outputs + {nonce})
  }

  function Installed(l: Ledger, i: nat, g: Grant, now: nat): (r: Ledger)
    requires i < |l.table|
  {
    l.(table := l.table[i := g], issuedAt := l.issuedAt[g.nonce := now])
  }

  /** The daemon dies and starts again: the table is gone, the files stay. */
  function Restarted(l: Ledger): (r: Ledger)
    ensures |r.table| == |l.table|
  {
    l.(table := seq(|l.table|, i requires 0 <= i < |l.table| => l.table[i].(live := false)))
  }

  // --- every step keeps what always holds ---

  lemma {:induction false} NotedElsewhere(l: Ledger, e: Entry, a: Append, n: nat)
    requires n != e.nonce
    ensures StatesOf(Noted(l, e, a).journal, n) == StatesOf(l.journal, n)
  {
    StatesAfter(l.journal, e, a, n);
  }

  /** A live grant has not been accepted, and no other live grant has its nonce. */
  lemma LiveIsAlone(l: Ledger, i: nat)
    requires LiveNonces(l) && AcceptedOnce(l) && i < |l.table| && l.table[i].live
    ensures forall k :: 0 <= k < |l.accepted| ==> l.accepted[k].nonce != l.table[i].nonce
    ensures forall k :: 0 <= k < |l.table| && k != i && l.table[k].live ==> l.table[k].nonce != l.table[i].nonce
  {
    hide StatesOf;
    assert LiveOk(l, l.table[i]);
    forall k | 0 <= k < |l.accepted| ensures l.accepted[k].nonce != l.table[i].nonce {
      assert AcceptedOk(l, l.accepted[k]);
      assert |[Issued]| != |[Issued, Consumed]|;
    }
  }

  /** Once a live grant is dropped, another line for its nonce harms nothing else. */
  lemma DropKeeps(l: Ledger, i: nat, e: Entry, a: Append)
    requires Good(l) && i < |l.table| && l.table[i].live && e.nonce == l.table[i].nonce
    ensures Good(Dropped(Noted(l, e, a), i))
  {
    hide StatesOf, Orderly;
    var r := Dropped(Noted(l, e, a), i);
    LiveIsAlone(l, i);
    forall n: nat | n != e.nonce ensures StatesOf(r.journal, n) == StatesOf(l.journal, n) {
      NotedElsewhere(l, e, a, n);
    }
    assert LiveOk(l, l.table[i]);
    assert |StatesOf(l.journal, e.nonce)| == 1;
    forall k | 0 <= k < |r.table| && r.table[k].live ensures LiveOk(r, r.table[k]) {
      assert r.table[k] == l.table[k] && LiveOk(l, l.table[k]);
    }
    forall k | 0 <= k < |r.accepted| ensures AcceptedOk(r, r.accepted[k]) {
      assert AcceptedOk(l, l.accepted[k]);
    }
  }

  lemma RevokeKeeps(l: Ledger, i: nat, a: Append)
    requires Good(l) && i < |l.table|
    ensures Good(RevokedAt(l, i, a))
  {
    hide Good;
    var g := l.table[i];
    if g.live {
      DropKeeps(l, i, Entry(g.nonce, g.expiry, Revoked), a);
    }
  }

  lemma LiveStates(l: Ledger, i: nat)
    requires LiveNonces(l) && i < |l.table| && l.table[i].live
    ensures LiveOk(l, l.table[i])
  {
    hide LiveOk;
  }

  /** A live grant's lines stay in order when one closing line follows. */
  lemma EndsOrderly(l: Ledger, i: nat, e: Entry, a: Append)
    requires i < |l.table| && LiveOk(l, l.table[i]) && e.nonce == l.table[i].nonce && e.state != Issued
    ensures Orderly(StatesOf(Appended(l.journal, e, a), e.nonce))
    ensures a != Missing ==> StatesOf(Appended(l.journal, e, a), e.nonce) == [Issued, e.state]
  {
    hide StatesOf;
    StatesAfter(l.journal, e, a, e.nonce);
    assert [Issued] + [e.state] == [Issued, e.state];
  }

  /** An accepted completion keeps the ledger good: its nonce was never accepted before. */
  lemma AcceptKeeps(l: Ledger, i: nat, now: nat)
    requires Good(l) && i < |l.table| && l.table[i].live && now < l.table[i].expiry
    ensures Good(CompletedAt(l, i, now, true, Written, Missing))
  {
    hide StatesOf, LiveNonces, Fresh;
    var g := l.table[i];
    var e := Entry(g.nonce, g.expiry, Consumed);
    DropKeeps(l, i, e, Written);
    LiveStates(l, i);
    EndsOrderly(l, i, e, Written);
    LiveIsAlone(l, i);
    var d := Dropped(Noted(l, e, Written), i);
    var r := CompletedAt(l, i, now, true, Written, Missing);
    SameLive(d, r);
    forall k | 0 <= k < |r.accepted| ensures AcceptedOk(r, r.accepted[k]) {
      if k < |l.accepted| {
        assert AcceptedOk(d, d.accepted[k]);
      }
    }
  }

  lemma SameLive(l: Ledger, r: Ledger)
    requires r.table == l.table && r.journal == l.journal && r.issuedAt == l.issuedAt && r.outputs == l.outputs
    ensures LiveNonces(l) ==> LiveNonces(r)
    ensures Fresh(l) ==> Fresh(r)
  {
    hide StatesOf;
    if LiveNonces(l) {
      forall k | 0 <= k < |r.table| && r.table[k].live ensures LiveOk(r, r.table[k]) {
        assert LiveOk(l, l.table[k]);
      }
    }
  }

  /** The nonce belongs to no live grant and to no accepted one. */
  predicate Unused(l: Ledger, nonce: nat) {
    && (forall k :: 0 <= k < |l.table| && l.table[k].live ==> l.table[k].nonce != nonce)
    && (forall k :: 0 <= k < |l.accepted| ==> l.accepted[k].nonce != nonce)
  }

  /** A line for an unused nonce harms nothing else. */
  lemma LineKeeps(l: Ledger, e: Entry, a: Append)
    requires Good(l) && Unused(l, e.nonce)
    ensures Good(Noted(l, e, a).(outputs := l.outputs + {e.nonce}))
  {
    hide StatesOf, Orderly;
    var r := Noted(l, e, a).(outputs := l.outputs + {e.nonce});
    forall n: nat | n != e.nonce ensures StatesOf(r.journal, n) == StatesOf(l.journal, n) {
      NotedElsewhere(l, e, a, n);
    }
    forall k | 0 <= k < |r.table| && r.table[k].live ensures LiveOk(r, r.table[k]) {
      assert LiveOk(l, l.table[k]);
    }
    forall k | 0 <= k < |r.accepted| ensures AcceptedOk(r, r.accepted[k]) {
      assert AcceptedOk(l, l.accepted[k]);
    }
  }

  /** A nonce without an output file was never used. */
  lemma {:induction false} FreshIsUnused(l: Ledger, nonce: nat)
    requires Good(l) && nonce !in l.outputs
    ensures Unused(l, nonce) && StatesOf(l.journal, nonce) == []
  {
    hide StatesOf;
    assert |StatesOf(l.journal, nonce)| == 0;
    forall k | 0 <= k < |l.table| && l.table[k].live ensures l.table[k].nonce != nonce {
      assert LiveOk(l, l.table[k]);
      assert |StatesOf(l.journal, l.table[k].nonce)| == 1;
    }
    forall k | 0 <= k < |l.accepted| ensures l.accepted[k].nonce != nonce {
      assert AcceptedOk(l, l.accepted[k]);
      assert |StatesOf(l.journal, l.accepted[k].nonce)| == 2;
    }
  }

  lemma {:induction false} AnnounceKeeps(l: Ledger, nonce: nat, expiry: nat, a: Append)
    requires Good(l) && nonce !in l.outputs
    ensures Good(Announced(l, nonce, expiry, a)) && Unused(Announced(l, nonce, expiry, a), nonce)
    ensures a == Written ==> StatesOf(Announced(l, nonce, expiry, a).journal, nonce) == [Issued]
  {
    hide StatesOf, LiveNonces, AcceptedOnce, Fresh;
    var e := Entry(nonce, expiry, Issued);
    FreshIsUnused(l, nonce);
    LineKeeps(l, e, a);
    StatesAfter(l.journal, e, a, nonce);
    assert [] + [Issued] == [Issued];
  }

  lemma InstallKeeps(l: Ledger, i: nat, g: Grant, now: nat)
    requires Good(l) && i < |l.table| && !l.table[i].live && g.live && Unused(l, g.nonce)
    requires StatesOf(l.journal, g.nonce) == [Issued] && g.expiry <= now + LIFETIME
    ensures Good(Installed(l, i, g, now))
  {
    hide StatesOf, Orderly;
    var r := Installed(l, i, g, now);
    forall k | 0 <= k < |r.table| && r.table[k].live ensures LiveOk(r, r.table[k]) {
      if k != i {
        assert LiveOk(l, l.table[k]);
      }
    }
    forall k | 0 <= k < |r.accepted| ensures AcceptedOk(r, r.accepted[k]) {
      assert AcceptedOk(l, l.accepted[k]);
    }
  }

  /** A completion that is turned down leaves the grant revoked and unusable. */
  lemma RefuseKeeps(l: Ledger, i: nat, now: nat, checks: bool, a: Append, b: Append)
    requires Good(l) && i < |l.table| && l.table[i].live && (!checks || a != Written)
    ensures Good(CompletedAt(l, i, now, checks, a, b)) && !CompletedAt(l, i, now, checks, a, b).table[i].live
    ensures CompletedAt(l, i, now, checks, a, b).accepted == l.accepted
  {
    hide StatesOf, LiveNonces, AcceptedOnce, Fresh;
    var g := l.table[i];
    if checks && a == Unsynced {
      var consumed, revoked := Entry(g.nonce, g.expiry, Consumed), Entry(g.nonce, g.expiry, Revoked);
      DropKeeps(l, i, consumed, a);
      var d := Dropped(Noted(l, consumed, a), i);
      LiveIsAlone(l, i);
      LineKeeps(d, revoked, b);
      LiveHasOutput(l, i);
      assert d.outputs + {g.nonce} == d.outputs;
      assert CompletedAt(l, i, now, checks, a, b) == Noted(d, revoked, b).(outputs := d.outputs + {g.nonce});
    } else {
      RevokeKeeps(l, i, b);
      assert Noted(l, Entry(g.nonce, g.expiry, Consumed), Missing) == l;
    }
  }

  lemma LiveHasOutput(l: Ledger, i: nat)
    requires Good(l) && i < |l.table| && l.table[i].live
    ensures l.table[i].nonce in l.outputs
  {
    hide StatesOf;
    assert LiveOk(l, l.table[i]);
    assert |StatesOf(l.journal, l.table[i].nonce)| == 1;
  }

  /** The lines of a completed grant stay in order exactly when it does not happen that the
      "consumed" line was written but reported as failed, and "revoked" was written after it. */
  lemma OnlyLostSyncSpoils(l: Ledger, i: nat, now: nat, checks: bool, a: Append, b: Append)
    requires Good(l) && i < |l.table| && l.table[i].live
    ensures Orderly(StatesOf(CompletedAt(l, i, now, checks, a, b).journal, l.table[i].nonce))
            <==> !(checks && a == Unsynced && b != Missing)
  {
    hide StatesOf;
    var g := l.table[i];
    var consumed, revoked := Entry(g.nonce, g.expiry, Consumed), Entry(g.nonce, g.expiry, Revoked);
    LiveStates(l, i);
    EndsOrderly(l, i, consumed, a);
    EndsOrderly(l, i, revoked, b);
    if checks && a == Unsynced {
      StatesAfter(Appended(l.journal, consumed, a), revoked, b, g.nonce);
      assert |[Issued, Consumed] + [Revoked]| == 3;
    }
  }

  lemma RestartKeeps(l: Ledger)
    requires Good(l)
    ensures Good(Restarted(l))
  {
    hide StatesOf, Orderly;
    var r := Restarted(l);
    forall k | 0 <= k < |r.accepted| ensures AcceptedOk(r, r.accepted[k]) {
      assert AcceptedOk(l, l.accepted[k]);
    }
  }

  /** At the start no grant is live and no file exists. */
  lemma EmptyIsGood(l: Ledger)
    requires l.journal == [] && l.outputs == {} && l.accepted == []
    requires forall k :: 0 <= k < |l.table| ==> !l.table[k].live
    ensures Good(l)
  {
  }

  // --- runs ---

  /** A step of the protocol: revoking the grant in a slot; an issue that gets as far as its
      journal line; an issue that puts its grant into a free slot; a completion that found
      its grant; a restart. */
  datatype Action =
    | Revoke(i: nat, a: Append)
    | Announce(nonce: nat, expiry: nat, a: Append)
    | Issue(i: nat, g: Grant, now: nat)
    | Complete(i: nat, now: nat, checks: bool, a: Append, b: Append)
    | Restart

  predicate Allowed(l: Ledger, act: Action) {
    match act
    case Revoke(i, _) => i < |l.table|
    case Announce(nonce, _, _) => nonce !in l.outputs
    case Issue(i, g, now) =>
      g.live && g.nonce !in l.outputs && g.expiry <= now + LIFETIME && i < |l.table| && !l.table[i].live
    case Complete(i, now, _, _, _) => i < |l.table| && l.table[i].live && now < l.table[i].expiry
    case Restart => true
  }

  function Apply(l: Ledger, act: Action): (r: Ledger)
    requires Allowed(l, act)
    ensures |r.table| == |l.table|
  {
    match act
    case Revoke(i, a) => RevokedAt(l, i, a)
    case Announce(nonce, expiry, a) => Announced(l, nonce, expiry, a)
    case Issue(i, g, now) => Installed(Announced(l, g.nonce, g.expiry, Written), i, g, now)
    case Complete(i, now, checks, a, b) => CompletedAt(l, i, now, checks, a, b)
    case Restart => Restarted(l)
  }

  /** The step completes the grant of `n`, loses the sync of its "consumed" line and then
      leaves a "revoked" line. */
  predicate Spoils(l: Ledger, act: Action, n: nat)
    requires Allowed(l, act)
  {
    act.Complete? && act.checks && act.a == Unsynced && act.b != Missing && l.table[act.i].nonce == n
  }

  lemma CompleteKeeps(l: Ledger, act: Action)
    requires Good(l) && act.Complete? && Allowed(l, act)
    ensures Good(Apply(l, act))
  {
    hide Good;
    if act.checks && act.a == Written {
      AcceptKeeps(l, act.i, act.now);
    } else {
      RefuseKeeps(l, act.i, act.now, act.checks, act.a, act.b);
    }
  }

  lemma IssueKeeps(l: Ledger, act: Action)
    requires Good(l) && act.Issue? && Allowed(l, act)
    ensures Good(Apply(l, act))
  {
    hide Good, StatesOf;
    AnnounceKeeps(l, act.g.nonce, act.g.expiry, Written);
    InstallKeeps(Announced(l, act.g.nonce, act.g.expiry, Written), act.i, act.g, act.now);
  }

  lemma StepKeeps(l: Ledger, act: Action)
    requires Good(l) && Allowed(l, act)
    ensures Good(Apply(l, act))
  {
    hide Good;
    match act
    case Revoke(i, a) => RevokeKeeps(l, i, a);
    case Announce(nonce, expiry, a) => AnnounceKeeps(l, nonce, expiry, a);
    case Issue(_, _, _) => IssueKeeps(l, act);
    case Complete(_, _, _, _, _) => CompleteKeeps(l, act);
    case Restart => RestartKeeps(l);
  }

  /** The one nonce a step may write lines for. */
  predicate Touches(l: Ledger, act: Action, n: nat)
    requires Allowed(l, act)
  {
    match act
    case Revoke(i, _) => l.table[i].live && l.table[i].nonce == n
    case Announce(nonce, _, _) => nonce == n
    case Issue(_, g, _) => g.nonce == n
    case Complete(i, _, _, _, _) => l.table[i].nonce == n
    case Restart => false
  }

  lemma {:induction false} StepElsewhere(l: Ledger, act: Action, n: nat)
    requires Allowed(l, act) && !Touches(l, act, n)
    ensures StatesOf(Apply(l, act).journal, n) == StatesOf(l.journal, n)
  {
    hide StatesOf, Appended;
    match act
    case Revoke(i, a) =>
      if l.table[i].live {
        NotedElsewhere(l, Entry(l.table[i].nonce, l.table[i].expiry, Revoked), a, n);
      }
    case Announce(nonce, expiry, a) =>
      NotedElsewhere(l, Entry(nonce, expiry, Issued), a, n);
    case Issue(_, g, _) =>
      NotedElsewhere(l, Entry(g.nonce, g.expiry, Issued), Written, n);
    case Complete(i, _, _, a, b) =>
      var consumed, revoked :=
        Entry(l.table[i].nonce, l.table[i].expiry, Consumed), Entry(l.table[i].nonce, l.table[i].expiry, Revoked);
      NotedElsewhere(l, consumed, a, n);
      NotedElsewhere(l, revoked, b, n);
      NotedElsewhere(Noted(l, consumed, a), revoked, b, n);
    case Restart =>
  }

  /** Before a step that touches its nonce the nonce's lines are in order, and after it they
      are unless the step spoils them. */
  lemma {:induction false} StepOnTouched(l: Ledger, act: Action, n: nat)
    requires Good(l) && Allowed(l, act) && Touches(l, act, n)
    ensures Orderly(StatesOf(l.journal, n))
    ensures Orderly(StatesOf(Apply(l, act).journal, n)) <==> !Spoils(l, act, n)
  {
    hide StatesOf, Good;
    match act
    case Revoke(i, a) =>
      LiveIsIssued(l, i);
      EndsOrderly(l, i, Entry(n, l.table[i].expiry, Revoked), a);
    case Announce(_, expiry, a) =>
      StartsOrderly(l, n, expiry, a);
    case Issue(_, g, _) =>
      StartsOrderly(l, n, g.expiry, Written);
    case Complete(i, now, checks, a, b) =>
      LiveIsIssued(l, i);
      OnlyLostSyncSpoils(l, i, now, checks, a, b);
    case Restart =>
  }

  lemma LiveIsIssued(l: Ledger, i: nat)
    requires Good(l) && i < |l.table| && l.table[i].live
    ensures LiveOk(l, l.table[i]) && Orderly(StatesOf(l.journal, l.table[i].nonce))
  {
    LiveStates(l, i);
  }

  lemma {:induction false} StartsOrderly(l: Ledger, nonce: nat, expiry: nat, a: Append)
    requires Good(l) && nonce !in l.outputs
    ensures Orderly(StatesOf(l.journal, nonce))
    ensures Orderly(StatesOf(Appended(l.journal, Entry(nonce, expiry, Issued), a), nonce))
  {
    hide StatesOf;
    FreshIsUnused(l, nonce);
    StatesAfter(l.journal, Entry(nonce, expiry, Issued), a, nonce);
    assert [] + [Issued] == [Issued];
  }

  /** What one step does to the order of any nonce's lines: it survives unless the step
      spoils it, and what was spoiled stays spoiled. */
  lemma {:induction false} OrderAfterStep(l: Ledger, act: Action, n: nat)
    requires Good(l) && Allowed(l, act)
    ensures Orderly(StatesOf(Apply(l, act).journal, n)) <==> Orderly(StatesOf(l.journal, n)) && !Spoils(l, act, n)
  {
    hide StatesOf, Orderly, Apply, Good;
    if Touches(l, act, n) {
      StepOnTouched(l, act, n);
    } else {
      StepElsewhere(l, act, n);
    }
  }

  /** `spoiled` are the nonces whose lines are not in order. */
  ghost predicate OrderedBut(journal: seq<Entry>, spoiled: set<nat>) {
    forall n: nat :: Orderly(StatesOf(journal, n)) <==> n !in spoiled
  }

  /** Only a spoiling completion adds to them. */
  function SpoiledAfter(l: Ledger, act: Action, spoiled: set<nat>): (r: set<nat>)
    requires Allowed(l, act)
  {
    if act.Complete? && Spoils(l, act, l.table[act.i].nonce) then spoiled + {l.table[act.i].nonce} else spoiled
  }

  lemma OrderedButAfter(l: Ledger, act: Action, spoiled: set<nat>)
    requires Good(l) && Allowed(l, act) && OrderedBut(l.journal, spoiled)
    ensures OrderedBut(Apply(l, act).journal, SpoiledAfter(l, act, spoiled))
  {
    hide Apply, Good, Orderly;
    forall n: nat
      ensures Orderly(StatesOf(Apply(l, act).journal, n)) <==> n !in SpoiledAfter(l, act, spoiled)
    {
      OrderAfterStep(l, act, n);
    }
  }

  /** The actions can happen one after the other. */
  predicate Possible(l: Ledger, acts: seq<Action>)
    decreases |acts|, 0
  {
    |acts| > 0 ==>
      && Possible(l, acts[..|acts| - 1])
      && Allowed(After(l, acts[..|acts| - 1]), acts[|acts| - 1])
  }

  function After(l: Ledger, acts: seq<Action>): (r: Ledger)
    requires Possible(l, acts)
    decreases |acts|, 1
  {
    if |acts| == 0 then l else Apply(After(l, acts[..|acts| - 1]), acts[|acts| - 1])
  }

  /** A ledger before anything happened. */
  function Empty(slots: nat): (l: Ledger) {
    Ledger(seq(slots, _ => Grant(false, 0, 0, 0, 0)), [], {}, map[], [])
  }

  lemma {:induction false} RunKeeps(slots: nat, acts: seq<Action>)
    requires Possible(Empty(slots), acts)
    ensures Good(After(Empty(slots), acts))
    decreases |acts|
  {
    hide Good, Apply, Allowed;
    if |acts| == 0 {
      EmptyIsGood(Empty(slots));
    } else {
      RunKeeps(slots, acts[..|acts| - 1]);
      StepKeeps(After(Empty(slots), acts[..|acts| - 1]), acts[|acts| - 1]);
    }
  }

  /** Some step of the run spoiled the lines of `n`. */
  predicate SpoiledIn(l: Ledger, acts: seq<Action>, n: nat)
    requires Possible(l, acts)
    decreases |acts|
  {
    |acts| > 0 &&
    (|| SpoiledIn(l, acts[..|acts| - 1], n)
     || Spoils(After(l, acts[..|acts| - 1]), acts[|acts| - 1], n))
  }

  /** Over every run, and whatever else the disk loses: a nonce's lines are "issued" followed
      by at most one of "consumed" and "revoked" if and only if no step spoiled them. */
  lemma {:induction false} OrderedUnlessSpoiled(slots: nat, acts: seq<Action>, n: nat)
    requires Possible(Empty(slots), acts)
    ensures Orderly(StatesOf(After(Empty(slots), acts).journal, n)) <==> !SpoiledIn(Empty(slots), acts, n)
    decreases |acts|
  {
    hide Orderly, Apply, Allowed, Spoils, Good;
    if |acts| == 0 {
      NothingNoted(slots, n);
    } else {
      var front := acts[..|acts| - 1];
      OrderedUnlessSpoiled(slots, front, n);
      RunKeeps(slots, front);
      OrderAfterStep(After(Empty(slots), front), acts[|acts| - 1], n);
    }
  }

  lemma {:induction false} NothingNoted(slots: nat, n: nat)
    ensures Orderly(StatesOf(Empty(slots).journal, n))
  {
  }

  lemma {:induction false} AcceptedSpelled(l: Ledger, a: Acceptance)
    requires AcceptedOk(l, a)
    ensures a.at < a.expiry && a.nonce in l.issuedAt && a.expiry <= l.issuedAt[a.nonce] + 60
  {
    hide StatesOf;
  }

  /** Over every run: an accepted grant was accepted before its expiry, at most a minute after
      the clock it was issued by, its journal reads "issued", "consumed", and no other
      acceptance has its nonce. */
  lemma {:induction false} AcceptedAtMostOnce(slots: nat, acts: seq<Action>, i: nat)
    requires Possible(Empty(slots), acts) && i < |After(Empty(slots), acts).accepted|
    ensures var l := After(Empty(slots), acts);
            && AcceptedOk(l, l.accepted[i])
            && l.accepted[i].at < l.accepted[i].expiry
            && l.accepted[i].nonce in l.issuedAt && l.accepted[i].expiry <= l.issuedAt[l.accepted[i].nonce] + 60
            && forall j :: 0 <= j < |l.accepted| && l.accepted[j].nonce == l.accepted[i].nonce ==> j == i
  {
    hide AcceptedOk, After, Possible;
    RunKeeps(slots, acts);
    AcceptedSpelled(After(Empty(slots), acts), After(Empty(slots), acts).accepted[i]);
  }

  /** A run that spoils a journal: issue, then a completion whose "consumed" line is written
      but not synced, followed by its "revoked" line. */
  lemma SpoiledRun() returns (acts: seq<Action>)
    ensures Possible(Empty(MAX_GRANTS), acts)
    ensures StatesOf(After(Empty(MAX_GRANTS), acts).journal, 7) == [Issued, Consumed, Revoked]
  {
    hide StatesOf;
    var g := Grant(true, 1, 2, 7, 60);
    var issue, complete := Issue(0, g, 0), Complete(0, 0, true, Unsynced, Written);
    acts := [issue, complete];
    var start := Empty(MAX_GRANTS);
    assert [issue][..0] == [] && acts[..1] == [issue];
    assert Possible(start, []) && After(start, []) == start;
    assert Allowed(start, issue) && Possible(start, [issue]);
    var issued := After(start, [issue]);
    assert issued == Apply(start, issue) && issued.table[0] == g;
    assert Allowed(issued, complete) && Possible(start, acts);
    SpoiledJournal(issued, g);
    assert issued.journal == [Entry(7, 60, Issued)];
    assert After(start, acts) == CompletedAt(issued, 0, 0, true, Unsynced, Written);
  }

  lemma SpoiledJournal(l: Ledger, g: Grant)
    requires |l.table| > 0 && l.table[0] == g && g.live && l.journal == [Entry(g.nonce, g.expiry, Issued)]
    ensures StatesOf(CompletedAt(l, 0, 0, true, Unsynced, Written).journal, g.nonce) == [Issued, Consumed, Revoked]
  {
    hide StatesOf;
    var issued, consumed := Entry(g.nonce, g.expiry, Issued), Entry(g.nonce, g.expiry, Consumed);
    NoLines(g.nonce);
    StatesAfter([], issued, Written, g.nonce);
    assert [] + [issued] == [issued] && [] + [Issued] == [Issued];
    StatesAfter([issued], consumed, Unsynced, g.nonce);
    assert [Issued] + [Consumed] == [Issued, Consumed];
    StatesAfter([issued] + [consumed], Entry(g.nonce, g.expiry, Revoked), Written, g.nonce);
    assert [Issued, Consumed] + [Revoked] == [Issued, Consumed, Revoked];
  }

  lemma {:induction false} NoLines(nonce: nat)
    ensures StatesOf([], nonce) == []
  {
  }
}
