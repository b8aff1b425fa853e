/** The Darwin host runner's grant table at work: issue, completion, disconnect and restart,
    against any clock, any disk answers and any clients. */
module HostRunner {
  import opened Prelude
  import opened GrantLedger

  /** `after` is `before` with some grants taken out of use. */
  predicate OnlyDropped(before: seq<Grant>, after: seq<Grant>) {
    && |after| == |before|
    && forall k :: 0 <= k < |after| ==> after[k] == before[k] || after[k] == before[k].(live := false)
  }

  /** What revoking may change: the table, by dropping, and the journal. */
  predicate OnlyRevoked(before: Ledger, after: Ledger) {
    && OnlyDropped(before.table, after.table) && before.journal <= after.journal
    && after.outputs == before.outputs && after.issuedAt == before.issuedAt && after.accepted == before.accepted
  }

  class Runner {
    const grants: array<Grant>
    var journal: seq<Entry>
    var outputs: set<nat>
    ghost var issuedAt: map<nat, nat>
    ghost var accepted: seq<Acceptance>
    ghost var spoiled: set<nat>

    ghost function Now(): (l: Ledger)
      reads this, grants
    {
      Ledger(grants[..], journal, outputs, issuedAt, accepted)
    }

    /** Holds between any two operations, hence over every run of them. */
    ghost predicate Valid()
      reads this, grants
    {
      grants.Length == MAX_GRANTS && Good(Now()) && OrderedBut(journal, spoiled)
    }

    constructor ()
      ensures Valid() && journal == [] && accepted == [] && fresh(grants) && grants.Length == 64
    {
      grants := new Grant[MAX_GRANTS](_ => Grant(false, 0, 0, 0, 0));
      journal, outputs, issuedAt, accepted, spoiled := [], {}, map[], [], {};
      new;
      EmptyIsGood(Now());
      NothingSpoiled();
    }

    /** Appends one line to the journal, as far as the disk lets it. */
    method Transition(nonce: nat, expiry: nat, state: JobState) returns (ok: bool, ghost a: Append)
      modifies this`journal
      ensures Now() == Noted(old(Now()), Entry(nonce, expiry, state), a)
      ensures ok <==> a == Written
    {
      var line := Entry(nonce, expiry, state);
      if * {
        ok, a := false, Missing;
      } else {
        journal := journal + [line];
        if * {
          ok, a := true, Written;
        } else {
          ok, a := false, Unsynced;
        }
      }
    }

    method RevokeGrant(i: nat) returns (ghost a: Append)
      requires i < grants.Length
      modifies this`journal, grants
      ensures Now() == RevokedAt(old(Now()), i, a)
    {
      a := Missing;
      if grants[i].live {
        var _, b := Transition(grants[i].nonce, grants[i].expiry, Revoked);
        a := b;
      }
      grants[i] := grants[i].(live := false);
    }

    /** Revokes every live grant of a peer that went away. */
    method RevokePeer(peer: nat)
      requires Valid()
      modifies this`journal, grants
      ensures Valid() && OnlyRevoked(old(Now()), Now())
      ensures forall k :: 0 <= k < MAX_GRANTS && grants[k].live ==> grants[k].peer != peer
      ensures forall k :: 0 <= k < MAX_GRANTS && old(grants[k]).live && !grants[k].live ==> old(grants[k]).peer == peer
    {
      hide Good, OrderedBut;
      for i := 0 to MAX_GRANTS
        invariant Valid() && OnlyRevoked(old(Now()), Now())
        invariant forall k :: i <= k < MAX_GRANTS ==> grants[k] == old(grants[k])
        invariant forall k :: 0 <= k < i && grants[k].live ==> grants[k].peer != peer
        invariant forall k :: 0 <= k < i && old(grants[k]).live && !grants[k].live ==> old(grants[k]).peer == peer
      {
        if grants[i].live && grants[i].peer == peer {
          ghost var l := Now();
          var a := RevokeGrant(i);
          RevokeKeeps(l, i, a);
          OrderedButAfter(l, Action.Revoke(i, a), spoiled);
        }
      }
    }

    /** Revokes every live grant whose time is up by the clock it reads. */
    method RevokeExpired() returns (now: nat)
      requires Valid()
      modifies this`journal, grants
      ensures Valid() && OnlyRevoked(old(Now()), Now())
      ensures forall k :: 0 <= k < MAX_GRANTS && grants[k].live ==> now < grants[k].expiry
      ensures forall k :: 0 <= k < MAX_GRANTS && old(grants[k]).live && !grants[k].live ==> old(grants[k]).expiry <= now
    {
      hide Good, OrderedBut;
      now := *;
      for i := 0 to MAX_GRANTS
        invariant Valid() && OnlyRevoked(old(Now()), Now())
        invariant forall k :: i <= k < MAX_GRANTS ==> grants[k] == old(grants[k])
        invariant forall k :: 0 <= k < i && grants[k].live ==> now < grants[k].expiry
        invariant forall k :: 0 <= k < i && old(grants[k]).live && !grants[k].live ==> old(grants[k]).expiry <= now
      {
        if grants[i].live && grants[i].expiry <= now {
          ghost var l := Now();
          var a := RevokeGrant(i);
          RevokeKeeps(l, i, a);
          OrderedButAfter(l, Action.Revoke(i, a), spoiled);
        }
      }
    }

    /** Issues a grant that lives for at most a minute, under a nonce never used before. */
    method Issue(peer: nat, expiry: nat) returns (r: Option<nat>)
      requires Valid()
      modifies this, grants
      ensures Valid() && accepted == old(accepted) && old(journal) <= journal && spoiled == old(spoiled)
      ensures r.Some? ==>
        && r.value !in old(outputs) && StatesOf(journal, r.value) == [Issued]
        && r.value in issuedAt && expiry <= issuedAt[r.value] + LIFETIME
        && exists k :: 0 <= k < MAX_GRANTS && grants[k].live && grants[k].nonce == r.value
                       && grants[k].peer == peer && grants[k].expiry == expiry
    {
      hide Good, OrderedBut, StatesOf;
      var nonce: nat := *;
      var _ := RevokeExpired();
      var reviewed: bool, first: nat, second: nat := *, *, *;
      if !reviewed || expiry <= first || expiry > second + LIFETIME {
        return None;
      }
      if nonce in outputs {
        return None;
      }
      ghost var l := Now();
      outputs := outputs + {nonce};
      var created: bool := *;
      if !created {
        AnnounceKeeps(l, nonce, expiry, Missing);
        OrderedButAfter(l, Announce(nonce, expiry, Missing), spoiled);
        return None;
      }
      var ok, a := Transition(nonce, expiry, Issued);
      AnnounceKeeps(l, nonce, expiry, a);
      OrderedButAfter(l, Announce(nonce, expiry, a), spoiled);
      var piped: bool := *;
      if !ok || !piped {
        return None;
      }
      r := Install(peer, expiry, nonce, second);
    }

    /** Puts the grant into the first free slot, if there is one. */
    method Install(peer: nat, expiry: nat, nonce: nat, now: nat) returns (r: Option<nat>)
      requires Valid() && Unused(Now(), nonce) && StatesOf(journal, nonce) == [Issued] && expiry <= now + LIFETIME
      modifies this`issuedAt, grants
      ensures Valid()
      ensures r == None ==> Now() == old(Now()) && forall k :: 0 <= k < MAX_GRANTS ==> grants[k].live
      ensures r.Some? ==>
        && r.value == nonce && nonce in issuedAt && issuedAt[nonce] == now
        && exists k :: 0 <= k < MAX_GRANTS && !old(grants[k]).live
                       && grants[k] == Grant(true, grants[k].pipe, peer, nonce, expiry)
                       && Now() == Installed(old(Now()), k, grants[k], now)
    {
      hide Good, OrderedBut, StatesOf, Unused;
      for i := 0 to MAX_GRANTS
        invariant forall k :: 0 <= k < i ==> grants[k].live
      {
        if !grants[i].live {
          ghost var l := Now();
          var pipe: nat := *;
          InstallKeeps(l, i, Grant(true, pipe, peer, nonce, expiry), now);
          grants[i] := Grant(true, pipe, peer, nonce, expiry);
          issuedAt := issuedAt[nonce := now];
          assert Now() == Installed(l, i, grants[i], now);
          return Some(nonce);
        }
      }
      r := None;
    }

    /** Answers a completion. Success means: a grant of this peer for this pipe was live, its
        time was not up, it is now used up, and its nonce had never been accepted. */
    method Complete(peer: nat, pipe: nat) returns (ok: bool)
      requires Valid()
      modifies this, grants
      ensures Valid() && outputs == old(outputs) && issuedAt == old(issuedAt)
      ensures old(spoiled) <= spoiled && (ok ==> spoiled == old(spoiled))
      ensures !ok ==> accepted == old(accepted)
      ensures ok ==>
        exists k, now: nat :: 0 <= k < MAX_GRANTS
          && var g := old(grants[k]);
          g.live && g.peer == peer && g.pipe == pipe && now < g.expiry && !grants[k].live
          && accepted == old(accepted) + [Acceptance(g.nonce, now, g.expiry)]
    {
      hide Good, OrderedBut, StatesOf;
      var primary: bool := *;
      if !primary {
        return false;
      }
      var now := RevokeExpired();
      var reviewed: bool := *;
      if !reviewed {
        return false;
      }
      for i := 0 to MAX_GRANTS
        invariant Valid() && OnlyRevoked(old(Now()), Now())
        invariant forall k :: 0 <= k < MAX_GRANTS && grants[k].live ==> now < grants[k].expiry
      {
        if grants[i].live && grants[i].pipe == pipe && grants[i].peer == peer {
          ok := Use(i, now);
          return;
        }
      }
      ok := false;
    }

    /** Tries to use up the live grant at `i`; it is not live afterwards. */
    method Use(i: nat, now: nat) returns (ok: bool)
      requires Valid() && i < MAX_GRANTS && grants[i].live && now < grants[i].expiry
      modifies this`journal, this`accepted, this`spoiled, grants
      ensures Valid() && !grants[i].live
      ensures exists checks, a, b ::
        && Now() == CompletedAt(old(Now()), i, now, checks, a, b) && (ok <==> checks && a == Written)
        && spoiled == SpoiledAfter(old(Now()), Action.Complete(i, now, checks, a, b), old(spoiled))
    {
      hide Good, OrderedBut, StatesOf;
      ghost var l := Now();
      var g := grants[i];
      var checks: bool := *;
      ghost var a, b := Missing, Missing;
      ok := false;
      if checks {
        var done, c := Transition(g.nonce, g.expiry, Consumed);
        ok, a := done, c;
      }
      if ok {
        grants[i] := grants[i].(live := false);
        accepted := accepted + [Acceptance(g.nonce, now, g.expiry)];
        AcceptKeeps(l, i, now);
      } else {
        RefuseAny(l, i, now, checks, a);
      }
      b := RevokeGrant(i);
      OrderedButAfter(l, Action.Complete(i, now, checks, a, b), spoiled);
      spoiled := SpoiledAfter(l, Action.Complete(i, now, checks, a, b), spoiled);
      assert Now() == CompletedAt(l, i, now, checks, a, b);
    }

    method Disconnect(peer: nat)
      requires Valid()
      modifies this`journal, grants
      ensures Valid() && accepted == old(accepted) && outputs == old(outputs)
      ensures forall k :: 0 <= k < MAX_GRANTS && grants[k].live ==> grants[k].peer != peer
    {
      RevokePeer(peer);
    }

    /** The daemon stops without revoking anything and starts with an empty table. */
    method Restart()
      requires Valid()
      modifies grants
      ensures Valid() && Now() == Restarted(old(Now()))
    {
      hide Good, OrderedBut;
      ghost var l := Now();
      RestartKeeps(l);
      for i := 0 to MAX_GRANTS
        invariant forall k :: 0 <= k < i ==> grants[k] == old(grants[k]).(live := false)
        invariant forall k :: i <= k < MAX_GRANTS ==> grants[k] == old(grants[k])
      {
        grants[i] := grants[i].(live := false);
      }
      assert grants[..] == Restarted(l).table;
    }
  }

  lemma NothingSpoiled()
    ensures OrderedBut([], {})
  {
  }

  lemma RefuseAny(l: Ledger, i: nat, now: nat, checks: bool, a: Append)
    requires Good(l) && i < |l.table| && l.table[i].live && (!checks || a != Written)
    ensures forall b :: Good(CompletedAt(l, i, now, checks, a, b))
  {
    hide Good, OrderedBut;
    forall b ensures Good(CompletedAt(l, i, now, checks, a, b)) {
      RefuseKeeps(l, i, now, checks, a, b);
    }
  }
}
