/**
  The header lists of the L1 client replayed through the light client. The beacon chain is known by
  the committee of each period; a node is honest when what it serves agrees with that chain. An
  honest node may still fail to answer.
  */
module Acceptance {
  import opened Wrappers
  import opened LightClient
  import opened SyncCommittees

  type Committees = nat -> SyncCommittee

  /** The update of a period: signed, attested and finalized within it, announcing the next committee. */
  predicate HonestUpdate(clock: Clock, committees: Committees, p: nat, u: ConsensusUpdate)
    requires clock.Valid()
  {
    && u.finalizedSlot < u.attestedSlot < u.signatureSlot
    && clock.Period(u.finalizedSlot) == clock.Period(u.signatureSlot) == p
    && u.signer == committees(p)
    && u.nextSyncCommittee == Some(committees(p + 1))
  }

  ghost predicate HonestNode(node: Node, committees: Committees) {
    && node.clock.Valid()
    && (forall p :: p in node.updates ==> HonestUpdate(node.clock, committees, p, node.updates[p].consensus))
    && (forall slot :: slot in node.bootstraps ==> node.bootstraps[slot] == committees(node.clock.Period(slot)))
    && (forall p :: p in node.bootstrapIn ==> node.bootstrapIn[p] == committees(p))
  }

  /** A finality update of the latest period together with the update snapshot taken with it. */
  predicate HonestLatest(clock: Clock, committees: Committees, p: nat, snapshot: ConsensusUpdate, u: ConsensusUpdate)
    requires clock.Valid()
  {
    && HonestUpdate(clock, committees, p, snapshot)
    && u.finalizedSlot <= u.attestedSlot < u.signatureSlot
    && snapshot.finalizedSlot < u.attestedSlot
    && clock.Period(u.signatureSlot) == p
    && u.signer == committees(p)
    && (u.nextSyncCommittee.Some? ==> u.nextSyncCommittee == Some(committees(p + 1)))
  }

  /** A store that knows the committees of period `p` and the one after. */
  predicate Tracks(clock: Clock, committees: Committees, p: nat, store: Store)
    requires clock.Valid()
  {
    && clock.Period(store.finalizedSlot) == p
    && store.current == committees(p)
    && store.next == Some(committees(p + 1))
  }

  function StoreAt(committees: Committees, p: nat, finalizedSlot: nat): Store {
    Store(finalizedSlot, committees(p), Some(committees(p + 1)))
  }

  function Later(slot: nat, other: nat): nat {
    if slot < other then other else slot
  }

  /** Exactly these headers are accepted by a store that knows the committees of its period and the next. */
  lemma AcceptedIff(clock: Clock, committees: Committees, p: nat, store: Store, h: Header)
    requires clock.Valid() && Tracks(clock, committees, p, store)
    ensures var u := h.consensus;
            var q := clock.Period(u.signatureSlot);
            Process(clock, store, h).Some? <==>
            && u.finalizedSlot <= u.attestedSlot < u.signatureSlot
            && store.finalizedSlot < u.attestedSlot
            && (q == p || q == p + 1)
            && u.signer == committees(q)
            && h.trusted == Some(TrustedSyncCommittee(Some(committees(q)), q == p + 1))
            && (u.nextSyncCommittee.Some? && clock.Period(u.attestedSlot) == p ==>
                  u.nextSyncCommittee == Some(committees(p + 1)))
  {
  }

  lemma UpdateAccepted(clock: Clock, committees: Committees, p: nat, store: Store, h: Header)
    requires clock.Valid() && Tracks(clock, committees, p, store)
    requires HonestUpdate(clock, committees, p + 1, h.consensus)
    requires h.trusted == Some(TrustedSyncCommittee(Some(committees(p + 1)), true))
    ensures Process(clock, store, h) == Some(StoreAt(committees, p + 1, h.consensus.finalizedSlot))
    ensures Tracks(clock, committees, p + 1, StoreAt(committees, p + 1, h.consensus.finalizedSlot))
  {
    var u := h.consensus;
    clock.PeriodMonotone(u.finalizedSlot, u.attestedSlot);
    clock.PeriodMonotone(u.attestedSlot, u.signatureSlot);
    if u.finalizedSlot <= store.finalizedSlot {
      clock.PeriodMonotone(u.finalizedSlot, store.finalizedSlot);
    }
  }

  /** A header of the period in force is accepted exactly when it attests to something newer. */
  lemma ClosingAccepted(clock: Clock, committees: Committees, p: nat, store: Store, h: Header)
    requires clock.Valid() && Tracks(clock, committees, p, store)
    requires var u := h.consensus;
             && u.finalizedSlot <= u.attestedSlot < u.signatureSlot
             && clock.Period(u.signatureSlot) == p
             && u.signer == committees(p)
             && (u.nextSyncCommittee.Some? ==> u.nextSyncCommittee == Some(committees(p + 1)))
    requires h.trusted == Some(TrustedSyncCommittee(Some(committees(p)), false))
    ensures var end := StoreAt(committees, p, Later(store.finalizedSlot, h.consensus.finalizedSlot));
            && Process(clock, store, h) == (if store.finalizedSlot < h.consensus.attestedSlot then Some(end) else None)
            && Tracks(clock, committees, p, end)
  {
    var u := h.consensus;
    clock.PeriodMonotone(u.finalizedSlot, u.signatureSlot);
    if store.finalizedSlot < u.finalizedSlot {
      clock.PeriodMonotone(store.finalizedSlot, u.finalizedSlot);
    }
  }

  // ---- Chains of updates ----

  /** The update a list ending at `last` shows for period `q`. */
  function Shown(node: Node, snapshot: Option<UpdateData>, last: nat, q: nat): Option<UpdateData> {
    if q == last && snapshot.Some? then snapshot
    else if q in node.updates then Some(node.updates[q])
    else None
  }

  predicate Usable(node: Node, snapshot: Option<UpdateData>, last: nat, q: nat) {
    match Shown(node, snapshot, last, q)
    case None => false
    case Some(data) =>
      && data.consensus.finalizedSlot in node.executions
      && data.executionRoot == data.consensus.finalizedExecutionRoot
  }

  lemma {:induction false} ChainOkIff(node: Node, snapshot: Option<UpdateData>, p: nat, last: nat,
                                      current: Option<SyncCommittee>, next: Option<SyncCommittee>)
    ensures Chain(node, snapshot, p, last, current, next).Ok?
       <==> forall q :: p <= q <= last ==> Usable(node, snapshot, last, q)
    decreases last + 1 - p
  {
    if p <= last {
      match Link(node, snapshot, last, p, next)
      case Err(_) => assert !Usable(node, snapshot, last, p);
      case Ok(h) => ChainOkIff(node, snapshot, p + 1, last, next, h.consensus.nextSyncCommittee);
    }
  }

  /** Header `q` of an honest list: trusted through the committee of its period, which is the next one. */
  predicate HonestLink(node: Node, committees: Committees, snapshot: Option<UpdateData>, last: nat, q: nat, h: Header) {
    && h.trusted == Some(TrustedSyncCommittee(Some(committees(q)), true))
    && Shown(node, snapshot, last, q).Some?
    && h.consensus == Shown(node, snapshot, last, q).value.consensus
  }

  lemma LinkHonest(node: Node, committees: Committees, snapshot: Option<UpdateData>, last: nat, q: nat)
    requires HonestNode(node, committees) && q <= last
    requires snapshot.Some? ==> HonestUpdate(node.clock, committees, last, snapshot.value.consensus)
    requires Link(node, snapshot, last, q, Some(committees(q))).Ok?
    ensures var h := Link(node, snapshot, last, q, Some(committees(q))).value;
            && HonestLink(node, committees, snapshot, last, q, h)
            && HonestUpdate(node.clock, committees, q, h.consensus)
            && h.consensus.nextSyncCommittee == Some(committees(q + 1))
  {
  }

  lemma {:induction false} ChainShape(node: Node, committees: Committees, snapshot: Option<UpdateData>,
                                      p: nat, last: nat, current: Option<SyncCommittee>)
    requires HonestNode(node, committees) && p < last
    requires snapshot.Some? ==> HonestUpdate(node.clock, committees, last, snapshot.value.consensus)
    requires Chain(node, snapshot, p + 1, last, current, Some(committees(p + 1))).Ok?
    ensures var (hs, closing) := Chain(node, snapshot, p + 1, last, current, Some(committees(p + 1))).value;
            |hs| == last - p && closing == Some(committees(last))
    decreases last - p
  {
    hide HonestUpdate, HonestNode, HonestLink;
    LinkHonest(node, committees, snapshot, last, p + 1);
    if p + 1 < last {
      ChainShape(node, committees, snapshot, p + 1, last, Some(committees(p + 1)));
    }
  }

  lemma {:induction false} ChainLink(node: Node, committees: Committees, snapshot: Option<UpdateData>,
                                     p: nat, last: nat, current: Option<SyncCommittee>, i: nat)
    requires HonestNode(node, committees) && p + i < last
    requires snapshot.Some? ==> HonestUpdate(node.clock, committees, last, snapshot.value.consensus)
    requires Chain(node, snapshot, p + 1, last, current, Some(committees(p + 1))).Ok?
    ensures var hs := Chain(node, snapshot, p + 1, last, current, Some(committees(p + 1))).value.0;
            i < |hs| && HonestLink(node, committees, snapshot, last, p + 1 + i, hs[i])
    decreases i
  {
    hide HonestUpdate, HonestNode, HonestLink;
    LinkHonest(node, committees, snapshot, last, p + 1);
    if i > 0 {
      ChainLink(node, committees, snapshot, p + 1, last, Some(committees(p + 1)), i - 1);
    }
  }

  lemma {:induction false} ChainAccepted(node: Node, committees: Committees, snapshot: Option<UpdateData>,
                                         p: nat, last: nat, current: Option<SyncCommittee>, store: Store)
    requires HonestNode(node, committees) && p < last
    requires snapshot.Some? ==> HonestUpdate(node.clock, committees, last, snapshot.value.consensus)
    requires Tracks(node.clock, committees, p, store)
    requires Chain(node, snapshot, p + 1, last, current, Some(committees(p + 1))).Ok?
    ensures var hs := Chain(node, snapshot, p + 1, last, current, Some(committees(p + 1))).value.0;
            && Shown(node, snapshot, last, last).Some?
            && var end := StoreAt(committees, last, Shown(node, snapshot, last, last).value.consensus.finalizedSlot);
            && Replay(node.clock, store, hs) == Some(end)
            && Tracks(node.clock, committees, last, end)
    decreases last - p
  {
    var next := Some(committees(p + 1));
    var h := Link(node, snapshot, last, p + 1, next).value;
    LinkHonest(node, committees, snapshot, last, p + 1);
    UpdateAccepted(node.clock, committees, p, store, h);
    var rest := Chain(node, snapshot, p + 2, last, next, Some(committees(p + 2))).value.0;
    assert ([h] + rest)[1..] == rest;
    hide HonestUpdate, HonestNode, Tracks, Process, Link;
    if p + 1 < last {
      var rotated := StoreAt(committees, p + 1, h.consensus.finalizedSlot);
      ChainAccepted(node, committees, snapshot, p + 1, last, next, rotated);
    }
  }

  /** The committee and the kind of trust that header `i` of a list over `start..last` asks for. */
  function ExpectedTrust(committees: Committees, start: nat, last: nat, i: nat): Option<TrustedSyncCommittee> {
    if start + i < last then Some(TrustedSyncCommittee(Some(committees(start + 1 + i)), true))
    else Some(TrustedSyncCommittee(Some(committees(last)), false))
  }

  /**
    From a store at the agreed period, the list of an honest node is accepted up to its closing
    header, and so is that header except when the list is nothing but it and it is not news.
    */
  lemma {:induction false} AgreedToClaimedAccepted(node: Node, committees: Committees, agreed: nat,
                                                   claimedPeriod: nat, claimed: Header, store: Store)
    requires HonestNode(node, committees) && Tracks(node.clock, committees, agreed, store)
    requires claimedPeriod in node.updates && claimed.consensus == node.updates[claimedPeriod].consensus
    requires AgreedToClaimed(node, agreed, claimedPeriod, claimed).Ok?
    ensures var hs := AgreedToClaimed(node, agreed, claimedPeriod, claimed).value;
            var u := claimed.consensus;
            && agreed <= claimedPeriod && |hs| == claimedPeriod - agreed + 1
            && (forall i :: 0 <= i < |hs| ==>
                  && hs[i].trusted == ExpectedTrust(committees, agreed, claimedPeriod, i)
                  && (i < |hs| - 1 ==> HonestLink(node, committees, None, claimedPeriod, agreed + 1 + i, hs[i])))
            && hs[|hs| - 1] == Closing(claimed, Some(committees(claimedPeriod)))
            && Replay(node.clock, store, hs) ==
               (if agreed < claimedPeriod || store.finalizedSlot < u.attestedSlot
                then Some(StoreAt(committees, claimedPeriod, Later(store.finalizedSlot, u.finalizedSlot)))
                else None)
  {
    var hs := AgreedToClaimed(node, agreed, claimedPeriod, claimed).value;
    var closing := Closing(claimed, Some(committees(claimedPeriod)));
    if agreed == claimedPeriod {
      node.clock.PeriodMonotone(claimed.consensus.finalizedSlot, claimed.consensus.signatureSlot);
      ClosingAccepted(node.clock, committees, claimedPeriod, store, closing);
      assert hs == [closing] && hs[1..] == [];
    } else {
      ListAccepted(node, committees, None, agreed, claimedPeriod, claimed, store);
      var u := claimed.consensus;
      if u.finalizedSlot <= store.finalizedSlot {
        node.clock.PeriodMonotone(u.finalizedSlot, store.finalizedSlot);
      }
    }
  }

  /** A list over several periods, closed by a header of the last one that attests past its update. */
  lemma {:induction false} ListAccepted(node: Node, committees: Committees, snapshot: Option<UpdateData>,
                                        start: nat, last: nat, header: Header, store: Store)
    requires HonestNode(node, committees) && Tracks(node.clock, committees, start, store)
    requires start in node.updates && start < last
    requires snapshot.Some? ==> HonestUpdate(node.clock, committees, last, snapshot.value.consensus)
    requires Shown(node, snapshot, last, last).Some?
    requires var shown := Shown(node, snapshot, last, last).value.consensus;
             HonestLatest(node.clock, committees, last, shown, header.consensus)
    requires ChainTo(node, snapshot, start, last, header).Ok?
    ensures var hs := ChainTo(node, snapshot, start, last, header).value;
            var shown := Shown(node, snapshot, last, last).value.consensus;
            var end := StoreAt(committees, last, Later(shown.finalizedSlot, header.consensus.finalizedSlot));
            && |hs| == last - start + 1
            && (forall i :: 0 <= i < |hs| ==>
                  && hs[i].trusted == ExpectedTrust(committees, start, last, i)
                  && (i < |hs| - 1 ==> HonestLink(node, committees, snapshot, last, start + 1 + i, hs[i])))
            && hs[|hs| - 1] == Closing(header, Some(committees(last)))
            && Replay(node.clock, store, hs) == Some(end)
            && Tracks(node.clock, committees, last, end)
  {
    ChainShape(node, committees, snapshot, start, last, None);
    ChainAccepted(node, committees, snapshot, start, last, None, store);
    var (headers, committee) := Chain(node, snapshot, start + 1, last, None, Some(committees(start + 1))).value;
    forall i | 0 <= i < |headers|
      ensures HonestLink(node, committees, snapshot, last, start + 1 + i, headers[i])
    {
      ChainLink(node, committees, snapshot, start, last, None, i);
    }
    var closing := Closing(header, committee);
    var shown := Shown(node, snapshot, last, last).value.consensus;
    var middle := StoreAt(committees, last, shown.finalizedSlot);
    ReplayConcat(node.clock, store, headers, [closing]);
    ClosingAccepted(node.clock, committees, last, middle, closing);
    assert Replay(node.clock, middle, [closing]) == Process(node.clock, middle, closing) by {
      assert [closing][1..] == [];
    }
  }

  /** The second list starts where the first one ends, and ends at the latest period. */
  lemma {:induction false} ClaimedToLatestAccepted(node: Node, committees: Committees, claimedPeriod: nat,
                                                   latestPeriod: nat, latest: Header, snapshot: UpdateData,
                                                   store: Store)
    requires HonestNode(node, committees) && Tracks(node.clock, committees, claimedPeriod, store)
    requires HonestLatest(node.clock, committees, latestPeriod, snapshot.consensus, latest.consensus)
    requires ClaimedToLatest(node, claimedPeriod, latestPeriod, latest, snapshot).Ok?
    ensures var hs := ClaimedToLatest(node, claimedPeriod, latestPeriod, latest, snapshot).value;
            var end := StoreAt(committees, latestPeriod,
                               Later(snapshot.consensus.finalizedSlot, latest.consensus.finalizedSlot));
            && claimedPeriod < latestPeriod && |hs| == latestPeriod - claimedPeriod + 1
            && (forall i :: 0 <= i < |hs| ==>
                  hs[i].trusted == ExpectedTrust(committees, claimedPeriod, latestPeriod, i))
            && Replay(node.clock, store, hs) == Some(end)
            && Tracks(node.clock, committees, latestPeriod, end)
  {
    ListAccepted(node, committees, Some(snapshot), claimedPeriod, latestPeriod, latest, store);
  }

  // ---- The snapshot ----

  /** The snapshot is what the header before the closing one shows, and no other header depends on it. */
  lemma {:induction false} SnapshotUsedOnce(node: Node, snapshot: UpdateData, other: UpdateData, p: nat, last: nat,
                                            current: Option<SyncCommittee>, next: Option<SyncCommittee>)
    requires p <= last
    requires Chain(node, Some(snapshot), p, last, current, next).Ok?
    requires Chain(node, Some(other), p, last, current, next).Ok?
    ensures var (hs, closing) := Chain(node, Some(snapshot), p, last, current, next).value;
            var (others, closing') := Chain(node, Some(other), p, last, current, next).value;
            && |hs| == |others| == last - p + 1
            && hs[..last - p] == others[..last - p]
            && closing == closing'
            && hs[last - p].consensus == snapshot.consensus
            && hs[last - p].trusted == others[last - p].trusted
    decreases last - p
  {
    var a, b := Link(node, Some(snapshot), last, p, next).value, Link(node, Some(other), last, p, next).value;
    if p < last {
      SnapshotUsedOnce(node, snapshot, other, p + 1, last, next, a.consensus.nextSyncCommittee);
    }
  }

  /** A snapshot that agrees with the node changes nothing. */
  lemma {:induction false} AgreeingSnapshot(node: Node, p: nat, last: nat,
                                            current: Option<SyncCommittee>, next: Option<SyncCommittee>)
    requires last in node.updates
    ensures Chain(node, Some(node.updates[last]), p, last, current, next) == Chain(node, None, p, last, current, next)
    decreases last + 1 - p
  {
    if p <= last {
      match Link(node, None, last, p, next)
      case Err(_) =>
      case Ok(h) => AgreeingSnapshot(node, p + 1, last, next, h.consensus.nextSyncCommittee);
    }
  }

  // ---- What the headers of a list carry, whatever the node answers ----

  /** The committee that the update shown for period `q` announces. */
  function Announced(node: Node, snapshot: Option<UpdateData>, last: nat, q: nat): Option<SyncCommittee> {
    match Shown(node, snapshot, last, q)
    case None => None
    case Some(data) => data.consensus.nextSyncCommittee
  }

  /** A header with the update shown for period `q`, the payload of its finalized slot, and a next committee. */
  predicate Carries(node: Node, snapshot: Option<UpdateData>, last: nat, q: nat, trusted: Option<SyncCommittee>,
                    h: Header) {
    && Shown(node, snapshot, last, q).Some?
    && h.consensus == Shown(node, snapshot, last, q).value.consensus
    && h.consensus.finalizedSlot in node.executions
    && h.execution == node.executions[h.consensus.finalizedSlot]
    && h.trusted == Some(TrustedSyncCommittee(trusted, true))
  }

  lemma {:induction false} ChainContents(node: Node, snapshot: Option<UpdateData>, p: nat, last: nat,
                                         current: Option<SyncCommittee>, next: Option<SyncCommittee>, i: nat)
    requires Chain(node, snapshot, p, last, current, next).Ok? && p + i <= last
    ensures var (hs, closing) := Chain(node, snapshot, p, last, current, next).value;
            && |hs| == last - p + 1
            && Carries(node, snapshot, last, p + i,
                       if i == 0 then next else Announced(node, snapshot, last, p + i - 1), hs[i])
            && closing == (if p == last then next else Announced(node, snapshot, last, last - 1))
    decreases last - p
  {
    hide HeaderFrom, Carries;
    var h := Link(node, snapshot, last, p, next).value;
    LinkCarries(node, snapshot, p, last, next);
    if p < last {
      ChainContents(node, snapshot, p + 1, last, next, h.consensus.nextSyncCommittee, if i == 0 then 0 else i - 1);
    }
  }

  lemma LinkCarries(node: Node, snapshot: Option<UpdateData>, p: nat, last: nat, next: Option<SyncCommittee>)
    requires Link(node, snapshot, last, p, next).Ok?
    ensures var h := Link(node, snapshot, last, p, next).value;
            && Carries(node, snapshot, last, p, next, h)
            && h.consensus.nextSyncCommittee == Announced(node, snapshot, last, p)
  {
  }

  /**
    The headers of a list over several periods: each is trusted through the committee that the update
    of the period before announces, and the closing one through the committee of the last header.
    */
  lemma ChainToContents(node: Node, snapshot: Option<UpdateData>, start: nat, last: nat, header: Header)
    requires start in node.updates && start < last && ChainTo(node, snapshot, start, last, header).Ok?
    ensures var hs := ChainTo(node, snapshot, start, last, header).value;
            && |hs| == last - start + 1
            && (forall i :: 0 <= i < last - start ==>
                  Carries(node, snapshot, last, start + 1 + i, Announced(node, snapshot, last, start + i), hs[i]))
            && hs[last - start].consensus == header.consensus && hs[last - start].execution == header.execution
            && hs[last - start].trusted
               == Some(TrustedSyncCommittee(Announced(node, snapshot, last, last - 1), false))
  {
    var next := node.updates[start].consensus.nextSyncCommittee;
    assert next == Announced(node, snapshot, last, start);
    hide Chain, Carries, Announced;
    var hs := ChainTo(node, snapshot, start, last, header).value;
    ChainContents(node, snapshot, start + 1, last, None, next, 0);
    forall i | 0 <= i < last - start
      ensures Carries(node, snapshot, last, start + 1 + i, Announced(node, snapshot, last, start + i), hs[i])
    {
      ChainContents(node, snapshot, start + 1, last, None, next, i);
    }
  }

  /** The first list, in one period the claimed header alone and trusted through the bootstrap. */
  lemma AgreedToClaimedContents(node: Node, agreed: nat, claimedPeriod: nat, claimed: Header)
    requires AgreedToClaimed(node, agreed, claimedPeriod, claimed).Ok?
    ensures var hs, n := AgreedToClaimed(node, agreed, claimedPeriod, claimed).value, claimedPeriod - agreed;
            && agreed in node.updates && 0 <= n && |hs| == n + 1
            && (forall i :: 0 <= i < n ==>
                  Carries(node, None, claimedPeriod, agreed + 1 + i,
                          Announced(node, None, claimedPeriod, agreed + i), hs[i]))
            && hs[n].consensus == claimed.consensus && hs[n].execution == claimed.execution
            && var slot := node.updates[agreed].consensus.finalizedSlot;
            && (n == 0 ==> slot in node.bootstraps
                           && hs[n].trusted == Some(TrustedSyncCommittee(Some(node.bootstraps[slot]), false)))
            && (n > 0 ==>
                  hs[n].trusted
                  == Some(TrustedSyncCommittee(Announced(node, None, claimedPeriod, claimedPeriod - 1), false)))
  {
    hide Carries, Announced;
    if agreed < claimedPeriod {
      ChainToContents(node, None, agreed, claimedPeriod, claimed);
    }
  }

  /** The second list, with the snapshot as the update of the last period. */
  lemma ClaimedToLatestContents(node: Node, claimedPeriod: nat, latestPeriod: nat, latest: Header, snapshot: UpdateData)
    requires ClaimedToLatest(node, claimedPeriod, latestPeriod, latest, snapshot).Ok?
    ensures var hs := ClaimedToLatest(node, claimedPeriod, latestPeriod, latest, snapshot).value;
            var n := latestPeriod - claimedPeriod;
            && 0 < n && |hs| == n + 1
            && (forall i :: 0 <= i < n ==>
                  Carries(node, Some(snapshot), latestPeriod, claimedPeriod + 1 + i,
                          Announced(node, Some(snapshot), latestPeriod, claimedPeriod + i), hs[i]))
            && hs[n - 1].consensus == snapshot.consensus
            && hs[n].consensus == latest.consensus && hs[n].execution == latest.execution
            && hs[n].trusted
               == Some(TrustedSyncCommittee(Announced(node, Some(snapshot), latestPeriod, latestPeriod - 1), false))
  {
    hide Announced;
    ChainToContents(node, Some(snapshot), claimedPeriod, latestPeriod, latest);
  }

  // ---- When the lists exist ----

  /** The error of the first period without a usable update. */
  lemma {:induction false} ChainFirstError(node: Node, snapshot: Option<UpdateData>, p: nat, last: nat,
                                           current: Option<SyncCommittee>, next: Option<SyncCommittee>)
    returns (q: nat)
    requires Chain(node, snapshot, p, last, current, next).Err?
    ensures p <= q <= last && !Usable(node, snapshot, last, q)
    ensures forall r :: p <= r < q ==> Usable(node, snapshot, last, r)
    ensures Chain(node, snapshot, p, last, current, next).error ==
            match Shown(node, snapshot, last, q)
            case None => NoUpdate(q)
            case Some(data) =>
              if data.consensus.finalizedSlot in node.executions then ExecutionRootMismatch else NoExecution
    decreases last + 1 - p
  {
    match Link(node, snapshot, last, p, next) {
      case Err(_) => q := p;
      case Ok(h) =>
        q := ChainFirstError(node, snapshot, p + 1, last, next, h.consensus.nextSyncCommittee);
    }
  }

  /** The errors of the first list that are not about an update in it. */
  lemma AgreedToClaimedErrors(node: Node, agreed: nat, claimedPeriod: nat, claimed: Header)
    ensures var r := AgreedToClaimed(node, agreed, claimedPeriod, claimed);
            && (agreed !in node.updates ==> r == Err(NoUpdate(agreed)))
            && (r == Err(AgreedAfterClaimed) <==> agreed in node.updates && agreed > claimedPeriod)
            && (r == Err(NoBootstrap)
                <==> agreed in node.updates && agreed == claimedPeriod
                     && node.updates[agreed].consensus.finalizedSlot !in node.bootstraps)
  {
    if agreed in node.updates && agreed < claimedPeriod {
      ChainErrors(node, None, agreed + 1, claimedPeriod, None, node.updates[agreed].consensus.nextSyncCommittee);
    }
  }

  lemma ClaimedToLatestErrors(node: Node, claimedPeriod: nat, latestPeriod: nat, latest: Header, snapshot: UpdateData)
    ensures var r := ClaimedToLatest(node, claimedPeriod, latestPeriod, latest, snapshot);
            && (claimedPeriod !in node.updates ==> r == Err(NoUpdate(claimedPeriod)))
            && (r == Err(ClaimedNotBeforeLatest) <==> claimedPeriod in node.updates && claimedPeriod >= latestPeriod)
  {
    if claimedPeriod in node.updates && claimedPeriod < latestPeriod {
      ChainErrors(node, Some(snapshot), claimedPeriod + 1, latestPeriod, None,
                  node.updates[claimedPeriod].consensus.nextSyncCommittee);
    }
  }

  lemma AgreedToClaimedOkIff(node: Node, agreed: nat, claimedPeriod: nat, claimed: Header)
    ensures AgreedToClaimed(node, agreed, claimedPeriod, claimed).Ok?
       <==> && agreed in node.updates
            && agreed <= claimedPeriod
            && (agreed == claimedPeriod ==> node.updates[agreed].consensus.finalizedSlot in node.bootstraps)
            && (agreed < claimedPeriod ==>
                  forall q :: agreed < q <= claimedPeriod ==> Usable(node, None, claimedPeriod, q))
  {
    if agreed in node.updates {
      ChainOkIff(node, None, agreed + 1, claimedPeriod, None, node.updates[agreed].consensus.nextSyncCommittee);
    }
  }

  lemma ClaimedToLatestOkIff(node: Node, claimedPeriod: nat, latestPeriod: nat, latest: Header, snapshot: UpdateData)
    ensures ClaimedToLatest(node, claimedPeriod, latestPeriod, latest, snapshot).Ok?
       <==> && claimedPeriod in node.updates
            && claimedPeriod < latestPeriod
            && forall q :: claimedPeriod < q <= latestPeriod ==> Usable(node, Some(snapshot), latestPeriod, q)
  {
    if claimedPeriod in node.updates {
      ChainOkIff(node, Some(snapshot), claimedPeriod + 1, latestPeriod, None,
                 node.updates[claimedPeriod].consensus.nextSyncCommittee);
    }
  }

  /** Ordered L1 origins never ask for a list that runs backwards. */
  lemma OrderedOriginsNotBackwards(node: Node, agreedOrigin: nat, claimedOrigin: nat, claimed: Header)
    requires node.clock.Valid() && agreedOrigin in node.blockTimes && claimedOrigin in node.blockTimes
    requires node.blockTimes[agreedOrigin] <= node.blockTimes[claimedOrigin]
    requires PreviousPeriod(node, agreedOrigin).Ok?
    ensures PreviousPeriod(node, claimedOrigin).Ok?
    ensures var agreed := PreviousPeriod(node, agreedOrigin).value;
            var claimedPeriod := PreviousPeriod(node, claimedOrigin).value;
            AgreedToClaimed(node, agreed, claimedPeriod, claimed) != Err(AgreedAfterClaimed)
  {
    PreviousPeriodMonotone(node, agreedOrigin, claimedOrigin);
    var p, q := PreviousPeriod(node, agreedOrigin).value, PreviousPeriod(node, claimedOrigin).value;
    if p < q && p in node.updates {
      ChainErrors(node, None, p + 1, q, None, node.updates[p].consensus.nextSyncCommittee);
    }
  }

  /**
    When the latest period is not before the one of the claimed origin, the second list is refused
    for its order exactly in period 0, where there is no period before the claimed one.
    */
  lemma ClaimedNotBeforeLatestIff(node: Node, claimedOrigin: nat, latestPeriod: nat, latest: Header,
                                  snapshot: UpdateData)
    requires node.clock.Valid() && PeriodOfBlock(node, claimedOrigin).Ok?
    requires PeriodOfBlock(node, claimedOrigin).value <= latestPeriod
    requires PreviousPeriod(node, claimedOrigin).value in node.updates
    ensures ClaimedToLatest(node, PreviousPeriod(node, claimedOrigin).value, latestPeriod, latest, snapshot)
            == Err(ClaimedNotBeforeLatest)
       <==> latestPeriod == 0
  {
    var p := PreviousPeriod(node, claimedOrigin).value;
    if p < latestPeriod {
      ChainErrors(node, Some(snapshot), p + 1, latestPeriod, None, node.updates[p].consensus.nextSyncCommittee);
    }
  }

  lemma {:induction false} ChainErrors(node: Node, snapshot: Option<UpdateData>, p: nat, last: nat,
                                       current: Option<SyncCommittee>, next: Option<SyncCommittee>)
    ensures var r := Chain(node, snapshot, p, last, current, next);
            r.Err? ==> r.error.NoUpdate? || r.error.NoExecution? || r.error.ExecutionRootMismatch?
    decreases last + 1 - p
  {
    if p <= last {
      match Link(node, snapshot, last, p, next)
      case Err(_) =>
      case Ok(h) => ChainErrors(node, snapshot, p + 1, last, next, h.consensus.nextSyncCommittee);
    }
  }
}
