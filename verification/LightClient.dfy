/**
  The consumer of the L1 headers: the store of an Altair light client, after the sections
  `validate_light_client_update` and `apply_light_client_update` of the Ethereum consensus
  specifications, `altair/light-client/sync-protocol.md`. Signatures are abstract: an update
  names the committee that signed it.
  */
module LightClient {
  import opened Integers
  import opened Wrappers

  /** Chain constants; a slot lies in an epoch and an epoch in a sync committee period. */
  datatype Clock = Clock(genesisTime: nat, secondsPerSlot: nat, slotsPerEpoch: nat, epochsPerPeriod: nat) {
    predicate Valid() {
      0 < secondsPerSlot && 0 < slotsPerEpoch && 0 < epochsPerPeriod
    }

    function Epoch(slot: nat): nat
      requires Valid()
    {
      slot / slotsPerEpoch
    }

    function PeriodOfEpoch(epoch: nat): nat
      requires Valid()
    {
      epoch / epochsPerPeriod
    }

    function Period(slot: nat): nat
      requires Valid()
    {
      PeriodOfEpoch(Epoch(slot))
    }

    lemma PeriodMonotone(slot: nat, later: nat)
      requires Valid() && slot <= later
      ensures Period(slot) <= Period(later)
    {
      DivMonotone(slot, later, slotsPerEpoch);
      DivMonotone(Epoch(slot), Epoch(later), epochsPerPeriod);
    }
  }

  datatype SyncCommittee = SyncCommittee(aggregatePubkey: nat)

  datatype ConsensusUpdate = ConsensusUpdate(
    attestedSlot: nat,
    finalizedSlot: nat,
    signatureSlot: nat,
    signer: SyncCommittee,
    nextSyncCommittee: Option<SyncCommittee>,
    finalizedExecutionRoot: nat)

  datatype ExecutionUpdate = ExecutionUpdate(blockNumber: nat)

  /** The committee a header asks to be verified with, and whether it is the store's next one. */
  datatype TrustedSyncCommittee = TrustedSyncCommittee(syncCommittee: Option<SyncCommittee>, isNext: bool)

  datatype Header = Header(
    trusted: Option<TrustedSyncCommittee>,
    consensus: ConsensusUpdate,
    execution: ExecutionUpdate)

  datatype Store = Store(finalizedSlot: nat, current: SyncCommittee, next: Option<SyncCommittee>)

  predicate Validate(clock: Clock, store: Store, h: Header)
    requires clock.Valid()
  {
    var u := h.consensus;
    var storePeriod := clock.Period(store.finalizedSlot);
    var signaturePeriod := clock.Period(u.signatureSlot);
    var attestedPeriod := clock.Period(u.attestedSlot);
    var updateHasNext := store.next.None? && u.nextSyncCommittee.Some? && attestedPeriod == storePeriod;
    && u.finalizedSlot <= u.attestedSlot < u.signatureSlot
    && (signaturePeriod == storePeriod || (store.next.Some? && signaturePeriod == storePeriod + 1))
    && (store.finalizedSlot < u.attestedSlot || updateHasNext)
    && (u.nextSyncCommittee.Some? && store.next.Some? && attestedPeriod == storePeriod ==>
          u.nextSyncCommittee == store.next)
    && var committee := if signaturePeriod == storePeriod then store.current else store.next.value;
    && u.signer == committee
    && h.trusted == Some(TrustedSyncCommittee(Some(committee), signaturePeriod != storePeriod))
  }

  function Apply(clock: Clock, store: Store, u: ConsensusUpdate): Option<Store>
    requires clock.Valid()
  {
    var storePeriod := clock.Period(store.finalizedSlot);
    var finalizedPeriod := clock.Period(u.finalizedSlot);
    var finalizedSlot := if u.finalizedSlot > store.finalizedSlot then u.finalizedSlot else store.finalizedSlot;
    if store.next.None? then
      if finalizedPeriod != storePeriod then None
      else Some(Store(finalizedSlot, store.current, u.nextSyncCommittee))
    else if finalizedPeriod == storePeriod + 1 then
      Some(Store(finalizedSlot, store.next.value, u.nextSyncCommittee))
    else
      Some(store.(finalizedSlot := finalizedSlot))
  }

  function Process(clock: Clock, store: Store, h: Header): Option<Store>
    requires clock.Valid()
  {
    if Validate(clock, store, h) then Apply(clock, store, h.consensus) else None
  }

  /** The store after a list of headers, provided every one of them is accepted. */
  function Replay(clock: Clock, store: Store, headers: seq<Header>): Option<Store>
    requires clock.Valid()
    decreases |headers|
  {
    if headers == [] then Some(store)
    else
      match Process(clock, store, headers[0])
      case None => None
      case Some(s) => Replay(clock, s, headers[1..])
  }

  lemma {:induction false} ReplayConcat(clock: Clock, store: Store, a: seq<Header>, b: seq<Header>)
    requires clock.Valid()
    ensures Replay(clock, store, a + b) ==
            match Replay(clock, store, a)
            case None => None
            case Some(s) => Replay(clock, s, b)
    decreases |a|
  {
    if a == [] {
      assert a + b == b;
    } else {
      assert (a + b)[1..] == a[1..] + b;
      match Process(clock, store, a[0])
      case None =>
      case Some(s) => ReplayConcat(clock, s, a[1..], b);
    }
  }
}
