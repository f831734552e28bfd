/**
  The L1 client: it collects, period by period, the beacon updates that take a light client from
  one L1 state to another, and closes each list with the header the list is for.
  */
module SyncCommittees {
  import opened Integers
  import opened Wrappers
  import opened LightClient

  /** A light client update as the beacon node serves it, with the root of its own execution header. */
  datatype UpdateData = UpdateData(consensus: ConsensusUpdate, executionRoot: nat)

  /**
    What the nodes answer; a missing key is a failed request. Bootstraps are asked for by the root
    of a finalized block, which its slot stands for. `bootstrapIn` is the external lookup of a
    bootstrap within a period. `executions` holds the execution payload proof of a finalized slot,
    `blockTimes` the timestamps of L1 blocks.
    */
  datatype Node = Node(
    clock: Clock,
    updates: map<nat, UpdateData>,
    bootstraps: map<nat, SyncCommittee>,
    bootstrapIn: map<nat, SyncCommittee>,
    executions: map<nat, ExecutionUpdate>,
    blockTimes: map<nat, uint64>)

  datatype Error =
    | NoUpdate(period: nat)
    | NoBootstrap
    | NoExecution
    | ExecutionRootMismatch
    | AgreedAfterClaimed
    | ClaimedNotBeforeLatest
    | NoBlock(number: nat)
    | BeforeGenesis

  // ---- Periods of L1 blocks ----

  /** The slot of a timestamp, by floor division from genesis. */
  function SlotAt(clock: Clock, timestamp: nat): Result<nat, Error>
    requires clock.Valid()
  {
    if timestamp < clock.genesisTime then Err(BeforeGenesis)
    else Ok((timestamp - clock.genesisTime) / clock.secondsPerSlot)
  }

  function PeriodOfBlock(node: Node, number: nat): Result<nat, Error>
    requires node.clock.Valid()
  {
    if number !in node.blockTimes then Err(NoBlock(number))
    else
      match SlotAt(node.clock, node.blockTimes[number])
      case Err(e) => Err(e)
      case Ok(slot) => Ok(node.clock.Period(slot))
  }

  /** The period before the one of an L1 block, or period 0. */
  function PreviousPeriod(node: Node, number: nat): Result<nat, Error>
    requires node.clock.Valid()
  {
    match PeriodOfBlock(node, number)
    case Err(e) => Err(e)
    case Ok(period) => Ok(if period > 0 then period - 1 else 0)
  }

  lemma PreviousPeriodMonotone(node: Node, number: nat, later: nat)
    requires node.clock.Valid()
    requires number in node.blockTimes && later in node.blockTimes
    requires node.blockTimes[number] <= node.blockTimes[later]
    requires PreviousPeriod(node, number).Ok?
    ensures PreviousPeriod(node, later).Ok?
    ensures PreviousPeriod(node, number).value <= PreviousPeriod(node, later).value
  {
    var clock := node.clock;
    var t, t' := node.blockTimes[number] - clock.genesisTime, node.blockTimes[later] - clock.genesisTime;
    DivMonotone(t, t', clock.secondsPerSlot);
    clock.PeriodMonotone(t / clock.secondsPerSlot, t' / clock.secondsPerSlot);
  }

  /** The previous period of a 64-bit timestamp is below the last 64-bit number. */
  lemma PreviousPeriodFits(node: Node, number: nat)
    requires node.clock.Valid() && PreviousPeriod(node, number).Ok?
    ensures PreviousPeriod(node, number).value < UINT64_LIMIT - 1
  {
    var clock := node.clock;
    var t := node.blockTimes[number] - clock.genesisTime;
    QuotientAtMost(t, clock.secondsPerSlot);
    QuotientAtMost(t / clock.secondsPerSlot, clock.slotsPerEpoch);
    QuotientAtMost(clock.Epoch(t / clock.secondsPerSlot), clock.epochsPerPeriod);
  }

  /** The seconds of a sync committee period. */
  function PeriodLength(clock: Clock): nat {
    clock.secondsPerSlot * clock.slotsPerEpoch * clock.epochsPerPeriod
  }

  /** The period of a time, told by the interval that the period lasts. */
  lemma PeriodOfTimeIff(clock: Clock, timestamp: nat, p: nat)
    requires clock.Valid() && clock.genesisTime <= timestamp
    ensures SlotAt(clock, timestamp).Ok?
    ensures clock.Period(SlotAt(clock, timestamp).value) == p
       <==> clock.genesisTime + p * PeriodLength(clock) <= timestamp < clock.genesisTime + (p + 1) * PeriodLength(clock)
  {
    var t := timestamp - clock.genesisTime;
    QuotientOfQuotient(t, clock.secondsPerSlot, clock.slotsPerEpoch);
    QuotientOfQuotient(t, clock.secondsPerSlot * clock.slotsPerEpoch, clock.epochsPerPeriod);
    QuotientIff(t, PeriodLength(clock), p);
  }

  /** The answer for an L1 block: a failed lookup, a time before genesis, or the period before the one it lies in. */
  lemma PreviousPeriodIff(node: Node, number: nat, p: nat)
    requires node.clock.Valid()
    ensures number !in node.blockTimes ==> PreviousPeriod(node, number) == Err(NoBlock(number))
    ensures number in node.blockTimes && node.blockTimes[number] < node.clock.genesisTime ==>
              PreviousPeriod(node, number) == Err(BeforeGenesis)
    ensures number in node.blockTimes && node.clock.genesisTime <= node.blockTimes[number] ==>
              var t, start, length := node.blockTimes[number], node.clock.genesisTime, PeriodLength(node.clock);
              && PreviousPeriod(node, number).Ok?
              && (PreviousPeriod(node, number) == Ok(p)
                  <==> || start + (p + 1) * length <= t < start + (p + 2) * length
                       || (p == 0 && t < start + length))
  {
    if number in node.blockTimes && node.clock.genesisTime <= node.blockTimes[number] {
      PeriodOfTimeIff(node.clock, node.blockTimes[number], p + 1);
      PeriodOfTimeIff(node.clock, node.blockTimes[number], 0);
    }
  }

  /** With the constants of the Ethereum main network. */
  lemma MainnetPeriod(node: Node, number: nat)
    requires node.clock == Clock(1606824023, 12, 32, 256)
    requires number in node.blockTimes && node.blockTimes[number] == 1700000027
    ensures PreviousPeriod(node, number) == Ok(946)
  {
    assert PeriodLength(node.clock) == 98304;
    PreviousPeriodIff(node, number, 946);
  }

  lemma QuotientAtMost(x: nat, d: nat)
    requires 0 < d
    ensures 0 <= x / d <= x
  {
    MulMonotone(1, d, x / d);
  }

  // ---- The header lists, as values ----

  /** A header signed by the committee the store will have as its next one. */
  function HeaderFrom(node: Node, data: UpdateData, trusted: Option<SyncCommittee>): Result<Header, Error> {
    if data.consensus.finalizedSlot !in node.executions then Err(NoExecution)
    else if data.executionRoot != data.consensus.finalizedExecutionRoot then Err(ExecutionRootMismatch)
    else
      Ok(Header(
           Some(TrustedSyncCommittee(trusted, true)),
           data.consensus,
           node.executions[data.consensus.finalizedSlot]))
  }

  function HeaderAt(node: Node, period: nat, trusted: Option<SyncCommittee>): Result<Header, Error> {
    if period !in node.updates then Err(NoUpdate(period)) else HeaderFrom(node, node.updates[period], trusted)
  }

  /** The update header of period `p` in a list ending at `last`, which a given snapshot overrides there. */
  function Link(node: Node, snapshot: Option<UpdateData>, last: nat, p: nat, trusted: Option<SyncCommittee>)
    : Result<Header, Error>
  {
    if p == last && snapshot.Some? then HeaderFrom(node, snapshot.value, trusted) else HeaderAt(node, p, trusted)
  }

  /**
    The update headers of the periods `p..last`, the first one trusted through `next`, together
    with the committee in force once the last one is applied.
    */
  function Chain(node: Node, snapshot: Option<UpdateData>, p: nat, last: nat,
                 current: Option<SyncCommittee>, next: Option<SyncCommittee>)
    : Result<(seq<Header>, Option<SyncCommittee>), Error>
    decreases last + 1 - p
  {
    if p > last then Ok(([], current))
    else
      match Link(node, snapshot, last, p, next)
      case Err(e) => Err(e)
      case Ok(header) => Prepend([header], Chain(node, snapshot, p + 1, last, next, header.consensus.nextSyncCommittee))
  }

  /** A chain with headers already built in front of it. */
  function Prepend(built: seq<Header>, rest: Result<(seq<Header>, Option<SyncCommittee>), Error>)
    : Result<(seq<Header>, Option<SyncCommittee>), Error>
  {
    match rest
    case Err(e) => Err(e)
    case Ok((headers, committee)) => Ok((built + headers, committee))
  }

  lemma PrependNone(rest: Result<(seq<Header>, Option<SyncCommittee>), Error>)
    ensures Prepend([], rest) == rest
  {
    if rest.Ok? {
      assert [] + rest.value.0 == rest.value.0;
    }
  }

  /** One round of the building loops. */
  lemma ChainStep(node: Node, snapshot: Option<UpdateData>, p: nat, last: nat,
                  current: Option<SyncCommittee>, next: Option<SyncCommittee>, built: seq<Header>)
    requires p <= last
    ensures Prepend(built, Chain(node, snapshot, p, last, current, next)) ==
            match Link(node, snapshot, last, p, next)
            case Err(e) => Err(e)
            case Ok(h) => Prepend(built + [h], Chain(node, snapshot, p + 1, last, next, h.consensus.nextSyncCommittee))
  {
    var link := Link(node, snapshot, last, p, next);
    if link.Ok? {
      var rest := Chain(node, snapshot, p + 1, last, next, link.value.consensus.nextSyncCommittee);
      if rest.Ok? {
        assert built + [link.value] + rest.value.0 == built + ([link.value] + rest.value.0);
      }
    }
  }

  /** `header` to be verified with a committee that is already in force. */
  function Closing(header: Header, committee: Option<SyncCommittee>): Header {
    header.(trusted := Some(TrustedSyncCommittee(committee, false)))
  }

  function ChainTo(node: Node, snapshot: Option<UpdateData>, start: nat, last: nat, header: Header)
    : Result<seq<Header>, Error>
    requires start in node.updates
  {
    match Chain(node, snapshot, start + 1, last, None, node.updates[start].consensus.nextSyncCommittee)
    case Err(e) => Err(e)
    case Ok((headers, committee)) => Ok(headers + [Closing(header, committee)])
  }

  function AgreedToClaimed(node: Node, agreed: nat, claimedPeriod: nat, claimed: Header)
    : Result<seq<Header>, Error>
  {
    if agreed !in node.updates then Err(NoUpdate(agreed))
    else if agreed == claimedPeriod then
      var slot := node.updates[agreed].consensus.finalizedSlot;
      if slot !in node.bootstraps then Err(NoBootstrap)
      else Ok([Closing(claimed, Some(node.bootstraps[slot]))])
    else if agreed > claimedPeriod then Err(AgreedAfterClaimed)
    else ChainTo(node, None, agreed, claimedPeriod, claimed)
  }

  function ClaimedToLatest(node: Node, claimedPeriod: nat, latestPeriod: nat, latest: Header, snapshot: UpdateData)
    : Result<seq<Header>, Error>
  {
    if claimedPeriod !in node.updates then Err(NoUpdate(claimedPeriod))
    else if claimedPeriod >= latestPeriod then Err(ClaimedNotBeforeLatest)
    else ChainTo(node, Some(snapshot), claimedPeriod, latestPeriod, latest)
  }

  /** What a header from an update carries, and the error if one cannot be made. */
  lemma HeaderFromContents(node: Node, data: UpdateData, trusted: Option<SyncCommittee>)
    ensures var slot, r := data.consensus.finalizedSlot, HeaderFrom(node, data, trusted);
            && (r == Err(NoExecution) <==> slot !in node.executions)
            && (r == Err(ExecutionRootMismatch)
                <==> slot in node.executions && data.executionRoot != data.consensus.finalizedExecutionRoot)
            && (r.Ok? <==> slot in node.executions && data.executionRoot == data.consensus.finalizedExecutionRoot)
            && (r.Ok? ==>
                  && r.value.trusted == Some(TrustedSyncCommittee(trusted, true))
                  && r.value.consensus == data.consensus
                  && r.value.execution == node.executions[slot])
  {
  }

  // ---- The client ----

  class L1Header {
    var trustedSyncCommittee: Option<TrustedSyncCommittee>
    var consensusUpdate: ConsensusUpdate
    var executionUpdate: ExecutionUpdate

    constructor (value: Header)
      ensures Value() == value
    {
      trustedSyncCommittee := value.trusted;
      consensusUpdate := value.consensus;
      executionUpdate := value.execution;
    }

    function Value(): Header
      reads this
    {
      Header(trustedSyncCommittee, consensusUpdate, executionUpdate)
    }
  }

  ghost function Values(headers: seq<L1Header>): seq<Header>
    reads headers
  {
    seq(|headers|, i requires 0 <= i < |headers| reads headers => headers[i].Value())
  }

  ghost predicate Distinct(headers: seq<L1Header>) {
    forall i, j :: 0 <= i < j < |headers| ==> headers[i] != headers[j]
  }

  class L1Client {
    const node: Node

    constructor (node: Node)
      ensures this.node == node
    {
      this.node := node;
    }

    method GetPreviousPeriodByBlockNumber(number: nat) returns (r: Result<nat, Error>)
      requires node.clock.Valid()
      ensures r == PreviousPeriod(node, number)
    {
      if number !in node.blockTimes {
        return Err(NoBlock(number));
      }
      var slot := SlotAt(node.clock, node.blockTimes[number]);
      if slot.Err? {
        return Err(slot.error);
      }
      var period := node.clock.PeriodOfEpoch(node.clock.Epoch(slot.value));
      if period > 0 {
        period := period - 1;
      }
      return Ok(period);
    }

    method BuildFromData(data: UpdateData, trusted: Option<SyncCommittee>) returns (r: Result<L1Header, Error>)
      ensures r.Ok? ==> fresh(r.value) && HeaderFrom(node, data, trusted) == Ok(r.value.Value())
      ensures r.Err? ==> HeaderFrom(node, data, trusted) == Err(r.error)
    {
      if data.consensus.finalizedSlot !in node.executions {
        return Err(NoExecution);
      }
      if data.executionRoot != data.consensus.finalizedExecutionRoot {
        return Err(ExecutionRootMismatch);
      }
      var header := new L1Header(Header(
          Some(TrustedSyncCommittee(trusted, true)), data.consensus, node.executions[data.consensus.finalizedSlot]));
      return Ok(header);
    }

    method BuildNextSyncCommitteeUpdate(period: nat, trusted: Option<SyncCommittee>)
      returns (r: Result<L1Header, Error>)
      ensures r.Ok? ==> fresh(r.value) && HeaderAt(node, period, trusted) == Ok(r.value.Value())
      ensures r.Err? ==> HeaderAt(node, period, trusted) == Err(r.error)
    {
      if period !in node.updates {
        return Err(NoUpdate(period));
      }
      r := BuildFromData(node.updates[period], trusted);
    }

    /**
      The updates of the periods after `agreed`, closed by `claimed`, whose trusted committee is
      overwritten in place. Only a list over several periods counts up to `claimedPeriod`, and the
      count wraps past the last 64-bit period.
      */
    method GetSyncCommitteesFromAgreedToClaimed(agreed: uint64, claimedPeriod: uint64, claimed: L1Header)
      returns (r: Result<seq<L1Header>, Error>)
      requires agreed < claimedPeriod ==> claimedPeriod < UINT64_LIMIT - 1
      modifies claimed
      ensures r.Ok? ==>
                && r.value != [] && r.value[|r.value| - 1] == claimed
                && Distinct(r.value) && fresh(r.value[..|r.value| - 1])
                && AgreedToClaimed(node, agreed, claimedPeriod, old(claimed.Value())) == Ok(Values(r.value))
      ensures r.Err? ==> unchanged(claimed)
                         && AgreedToClaimed(node, agreed, claimedPeriod, claimed.Value()) == Err(r.error)
    {
      if agreed !in node.updates {
        return Err(NoUpdate(agreed));
      }
      var res := node.updates[agreed];
      if agreed == claimedPeriod {
        var slot := res.consensus.finalizedSlot;
        if slot !in node.bootstraps {
          return Err(NoBootstrap);
        }
        claimed.trustedSyncCommittee := Some(TrustedSyncCommittee(Some(node.bootstraps[slot]), false));
        r := Ok([claimed]);
        assert Values(r.value) == [claimed.Value()];
        return;
      } else if agreed > claimedPeriod {
        return Err(AgreedAfterClaimed);
      }
      var headers: seq<L1Header> := [];
      var trustedNext := res.consensus.nextSyncCommittee;
      var trustedCurrent: Option<SyncCommittee> := None;
      ghost var built: seq<Header> := [];
      ghost var whole := Chain(node, None, agreed + 1, claimedPeriod, None, trustedNext);
      PrependNone(whole);
      var p: uint64 := agreed + 1;
      while p <= claimedPeriod
        invariant agreed < p <= claimedPeriod + 1
        invariant Distinct(headers) && fresh(headers)
        invariant unchanged(claimed)
        invariant |built| == |headers| && forall i :: 0 <= i < |headers| ==> headers[i].Value() == built[i]
        invariant Prepend(built, Chain(node, None, p, claimedPeriod, trustedCurrent, trustedNext)) == whole
      {
        var header := BuildNextSyncCommitteeUpdate(p, trustedNext);
        ChainStep(node, None, p, claimedPeriod, trustedCurrent, trustedNext, built);
        if header.Err? {
          return Err(header.error);
        }
        trustedCurrent := trustedNext;
        trustedNext := header.value.consensusUpdate.nextSyncCommittee;
        headers := headers + [header.value];
        built := built + [header.value.Value()];
        p := p + 1;
      }
      assert built + [] == built;
      claimed.trustedSyncCommittee := Some(TrustedSyncCommittee(trustedCurrent, false));
      r := Ok(headers + [claimed]);
      assert Values(r.value) == built + [claimed.Value()];
    }

    /** As above towards `latest`; the last period uses the snapshot taken with `latest`. */
    method GetSyncCommitteesFromClaimedToLatest(claimedPeriod: uint64, latestPeriod: uint64, latest: L1Header,
                                                snapshot: UpdateData)
      returns (r: Result<seq<L1Header>, Error>)
      requires claimedPeriod < latestPeriod ==> latestPeriod < UINT64_LIMIT - 1
      modifies latest
      ensures r.Ok? ==>
                && r.value != [] && r.value[|r.value| - 1] == latest
                && Distinct(r.value) && fresh(r.value[..|r.value| - 1])
                && ClaimedToLatest(node, claimedPeriod, latestPeriod, old(latest.Value()), snapshot)
                   == Ok(Values(r.value))
      ensures r.Err? ==> unchanged(latest)
                         && ClaimedToLatest(node, claimedPeriod, latestPeriod, latest.Value(), snapshot) == Err(r.error)
    {
      if claimedPeriod !in node.updates {
        return Err(NoUpdate(claimedPeriod));
      }
      if claimedPeriod >= latestPeriod {
        return Err(ClaimedNotBeforeLatest);
      }
      var headers: seq<L1Header> := [];
      var trustedNext := node.updates[claimedPeriod].consensus.nextSyncCommittee;
      var trustedCurrent: Option<SyncCommittee> := None;
      ghost var built: seq<Header> := [];
      ghost var whole := Chain(node, Some(snapshot), claimedPeriod + 1, latestPeriod, None, trustedNext);
      PrependNone(whole);
      var p: uint64 := claimedPeriod + 1;
      while p <= latestPeriod
        invariant claimedPeriod < p <= latestPeriod + 1
        invariant Distinct(headers) && fresh(headers)
        invariant unchanged(latest)
        invariant |built| == |headers| && forall i :: 0 <= i < |headers| ==> headers[i].Value() == built[i]
        invariant Prepend(built, Chain(node, Some(snapshot), p, latestPeriod, trustedCurrent, trustedNext)) == whole
      {
        var header: Result<L1Header, Error>;
        if p == latestPeriod {
          header := BuildFromData(snapshot, trustedNext);
        } else {
          header := BuildNextSyncCommitteeUpdate(p, trustedNext);
        }
        ChainStep(node, Some(snapshot), p, latestPeriod, trustedCurrent, trustedNext, built);
        if header.Err? {
          return Err(header.error);
        }
        trustedCurrent := trustedNext;
        trustedNext := header.value.consensusUpdate.nextSyncCommittee;
        headers := headers + [header.value];
        built := built + [header.value.Value()];
        p := p + 1;
      }
      assert built + [] == built;
      latest.trustedSyncCommittee := Some(TrustedSyncCommittee(trustedCurrent, false));
      r := Ok(headers + [latest]);
      assert Values(r.value) == built + [latest.Value()];
    }
  }
}
