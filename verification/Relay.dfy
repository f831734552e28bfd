/**
  One update header per preimage request, the stream of them through the pipeline, and the client
  that consumes the stream. L2 outputs, account proofs and preimages are opaque answers of their
  servers, keyed by what they are asked for; a missing key is a failed request.
  */
module Relay {
  import opened Integers
  import opened Wrappers
  import opened LightClient
  import opened SyncCommittees
  import opened Acceptance
  import Pipeline

  datatype Metadata = Metadata(agreed: nat, claimed: nat, l1Head: nat)

  datatype Output = Output(number: nat, outputRoot: nat, l1Origin: nat)

  /** The finalized L1 data recorded for a preimage: finality update, period, and update snapshot. */
  datatype FinalizedData = FinalizedData(finality: UpdateData, period: nat, snapshot: UpdateData)

  datatype Servers = Servers(
    node: Node,
    outputs: map<nat, Output>,
    finalized: map<nat, FinalizedData>,
    accounts: map<nat, nat>,
    preimages: map<Metadata, nat>)

  datatype Failure =
    | L1(error: Error)
    | NoOutput(number: nat)
    | NoFinalizedData
    | NoAccountUpdate
    | NoPreimage

  datatype UpdateHeader = UpdateHeader(
    trustedHeight: nat,
    agreedOutputRoot: nat,
    outputRoot: nat,
    l2BlockNumber: nat,
    accountUpdate: nat,
    trustedToDeterministic: seq<Header>,
    deterministicToLatest: seq<Header>,
    preimages: nat)

  // ---- One header ----

  function FinalizedL1Header(node: Node, data: FinalizedData): Result<Header, Error> {
    match HeaderFrom(node, data.finality, None)
    case Err(e) => Err(e)
    case Ok(header) => Ok(header.(trusted := None))
  }

  /** The period before an L2 block's L1 origin, the update of that period, and the block's output. */
  function Deterministic(w: Servers, number: nat): Result<(nat, Header, Output), Failure>
    requires w.node.clock.Valid()
  {
    if number !in w.outputs then Err(NoOutput(number))
    else
      match PreviousPeriod(w.node, w.outputs[number].l1Origin)
      case Err(e) => Err(L1(e))
      case Ok(period) =>
        match HeaderAt(w.node, period, None)
        case Err(e) => Err(L1(e))
        case Ok(header) => Ok((period, header, w.outputs[number]))
  }

  /** The two header lists of an update: to the claimed L1 state, and on to the latest finalized one. */
  function BuildLists(node: Node, data: FinalizedData, latest: Header, agreedPeriod: nat, claimedPeriod: nat,
                      claimed: Header)
    : Result<(seq<Header>, seq<Header>), Error>
  {
    match AgreedToClaimed(node, agreedPeriod, claimedPeriod, claimed)
    case Err(e) => Err(e)
    case Ok(toDeterministic) =>
      match ClaimedToLatest(node, claimedPeriod, data.period, latest, data.snapshot)
      case Err(e) => Err(e)
      case Ok(toLatest) => Ok((toDeterministic, toLatest))
  }

  function BuildHeader(w: Servers, m: Metadata): Result<UpdateHeader, Failure>
    requires w.node.clock.Valid()
  {
    if m.l1Head !in w.finalized then Err(NoFinalizedData)
    else
      var data := w.finalized[m.l1Head];
      match FinalizedL1Header(w.node, data)
      case Err(e) => Err(L1(e))
      case Ok(latest) =>
        match Deterministic(w, m.agreed)
        case Err(f) => Err(f)
        case Ok((agreedPeriod, _, agreedOutput)) =>
          match Deterministic(w, m.claimed)
          case Err(f) => Err(f)
          case Ok((claimedPeriod, claimed, claimedOutput)) =>
            if claimedOutput.number !in w.accounts then Err(NoAccountUpdate)
            else
              match BuildLists(w.node, data, latest, agreedPeriod, claimedPeriod, claimed)
              case Err(e) => Err(L1(e))
              case Ok((toDeterministic, toLatest)) =>
                if m !in w.preimages then Err(NoPreimage)
                else
                  Ok(UpdateHeader(
                       agreedOutput.number, agreedOutput.outputRoot, claimedOutput.outputRoot, claimedOutput.number,
                       w.accounts[claimedOutput.number], toDeterministic, toLatest, w.preimages[m]))
  }

  // ---- What a built header carries, and when there is one ----

  lemma FinalizedContents(node: Node, data: FinalizedData)
    ensures var r, u := FinalizedL1Header(node, data), data.finality.consensus;
            && (r.Ok? <==>
                  u.finalizedSlot in node.executions && data.finality.executionRoot == u.finalizedExecutionRoot)
            && (r.Ok? ==> r.value == Header(None, u, node.executions[u.finalizedSlot]))
  {
  }

  /** The period of an L2 height and a usable update of it. */
  predicate Answered(w: Servers, number: nat)
    requires w.node.clock.Valid()
  {
    && number in w.outputs
    && PreviousPeriod(w.node, w.outputs[number].l1Origin).Ok?
    && var p := PreviousPeriod(w.node, w.outputs[number].l1Origin).value;
    && Usable(w.node, None, p, p)
  }

  lemma DeterministicOkIff(w: Servers, number: nat)
    requires w.node.clock.Valid()
    ensures Deterministic(w, number).Ok? <==> Answered(w, number)
    ensures Deterministic(w, number).Ok? ==>
              var (p, header, output) := Deterministic(w, number).value;
              && PreviousPeriod(w.node, w.outputs[number].l1Origin) == Ok(p) && output == w.outputs[number]
              && Carries(w.node, None, p, p, None, header)
  {
  }

  /** An update header is built exactly when all the answers are there and the periods are in order. */
  lemma BuildHeaderOkIff(w: Servers, m: Metadata)
    requires w.node.clock.Valid()
    ensures BuildHeader(w, m).Ok? <==>
            && m.l1Head in w.finalized && Answered(w, m.agreed) && Answered(w, m.claimed)
            && var node, data := w.node, w.finalized[m.l1Head];
            && var u := data.finality.consensus;
            && var p := PreviousPeriod(node, w.outputs[m.agreed].l1Origin).value;
            && var q := PreviousPeriod(node, w.outputs[m.claimed].l1Origin).value;
            && u.finalizedSlot in node.executions && data.finality.executionRoot == u.finalizedExecutionRoot
            && w.outputs[m.claimed].number in w.accounts
            && p <= q < data.period
            && (p == q ==> node.updates[p].consensus.finalizedSlot in node.bootstraps)
            && (forall r :: p < r <= q ==> Usable(node, None, q, r))
            && (forall r :: q < r <= data.period ==> Usable(node, Some(data.snapshot), data.period, r))
            && m in w.preimages
  {
    DeterministicOkIff(w, m.agreed);
    DeterministicOkIff(w, m.claimed);
    if m.l1Head in w.finalized && Answered(w, m.agreed) && Answered(w, m.claimed) {
      var data := w.finalized[m.l1Head];
      var (p, _, _) := Deterministic(w, m.agreed).value;
      var (q, claimed, _) := Deterministic(w, m.claimed).value;
      AnsweredUpdate(w, m.agreed);
      AnsweredUpdate(w, m.claimed);
      FinalizedContents(w.node, data);
      hide Answered, Usable, Deterministic, FinalizedL1Header, AgreedToClaimed, ClaimedToLatest;
      AgreedToClaimedOkIff(w.node, p, q, claimed);
      if FinalizedL1Header(w.node, data).Ok? {
        ClaimedToLatestOkIff(w.node, q, data.period, FinalizedL1Header(w.node, data).value, data.snapshot);
      }
    }
  }

  lemma AnsweredUpdate(w: Servers, number: nat)
    requires w.node.clock.Valid() && Answered(w, number)
    ensures PreviousPeriod(w.node, w.outputs[number].l1Origin).value in w.node.updates
  {
  }

  /** Each part of a built header is the answer to the right question. */
  lemma BuildHeaderContents(w: Servers, m: Metadata)
    requires w.node.clock.Valid() && BuildHeader(w, m).Ok?
    ensures Answered(w, m.agreed) && Answered(w, m.claimed) && m.l1Head in w.finalized
    ensures var h, agreed, claimed := BuildHeader(w, m).value, w.outputs[m.agreed], w.outputs[m.claimed];
            && h.trustedHeight == agreed.number && h.agreedOutputRoot == agreed.outputRoot
            && h.l2BlockNumber == claimed.number && h.outputRoot == claimed.outputRoot
            && claimed.number in w.accounts && h.accountUpdate == w.accounts[claimed.number]
            && m in w.preimages && h.preimages == w.preimages[m]
    ensures var h, node, data := BuildHeader(w, m).value, w.node, w.finalized[m.l1Head];
            var p := PreviousPeriod(node, w.outputs[m.agreed].l1Origin).value;
            var q := PreviousPeriod(node, w.outputs[m.claimed].l1Origin).value;
            exists claimed, latest ::
              && Carries(node, None, q, q, None, claimed)
              && FinalizedL1Header(node, data) == Ok(latest)
              && AgreedToClaimed(node, p, q, claimed) == Ok(h.trustedToDeterministic)
              && ClaimedToLatest(node, q, data.period, latest, data.snapshot) == Ok(h.deterministicToLatest)
  {
    DeterministicOkIff(w, m.agreed);
    DeterministicOkIff(w, m.claimed);
    var (_, claimed, _) := Deterministic(w, m.claimed).value;
    var latest := FinalizedL1Header(w.node, w.finalized[m.l1Head]).value;
    hide Answered, Usable, Deterministic, FinalizedL1Header, AgreedToClaimed, ClaimedToLatest, Carries;
    assert Carries(w.node, None, PreviousPeriod(w.node, w.outputs[m.claimed].l1Origin).value,
                   PreviousPeriod(w.node, w.outputs[m.claimed].l1Origin).value, None, claimed);
  }

  /** With honest servers, the account proof and the preimages are the ones of the claimed height and the request. */
  lemma HonestHeaderContents(w: Servers, committees: Committees, m: Metadata)
    requires HonestServers(w, committees) && BuildHeader(w, m).Ok?
    ensures var h := BuildHeader(w, m).value;
            && h.trustedHeight == m.agreed && h.l2BlockNumber == m.claimed
            && m.claimed in w.accounts && h.accountUpdate == w.accounts[m.claimed]
            && m in w.preimages && h.preimages == w.preimages[m]
  {
    BuildHeaderContents(w, m);
    hide BuildHeader;
  }

  /** Every L1 header of a built update header has the payload of its own finalized slot. */
  lemma PayloadsOfHeader(w: Servers, m: Metadata)
    requires w.node.clock.Valid() && BuildHeader(w, m).Ok?
    ensures forall h :: h in BuildHeader(w, m).value.trustedToDeterministic ==> HasPayload(w.node, h)
    ensures forall h :: h in BuildHeader(w, m).value.deterministicToLatest ==> HasPayload(w.node, h)
  {
    BuildHeaderContents(w, m);
    var node, data := w.node, w.finalized[m.l1Head];
    var p := PreviousPeriod(node, w.outputs[m.agreed].l1Origin).value;
    var q := PreviousPeriod(node, w.outputs[m.claimed].l1Origin).value;
    var header := BuildHeader(w, m).value;
    hide BuildHeader, Answered, FinalizedL1Header, AgreedToClaimed, ClaimedToLatest, PreviousPeriod, Announced;
    var claimed, latest :|
      && Carries(node, None, q, q, None, claimed)
      && FinalizedL1Header(node, data) == Ok(latest)
      && AgreedToClaimed(node, p, q, claimed) == Ok(header.trustedToDeterministic)
      && ClaimedToLatest(node, q, data.period, latest, data.snapshot) == Ok(header.deterministicToLatest);
    FinalizedContents(node, data);
    AgreedToClaimedContents(node, p, q, claimed);
    ClaimedToLatestContents(node, q, data.period, latest, data.snapshot);
  }

  predicate HasPayload(node: Node, h: Header) {
    h.consensus.finalizedSlot in node.executions && h.execution == node.executions[h.consensus.finalizedSlot]
  }

  /** The errors that are not about L1, each of which comes after the answers before it are there. */
  lemma BuildHeaderErrors(w: Servers, m: Metadata)
    requires w.node.clock.Valid()
    ensures BuildHeader(w, m) == Err(NoFinalizedData) <==> m.l1Head !in w.finalized
    ensures var ready := m.l1Head in w.finalized && FinalizedL1Header(w.node, w.finalized[m.l1Head]).Ok?;
            && (BuildHeader(w, m) == Err(NoOutput(m.agreed)) && m.agreed != m.claimed
                <==> ready && m.agreed !in w.outputs && m.agreed != m.claimed)
            && (BuildHeader(w, m) == Err(NoAccountUpdate)
                <==> && ready && Answered(w, m.agreed) && Answered(w, m.claimed)
                     && w.outputs[m.claimed].number !in w.accounts)
            && (BuildHeader(w, m) == Err(NoPreimage) ==> m !in w.preimages)
  {
    DeterministicOkIff(w, m.agreed);
    DeterministicOkIff(w, m.claimed);
    hide Answered, Usable, FinalizedL1Header, AgreedToClaimed, ClaimedToLatest;
  }

  class Prover {
    const servers: Servers
    const l1Client: L1Client

    predicate Valid() {
      l1Client.node == servers.node && servers.node.clock.Valid()
    }

    constructor (servers: Servers)
      requires servers.node.clock.Valid()
      ensures Valid() && this.servers == servers
    {
      this.servers := servers;
      l1Client := new L1Client(servers.node);
    }

    method GetFinalizedL1Header(data: FinalizedData) returns (r: Result<L1Header, Error>)
      requires Valid()
      ensures r.Ok? ==> fresh(r.value) && FinalizedL1Header(servers.node, data) == Ok(r.value.Value())
      ensures r.Err? ==> FinalizedL1Header(servers.node, data) == Err(r.error)
    {
      r := l1Client.BuildFromData(data.finality, None);
      if r.Ok? {
        r.value.trustedSyncCommittee := None;
      }
    }

    method GetDeterministicL1Header(number: nat) returns (r: Result<(nat, L1Header, Output), Failure>)
      requires Valid()
      ensures r.Ok? ==> fresh(r.value.1) && r.value.0 < UINT64_LIMIT - 1
                        && Deterministic(servers, number) == Ok((r.value.0, r.value.1.Value(), r.value.2))
      ensures r.Err? ==> Deterministic(servers, number) == Err(r.error)
    {
      if number !in servers.outputs {
        return Err(NoOutput(number));
      }
      var output := servers.outputs[number];
      var period := l1Client.GetPreviousPeriodByBlockNumber(output.l1Origin);
      if period.Err? {
        return Err(L1(period.error));
      }
      PreviousPeriodFits(servers.node, output.l1Origin);
      var header := l1Client.BuildNextSyncCommitteeUpdate(period.value, None);
      if header.Err? {
        return Err(L1(header.error));
      }
      return Ok((period.value, header.value, output));
    }

    method GetSyncCommitteeLists(data: FinalizedData, latest: L1Header, agreedPeriod: uint64, claimedPeriod: uint64,
                                 claimed: L1Header)
      returns (r: Result<(seq<Header>, seq<Header>), Error>)
      requires Valid() && latest != claimed
      requires claimedPeriod < UINT64_LIMIT - 1 && data.period < UINT64_LIMIT - 1
      modifies latest, claimed
      ensures r == BuildLists(servers.node, data, old(latest.Value()), agreedPeriod, claimedPeriod,
                              old(claimed.Value()))
    {
      var toDeterministic := l1Client.GetSyncCommitteesFromAgreedToClaimed(agreedPeriod, claimedPeriod, claimed);
      if toDeterministic.Err? {
        return Err(toDeterministic.error);
      }
      var deterministicHeaders := Read(toDeterministic.value);
      var toLatest := l1Client.GetSyncCommitteesFromClaimedToLatest(claimedPeriod, data.period, latest, data.snapshot);
      if toLatest.Err? {
        return Err(toLatest.error);
      }
      var latestHeaders := Read(toLatest.value);
      return Ok((deterministicHeaders, latestHeaders));
    }

    /** What a worker of the pipeline computes. The recorded period stays below the last 64-bit one. */
    method BuildUpdateHeader(m: Metadata) returns (r: Result<UpdateHeader, Failure>)
      requires Valid()
      requires forall h :: h in servers.finalized ==> servers.finalized[h].period < UINT64_LIMIT - 1
      ensures r == BuildHeader(servers, m)
    {
      if m.l1Head !in servers.finalized {
        return Err(NoFinalizedData);
      }
      var data := servers.finalized[m.l1Head];
      var latest := GetFinalizedL1Header(data);
      if latest.Err? {
        return Err(L1(latest.error));
      }
      var agreed := GetDeterministicL1Header(m.agreed);
      if agreed.Err? {
        return Err(agreed.error);
      }
      var claimed := GetDeterministicL1Header(m.claimed);
      if claimed.Err? {
        return Err(claimed.error);
      }
      var (agreedPeriod, _, agreedOutput) := agreed.value;
      var (claimedPeriod, claimedL1, claimedOutput) := claimed.value;
      if claimedOutput.number !in servers.accounts {
        return Err(NoAccountUpdate);
      }
      var lists := GetSyncCommitteeLists(data, latest.value, agreedPeriod, claimedPeriod, claimedL1);
      if lists.Err? {
        return Err(L1(lists.error));
      }
      if m !in servers.preimages {
        return Err(NoPreimage);
      }
      return Ok(UpdateHeader(
                  agreedOutput.number, agreedOutput.outputRoot, claimedOutput.outputRoot, claimedOutput.number,
                  servers.accounts[claimedOutput.number], lists.value.0, lists.value.1, servers.preimages[m]));
    }
  }

  method Read(headers: seq<L1Header>) returns (values: seq<Header>)
    ensures values == Values(headers)
  {
    values := [];
    for i := 0 to |headers|
      invariant values == Values(headers)[..i]
    {
      values := values + [headers[i].Value()];
    }
  }

  // ---- The client that consumes the headers ----

  datatype Client = Client(height: nat, outputRoot: nat, l1: Store)

  /**
    A header moves the client from the height and output root it names to the claimed ones. Its L1
    store advances by the first list; the second list is only checked to hold from there.
    */
  function Accept(clock: Clock, client: Client, h: UpdateHeader): Option<Client>
    requires clock.Valid()
  {
    if h.trustedHeight != client.height || h.agreedOutputRoot != client.outputRoot then None
    else
      match Replay(clock, client.l1, h.trustedToDeterministic)
      case None => None
      case Some(l1) =>
        if Replay(clock, l1, h.deterministicToLatest).None? then None
        else Some(Client(h.l2BlockNumber, h.outputRoot, l1))
  }

  function AcceptAll(clock: Clock, client: Client, headers: seq<UpdateHeader>): Option<Client>
    requires clock.Valid()
    decreases |headers|
  {
    if headers == [] then Some(client)
    else
      match Accept(clock, client, headers[0])
      case None => None
      case Some(next) => AcceptAll(clock, next, headers[1..])
  }

  /** The client that a relayer creates at an L2 height. */
  function InitialClient(w: Servers, height: nat): Result<Client, Failure>
    requires w.node.clock.Valid()
  {
    if height !in w.outputs then Err(NoOutput(height))
    else
      var output := w.outputs[height];
      match PreviousPeriod(w.node, output.l1Origin)
      case Err(e) => Err(L1(e))
      case Ok(period) =>
        if period !in w.node.bootstrapIn then Err(L1(NoBootstrap))
        else if period !in w.node.updates then Err(L1(NoUpdate(period)))
        else
          var update := w.node.updates[period].consensus;
          if update.finalizedSlot !in w.node.executions then Err(L1(NoExecution))
          else if output.number !in w.accounts then Err(NoAccountUpdate)
          else
            Ok(Client(
                 output.number, output.outputRoot,
                 Store(update.finalizedSlot, w.node.bootstrapIn[period], update.nextSyncCommittee)))
  }

  ghost predicate HonestServers(w: Servers, committees: Committees) {
    && HonestNode(w.node, committees)
    && (forall n :: n in w.outputs ==> w.outputs[n].number == n)
    && (forall head :: head in w.finalized ==>
          var data := w.finalized[head];
          HonestLatest(w.node.clock, committees, data.period, data.snapshot.consensus, data.finality.consensus))
  }

  /** The servers know what the client at a height is made of. */
  predicate Known(w: Servers, height: nat)
    requires w.node.clock.Valid()
  {
    && height in w.outputs
    && PreviousPeriod(w.node, w.outputs[height].l1Origin).Ok?
    && PreviousPeriod(w.node, w.outputs[height].l1Origin).value in w.node.updates
  }

  /** The client at a height, whichever way it got there. */
  function ClientAt(w: Servers, committees: Committees, height: nat): Client
    requires w.node.clock.Valid() && Known(w, height)
  {
    var period := PreviousPeriod(w.node, w.outputs[height].l1Origin).value;
    Client(height, w.outputs[height].outputRoot,
           StoreAt(committees, period, w.node.updates[period].consensus.finalizedSlot))
  }

  function Clients(w: Servers, committees: Committees): map<nat, Client>
    requires w.node.clock.Valid()
  {
    map height | height in w.outputs && Known(w, height) :: ClientAt(w, committees, height)
  }

  /** A client is created exactly when the answers for its height are there, and from them. */
  lemma InitialClientOkIff(w: Servers, height: nat)
    requires w.node.clock.Valid()
    ensures InitialClient(w, height).Ok? <==>
            && height in w.outputs && PreviousPeriod(w.node, w.outputs[height].l1Origin).Ok?
            && var p := PreviousPeriod(w.node, w.outputs[height].l1Origin).value;
            && p in w.node.bootstrapIn && p in w.node.updates
            && w.node.updates[p].consensus.finalizedSlot in w.node.executions
            && w.outputs[height].number in w.accounts
    ensures InitialClient(w, height).Ok? ==>
              var client, output := InitialClient(w, height).value, w.outputs[height];
              var p := PreviousPeriod(w.node, output.l1Origin).value;
              var u := w.node.updates[p].consensus;
              && client.height == output.number && client.outputRoot == output.outputRoot
              && client.l1 == Store(u.finalizedSlot, w.node.bootstrapIn[p], u.nextSyncCommittee)
  {
  }

  lemma InitialClientIsClientAt(w: Servers, committees: Committees, height: nat)
    requires HonestServers(w, committees) && InitialClient(w, height).Ok?
    ensures Known(w, height) && InitialClient(w, height).value == ClientAt(w, committees, height)
  {
    var period := PreviousPeriod(w.node, w.outputs[height].l1Origin).value;
    assert HonestUpdate(w.node.clock, committees, period, w.node.updates[period].consensus);
  }

  /** The period before the L1 origin of a height. */
  function PeriodAt(w: Servers, height: nat): (p: nat)
    requires w.node.clock.Valid() && Known(w, height)
    ensures p in w.node.updates
  {
    PreviousPeriod(w.node, w.outputs[height].l1Origin).value
  }

  /** A client at a height whose store knows the committees there, whichever update it finalized last. */
  ghost predicate Follows(w: Servers, committees: Committees, height: nat, client: Client)
    requires w.node.clock.Valid()
  {
    && Known(w, height)
    && client.height == height && client.outputRoot == w.outputs[height].outputRoot
    && Tracks(w.node.clock, committees, PeriodAt(w, height), client.l1)
  }

  /** The update of period `p` attests to something that the store has not finalized yet. */
  predicate IsNews(w: Servers, p: nat, store: Store)
    requires p in w.node.updates
  {
    store.finalizedSlot < w.node.updates[p].consensus.attestedSlot
  }

  /** The client after a header that claims a height. */
  function ClientAfter(w: Servers, committees: Committees, client: Client, height: nat): Client
    requires w.node.clock.Valid() && Known(w, height)
  {
    var p := PeriodAt(w, height);
    var slot := Later(client.l1.finalizedSlot, w.node.updates[p].consensus.finalizedSlot);
    Client(height, w.outputs[height].outputRoot, StoreAt(committees, p, slot))
  }

  lemma DeterministicKnown(w: Servers, committees: Committees, number: nat)
    requires HonestServers(w, committees) && Deterministic(w, number).Ok?
    ensures Known(w, number)
    ensures var (p, header, output) := Deterministic(w, number).value;
            && output == w.outputs[number] && output.number == number && p == PeriodAt(w, number)
            && header.consensus == w.node.updates[p].consensus
  {
  }

  lemma {:induction false} FirstListFrom(w: Servers, committees: Committees, p: nat, q: nat,
                                         claimed: Header, store: Store)
    requires HonestServers(w, committees) && p in w.node.updates && q in w.node.updates
    requires Tracks(w.node.clock, committees, p, store)
    requires claimed.consensus == w.node.updates[q].consensus && AgreedToClaimed(w.node, p, q, claimed).Ok?
    ensures var slot := Later(store.finalizedSlot, claimed.consensus.finalizedSlot);
            && p <= q
            && Replay(w.node.clock, store, AgreedToClaimed(w.node, p, q, claimed).value)
               == (if p < q || IsNews(w, p, store) then Some(StoreAt(committees, q, slot)) else None)
            && Tracks(w.node.clock, committees, q, StoreAt(committees, q, slot))
            && (p < q || IsNews(w, p, store) ==> IsNews(w, q, StoreAt(committees, q, slot)))
            && (p < q ==> slot == claimed.consensus.finalizedSlot)
  {
    var node, u := w.node, claimed.consensus;
    assert HonestUpdate(node.clock, committees, q, u);
    hide Replay, AgreedToClaimed, HonestNode;
    AgreedToClaimedAccepted(node, committees, p, q, claimed, store);
    node.clock.PeriodMonotone(u.finalizedSlot, u.signatureSlot);
    if p < q && u.finalizedSlot <= store.finalizedSlot {
      node.clock.PeriodMonotone(u.finalizedSlot, store.finalizedSlot);
    }
  }

  lemma {:induction false} SecondListFrom(w: Servers, committees: Committees, q: nat, data: FinalizedData,
                                          latest: Header, store: Store)
    requires HonestServers(w, committees) && Tracks(w.node.clock, committees, q, store)
    requires HonestLatest(w.node.clock, committees, data.period, data.snapshot.consensus, latest.consensus)
    requires ClaimedToLatest(w.node, q, data.period, latest, data.snapshot).Ok?
    ensures Replay(w.node.clock, store, ClaimedToLatest(w.node, q, data.period, latest, data.snapshot).value).Some?
  {
    hide Replay, ClaimedToLatest, HonestNode, HonestLatest;
    ClaimedToLatestAccepted(w.node, committees, q, data.period, latest, data.snapshot, store);
  }

  /**
    A built header is accepted by a client at its agreed height exactly when it leads to a later period
    or the update of this one is news to the client, and then so is the update of the claimed period.
    */
  lemma HeaderAcceptedIff(w: Servers, committees: Committees, client: Client, m: Metadata)
    requires HonestServers(w, committees) && BuildHeader(w, m).Ok? && Follows(w, committees, m.agreed, client)
    ensures Known(w, m.claimed)
    ensures var p, q := PeriodAt(w, m.agreed), PeriodAt(w, m.claimed);
            var next := ClientAfter(w, committees, client, m.claimed);
            && p <= q
            && Accept(w.node.clock, client, BuildHeader(w, m).value)
               == (if p < q || IsNews(w, p, client.l1) then Some(next) else None)
            && Follows(w, committees, m.claimed, next)
            && (p < q || IsNews(w, p, client.l1) ==> IsNews(w, q, next.l1))
            && (p < q ==> next == ClientAt(w, committees, m.claimed))
  {
    var data := w.finalized[m.l1Head];
    var latest := FinalizedL1Header(w.node, data).value;
    DeterministicKnown(w, committees, m.agreed);
    DeterministicKnown(w, committees, m.claimed);
    var (p, _, _) := Deterministic(w, m.agreed).value;
    var (q, claimed, _) := Deterministic(w, m.claimed).value;
    assert HonestLatest(w.node.clock, committees, data.period, data.snapshot.consensus, latest.consensus);
    hide Replay, HonestServers, HonestNode, HonestLatest, AgreedToClaimed, ClaimedToLatest, Tracks, IsNews;
    hide Deterministic, FinalizedL1Header, Known, PeriodAt;
    FirstListFrom(w, committees, p, q, claimed, client.l1);
    SecondListFrom(w, committees, q, data, latest, ClientAfter(w, committees, client, m.claimed).l1);
  }

  /** The client that would be created at a height follows it, and the update there is news to it. */
  lemma ClientAtFollows(w: Servers, committees: Committees, height: nat)
    requires HonestServers(w, committees) && Known(w, height)
    ensures Follows(w, committees, height, ClientAt(w, committees, height))
    ensures IsNews(w, PeriodAt(w, height), ClientAt(w, committees, height).l1)
  {
    var p := PeriodAt(w, height);
    assert HonestUpdate(w.node.clock, committees, p, w.node.updates[p].consensus);
  }

  /**
    A built header is accepted at its agreed height, and the client it leads to is the one that
    would be created at its claimed height.
    */
  lemma HeaderAccepted(w: Servers, committees: Committees, m: Metadata)
    requires HonestServers(w, committees) && BuildHeader(w, m).Ok?
    ensures Known(w, m.agreed) && Known(w, m.claimed)
    ensures Accept(w.node.clock, ClientAt(w, committees, m.agreed), BuildHeader(w, m).value)
            == Some(ClientAt(w, committees, m.claimed))
    ensures BuildHeader(w, m).value.trustedHeight == m.agreed
  {
    BuiltFor(w, committees, m);
    hide HonestServers, BuildHeader, Accept, IsNews, Follows;
    ClientAtFollows(w, committees, m.agreed);
    HeaderAcceptedIff(w, committees, ClientAt(w, committees, m.agreed), m);
  }

  lemma BuiltFor(w: Servers, committees: Committees, m: Metadata)
    requires HonestServers(w, committees) && BuildHeader(w, m).Ok?
    ensures Known(w, m.agreed) && BuildHeader(w, m).value.trustedHeight == m.agreed
  {
    hide HonestServers, AgreedToClaimed, ClaimedToLatest, FinalizedL1Header, Deterministic, Known;
    DeterministicKnown(w, committees, m.agreed);
  }

  // ---- The stream ----

  /** The requests of an update: none when the client is not behind. */
  function Requests(trusted: nat, latest: nat, listed: seq<Metadata>): seq<Metadata> {
    if trusted >= latest then [] else listed
  }

  function Results(w: Servers, requests: seq<Metadata>): (results: seq<Result<UpdateHeader, Failure>>)
    requires w.node.clock.Valid()
    ensures |results| == |requests|
  {
    if requests == [] then [] else [BuildHeader(w, requests[0])] + Results(w, requests[1..])
  }

  /** The headers in front of the first error. */
  function Successes(out: seq<Result<UpdateHeader, Failure>>): (headers: seq<UpdateHeader>)
    ensures |headers| <= |out|
  {
    if out == [] || out[0].Err? then [] else [out[0].value] + Successes(out[1..])
  }

  lemma {:induction false} SuccessesLongest(out: seq<Result<UpdateHeader, Failure>>)
    ensures var headers := Successes(out);
            && (forall i :: 0 <= i < |headers| ==> out[i] == Ok(headers[i]))
            && (|headers| < |out| ==> out[|headers|].Err?)
  {
    if out != [] && out[0].Ok? {
      SuccessesLongest(out[1..]);
      assert forall i :: 0 < i < |Successes(out)| ==> out[i] == out[1..][i - 1];
    }
  }

  predicate Contiguous(trusted: nat, requests: seq<Metadata>)
    decreases |requests|
  {
    requests == [] || (requests[0].agreed == trusted && Contiguous(requests[0].claimed, requests[1..]))
  }

  function HeightAfter(trusted: nat, requests: seq<Metadata>, count: nat): nat
    requires count <= |requests|
  {
    if count == 0 then trusted else requests[count - 1].claimed
  }

  /**
    Every result that is a header takes the client at its agreed height to the client at its claimed
    height, for a given client per height.
    */
  ghost predicate Leads(clock: Clock, clients: map<nat, Client>, requests: seq<Metadata>,
                        results: seq<Result<UpdateHeader, Failure>>)
    requires clock.Valid()
  {
    && |results| == |requests|
    && forall i :: 0 <= i < |requests| && results[i].Ok? ==>
         && requests[i].agreed in clients && requests[i].claimed in clients
         && results[i].value.trustedHeight == requests[i].agreed
         && Accept(clock, clients[requests[i].agreed], results[i].value) == Some(clients[requests[i].claimed])
  }

  lemma {:induction false} ResultsLead(w: Servers, committees: Committees, requests: seq<Metadata>)
    requires HonestServers(w, committees)
    ensures Leads(w.node.clock, Clients(w, committees), requests, Results(w, requests))
  {
    forall i | 0 <= i < |requests| && Results(w, requests)[i].Ok?
      ensures var m, h := requests[i], Results(w, requests)[i].value;
              && m.agreed in Clients(w, committees) && m.claimed in Clients(w, committees)
              && h.trustedHeight == m.agreed
              && Accept(w.node.clock, Clients(w, committees)[m.agreed], h) == Some(Clients(w, committees)[m.claimed])
    {
      ResultAt(w, requests, i);
      HeaderAccepted(w, committees, requests[i]);
    }
  }

  lemma {:induction false} ResultAt(w: Servers, requests: seq<Metadata>, i: nat)
    requires w.node.clock.Valid() && i < |requests|
    ensures Results(w, requests)[i] == BuildHeader(w, requests[i])
  {
    if i > 0 {
      ResultAt(w, requests[1..], i - 1);
    }
  }

  lemma LeadsRest(clock: Clock, clients: map<nat, Client>, requests: seq<Metadata>,
                  results: seq<Result<UpdateHeader, Failure>>)
    requires clock.Valid() && Leads(clock, clients, requests, results) && requests != []
    ensures Leads(clock, clients, requests[1..], results[1..])
  {
  }

  /** Any delivered part of the stream takes the client to the last height before an error. */
  lemma {:induction false} PrefixAccepted(clock: Clock, clients: map<nat, Client>, trusted: nat,
                                          requests: seq<Metadata>, results: seq<Result<UpdateHeader, Failure>>, k: nat)
    requires clock.Valid() && Leads(clock, clients, requests, results)
    requires trusted in clients && Contiguous(trusted, requests) && k <= |requests|
    ensures var headers := Successes(results[..k]);
            var height := HeightAfter(trusted, requests, |headers|);
            && height in clients
            && AcceptAll(clock, clients[trusted], headers) == Some(clients[height])
    decreases |requests|
  {
    if k > 0 && results[0].Ok? {
      LeadsRest(clock, clients, requests, results);
      PrefixAccepted(clock, clients, requests[0].claimed, requests[1..], results[1..], k - 1);
      assert results[..k][1..] == results[1..][..k - 1];
      var rest := Successes(results[1..][..k - 1]);
      assert Successes(results[..k])[1..] == rest;
    }
  }

  /** When every header is built, the client accepts them all exactly when the requests are contiguous. */
  lemma {:induction false} AcceptedIffContiguous(clock: Clock, clients: map<nat, Client>, trusted: nat,
                                                 requests: seq<Metadata>, results: seq<Result<UpdateHeader, Failure>>)
    requires clock.Valid() && Leads(clock, clients, requests, results)
    requires trusted in clients && forall n :: n in clients ==> clients[n].height == n
    requires forall i :: 0 <= i < |results| ==> results[i].Ok?
    ensures |Successes(results)| == |requests|
    ensures AcceptAll(clock, clients[trusted], Successes(results)).Some? <==> Contiguous(trusted, requests)
    decreases |requests|
  {
    if requests != [] {
      LeadsRest(clock, clients, requests, results);
      AcceptedIffContiguous(clock, clients, requests[0].claimed, requests[1..], results[1..]);
      assert Successes(results)[1..] == Successes(results[1..]);
    }
  }

  /** The pipeline that serves an update of a client at `trusted` towards `latest`. */
  function UpdatePipeline(w: Servers, requests: seq<Metadata>, concurrency: nat)
    : Pipeline.Config<Result<UpdateHeader, Failure>>
    requires w.node.clock.Valid()
  {
    Pipeline.Config(Results(w, requests), Pipeline.EffectiveConcurrency(concurrency))
  }

  /** The pipeline gets the configured concurrency, or 1 for 0, and the requests one by one. */
  lemma UpdatePipelineConfig(w: Servers, requests: seq<Metadata>, concurrency: nat)
    requires w.node.clock.Valid()
    ensures var c := UpdatePipeline(w, requests, concurrency);
            && c.capacity >= 1 && (concurrency >= 1 ==> c.capacity == concurrency)
            && (concurrency == 0 ==> c.capacity == 1)
            && |c.results| == |requests|
            && forall i :: 0 <= i < |requests| ==> c.results[i] == BuildHeader(w, requests[i])
  {
    hide BuildHeader;
    forall i | 0 <= i < |requests|
      ensures Results(w, requests)[i] == BuildHeader(w, requests[i])
    {
      ResultAt(w, requests, i);
    }
  }

  /**
    Safety from end to end: at any moment of any interleaving, the headers delivered in front of the
    first error are an accepted chain.
    */
  lemma {:induction false} DeliveredAccepted(w: Servers, committees: Committees, trusted: nat, requests: seq<Metadata>,
                                             concurrency: nat, run: seq<Pipeline.State<Result<UpdateHeader, Failure>>>,
                                             k: nat)
    requires HonestServers(w, committees) && Known(w, trusted) && Contiguous(trusted, requests)
    requires Pipeline.IsRun(UpdatePipeline(w, requests, concurrency), run) && k < |run|
    ensures var clients := Clients(w, committees);
            var headers := Successes(run[k].out);
            && |headers| <= |requests|
            && var height := HeightAfter(trusted, requests, |headers|);
            && height in clients
            && AcceptAll(w.node.clock, clients[trusted], headers) == Some(clients[height])
  {
    Pipeline.RunDeliversInOrder(UpdatePipeline(w, requests, concurrency), run, k, k);
    var count := |run[k].out|;
    assert run[k].out == Results(w, requests)[..count];
    ResultsLead(w, committees, requests);
    PrefixAccepted(w.node.clock, Clients(w, committees), trusted, requests, Results(w, requests), count);
  }

  /** A complete stream of headers is accepted exactly when the requests it was built for are contiguous. */
  lemma {:induction false} StreamAcceptedIffContiguous(w: Servers, committees: Committees, trusted: nat,
                                                       requests: seq<Metadata>, concurrency: nat,
                                                       run: seq<Pipeline.State<Result<UpdateHeader, Failure>>>)
    requires HonestServers(w, committees) && Known(w, trusted)
    requires forall r :: r in Results(w, requests) ==> r.Ok?
    requires Pipeline.IsRun(UpdatePipeline(w, requests, concurrency), run)
    requires Pipeline.Stuck(UpdatePipeline(w, requests, concurrency), run[|run| - 1])
    ensures var clients := Clients(w, committees);
            AcceptAll(w.node.clock, clients[trusted], Successes(run[|run| - 1].out)).Some?
            <==> Contiguous(trusted, requests)
  {
    hide BuildHeader, Results, Accept, AcceptAll, Contiguous, Successes, Leads, Pipeline.IsRun, Pipeline.Stuck;
    CompleteRun(w, requests, concurrency, run);
    ResultsLead(w, committees, requests);
    AcceptedIffContiguous(w.node.clock, Clients(w, committees), trusted, requests, Results(w, requests));
  }

  // ---- The stream for any client that follows its height ----

  /** Whether the first request leads to a later period than the one of the trusted height. */
  predicate LeavesPeriod(w: Servers, trusted: nat, requests: seq<Metadata>)
    requires w.node.clock.Valid() && Known(w, trusted)
  {
    requests != [] && Known(w, requests[0].claimed) && PeriodAt(w, requests[0].claimed) != PeriodAt(w, trusted)
  }

  /**
    Headers for contiguous requests are an accepted chain exactly when there are none, or the update of
    the trusted period is news to the client, or the first request leaves that period.
    */
  ghost predicate AcceptedFrom(w: Servers, committees: Committees, client: Client, trusted: nat,
                               requests: seq<Metadata>, headers: seq<UpdateHeader>)
    requires w.node.clock.Valid() && Known(w, trusted)
  {
    var end := AcceptAll(w.node.clock, client, headers);
    && |headers| <= |requests|
    && (end.Some? <==> headers == [] || IsNews(w, PeriodAt(w, trusted), client.l1)
                       || LeavesPeriod(w, trusted, requests))
    && (end.Some? ==> Follows(w, committees, HeightAfter(trusted, requests, |headers|), end.value))
  }

  lemma AcceptedFromStep(w: Servers, committees: Committees, client: Client, trusted: nat, requests: seq<Metadata>,
                         h: UpdateHeader, rest: seq<UpdateHeader>)
    requires w.node.clock.Valid() && Known(w, trusted) && requests != [] && Known(w, requests[0].claimed)
    requires var p, q := PeriodAt(w, trusted), PeriodAt(w, requests[0].claimed);
             var next := ClientAfter(w, committees, client, requests[0].claimed);
             var taken := p != q || IsNews(w, p, client.l1);
             && Accept(w.node.clock, client, h) == (if taken then Some(next) else None)
             && (taken ==> IsNews(w, q, next.l1))
             && AcceptedFrom(w, committees, next, requests[0].claimed, requests[1..], rest)
    ensures AcceptedFrom(w, committees, client, trusted, requests, [h] + rest)
  {
    hide Accept, AcceptAll, IsNews, Follows, Known, PeriodAt, ClientAfter;
    AcceptAllStep(w.node.clock, client, h, rest);
    assert rest != [] ==> requests[1..][|rest| - 1] == requests[|rest|];
  }

  /** So are the headers in front of the first error. */
  lemma {:induction false} PrefixFromIff(w: Servers, committees: Committees, client: Client, trusted: nat,
                                         requests: seq<Metadata>, k: nat)
    requires HonestServers(w, committees) && Follows(w, committees, trusted, client)
    requires Contiguous(trusted, requests) && k <= |requests|
    ensures AcceptedFrom(w, committees, client, trusted, requests, Successes(Results(w, requests)[..k]))
    decreases |requests|
  {
    assert w.node.clock.Valid() && Known(w, trusted);
    hide HonestServers, BuildHeader, Accept, AcceptedFrom, Successes, Results, IsNews, Follows, Known, PeriodAt;
    hide ClientAfter, ClientAt;
    if k == 0 || BuildHeader(w, requests[0]).Err? {
      NothingAcceptedFrom(w, committees, client, trusted, requests);
      NoSuccess(w, requests, k);
    } else {
      var m, next := requests[0], ClientAfter(w, committees, client, requests[0].claimed);
      SuccessesStep(w, requests, k);
      HeaderAcceptedIff(w, committees, client, m);
      PrefixFromIff(w, committees, next, m.claimed, requests[1..], k - 1);
      AcceptedFromStep(w, committees, client, trusted, requests, BuildHeader(w, m).value,
                       Successes(Results(w, requests[1..])[..k - 1]));
    }
  }

  lemma NothingAcceptedFrom(w: Servers, committees: Committees, client: Client, trusted: nat, requests: seq<Metadata>)
    requires w.node.clock.Valid() && Known(w, trusted) && Follows(w, committees, trusted, client)
    ensures AcceptedFrom(w, committees, client, trusted, requests, [])
  {
    hide Follows, Known, PeriodAt, IsNews, LeavesPeriod;
  }

  lemma {:induction false} NoSuccess(w: Servers, requests: seq<Metadata>, k: nat)
    requires w.node.clock.Valid() && k <= |requests| && (k == 0 || BuildHeader(w, requests[0]).Err?)
    ensures Successes(Results(w, requests)[..k]) == []
  {
    hide BuildHeader;
  }

  lemma {:induction false} SuccessesStep(w: Servers, requests: seq<Metadata>, k: nat)
    requires w.node.clock.Valid() && 0 < k <= |requests|
    ensures Successes(Results(w, requests)[..k]) ==
            match BuildHeader(w, requests[0])
            case Err(_) => []
            case Ok(h) => [h] + Successes(Results(w, requests[1..])[..k - 1])
  {
    hide BuildHeader;
    assert Results(w, requests)[..k][1..] == Results(w, requests[1..])[..k - 1];
  }

  lemma {:induction false} AcceptAllStep(clock: Clock, client: Client, h: UpdateHeader, rest: seq<UpdateHeader>)
    requires clock.Valid()
    ensures AcceptAll(clock, client, [h] + rest) ==
            match Accept(clock, client, h)
            case None => None
            case Some(next) => AcceptAll(clock, next, rest)
  {
    hide Accept;
    assert ([h] + rest)[1..] == rest;
  }

  /** The same for what is delivered at any moment of any interleaving. */
  lemma {:induction false} DeliveredFromIff(w: Servers, committees: Committees, client: Client, trusted: nat,
                                            requests: seq<Metadata>, concurrency: nat,
                                            run: seq<Pipeline.State<Result<UpdateHeader, Failure>>>, k: nat)
    requires HonestServers(w, committees) && Follows(w, committees, trusted, client) && Contiguous(trusted, requests)
    requires Pipeline.IsRun(UpdatePipeline(w, requests, concurrency), run) && k < |run|
    ensures AcceptedFrom(w, committees, client, trusted, requests, Successes(run[k].out))
  {
    assert w.node.clock.Valid() && Known(w, trusted);
    hide HonestServers, BuildHeader, AcceptedFrom, Contiguous, Follows, Known, Successes, Pipeline.IsRun, Results;
    Pipeline.RunDeliversInOrder(UpdatePipeline(w, requests, concurrency), run, k, k);
    var count := |run[k].out|;
    assert run[k].out == Results(w, requests)[..count];
    PrefixFromIff(w, committees, client, trusted, requests, count);
  }

  lemma {:induction false} LastHeight(trusted: nat, latest: nat, listed: seq<Metadata>)
    requires trusted < latest ==>
               Contiguous(trusted, listed) && listed != [] && listed[|listed| - 1].claimed == latest
    ensures var requests := Requests(trusted, latest, listed);
            && Contiguous(trusted, requests)
            && HeightAfter(trusted, requests, |requests|) == if trusted < latest then latest else trusted
  {
  }

  /** A complete stream, if accepted at all, takes any such client to the latest height. */
  lemma StreamFromReachesLatest(w: Servers, committees: Committees, client: Client, trusted: nat, latest: nat,
                                listed: seq<Metadata>, concurrency: nat,
                                run: seq<Pipeline.State<Result<UpdateHeader, Failure>>>)
    requires HonestServers(w, committees) && Follows(w, committees, trusted, client)
    requires trusted < latest ==>
               Contiguous(trusted, listed) && listed != [] && listed[|listed| - 1].claimed == latest
    requires var requests := Requests(trusted, latest, listed);
             var c := UpdatePipeline(w, requests, concurrency);
             && (forall r :: r in Results(w, requests) ==> r.Ok?)
             && Pipeline.IsRun(c, run) && Pipeline.Stuck(c, run[|run| - 1])
    ensures var requests := Requests(trusted, latest, listed);
            var end := AcceptAll(w.node.clock, client, Successes(run[|run| - 1].out));
            && (end.Some? <==> requests == [] || IsNews(w, PeriodAt(w, trusted), client.l1)
                               || LeavesPeriod(w, trusted, requests))
            && (end.Some? ==> Follows(w, committees, if trusted < latest then latest else trusted, end.value))
  {
    var requests := Requests(trusted, latest, listed);
    LastHeight(trusted, latest, listed);
    hide HonestServers, BuildHeader, Results, AcceptAll, Contiguous, IsNews, Follows, LeavesPeriod, PeriodAt;
    hide Successes, HeightAfter, Requests, Pipeline.IsRun, Pipeline.Stuck, Pipeline.EffectiveConcurrency;
    CompleteRun(w, requests, concurrency, run);
    DeliveredFromIff(w, committees, client, trusted, requests, concurrency, run, |run| - 1);
  }

  /**
    Completion from end to end: when no goroutine can move any more and every header was built, the
    client ends at the latest height, or stays where it is if it was not behind.
    */
  lemma StreamReachesLatest(w: Servers, committees: Committees, trusted: nat, latest: nat, listed: seq<Metadata>,
                            concurrency: nat, run: seq<Pipeline.State<Result<UpdateHeader, Failure>>>)
    requires HonestServers(w, committees) && Known(w, trusted)
    requires trusted < latest ==>
               Contiguous(trusted, listed) && listed != [] && listed[|listed| - 1].claimed == latest
    requires var requests := Requests(trusted, latest, listed);
             var c := UpdatePipeline(w, requests, concurrency);
             && (forall r :: r in Results(w, requests) ==> r.Ok?)
             && Pipeline.IsRun(c, run) && Pipeline.Stuck(c, run[|run| - 1])
    ensures var clients := Clients(w, committees);
            var height := if trusted < latest then latest else trusted;
            && height in clients
            && AcceptAll(w.node.clock, clients[trusted], Successes(run[|run| - 1].out)) == Some(clients[height])
  {
    var requests := Requests(trusted, latest, listed);
    LastHeight(trusted, latest, listed);
    hide HonestServers, BuildHeader, Results, AcceptAll, Contiguous, Clients, Known, Successes, HeightAfter;
    hide Requests, Pipeline.IsRun, Pipeline.Stuck, Pipeline.EffectiveConcurrency;
    CompleteRun(w, requests, concurrency, run);
    DeliveredAccepted(w, committees, trusted, requests, concurrency, run, |run| - 1);
  }

  lemma {:induction false} CompleteRun(w: Servers, requests: seq<Metadata>, concurrency: nat,
                    run: seq<Pipeline.State<Result<UpdateHeader, Failure>>>)
    requires w.node.clock.Valid() && forall r :: r in Results(w, requests) ==> r.Ok?
    requires Pipeline.IsRun(UpdatePipeline(w, requests, concurrency), run)
    requires Pipeline.Stuck(UpdatePipeline(w, requests, concurrency), run[|run| - 1])
    ensures run[|run| - 1].out == Results(w, requests)
    ensures |Successes(run[|run| - 1].out)| == |requests|
  {
    hide BuildHeader, Successes, Pipeline.IsRun, Pipeline.Stuck;
    Pipeline.MaximalRunDelivers(UpdatePipeline(w, requests, concurrency), run);
    AllSucceed(Results(w, requests));
  }

  lemma {:induction false} AllSucceed(out: seq<Result<UpdateHeader, Failure>>)
    requires forall r :: r in out ==> r.Ok?
    ensures |Successes(out)| == |out|
  {
    if out != [] {
      assert out[0] in out;
      AllSucceed(out[1..]);
    }
  }
}
