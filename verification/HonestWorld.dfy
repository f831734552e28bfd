/**
  A small world that meets the assumptions on nodes and servers, with one update header in it. Slots
  last a second and periods four slots.
  */
module HonestWorld {
  import opened Wrappers
  import opened LightClient
  import opened SyncCommittees
  import opened Acceptance
  import opened Relay

  function Committee(p: nat): SyncCommittee {
    SyncCommittee(p)
  }

  function Update(p: nat): UpdateData {
    UpdateData(ConsensusUpdate(4 * p + 1, 4 * p, 4 * p + 2, Committee(p), Some(Committee(p + 1)), 0), 0)
  }

  const NODE := Node(
    Clock(0, 1, 4, 1),
    map[0 := Update(0), 1 := Update(1)],
    map[],
    map[0 := Committee(0)],
    map[0 := ExecutionUpdate(0), 4 := ExecutionUpdate(1), 8 := ExecutionUpdate(2)],
    map[0 := 4, 1 := 8])

  const REQUEST := Metadata(10, 20, 5)

  const SERVERS := Servers(
    NODE,
    map[10 := Output(10, 100, 0), 20 := Output(20, 200, 1)],
    map[5 := FinalizedData(Update(2), 2, Update(2))],
    map[10 := 0, 20 := 0],
    map[REQUEST := 0])

  lemma UpdateHonest(p: nat)
    ensures NODE.clock.Valid() && HonestUpdate(NODE.clock, Committee, p, Update(p).consensus)
  {
  }

  lemma LatestHonest()
    ensures NODE.clock.Valid() && HonestLatest(NODE.clock, Committee, 2, Update(2).consensus, Update(2).consensus)
  {
    UpdateHonest(2);
  }

  lemma NodeHonest()
    ensures HonestNode(NODE, Committee)
  {
    UpdateHonest(0);
    UpdateHonest(1);
    hide HonestUpdate;
  }

  lemma ServersHonest()
    ensures HonestServers(SERVERS, Committee)
  {
    NodeHonest();
    LatestHonest();
    hide HonestNode, HonestLatest, Update;
  }

  lemma ListsBuilt()
    ensures NODE.clock.Valid()
    ensures PreviousPeriod(NODE, 0) == Ok(0) && PreviousPeriod(NODE, 1) == Ok(1)
    ensures HeaderAt(NODE, 0, None).Ok? && HeaderAt(NODE, 1, None).Ok?
    ensures FinalizedL1Header(NODE, SERVERS.finalized[5]).Ok?
    ensures AgreedToClaimed(NODE, 0, 1, HeaderAt(NODE, 1, None).value).Ok?
    ensures ClaimedToLatest(NODE, 1, 2, FinalizedL1Header(NODE, SERVERS.finalized[5]).value, Update(2)).Ok?
  {
    AgreedToClaimedOkIff(NODE, 0, 1, HeaderAt(NODE, 1, None).value);
    ClaimedToLatestOkIff(NODE, 1, 2, FinalizedL1Header(NODE, SERVERS.finalized[5]).value, Update(2));
  }

  /** The assumptions can be met: an honest world in which a client is created and a header is built. */
  lemma SomeHeaderBuilt()
    ensures HonestServers(SERVERS, Committee)
    ensures InitialClient(SERVERS, REQUEST.agreed).Ok?
    ensures BuildHeader(SERVERS, REQUEST).Ok?
  {
    ServersHonest();
    ListsBuilt();
    hide HonestServers, PreviousPeriod, HeaderAt, AgreedToClaimed, ClaimedToLatest, FinalizedL1Header;
  }

  /** It takes the created client on to its claimed height. */
  lemma SomeHeaderAccepted()
    ensures InitialClient(SERVERS, REQUEST.agreed).Ok? && BuildHeader(SERVERS, REQUEST).Ok?
    ensures var client, header := InitialClient(SERVERS, REQUEST.agreed).value, BuildHeader(SERVERS, REQUEST).value;
            var next := Accept(NODE.clock, client, header);
            next.Some? && next.value.height == REQUEST.claimed
  {
    hide BuildHeader, InitialClient, Accept;
    SomeHeaderBuilt();
    InitialClientIsClientAt(SERVERS, Committee, REQUEST.agreed);
    HeaderAccepted(SERVERS, Committee, REQUEST);
  }
}
