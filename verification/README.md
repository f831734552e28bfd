# Verification of the Optimism relay prover

A Dafny model of the relay prover module for Optimism L2s and of its fault-dispute tooling. Check the
whole project with `dafny verify dfyconfig.toml`.

The prover answers one question for an IBC relayer: which headers move an on-chain light client from the
L2 height it trusts to the latest finalized one? It splits the way into preimage requests, builds one
header per request in concurrent workers, and streams the headers in order. Every header carries two lists
of L1 headers, which an Altair light client inside the IBC client replays before it believes the L2 claim.

| file | what it covers |
|---|---|
| `Pipeline.dfy` | the dispatcher, workers and sequencer behind the header stream, as a transition system |
| `LightClient.dfy` | the store of the consuming light client: validation, application, replay of a list |
| `SyncCommittees.dfy` | the L1 client: period arithmetic and the two loops that build header lists |
| `Acceptance.dfy` | the built lists replayed through the light client; when they exist; the update snapshot |
| `Relay.dfy` | one update header per request, the stream of them, and the client at its end |
| `HonestWorld.dfy` | a small world that meets the assumptions below, with a header built and accepted in it |
| `Varint.dfy`, `Skip.dfy`, `Wire.dfy` | base 128 varints, skipping, and the field loop of the generated code |
| `Messages.dfy` | `Derivation`, `ConsensusState` and `Header`: size, backward filling, reading |
| `ForkSchedule.dfy` | the map field of the prover configuration |
| `SuperRoot.dfy`, `BlockSearch.dfy` | the super root codec and the timestamp search of the dispute tooling |
| `Selector.dfy`, `Refresh.dfy` | the wrapping round-robin counter and the refresh threshold |
| `Integers.dfy`, `Wrappers.dfy` | fixed-width ranges, division lemmas, `Option` and `Result` |

## Main results

- **Pipeline.** `Pipeline.Holds` is kept by every step of every interleaving (`StepHolds`, `RunHolds`). The
  tokens on `done` are anonymous; a received token is charged to *some* worker with a pending token, and the
  charge is universally quantified. From the invariant: ordered delivery, slots that are filled and emptied
  once, the sliding window, no lost wakeup, no blocked release or deferred send, a linear bound on the length
  of every run, and delivery of every result at the end of every maximal run exactly when the semaphore has a
  slot or there is nothing to do (`DeliversIffCapacity`).
- **L1 lists.** From a store that knows the committees of the agreed period, the first list is accepted
  header by header and leaves the store at the claimed period; the second list is accepted from there and
  ends at the latest period. The class methods return lists whose headers are distinct objects, so writing
  the trusted committee of the closing header leaves the loop's last header as it was built.
- **End to end.** `Relay.DeliveredAccepted` and `Relay.StreamReachesLatest` join both: whatever the
  interleaving, the headers delivered in front of the first error form an accepted chain, and a complete
  stream ends at the latest height.
- **Contents.** `Relay.BuildHeaderOkIff` says which answers a header needs, and `Relay.BuildHeaderContents` with
  `Acceptance.AgreedToClaimedContents` and `ClaimedToLatestContents` which answer stands in which part of it.
- **Codec.** Each method of the generated code is proved against a functional form, and about that form:
  `Unmarshal` inverts `Marshal`, `Marshal` fills exactly `Size` bytes, the flat skip loop accepts exactly the
  fields of the recursive grammar, and unknown fields change nothing wherever they stand. The bytes are given
  tag by tag (`Messages.HeaderLayout`), and reading into a message that is not empty merges
  (`Messages.HeaderMerge`).

## What the proofs show about the code

- With capacity 0 and at least one request the pipeline never moves (`Pipeline.ZeroCapacityDeadlock`); the
  lower bound of 1 in the constructor is what rules this out.
- A list with one closing header is refused when that header attests nothing newer than the store, the one
  exception in `Acceptance.AgreedToClaimedAccepted`. A client created at its height, or moved there by the
  stream, never meets it. For any other client with the right committees, `Relay.StreamFromReachesLatest` says
  exactly when the stream is accepted: it is empty, or the update of the trusted period is news to the client,
  or the first header leaves that period.
- The check that the claimed period lies before the latest one fails for ordered origins exactly in period 0,
  where the previous period saturates (`Acceptance.ClaimedNotBeforeLatestIff`).
- The skip loop looks at no field number. It passes a group closed by the number of another field
  (`Skip.MismatchedGroupSkipped`) and a member with a number that is an illegal tag elsewhere
  (`Skip.NumberZeroSkipped`). The grammar of shapes that it accepts exactly is unambiguous
  (`Skip.FieldUnique`), so what is skipped is a field of the standard exactly when the one field of that shape
  has numbers from 1 to 2^29 - 1 and closes its groups by their own (`Skip.SkippedIsStandardIff`).
- The value of a map entry is the bitwise or of all its value fields, not the last one as the section "Last
  One Wins" of the Protocol Buffers encoding specification has it (`ForkSchedule.BodyRead`). The two agree
  exactly when every value, or-ed to the last, leaves it as it is (`ForkSchedule.LastValueWinsIff`).
- An entry of the map can take its key or value from behind its own end, where the bytes are then read again
  (`ForkSchedule.KeyFromBehind`). It is read from its own bytes alone exactly when these are a sequence of
  whole fields (`ForkSchedule.EntryWithinIff`).
- The refresh test compares an elapsed time, whole seconds unless it saturates, with a threshold that can
  wrap. For denominators up to about 2^64 / 10^9 it agrees with the exact fraction for all timestamps exactly
  when period times numerator fits 63 bits, and otherwise fires too early for some. Above that the product may
  go unnoticed (`Refresh.ExactWithoutFitting`); `Refresh.ExactIffSameSecond` is the condition for every rate
  that the configuration check lets through. With numerator and denominator both near 2^64 the test can stay
  silent past the trusting period (`Refresh.ExpiredWithoutRefresh`), exactly as `Refresh.SafeIff` says.
- The round robin is fair from every starting point exactly when the number of targets divides 2^32
  (`Selector.FairEverywhereIffDivides`); a single window also if it does not wrap, or wraps once after whole
  rounds, and never else (`Selector.FairWindowIff`).

## Assumptions

- The consumer of the stream keeps receiving, and workers return. A worker's one result is fixed per run and
  arbitrary, so every statement about runs holds for all results.
- Nodes and servers answer the same question the same way throughout one call; an answer can be missing,
  which is a failed request. Answers of the L2 nodes, the account proofs and the preimages are opaque.
- An honest beacon node (`Acceptance.HonestNode`) serves, for period `p`, an update signed by the committee
  of `p`, finalized, attested and signed in that order within `p`, announcing the committee of `p + 1`. The
  recorded finalized data (`Acceptance.HonestLatest`) holds a finality update that attests past the
  finalized slot of the snapshot recorded with it. Missing answers are allowed throughout.
- The light client follows the sections `validate_light_client_update` and `apply_light_client_update` of the
  Ethereum consensus specifications, `altair/light-client/sync-protocol.md`; "signed by a committee" is a
  field of an update.
- Slots, epochs and periods are floor divisions by positive constants. A bootstrap is asked for by the root
  of a finalized block, which its slot stands for.
- The submessages of `Header` other than `Derivation` are opaque codecs with an assumed round trip.
- The difference of two time values follows the `time` package of Go: seconds since its own origin in a
  wrapping 64-bit integer, and a difference that saturates at the ends of the range of a duration.

## Model

| member | source | states |
|---|---|---|
| Pipeline.InitHolds | module/prover/prover.go:355-380 | the freshly made channels and buffer satisfy the invariant |
| Pipeline.DispatcherStepHolds | module/prover/prover.go:363-374 | acquiring a semaphore slot and launching a worker keep the invariant |
| Pipeline.WorkerStepHolds | module/prover/prover.go:366-373 | storing a result and posting the deferred token keep the invariant |
| Pipeline.ReceiveHolds | module/prover/prover.go:381-382 | consuming a token keeps the invariant, whichever worker it is charged to |
| Pipeline.SequencerStepHolds | module/prover/prover.go:383-407 | scan, send, reset, advance and release keep the invariant |
| Pipeline.StepHolds | module/prover/prover.go:355-410 | every enabled step of any goroutine keeps the invariant |
| Pipeline.RunHolds | module/prover/prover.go:355-410 | the invariant holds in every state of every run |
| Pipeline.NoLostWakeup | module/prover/prover.go:381-388 | when the sequencer blocks on `done`, the awaited worker's token is still to come, and if the worker is not launched the semaphore holds no earlier request |
| Pipeline.PostNeverBlocks | module/prover/prover.go:358-373 | the deferred send on `done` always finds room |
| Pipeline.ReleaseNeverBlocks | module/prover/prover.go:400-405 | the receive from `sem` after a delivery never blocks |
| Pipeline.RunDeliversInOrder | module/prover/prover.go:363-402 | what is delivered only grows and is always a prefix of the results in request order |
| Pipeline.StageStep | module/prover/prover.go:369-402 | one step moves a buffer slot forward by at most one of empty, full, reset |
| Pipeline.StageGrows | module/prover/prover.go:369-402 | along a run a slot never moves back |
| Pipeline.StageReached | module/prover/prover.go:369-402 | there is exactly one moment at which a slot reaches a stage |
| Pipeline.StageShows | module/prover/prover.go:369-402 | a slot holds its own result exactly between store and reset, and a reset slot has been delivered |
| Pipeline.EmptyingStep | module/prover/prover.go:399-402 | the step that resets a slot delivers nothing |
| Pipeline.SlotFilledOnce | module/prover/prover.go:363-402 | over a complete run each slot goes empty, full, empty exactly once, and its result is out before the reset |
| Pipeline.SlidingWindow | module/prover/prover.go:363-405 | launched minus released is at most the capacity; running workers and buffered results lie in a window of that width |
| Pipeline.AcquiresIff | module/prover/prover.go:363-365 | in every reachable state with requests left, the dispatcher can take a slot if and only if launched minus released is below the capacity |
| Pipeline.Launches | module/prover/prover.go:366-374 | once it has a slot it can start the worker of the next request, whatever the others do |
| Pipeline.WorkerMoves | module/prover/prover.go:366-373 | a running worker can always store its own result, and then post its token |
| Pipeline.SequencerMovesIff | module/prover/prover.go:381-407 | the sequencer can move on if and only if it has not finished and does not wait for a token when there is none |
| Pipeline.FullConcurrency | module/prover/prover.go:357-374 | for every capacity there is a run in which that many workers, or all of them, are running at once |
| Pipeline.SomeStep | module/prover/prover.go:355-410 | with a slot in the semaphore, a state that is not final has an enabled step |
| Pipeline.StepLowersMeasure | module/prover/prover.go:355-410 | every step lowers a measure |
| Pipeline.RunBounded | module/prover/prover.go:355-410 | no run on n requests has more than 13n + 3 steps |
| Pipeline.MaximalRunDelivers | module/prover/prover.go:355-410 | a run that cannot go on has delivered all results in order, closed `out` and left no goroutine |
| Pipeline.ZeroCapacityIdles | module/prover/prover.go:357-374 | with capacity 0 no worker is ever launched and nothing delivered |
| Pipeline.ZeroCapacityDeadlock | module/prover/prover.go:355-410 | with capacity 0 and a request there is a run into a deadlock |
| Pipeline.DeliversIffCapacity | module/prover/prover.go:355-410 | every maximal run is complete if and only if the capacity is at least 1 or there are no requests |
| Pipeline.AnyConfiguredConcurrencyDelivers | module/prover/prover.go:428 | with the constructor's lower bound every configured concurrency delivers everything |
| LightClient.Clock.PeriodMonotone | module/prover/l1/l1.go:162 | the period of a slot is monotone |
| SyncCommittees.PreviousPeriodMonotone | module/prover/l1/l1.go:153-167 | the previous period of an L1 block is monotone in its timestamp, error cases included |
| SyncCommittees.PreviousPeriodFits | module/prover/l1/l1.go:153-167 | the previous period is never the last 64-bit one |
| SyncCommittees.PreviousPeriodIff | module/prover/l1/l1.go:153-167 | the answer is period p if and only if the block lies in the seconds of period p + 1, or p is 0 and it lies in period 0; a time before genesis and an unknown block are errors |
| SyncCommittees.MainnetPeriod | module/prover/l1/l1.go:153-167 | with the constants of the main network, the block of second 1700000027 has previous period 946 |
| SyncCommittees.L1Client.GetPreviousPeriodByBlockNumber | module/prover/l1/l1.go:153-167 | period of the block's slot, decremented unless 0, or the failed lookup |
| SyncCommittees.L1Client.BuildFromData | module/prover/l1/l1.go:298-321 | a fresh header with `IsNext`, or the missing payload or the root mismatch |
| SyncCommittees.L1Client.BuildNextSyncCommitteeUpdate | module/prover/l1/l1.go:290-296 | the header of a period's update, or the first error |
| SyncCommittees.ChainStep | module/prover/l1/l1.go:211-219 | one round of the loop appends one header and hands its next committee on |
| SyncCommittees.HeaderFromContents | module/prover/l1/l1.go:298-321 | a header carries its update and the payload of its finalized slot, or the error for a missing payload or another root |
| SyncCommittees.L1Client.GetSyncCommitteesFromAgreedToClaimed | module/prover/l1/l1.go:172-226 | the list as specified, in pairwise distinct objects of which only the last is the claimed header; nothing is written on an error |
| SyncCommittees.L1Client.GetSyncCommitteesFromClaimedToLatest | module/prover/l1/l1.go:231-276 | the same towards the latest header, with the snapshot at the last period |
| Acceptance.UpdateAccepted | module/prover/l1/l1.go:312-317 | an honest update of the next period, trusted as next, is accepted and rotates the committees |
| Acceptance.ClosingAccepted | module/prover/l1/l1.go:220-224 | a closing header, trusted as current, is accepted exactly when it attests past the store's finalized slot |
| Acceptance.AcceptedIff | module/prover/l1/l1.go:290-321 | which headers a store that knows two committees in a row accepts: order of slots, news, period, signer, trusted committee, and announced committee |
| Acceptance.ChainOkIff | module/prover/l1/l1.go:211-219 | the loop succeeds if and only if every period has a usable update |
| Acceptance.LinkHonest | module/prover/l1/l1.go:290-321 | a header built from an honest answer carries the committee of its period and announces the next |
| Acceptance.ChainShape | module/prover/l1/l1.go:205-219 | the loop yields one header per period and ends with the committee of the last one |
| Acceptance.ChainLink | module/prover/l1/l1.go:211-219 | each header of the loop is trusted through the committee of its own period |
| Acceptance.ChainAccepted | module/prover/l1/l1.go:205-219 | the loop's headers are accepted in turn and move the store to the last period |
| Acceptance.AgreedToClaimedAccepted | module/prover/l1/l1.go:172-226 | length, `IsNext` pattern, equal closing header in both branches, and the exact store after replay |
| Acceptance.ListAccepted | module/prover/l1/l1.go:205-225 | a list over several periods is accepted and ends at the last one |
| Acceptance.ClaimedToLatestAccepted | module/prover/l1/l1.go:231-276 | replayed from where the first list ends, the second is accepted and ends at the latest period |
| Acceptance.SnapshotUsedOnce | module/prover/l1/l1.go:254-269 | the snapshot decides the header of the latest period and no other |
| Acceptance.AgreeingSnapshot | module/prover/l1/l1.go:254-269 | a snapshot that agrees with the node gives the list fetched from the node |
| Acceptance.AgreedToClaimedOkIff | module/prover/l1/l1.go:172-226 | the first list exists if and only if the periods are ordered and the needed answers are there |
| Acceptance.AgreedToClaimedContents | module/prover/l1/l1.go:172-226 | every header of the first list has the update and the payload of its period and the committee announced one period before; the last is the claimed header trusted as current |
| Acceptance.ClaimedToLatestOkIff | module/prover/l1/l1.go:231-276 | the same for the second list |
| Acceptance.ClaimedToLatestContents | module/prover/l1/l1.go:231-276 | the same for the second list, the snapshot being the update of the latest period |
| Acceptance.ChainFirstError | module/prover/l1/l1.go:211-219 | the error of a failing loop is the one of the first period without a usable update |
| Acceptance.AgreedToClaimedErrors | module/prover/l1/l1.go:172-203 | when the first list fails before its loop, and with which error |
| Acceptance.ClaimedToLatestErrors | module/prover/l1/l1.go:231-246 | when the second list fails before its loop, and with which error |
| Acceptance.OrderedOriginsNotBackwards | module/prover/l1/l1.go:201-203 | for ordered L1 origins the error agreed > claimed is unreachable |
| Acceptance.ClaimedNotBeforeLatestIff | module/prover/l1/l1.go:244-246 | for a latest period not before the origin's, the error claimed >= latest happens if and only if the latest period is 0 |
| Relay.Prover.GetFinalizedL1Header | module/prover/l1/l1.go:72-109 | the header of the recorded finality update, without a trusted committee |
| Relay.Prover.GetDeterministicL1Header | module/prover/prover.go:338-353 | output, previous period and that period's header, or the first error |
| Relay.Prover.GetSyncCommitteeLists | module/prover/prover.go:165-172 | both lists from the headers as they were before either was written to |
| Relay.Prover.BuildUpdateHeader | module/prover/prover.go:122-179 | the update header of a request, or the first of its errors in program order |
| Relay.FinalizedContents | module/prover/l1/l1.go:90-108 | the finalized header has the recorded finality update and the payload of its finalized slot, or does not exist |
| Relay.BuildHeaderOkIff | module/prover/prover.go:122-179 | a header is built if and only if the recorded data, both outputs, their periods and updates, the account proof, the updates of all periods and the preimages are there and the periods are in order |
| Relay.BuildHeaderContents | module/prover/prover.go:145-177 | each part of a built header is the answer to the right question: agreed and claimed outputs, the account proof of the claimed block, the preimages of the request, and the two lists |
| Relay.HonestHeaderContents | module/prover/prover.go:145-177 | with honest servers the heights are the requested ones and the account proof is the one of the claimed height |
| Relay.PayloadsOfHeader | module/prover/prover.go:165-172 | every L1 header of both lists has the payload of its own finalized slot |
| Relay.BuildHeaderErrors | module/prover/prover.go:122-176 | when a request fails for the recorded data, the output, the account proof or the preimages |
| Relay.InitialClientIsClientAt | module/prover/prover.go:243-327 | a client created at a height is the one an update would lead to |
| Relay.InitialClientOkIff | module/prover/l1/l1.go:111-151 | a client is created if and only if output, period, bootstrap, update, payload and account proof are there, and from these |
| Relay.HeaderAcceptedIff | module/prover/prover.go:122-179 | a built header is accepted by any client at its agreed height with the right committees if and only if it leads to a later period or its update is news, and the client after it |
| Relay.HeaderAccepted | module/prover/prover.go:122-179 | a built header takes the client at its agreed height to the client at its claimed height |
| Relay.ResultsLead | module/prover/prover.go:122-180 | so does every worker result that is a header |
| Relay.UpdatePipelineConfig | module/prover/prover.go:428 | the pipeline gets the configured concurrency, 1 instead of 0, and one result per request in order |
| Relay.SuccessesLongest | module/prover/prover_test.go:223-251 | the headers in front of the first error are the longest part of the stream without one |
| Relay.PrefixAccepted | module/prover/prover_test.go:223-251 | for contiguous requests any delivered part of the stream is an accepted chain up to its first error |
| Relay.AcceptedIffContiguous | module/prover/prover_test.go:223-251 | if all headers are built, they are accepted if and only if the requests are contiguous |
| Relay.DeliveredAccepted | module/prover/prover.go:117-180 | at any moment of any interleaving the headers delivered before an error take the client to the last claimed height |
| Relay.StreamAcceptedIffContiguous | module/prover/prover.go:117-180 | a complete stream of headers is accepted if and only if the requests are contiguous |
| Relay.StreamReachesLatest | module/prover/prover.go:87-181 | a complete stream ends at the latest height, and an up-to-date client gets none |
| Relay.PrefixFromIff | module/prover/prover_test.go:223-251 | for any client at the trusted height, the exact condition under which the headers before the first error are an accepted chain |
| Relay.DeliveredFromIff | module/prover/prover.go:117-180 | the same for what is delivered at any moment of any interleaving |
| Relay.StreamFromReachesLatest | module/prover/prover.go:87-181 | the same for a complete stream, which if accepted ends at the latest height |
| HonestWorld.SomeHeaderBuilt | module/prover/prover.go:122-179 | the assumptions on nodes and servers can be met by a world in which a client is created and a header built |
| HonestWorld.SomeHeaderAccepted | module/prover/prover_test.go:223-251 | that header takes that client to its claimed height |
| Varint.SizeExact | module/types/optimism.pb.go:1837-1839 | the bit-length formula is the number of bytes the loop writes |
| Varint.Uint64Length | module/types/optimism.pb.go:1473-1483 | a 64-bit value takes 1 to 10 bytes |
| Varint.EncodeVarint | module/types/optimism.pb.go:1473-1483 | writes exactly those bytes in front of the offset and nothing else |
| Varint.EncodeByte | module/types/optimism.pb.go:1473-1483 | byte i holds bits 7i to 7i + 6 of the value, and all but the last byte have the continuation bit |
| Varint.DecodeEncode | module/types/optimism.pb.go:2767-2781 | a value is read back whatever follows it |
| Varint.DecodeExtend | module/types/optimism.pb.go:2767-2781 | a varint is read without looking past its end |
| Varint.DecodeMeaning | module/types/optimism.pb.go:2767-2781 | what is read is the number of the low seven bits up to the first byte without the continuation bit, modulo 2^64; overflow if ten bytes have it, and end of input if all of fewer have it |
| Varint.ChunkExact | module/types/optimism.pb.go:2775-2777 | or-ing a shifted chunk to the value adds it, with no bit lost before the tenth byte and modulo 2^64 in it |
| Varint.ReadVarint | module/types/optimism.pb.go:2767-2781 | the inline loop returns value and next index, overflow after ten bytes, end of input otherwise |
| Skip.SkipRound | module/types/optimism.pb.go:4445-4511 | one round of the loop: the next index and depth, or the error |
| Skip.SkipField | module/types/optimism.pb.go:4440-4517 | the loop computes the functional form, including an index past the end |
| Skip.SkipOne | module/types/optimism.pb.go:4440-4517 | a well-formed field of any nesting is passed exactly, at any depth |
| Skip.SkipMany | module/types/optimism.pb.go:4497-4503 | the members of an open group are passed one after the other |
| Skip.RoundReads | module/types/optimism.pb.go:4460-4508 | a round inside the input reads a leaf field or a group tag of the grammar |
| Skip.SkippedLevels | module/types/optimism.pb.go:4440-4517 | what the loop reads inside open groups splits into fields and group ends |
| Skip.SkippedField | module/types/optimism.pb.go:4440-4517 | what is skipped is one well-formed field |
| Skip.SkipsExactlyFields | module/types/optimism.pb.go:4440-4517 | n bytes are skipped if and only if they are one well-formed field |
| Skip.FieldUnique | module/types/optimism.pb.go:4440-4517 | bytes stand for at most one field of the grammar, and one length |
| Skip.SkippedIsStandardIff | module/types/optimism.pb.go:4440-4517 | what is skipped is a field of the standard if and only if the one field it stands for has only legal numbers and closes its groups by their own |
| Skip.MismatchedGroupSkipped | module/types/optimism.pb.go:4497-4503 | a group with the end tag of another field number is skipped |
| Skip.NumberZeroSkipped | module/types/optimism.pb.go:4460-4474 | a group with a member numbered 0 is skipped |
| Skip.SkipExtend | module/types/optimism.pb.go:4440-4517 | skipping does not depend on what follows |
| Skip.RoundErrors | module/types/optimism.pb.go:4445-4511 | the errors of a round: an end of group outside groups, wire types 6 and 7, a bad varint, a length that does not fit 63 bits |
| Wire.ParseConcat | module/types/optimism.pb.go:2762-2898 | reading two encodings in a row merges the second into the first |
| Wire.UnknownInFront | module/types/optimism.pb.go:2878-2890 | an unknown field is passed without changing the message |
| Wire.UnknownIgnored | module/types/optimism.pb.go:2878-2890 | an unknown field at any field boundary leaves the message unchanged, and an error an error |
| Wire.ParseAnywhereIff | module/types/optimism.pb.go:2810-2819 | reading at two indices gives equal results if and only if no failing length fits 63 bits at one of them only |
| Wire.UnknownIgnoredIff | module/types/optimism.pb.go:2878-2890 | the two results are the same, errors included, if and only if no failing length passes 63 bits only with the field there |
| Wire.ParsePrint | module/types/optimism.pb.go:2762-2898 | printed fields are read back as those fields in order |
| Wire.Int32Iff | module/types/optimism.pb.go:2782 | a field number is the 32-bit two's complement number congruent to the number of the tag |
| Wire.StepRefuses | module/types/optimism.pb.go:2782-2794 | an end of group, a number that is not positive and a wire type that does not fit are refused, in this order |
| Wire.StepPuts | module/types/optimism.pb.go:2791-2877 | a field of the right type is put into the message, however long its varints are |
| Wire.LengthErrors | module/types/optimism.pb.go:2810-2819 | a length is invalid if and only if the index behind it does not fit 63 bits, and otherwise an unexpected end if and only if the bytes are not there |
| Wire.StepBadLength | module/types/optimism.pb.go:2810-2819 | such a length fails the message with that error |
| Wire.ReadTagAt | module/types/optimism.pb.go:2766-2789 | field number, wire type and next index, or the tag errors |
| Wire.ReadNumberField | module/types/optimism.pb.go:2860-2877 | a varint field, or its errors |
| Wire.ReadBytesField | module/types/optimism.pb.go:2792-2824 | a length-delimited field, or its errors |
| Wire.SkipUnknownAt | module/types/optimism.pb.go:2879-2890 | the index after an unknown field, or its errors |
| Wire.FieldSizes | module/types/optimism.pb.go:1608-1626 | the size of a scalar field as `Size` counts it is its printed length |
| Wire.WriteNumber | module/types/optimism.pb.go:954-958 | puts a non-zero number with its tag in front of what is written |
| Wire.WriteBytes | module/types/optimism.pb.go:959-965 | puts non-empty bytes with length and tag in front of what is written |
| Messages.DerivationSizeExact | module/types/optimism.pb.go:1608-1626 | `Size` is the length of the printed form |
| Messages.DerivationRoundTrip | module/types/optimism.pb.go:949-974 | every derivation is read back from its printed form |
| Messages.DerivationLayout | module/types/optimism.pb.go:949-974 | the bytes: tags 0x0a, 0x12 and 0x18 with their values, default values left out |
| Messages.DerivationMerge | module/types/optimism.pb.go:2762-2898 | a printed derivation read into any other replaces the fields that were printed and keeps the rest |
| Messages.DerivationNumbers | module/types/optimism.pb.go:2790-2890 | exactly the fields numbered above 3 are skipped; a known field of another wire type is refused |
| Messages.DerivationMessage.MarshalToSizedBuffer | module/types/optimism.pb.go:949-974 | fills exactly `Size` bytes at the end of the buffer and touches nothing else |
| Messages.DerivationMessage.Marshal | module/types/optimism.pb.go:934-942 | returns the printed form |
| Messages.DerivationMessage.UnmarshalField | module/types/optimism.pb.go:2766-2891 | one round of the loop merges one field or fails |
| Messages.DerivationMessage.Unmarshal | module/types/optimism.pb.go:2762-2898 | merges the fields of the input into the message, or the first error |
| Messages.ConsensusStateSizeExact | module/types/optimism.pb.go:1665-1700 | `Size` is the length of the printed form |
| Messages.ConsensusStateRoundTrip | module/types/optimism.pb.go:1085-1139 | every consensus state is read back from its printed form |
| Messages.ConsensusStateLayout | module/types/optimism.pb.go:1085-1139 | the bytes: tags 0x0a to 0x40 with their values, default values left out |
| Messages.ConsensusStateMerge | module/types/optimism.pb.go:3159-3420 | a printed consensus state read into any other replaces the fields that were printed and keeps the rest |
| Messages.ConsensusStateNumbers | module/types/optimism.pb.go:3187-3415 | exactly the fields numbered above 8 are skipped; a known field of another wire type is refused |
| Messages.ConsensusStateMessage.MarshalToSizedBuffer | module/types/optimism.pb.go:1085-1139 | fills exactly `Size` bytes at the end of the buffer and touches nothing else |
| Messages.ConsensusStateMessage.Marshal | module/types/optimism.pb.go:1070-1078 | returns the printed form |
| Messages.ConsensusStateMessage.UnmarshalField | module/types/optimism.pb.go:3162-3415 | one round of the loop merges one field or fails |
| Messages.ConsensusStateMessage.Unmarshal | module/types/optimism.pb.go:3159-3420 | merges the fields of the input into the message, or the first error |
| Messages.HeaderSizeExact | module/types/optimism.pb.go:1628-1663 | `Size` is the length of the printed form, nested and repeated messages included |
| Messages.HeaderRoundTrip | module/types/optimism.pb.go:991-1068 | every header is read back from its printed form |
| Messages.HeaderLayout | module/types/optimism.pb.go:991-1068 | the bytes: tags 0x0a to 0x32, absent messages left out, the messages of a list one by one |
| Messages.HeaderMerge | module/types/optimism.pb.go:2899-3158 | a printed header read into any other: submessages are read into those that are there, the derivation field by field, and lists are appended |
| Messages.HeaderNumbers | module/types/optimism.pb.go:2927-3151 | exactly the fields numbered above 6 are skipped; a known field of another wire type is refused |
| Messages.HeaderSubMessageFails | module/types/optimism.pb.go:2928-3137 | a submessage that cannot be read fails the header with the same error |
| Messages.WriteRepeated | module/types/optimism.pb.go:996-1009 | the backward loop leaves the messages of a repeated field in order |
| Messages.HeaderMessage.MarshalToSizedBuffer | module/types/optimism.pb.go:991-1068 | fills exactly `Size` bytes at the end of the buffer and touches nothing else |
| Messages.HeaderMessage.Marshal | module/types/optimism.pb.go:976-984 | returns the printed form |
| Messages.HeaderMessage.UnmarshalDerivation | module/types/optimism.pb.go:3000-3035 | a nested derivation is merged into the present one or into a new one |
| Messages.HeaderMessage.UnmarshalField | module/types/optimism.pb.go:2902-3151 | one round of the loop merges one field or fails |
| Messages.HeaderMessage.Unmarshal | module/types/optimism.pb.go:2899-3158 | merges the fields of the input into the message, or the first error |
| ForkSchedule.PrintedSize | module/config/config.pb.go:387-394 | the counted size is the length of the printed entries |
| ForkSchedule.EntryLayout | module/config/config.pb.go:252-264 | the bytes of an entry: tag 0x52, the length, then tag 0x0a with the key and tag 0x10 with the value |
| ForkSchedule.SizeOfAnyOrder | module/config/config.pb.go:387-394 | the size does not depend on the iteration order |
| ForkSchedule.EntryBodyRead | module/config/config.pb.go:768-846 | the entry loop reads a printed entry, an empty key and a zero value included |
| ForkSchedule.EntryRead | module/config/config.pb.go:736-848 | a printed entry puts its key and value into the map |
| ForkSchedule.BodyRead | module/config/config.pb.go:768-846 | any body of key, value and other fields, of any wire types and varints, is read as its last key and the bitwise or of all its values |
| ForkSchedule.BodyOf | module/config/config.pb.go:768-846 | whatever the entry loop reads is such a body, and only a key or a value can end behind the entry |
| ForkSchedule.EntryWithinIff | module/config/config.pb.go:768-848 | an entry is read from its own bytes alone if and only if the loop stops at its end, and if and only if those bytes are a body |
| ForkSchedule.KeyFromBehind | module/config/config.pb.go:789-816 | an entry whose key is the two bytes behind it, which are read again as a field |
| ForkSchedule.FieldRead | module/config/config.pb.go:736-848 | a map field with any such body puts that key and value into the map |
| ForkSchedule.OtherFieldSkipped | module/config/config.pb.go:900-914 | a field of another number than 10 leaves the map as it is |
| ForkSchedule.ScheduleRefuses | module/config/config.pb.go:431-739 | an end of group, a number that is not positive and field 10 of another wire type are refused |
| ForkSchedule.OredIsLastIff | module/config/config.pb.go:817-831 | the or of the values is the last value if and only if every value or-ed to the last leaves it unchanged |
| ForkSchedule.LastValueWinsIff | module/config/config.pb.go:768-846 | so an entry is read with its last value if and only if that holds |
| ForkSchedule.OneOrTwo | module/config/config.pb.go:827 | the values 1 and then 2 are read as 3 |
| ForkSchedule.ScheduleRoundTrip | module/config/config.pb.go:250-266 | for every iteration order the bytes have the counted size and decode to the map |
| ForkSchedule.ScheduleMessage.SizeOf | module/config/config.pb.go:387-394 | the counting loop computes the size |
| ForkSchedule.ScheduleMessage.WriteEntry | module/config/config.pb.go:252-264 | puts one entry in front of what is written |
| ForkSchedule.ScheduleMessage.MarshalToSizedBuffer | module/config/config.pb.go:250-266 | fills exactly the counted bytes with the entries, whatever the order |
| ForkSchedule.ScheduleMessage.ReadEntryField | module/config/config.pb.go:771-845 | one round of the inner loop: the next key, value and index, or its errors |
| ForkSchedule.ScheduleMessage.ReadEntryFields | module/config/config.pb.go:768-846 | the inner loop computes key and value of an entry, or its errors |
| ForkSchedule.ScheduleMessage.ReadMapField | module/config/config.pb.go:736-848 | key, value and next index of a map field, or its errors |
| ForkSchedule.ScheduleMessage.Unmarshal | module/config/config.pb.go:736-848 | merges the entries of the input into the map, or the first error |
| SuperRoot.DecodeEncode | tools/misbehaviour/l2/lib.go:167-191 | decoding an encoding gives back its fields |
| SuperRoot.EncodeDecode | tools/misbehaviour/l2/lib.go:167-191 | encoding what was decoded gives back the bytes |
| SuperRoot.AcceptedIffEncoding | tools/misbehaviour/l2/lib.go:168-177 | accepted are exactly version 1, an 8-byte timestamp and one or more 64-byte entries |
| SuperRoot.DecodeInjective | tools/misbehaviour/l2/lib.go:167-191 | different byte strings decode to different super roots |
| SuperRoot.DecodeSuperRootProof | tools/misbehaviour/l2/lib.go:167-191 | the offset loop computes the decoding, or its three errors |
| SuperRoot.DecodeLayout | tools/misbehaviour/l2/lib.go:142-191 | where version, big-endian timestamp and each entry stand in the bytes |
| SuperRoot.DecodeErrors | tools/misbehaviour/l2/lib.go:167-177 | the three errors, by size and first byte |
| SuperRoot.OutputRootOf | tools/misbehaviour/l2/lib.go:195-202 | the root of the first matching entry, or none if and only if there is none |
| SuperRoot.UnpackGameIdInjective | tools/misbehaviour/l2/lib.go:256-261 | an identifier is determined by the three parts it is unpacked into |
| SuperRoot.UnpackGameIdLayout | tools/misbehaviour/l2/lib.go:256-261 | four bytes of game type and eight of timestamp, highest first, then the address |
| BlockSearch.FindL2BlockByTimestamp | tools/misbehaviour/l2/lib.go:206-243 | a found block has the timestamp; over increasing timestamps it is found if and only if it exists and the first candidate is non-negative and at most 1023 away |
| BlockSearch.ReachableIff | tools/misbehaviour/l2/lib.go:224-227 | a block is among the probes if and only if the first candidate is not negative and at most 1023 away |
| BlockSearch.FirstCandidateIff | tools/misbehaviour/l2/lib.go:213-223 | the first candidate lies as many blocks before the tip as whole block times fit between timestamp and tip |
| BlockSearch.ConstantBlockTimeHitsFirst | tools/misbehaviour/l2/lib.go:213-223 | with a constant block time the first candidate is the block |
| Selector.Selector.Get | module/util/selector.go:17-21 | increments the counter modulo 2^32 and returns the target it picks |
| Selector.PickShift | module/util/selector.go:17-21 | picks after some calls are the picks counted from the start |
| Selector.FairWithoutWrap | module/util/selector.go:17-21 | k rounds without a wrap pick every target k times |
| Selector.FairEverywhereIffDivides | module/util/selector.go:17-21 | rounds are fair from every start if and only if the number of targets divides 2^32 |
| Selector.CountOverWrap | module/util/selector.go:17-21 | how often a window over one wrap picks each target |
| Selector.UnfairOverWraps | module/util/selector.go:17-21 | over two wraps or more the first target is picked more often than the last, unless the number of targets divides 2^32 |
| Selector.FairWindowIff | module/util/selector.go:17-21 | a window is fair if and only if it does not wrap, or the number of targets divides 2^32, or it wraps once and the number of targets divides the number of picks before the wrap |
| Selector.UnfairRound | module/util/selector.go:17-21 | otherwise the round over the wrap passes over a target |
| Selector.BalancedOverWrap | module/util/selector.go:17-21 | over a window with at most one wrap two targets differ by at most 2 |
| Selector.TwoApart | module/util/selector.go:17-21 | that difference is reached |
| Refresh.MeasuredIff | module/prover/prover.go:205-218 | the elapsed times that occur are exactly the whole seconds and the two ends of the range |
| Refresh.InternalSecondIff | module/prover/prover.go:205-218 | the internal second of a timestamp is the 64-bit number congruent to timestamp + 62135596800 |
| Refresh.ElapsedNanoseconds | module/prover/prover.go:205-218 | for timestamps below 2^60 the elapsed time is their difference times 10^9, or the end of the range on its side |
| Refresh.ThresholdValue | module/prover/prover.go:220-223 | the threshold is a quotient of two 64-bit integers, rounded towards zero, with the one quotient that wraps |
| Refresh.ThresholdExact | module/prover/prover.go:220-224 | as long as product and denominator fit, the floored test is elapsed * den > period * num |
| Refresh.ThresholdIsFractionIff | module/prover/prover.go:220-223 | for every valid rate, the condition on the product under which the threshold is the floored fraction |
| Refresh.ExactForAnyElapsedIff | module/prover/prover.go:220-224 | the test is exact for every 64-bit elapsed time if and only if that condition holds |
| Refresh.NeedsRefreshMonotone | module/prover/prover.go:224 | the test is monotone in the elapsed time |
| Refresh.ExactIffSameNext | module/prover/prover.go:205-224 | the test is exact for all timestamps if and only if the same least difference of timestamps passes threshold and fraction |
| Refresh.ExactIffSameSecond | module/prover/prover.go:205-224 | the same for every valid rate in terms of its numbers: equal whole seconds of two quotients, the ends of the range included |
| Refresh.ExactIffProductFits | module/prover/prover.go:205-224 | for a denominator up to 2^64 / (10^9 + 1) the test is exact for all timestamps if and only if period * num is below 2^63 |
| Refresh.EarlyRefresh | module/prover/prover.go:205-224 | there a product that does not fit has two timestamps for which the test fires before the exact fraction |
| Refresh.ExactWithoutFitting | module/prover/prover.go:205-224 | above that bound a rate whose product does not fit and whose test is exact for all timestamps |
| Refresh.SafeIff | module/prover/prover.go:205-224 | for every valid rate, a silent test implies elapsed <= trusting period for all timestamps if and only if the dividend is below the next difference times the divisor, or the quotient wraps |
| Refresh.WithinPeriodIff | module/prover/prover.go:220-224 | the same for every 64-bit elapsed time |
| Refresh.NoRefreshWithinPeriod | module/prover/prover.go:220-224 | if the product or the denominator fits, a silent test implies elapsed <= trusting period |
| Refresh.ExpiredWithoutRefresh | module/prover/prover.go:205-224 | a rate that passes the configuration check and timestamps 30 seconds apart that stay silent with a trusting period of 10 seconds |

## Left out

- SyncCommittees.L1Client.GetSyncCommitteesFromAgreedToClaimed: excludes a claimed period of 2^64 - 1 in the multi-period branch, where the loop counter wraps and the loop has no end.
- SyncCommittees.L1Client.GetSyncCommitteesFromClaimedToLatest: excludes a latest period of 2^64 - 1 for the same reason.
- Relay.Prover.BuildUpdateHeader: excludes a recorded finalized period of 2^64 - 1 for the same reason; the other periods never reach it.
- Messages.DerivationMessage.Unmarshal: does not say which fields are already set when an error is returned, nor tell a nil from an empty byte field; the same holds for the other two messages.
- Messages.HeaderRoundTrip: needs a message below 2^63 bytes, and takes the encodings of heights, account updates and L1 headers as opaque values with an assumed round trip.
- Relay.InitialClientIsClientAt: compares height, output root and L1 store; storage root, timestamps and L1 origin of the created state are not part of the client here.
- SuperRoot.DecodeSuperRootProof: leaves out the two result fields that are the input itself and its keccak hash.
- Wire.UnknownIgnored: an error stays an error but can be another of the length errors; `Wire.UnknownIgnoredIff` says when it is the same.
- ForkSchedule.ScheduleMessage.Unmarshal: is about the map field alone; the other configuration fields are skipped as unknown ones.
- Selector.Selector.Get: is about one caller at a time, since the increment is a single atomic step; an empty list of targets, a division by zero in the program, is excluded.
- BlockSearch.FindL2BlockByTimestamp: failing requests are not part of the model, so a lookup inside the chain always answers.
- Consumers that abandon the stream, cancelled contexts and panicking workers.
- HTTP, RPC and JSON clients, including the metadata listing; its promise of contiguous intervals is a hypothesis of the statements about streams.
- BLS signatures, Merkle branches, participation thresholds, the clock and trusting-period checks of the light client, fork parameters, keccak, RLP and account proofs.
- The search of a bootstrap within a period, an external function, which is one lookup here.
- Client and consensus state fields beyond the L1 store, the height and the output root; the storage root check at creation.
- `ClientState`, module registration, logging, tracing and the validation of other configuration fields.
- The misbehaviour programs apart from the helpers above; reading game types from the environment.
- Generated messages beyond the three named and the map field, and their zig-zag size function.
