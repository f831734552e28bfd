/** The search for the L2 block of a timestamp: a guess from the last block time, then single steps. */
module BlockSearch {
  import opened Integers
  import opened Wrappers

  const MAX_PROBES: nat := 1024

  datatype SearchError = AheadOfChain | NotFound

  /** `times[n]` is the timestamp of block `n`; the last one is the tip. */
  predicate StrictlyIncreasing(times: seq<nat>) {
    forall i, j :: 0 <= i < j < |times| ==> times[i] < times[j]
  }

  function BlockTime(times: seq<nat>): (t: nat)
    requires times != []
    ensures 0 < t
  {
    var tip := |times| - 1;
    if tip > 0 && times[tip] > times[tip - 1] then times[tip] - times[tip - 1] else 1
  }

  function FirstCandidate(times: seq<nat>, timestamp: nat): int
    requires times != [] && timestamp <= times[|times| - 1]
  {
    |times| - 1 - (times[|times| - 1] - timestamp) / BlockTime(times)
  }

  function Distance(a: int, b: int): nat {
    if a < b then b - a else a - b
  }

  /** The target block is one of the probes of the search. */
  ghost predicate Reachable(times: seq<nat>, timestamp: nat, block: nat)
    requires times != [] && timestamp <= times[|times| - 1]
  {
    && block < |times| && times[block] == timestamp
    && 0 <= FirstCandidate(times, timestamp)
    && Distance(FirstCandidate(times, timestamp), block) < MAX_PROBES
  }

  /** A block is in reach exactly when the first candidate is not negative and at most 1023 away from it. */
  lemma ReachableIff(times: seq<nat>, timestamp: nat, block: nat)
    requires times != [] && timestamp <= times[|times| - 1]
    ensures Reachable(times, timestamp, block) <==>
            && block < |times| && times[block] == timestamp
            && 0 <= FirstCandidate(times, timestamp)
            && -1023 <= FirstCandidate(times, timestamp) - block <= 1023
  {
    hide FirstCandidate;
  }

  /**
    The first candidate lies as many blocks before the tip as whole block times fit between the
    timestamp and the tip; the block time is the last step of the chain, or 1 if there is no such step.
    */
  lemma FirstCandidateIff(times: seq<nat>, timestamp: nat, steps: nat)
    requires times != [] && timestamp <= times[|times| - 1]
    ensures var tip := |times| - 1;
            var blockTime := if tip > 0 && times[tip - 1] < times[tip] then times[tip] - times[tip - 1] else 1;
            FirstCandidate(times, timestamp) == tip - steps
            <==> steps * blockTime <= times[tip] - timestamp < (steps + 1) * blockTime
  {
    QuotientIff(times[|times| - 1] - timestamp, BlockTime(times), steps);
  }

  /** After `i` probes the distance to every block of the timestamp has shrunk by `i`. */
  ghost predicate Closing(times: seq<nat>, timestamp: nat, first: int, candidate: int, i: nat) {
    forall b: nat :: b < |times| && times[b] == timestamp && 0 <= first ==>
      0 <= candidate && Distance(first, b) == i + Distance(candidate, b)
  }

  lemma StartClosing(times: seq<nat>, timestamp: nat, first: int)
    ensures Closing(times, timestamp, first, first, 0)
  {
  }

  lemma ProbeCloses(times: seq<nat>, timestamp: nat, first: int, candidate: nat, i: nat)
    requires candidate < |times| && times[candidate] != timestamp
    ensures StrictlyIncreasing(times) && Closing(times, timestamp, first, candidate, i) ==>
              var next := if times[candidate] > timestamp then candidate - 1 else candidate + 1;
              Closing(times, timestamp, first, next, i + 1)
  {
  }

  lemma NotReachable(times: seq<nat>, timestamp: nat, candidate: int, i: nat)
    requires times != [] && timestamp <= times[|times| - 1] && (candidate < 0 || i == MAX_PROBES)
    ensures Closing(times, timestamp, FirstCandidate(times, timestamp), candidate, i) ==>
              forall block :: !Reachable(times, timestamp, block)
  {
    hide FirstCandidate;
  }

  lemma FoundReachable(times: seq<nat>, timestamp: nat, candidate: nat, i: nat)
    requires candidate < |times| && times[candidate] == timestamp <= times[|times| - 1]
    requires i < MAX_PROBES
    requires FirstCandidate(times, timestamp) < 0 ==> candidate == FirstCandidate(times, timestamp)
    ensures Closing(times, timestamp, FirstCandidate(times, timestamp), candidate, i) ==>
              Reachable(times, timestamp, candidate)
  {
    hide FirstCandidate;
  }

  lemma QuotientNatural(x: nat, d: nat)
    requires 0 < d
    ensures 0 <= x / d
  {
  }

  /** Every lookup is within the chain, since an index out of it would be a failed request. */
  method FindL2BlockByTimestamp(times: seq<nat>, timestamp: nat) returns (r: Result<nat, SearchError>)
    requires times != []
    ensures r == Err(AheadOfChain) <==> times[|times| - 1] < timestamp
    ensures r.Ok? ==> r.value < |times| && times[r.value] == timestamp
    ensures StrictlyIncreasing(times) && timestamp <= times[|times| - 1] ==>
              (r.Ok? <==> exists block :: Reachable(times, timestamp, block))
  {
    var tip := |times| - 1;
    if times[tip] < timestamp {
      return Err(AheadOfChain);
    }
    var blockTime := 1;
    if tip > 0 {
      if times[tip] > times[tip - 1] {
        blockTime := times[tip] - times[tip - 1];
      }
    }
    var candidate := tip - (times[tip] - timestamp) / blockTime;
    ghost var first := candidate;
    QuotientNatural(times[tip] - timestamp, blockTime);
    assert first == FirstCandidate(times, timestamp);
    hide FirstCandidate, StrictlyIncreasing, Closing, Reachable;
    StartClosing(times, timestamp, first);
    for i := 0 to MAX_PROBES
      invariant candidate <= tip
      invariant first < 0 ==> candidate == first
      invariant StrictlyIncreasing(times) ==> Closing(times, timestamp, first, candidate, i)
      invariant StrictlyIncreasing(times) && i == MAX_PROBES ==>
                  forall block :: !Reachable(times, timestamp, block)
    {
      if candidate < 0 {
        NotReachable(times, timestamp, candidate, i);
        break;
      }
      var time := times[candidate];
      if time == timestamp {
        FoundReachable(times, timestamp, candidate, i);
        return Ok(candidate);
      }
      ProbeCloses(times, timestamp, first, candidate, i);
      if time > timestamp {
        candidate := candidate - 1;
      } else {
        candidate := candidate + 1;
      }
      if i + 1 == MAX_PROBES {
        NotReachable(times, timestamp, candidate, i + 1);
      }
    }
    return Err(NotFound);
  }

  /** With one block time for the whole chain, the first probe is the block. */
  lemma ConstantBlockTimeHitsFirst(times: seq<nat>, blockTime: nat, block: nat)
    requires block < |times| && 0 < blockTime
    requires forall i :: 0 <= i < |times| ==> times[i] == times[0] + i * blockTime
    ensures times[block] <= times[|times| - 1]
    ensures FirstCandidate(times, times[block]) == block
    ensures Reachable(times, times[block], block)
  {
    var tip := |times| - 1;
    Spread(times, blockTime, block, tip);
    if tip > 0 {
      Spread(times, blockTime, tip - 1, tip);
      DivExact(tip - block, blockTime);
    }
  }

  lemma Spread(times: seq<nat>, blockTime: nat, a: nat, b: nat)
    requires forall i :: 0 <= i < |times| ==> times[i] == times[0] + i * blockTime
    requires a <= b < |times|
    ensures times[a] <= times[b] && times[b] - times[a] == (b - a) * blockTime
  {
    MulMonotone(0, b - a, blockTime);
    assert b * blockTime - a * blockTime == (b - a) * blockTime;
  }

  lemma DivExact(q: nat, d: nat)
    requires 0 < d
    ensures q * d / d == q
  {
    QuotientUnique(q * d, q, 0, d);
  }
}
