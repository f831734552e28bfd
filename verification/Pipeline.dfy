/**
  The ordered header pipeline of the prover: a dispatcher that takes one slot of a counting
  semaphore per request, one worker per request, and a sequencer that hands results to the
  consumer in request order.

  Goroutines become the steps of a transition system, one step per access to shared state.
  The consumer of `out` is willing: a send on it is always received.
  */
module Pipeline {
  import opened Wrappers

  /**
    A worker's life. The token it sends on `done` carries no identity in the program, so a received
    token may be charged to any worker whose token is pending; `Collected` records that charge.
    */
  datatype Phase = Idle | Running | Stored | Posted | Collected

  /** Where the sequencer stands between two accesses to shared state. */
  datatype Sequencer<+R> = Outer | Wait | Scan | Send(result: R) | Reset | Release | Finished

  /** `results[i]` is what worker `i` obtains from its one call, a header or an error. */
  datatype Config<+R> = Config(results: seq<R>, capacity: nat)

  datatype State<+R> = State(
    launched: nat,
    acquired: bool,
    phases: seq<Phase>,
    sem: nat,
    done: nat,
    buffer: seq<Option<R>>,
    sequence: nat,
    pc: Sequencer<R>,
    out: seq<R>)

  datatype Step =
    | Acquire
    | Launch
    | Store(worker: nat)
    | Post(worker: nat)
    | Enter
    | Receive(worker: nat)
    | Load
    | Deliver
    | Clear
    | Free

  ghost predicate WellFormed<R>(c: Config<R>, s: State<R>) {
    && |s.phases| == |s.buffer| == |c.results|
    && s.launched <= |c.results|
    && s.sequence <= |c.results|
  }

  function Init<R>(c: Config<R>): State<R> {
    var n := |c.results|;
    State(0, false, seq(n, _ => Idle), 0, 0, seq(n, _ => None), 0, Outer, [])
  }

  /** Whether a step can be taken; a channel operation that is not enabled blocks. */
  ghost predicate Enabled<R>(c: Config<R>, s: State<R>, step: Step)
    requires WellFormed(c, s)
  {
    var n := |c.results|;
    match step
    case Acquire => !s.acquired && s.launched < n && s.sem < c.capacity
    case Launch => s.acquired && s.launched < n
    case Store(i) => i < n && s.phases[i].Running?
    case Post(i) => i < n && s.phases[i].Stored? && s.done < n
    case Enter => s.pc.Outer?
    case Receive(i) => s.pc.Wait? && s.done > 0 && i < n && s.phases[i].Posted?
    case Load => s.pc.Scan?
    case Deliver => s.pc.Send?
    case Clear => s.pc.Reset? && s.sequence < n
    case Free => s.pc.Release? && s.sem > 0
  }

  ghost function Apply<R>(c: Config<R>, s: State<R>, step: Step): State<R>
    requires WellFormed(c, s) && Enabled(c, s, step)
  {
    var n := |c.results|;
    match step
    case Acquire => s.(acquired := true, sem := s.sem + 1)
    case Launch => s.(acquired := false, launched := s.launched + 1, phases := s.phases[s.launched := Running])
    case Store(i) => s.(phases := s.phases[i := Stored], buffer := s.buffer[i := Some(c.results[i])])
    case Post(i) => s.(phases := s.phases[i := Posted], done := s.done + 1)
    case Enter => s.(pc := if s.sequence < n then Wait else Finished)
    case Receive(i) => s.(phases := s.phases[i := Collected], done := s.done - 1, pc := Scan)
    case Load =>
      if s.sequence < n && s.buffer[s.sequence].Some? then s.(pc := Send(s.buffer[s.sequence].value))
      else s.(pc := Outer)
    case Deliver => s.(out := s.out + [s.pc.result], pc := Reset)
    case Clear => s.(buffer := s.buffer[s.sequence := None], sequence := s.sequence + 1, pc := Release)
    case Free => s.(sem := s.sem - 1, pc := Scan)
  }

  ghost predicate Next<R>(c: Config<R>, s: State<R>, t: State<R>) {
    WellFormed(c, s) && exists step :: Enabled(c, s, step) && t == Apply(c, s, step)
  }

  /** A finite execution, under any interleaving. */
  ghost predicate IsRun<R(!new)>(c: Config<R>, run: seq<State<R>>) {
    && 0 < |run|
    && run[0] == Init(c)
    && forall k :: 0 <= k < |run| - 1 ==> Next(c, run[k], run[k + 1])
  }

  /** The end: everything is handed over, `out` is closed and no goroutine is left. */
  ghost predicate Final<R>(c: Config<R>, s: State<R>) {
    && s.pc.Finished?
    && s.out == c.results
    && s.launched == |c.results|
    && forall i :: 0 <= i < |s.phases| ==> s.phases[i].Posted? || s.phases[i].Collected?
  }

  /** No goroutine can take a step. */
  ghost predicate Stuck<R>(c: Config<R>, s: State<R>) {
    WellFormed(c, s) ==> forall step :: !Enabled(c, s, step)
  }

  // ---- Token and work accounting ----

  function Total(phases: seq<Phase>, weight: Phase -> nat): nat {
    if phases == [] then 0 else weight(phases[0]) + Total(phases[1..], weight)
  }

  function TokenPending(p: Phase): nat {
    if p.Posted? then 1 else 0
  }

  /** Steps a worker still owes, the sequencer's reaction to its token included. */
  function WorkLeft(p: Phase): nat {
    match p
    case Idle => 7
    case Running => 6
    case Stored => 5
    case Posted => 4
    case Collected => 0
  }

  lemma {:induction false} TotalUpdate(phases: seq<Phase>, i: nat, p: Phase, weight: Phase -> nat)
    requires i < |phases|
    ensures Total(phases[i := p], weight) + weight(phases[i]) == Total(phases, weight) + weight(p)
  {
    if i == 0 {
      assert phases[i := p][1..] == phases[1..];
    } else {
      assert phases[i := p][1..] == phases[1..][i - 1 := p];
      TotalUpdate(phases[1..], i - 1, p, weight);
    }
  }

  lemma {:induction false} TotalConstant(phases: seq<Phase>, p: Phase, weight: Phase -> nat)
    requires forall i :: 0 <= i < |phases| ==> phases[i] == p
    ensures Total(phases, weight) == |phases| * weight(p)
  {
    if phases != [] {
      TotalConstant(phases[1..], p, weight);
    }
  }

  /** A positive count of pending tokens can be charged to some worker. */
  lemma {:induction false} PendingToken(phases: seq<Phase>) returns (i: nat)
    requires Total(phases, TokenPending) > 0
    ensures i < |phases| && phases[i].Posted?
  {
    if phases[0].Posted? {
      i := 0;
    } else {
      var j := PendingToken(phases[1..]);
      i := j + 1;
    }
  }

  /** One more worker that has yet to post keeps the pending tokens below the number of workers. */
  lemma {:induction false} PendingBound(phases: seq<Phase>, i: nat)
    requires i < |phases| && !phases[i].Posted?
    ensures Total(phases, TokenPending) < |phases|
  {
    if i == 0 {
      PendingAtMost(phases[1..]);
    } else {
      PendingBound(phases[1..], i - 1);
    }
  }

  lemma {:induction false} PendingAtMost(phases: seq<Phase>)
    ensures Total(phases, TokenPending) <= |phases|
  {
    if phases != [] {
      PendingAtMost(phases[1..]);
    }
  }

  // ---- What every step keeps ----

  function Released<R>(s: State<R>): int {
    s.sequence - if s.pc.Release? then 1 else 0
  }

  ghost predicate Holds<R>(c: Config<R>, s: State<R>) {
    var n := |c.results|;
    && WellFormed(c, s)
    // the dispatcher
    && (s.acquired ==> s.launched < n)
    && (forall i :: 0 <= i < n ==> (s.phases[i].Idle? <==> s.launched <= i))
    // the semaphore counts launches that are not released yet
    && s.sem == s.launched + (if s.acquired then 1 else 0) - Released(s)
    && s.sem <= c.capacity
    // the tokens
    && s.done == Total(s.phases, TokenPending)
    // the buffer holds exactly the results that are computed and not delivered
    && (forall i :: 0 <= i < n ==>
          s.buffer[i] == if s.sequence <= i && HasResult(s.phases[i]) then Some(c.results[i]) else None)
    && (forall i :: 0 <= i < s.sequence ==> HasResult(s.phases[i]))
    // the sequencer
    && s.out == c.results[..s.sequence + if s.pc.Reset? && s.sequence < n then 1 else 0]
    && (s.pc.Send? || s.pc.Reset? ==> s.sequence < n && HasResult(s.phases[s.sequence]))
    && (s.pc.Send? ==> s.pc.result == c.results[s.sequence])
    && (s.pc.Release? ==> 0 < s.sequence)
    && (s.pc.Wait? ==> s.sequence < n)
    && (s.pc.Finished? ==> s.sequence == n)
    // no lost wakeup
    && (s.pc.Outer? || s.pc.Wait? ==> s.sequence < n ==> !s.phases[s.sequence].Collected?)
  }

  predicate HasResult(p: Phase) {
    p.Stored? || p.Posted? || p.Collected?
  }

  lemma InitHolds<R>(c: Config<R>)
    ensures Holds(c, Init(c))
  {
    TotalConstant(Init(c).phases, Idle, TokenPending);
  }

  lemma DispatcherStepHolds<R>(c: Config<R>, s: State<R>, step: Step)
    requires Holds(c, s) && Enabled(c, s, step) && (step.Acquire? || step.Launch?)
    ensures Holds(c, Apply(c, s, step))
  {
    if step.Launch? {
      TotalUpdate(s.phases, s.launched, Running, TokenPending);
    }
  }

  lemma WorkerStepHolds<R>(c: Config<R>, s: State<R>, step: Step)
    requires Holds(c, s) && Enabled(c, s, step) && (step.Store? || step.Post?)
    ensures Holds(c, Apply(c, s, step))
  {
    assert WellFormed(c, s);
    hide Holds, Apply;
    if step.Store? {
      StoreHolds(c, s, step);
    } else {
      PostHolds(c, s, step);
    }
  }

  lemma StoreHolds<R>(c: Config<R>, s: State<R>, step: Step)
    requires Holds(c, s) && Enabled(c, s, step) && step.Store?
    ensures Holds(c, Apply(c, s, step))
  {
    TotalUpdate(s.phases, step.worker, Stored, TokenPending);
  }

  lemma PostHolds<R>(c: Config<R>, s: State<R>, step: Step)
    requires Holds(c, s) && Enabled(c, s, step) && step.Post?
    ensures Holds(c, Apply(c, s, step))
  {
    TotalUpdate(s.phases, step.worker, Posted, TokenPending);
  }

  lemma ReceiveHolds<R>(c: Config<R>, s: State<R>, step: Step)
    requires Holds(c, s) && Enabled(c, s, step) && step.Receive?
    ensures Holds(c, Apply(c, s, step))
  {
    TotalUpdate(s.phases, step.worker, Collected, TokenPending);
  }

  lemma SequencerStepHolds<R>(c: Config<R>, s: State<R>, step: Step)
    requires Holds(c, s) && Enabled(c, s, step)
    requires step.Enter? || step.Load? || step.Deliver? || step.Clear? || step.Free?
    ensures Holds(c, Apply(c, s, step))
  {
    assert WellFormed(c, s);
    hide Holds, Apply;
    if step.Deliver? {
      DeliverHolds(c, s, step);
    } else if step.Clear? {
      ClearHolds(c, s, step);
    } else {
      ControlHolds(c, s, step);
    }
  }

  lemma DeliverHolds<R>(c: Config<R>, s: State<R>, step: Step)
    requires Holds(c, s) && Enabled(c, s, step) && step.Deliver?
    ensures Holds(c, Apply(c, s, step))
  {
    assert c.results[..s.sequence] + [c.results[s.sequence]] == c.results[..s.sequence + 1];
  }

  lemma ClearHolds<R>(c: Config<R>, s: State<R>, step: Step)
    requires Holds(c, s) && Enabled(c, s, step) && step.Clear?
    ensures Holds(c, Apply(c, s, step))
  {
  }

  lemma ControlHolds<R>(c: Config<R>, s: State<R>, step: Step)
    requires Holds(c, s) && Enabled(c, s, step) && (step.Enter? || step.Load? || step.Free?)
    ensures Holds(c, Apply(c, s, step))
  {
  }

  lemma StepHolds<R>(c: Config<R>, s: State<R>, step: Step)
    requires Holds(c, s) && Enabled(c, s, step)
    ensures Holds(c, Apply(c, s, step))
  {
    assert WellFormed(c, s);
    hide Holds, Apply;
    if step.Acquire? || step.Launch? {
      DispatcherStepHolds(c, s, step);
    } else if step.Store? || step.Post? {
      WorkerStepHolds(c, s, step);
    } else if step.Receive? {
      ReceiveHolds(c, s, step);
    } else {
      SequencerStepHolds(c, s, step);
    }
  }

  lemma {:induction false} RunHolds<R(!new)>(c: Config<R>, run: seq<State<R>>, k: nat)
    requires IsRun(c, run) && k < |run|
    ensures Holds(c, run[k])
  {
    if k == 0 {
      InitHolds(c);
    } else {
      RunHolds(c, run, k - 1);
      assert Next(c, run[k - 1], run[(k - 1) + 1]);
      var step :| Enabled(c, run[k - 1], step) && run[k] == Apply(c, run[k - 1], step);
      StepHolds(c, run[k - 1], step);
    }
  }

  lemma RunStep<R(!new)>(c: Config<R>, run: seq<State<R>>, k: nat) returns (step: Step)
    requires IsRun(c, run) && k + 1 < |run|
    ensures Holds(c, run[k]) && Holds(c, run[k + 1])
    ensures WellFormed(c, run[k]) && Enabled(c, run[k], step) && run[k + 1] == Apply(c, run[k], step)
  {
    RunHolds(c, run, k);
    RunHolds(c, run, k + 1);
    hide Holds, Enabled, Apply;
    assert Next(c, run[k], run[k + 1]);
    step :| Enabled(c, run[k], step) && run[k + 1] == Apply(c, run[k], step);
  }

  // ---- No wakeup is lost, no release and no deferred send blocks ----

  /**
    When the sequencer blocks on `done`, the worker it waits for still owes or has pending its own
    token; if that worker does not exist yet, the dispatcher is the one to move and no semaphore
    slot is taken by an earlier request.
    */
  lemma NoLostWakeup<R(!new)>(c: Config<R>, run: seq<State<R>>, k: nat)
    requires IsRun(c, run) && k < |run| && run[k].pc.Wait?
    ensures var s := run[k];
            && s.sequence < |c.results| == |s.phases|
            && match s.phases[s.sequence]
               case Idle => s.launched == s.sequence && s.sem == if s.acquired then 1 else 0
               case Running => true
               case Stored => true
               case Posted => s.done > 0
               case Collected => false
  {
    var s := run[k];
    RunHolds(c, run, k);
    if s.phases[s.sequence].Posted? {
      TotalUpdate(s.phases, s.sequence, Idle, TokenPending);
    }
    if s.phases[s.sequence].Idle? && s.sequence > 0 {
      assert HasResult(s.phases[s.sequence - 1]);
    }
  }

  /** The token channel never overflows: a worker that has stored its result can always post. */
  lemma PostNeverBlocks<R(!new)>(c: Config<R>, run: seq<State<R>>, k: nat, i: nat)
    requires IsRun(c, run) && k < |run| && i < |run[k].phases| && run[k].phases[i].Stored?
    ensures run[k].done < |c.results|
  {
    RunHolds(c, run, k);
    PendingBound(run[k].phases, i);
  }

  lemma ReleaseNeverBlocks<R(!new)>(c: Config<R>, run: seq<State<R>>, k: nat)
    requires IsRun(c, run) && k < |run| && run[k].pc.Release?
    ensures run[k].sem > 0
  {
    RunHolds(c, run, k);
    assert HasResult(run[k].phases[run[k].sequence - 1]);
  }

  // ---- Ordered delivery ----

  lemma {:induction false} RunDeliversInOrder<R(!new)>(c: Config<R>, run: seq<State<R>>, k: nat, l: nat)
    requires IsRun(c, run) && k <= l < |run|
    ensures run[k].out <= run[l].out <= c.results
    decreases l - k
  {
    hide IsRun;
    RunDelivered(c, run, l);
    if k < l {
      RunDeliversInOrder(c, run, k, l - 1);
      StepDelivers(c, run, l - 1);
    }
  }

  lemma RunDelivered<R(!new)>(c: Config<R>, run: seq<State<R>>, k: nat)
    requires IsRun(c, run) && k < |run|
    ensures run[k].out <= c.results
  {
    RunHolds(c, run, k);
  }

  lemma StepDelivers<R(!new)>(c: Config<R>, run: seq<State<R>>, k: nat)
    requires IsRun(c, run) && k + 1 < |run|
    ensures run[k].out <= run[k + 1].out
  {
    hide Holds, IsRun;
    var step := RunStep(c, run, k);
  }

  // ---- Each buffer slot is filled once and emptied once, after its delivery ----

  /** 0 before the result is stored, 1 while it is buffered, 2 once the slot is reset. */
  function Stage<R>(s: State<R>, i: nat): nat
    requires i < |s.phases|
  {
    if i < s.sequence then 2 else if HasResult(s.phases[i]) then 1 else 0
  }

  lemma StageStep<R>(c: Config<R>, s: State<R>, step: Step, i: nat)
    requires Holds(c, s) && Enabled(c, s, step) && i < |c.results|
    ensures var t := Apply(c, s, step);
            |t.phases| == |c.results| && Stage(s, i) <= Stage(t, i) <= Stage(s, i) + 1
  {
  }

  lemma {:induction false} StageGrows<R(!new)>(c: Config<R>, run: seq<State<R>>, k: nat, l: nat, i: nat)
    requires IsRun(c, run) && k <= l < |run| && i < |c.results|
    ensures |run[k].phases| == |run[l].phases| == |c.results|
    ensures Stage(run[k], i) <= Stage(run[l], i) <= Stage(run[k], i) + (l - k)
    decreases l - k
  {
    hide IsRun, Enabled, Apply, Stage;
    if k < l {
      StageGrows(c, run, k, l - 1, i);
      var step := RunStep(c, run, l - 1);
      StageStep(c, run[l - 1], step, i);
    } else {
      RunHolds(c, run, l);
    }
  }

  /** The index at which slot `i` reaches a stage that it has reached by state `last`. */
  lemma {:induction false} StageReached<R(!new)>(c: Config<R>, run: seq<State<R>>, last: nat, i: nat, stage: nat)
    returns (at: nat)
    requires IsRun(c, run) && last < |run| && i < |c.results| && 0 < stage
    requires |run[last].phases| == |c.results| && stage <= Stage(run[last], i)
    ensures 0 < at <= last
    ensures forall k :: 0 <= k < |run| ==> |run[k].phases| == |c.results| && (at <= k <==> stage <= Stage(run[k], i))
  {
    if last == 0 {
      assert false;
    } else {
      StageGrows(c, run, last - 1, last, i);
      if stage <= Stage(run[last - 1], i) {
        at := StageReached(c, run, last - 1, i, stage);
      } else {
        at := last;
        forall k | 0 <= k < |run|
          ensures |run[k].phases| == |c.results| && (at <= k <==> stage <= Stage(run[k], i))
        {
          if k < at {
            StageGrows(c, run, k, last - 1, i);
          } else {
            StageGrows(c, run, last, k, i);
          }
        }
      }
    }
  }

  lemma StageShows<R>(c: Config<R>, s: State<R>, i: nat)
    requires Holds(c, s) && i < |c.results|
    ensures |s.phases| == |s.buffer| == |c.results|
    ensures s.buffer[i] == if Stage(s, i) == 1 then Some(c.results[i]) else None
    ensures Stage(s, i) == 2 ==> c.results[..i + 1] <= s.out
  {
  }

  lemma RunShows<R(!new)>(c: Config<R>, run: seq<State<R>>, k: nat, i: nat)
    requires IsRun(c, run) && k < |run| && i < |c.results|
    ensures |run[k].phases| == |run[k].buffer| == |c.results|
    ensures run[k].buffer[i] == if Stage(run[k], i) == 1 then Some(c.results[i]) else None
    ensures Stage(run[k], i) == 2 ==> c.results[..i + 1] <= run[k].out
  {
    RunHolds(c, run, k);
    StageShows(c, run[k], i);
  }

  /** Emptying a slot is a step of its own, after the delivery. */
  lemma EmptyingStep<R(!new)>(c: Config<R>, run: seq<State<R>>, k: nat, i: nat)
    requires IsRun(c, run) && k + 1 < |run| && i < |c.results|
    requires run[k].sequence <= i < run[k + 1].sequence
    ensures run[k].out == run[k + 1].out
  {
    assert Next(c, run[k], run[k + 1]);
  }

  lemma SlotFilledOnce<R(!new)>(c: Config<R>, run: seq<State<R>>, i: nat) returns (filled: nat, emptied: nat)
    requires IsRun(c, run) && Final(c, run[|run| - 1]) && i < |c.results|
    ensures 0 < filled < emptied < |run|
    ensures forall k :: 0 <= k < |run| ==>
              && |run[k].buffer| == |c.results|
              && run[k].buffer[i] == if filled <= k < emptied then Some(c.results[i]) else None
    ensures c.results[..i + 1] <= run[emptied].out
    ensures run[emptied - 1].out == run[emptied].out
  {
    var last := |run| - 1;
    FinalStage(c, run, last, i);
    hide IsRun, Final;
    filled := StageReached(c, run, last, i, 1);
    emptied := StageReached(c, run, last, i, 2);
    StageGrows(c, run, filled - 1, filled, i);
    assert Stage(run[filled - 1], i) < 1;
    forall k | 0 <= k < |run|
      ensures |run[k].buffer| == |c.results|
      ensures run[k].buffer[i] == if filled <= k < emptied then Some(c.results[i]) else None
    {
      RunShows(c, run, k, i);
    }
    RunShows(c, run, emptied, i);
    EmptyingStep(c, run, emptied - 1, i);
  }

  lemma FinalStage<R(!new)>(c: Config<R>, run: seq<State<R>>, k: nat, i: nat)
    requires IsRun(c, run) && k < |run| && Final(c, run[k]) && i < |c.results|
    ensures |run[k].phases| == |c.results| && Stage(run[k], i) == 2
  {
    RunHolds(c, run, k);
  }

  // ---- The sliding window ----

  function IsRunning(p: Phase): nat {
    if p.Running? then 1 else 0
  }

  lemma {:induction false} RunningBound(phases: seq<Phase>, lo: int, hi: int)
    requires lo <= hi
    requires forall i :: 0 <= i < |phases| && phases[i].Running? ==> lo <= i < hi
    ensures Total(phases, IsRunning) <= hi - lo
  {
    if phases != [] {
      var rest := phases[1..];
      assert forall i :: 0 <= i < |rest| ==> rest[i] == phases[i + 1];
      if phases[0].Running? {
        RunningBound(rest, 0, hi - 1);
      } else {
        RunningBound(rest, lo - 1, hi - 1);
      }
    }
  }

  /** Work in progress and undelivered results stay within `capacity` requests of the last release. */
  lemma SlidingWindow<R(!new)>(c: Config<R>, run: seq<State<R>>, k: nat)
    requires IsRun(c, run) && k < |run|
    ensures var s := run[k];
            && 0 <= Released(s) <= s.launched <= Released(s) + c.capacity
            && |s.phases| == |s.buffer| == |c.results|
            && (forall i :: 0 <= i < |c.results| && (s.phases[i].Running? || s.buffer[i].Some?) ==>
                  Released(s) <= i < Released(s) + c.capacity)
            && Total(s.phases, IsRunning) <= c.capacity
  {
    var s := run[k];
    RunHolds(c, run, k);
    assert s.sequence > 0 ==> HasResult(s.phases[s.sequence - 1]);
    RunningBound(s.phases, Released(s), Released(s) + c.capacity);
  }

  // ---- Nothing else blocks ----

  /** The dispatcher can take a slot exactly when fewer than `capacity` launches are not released yet. */
  lemma AcquiresIff<R(!new)>(c: Config<R>, run: seq<State<R>>, k: nat)
    requires IsRun(c, run) && k < |run| && !run[k].acquired && run[k].launched < |c.results|
    ensures (exists t :: Next(c, run[k], t) && t.acquired) <==> run[k].launched - Released(run[k]) < c.capacity
  {
    var s := run[k];
    RunHolds(c, run, k);
    if s.launched - Released(s) < c.capacity {
      assert Enabled(c, s, Acquire) && Next(c, s, Apply(c, s, Acquire));
    } else {
      forall t | Next(c, s, t)
        ensures !t.acquired
      {
        var step :| Enabled(c, s, step) && t == Apply(c, s, step);
      }
    }
  }

  /** Having a slot, it launches the next worker. */
  lemma Launches<R(!new)>(c: Config<R>, run: seq<State<R>>, k: nat)
    requires IsRun(c, run) && k < |run| && run[k].acquired
    ensures var s := run[k];
            && s.launched < |s.phases|
            && Next(c, s, s.(acquired := false, launched := s.launched + 1, phases := s.phases[s.launched := Running]))
  {
    RunHolds(c, run, k);
    assert Enabled(c, run[k], Launch);
  }

  /** A worker goes on whatever the others do: it stores its own result, and then posts. */
  lemma WorkerMoves<R(!new)>(c: Config<R>, run: seq<State<R>>, k: nat, i: nat)
    requires IsRun(c, run) && k < |run| && i < |c.results|
    ensures var s := run[k];
            && |s.phases| == |s.buffer| == |c.results|
            && (s.phases[i].Running? ==>
                  Next(c, s, s.(phases := s.phases[i := Stored], buffer := s.buffer[i := Some(c.results[i])])))
            && (s.phases[i].Stored? ==> Next(c, s, s.(phases := s.phases[i := Posted], done := s.done + 1)))
  {
    var s := run[k];
    RunHolds(c, run, k);
    if s.phases[i].Running? {
      assert Enabled(c, s, Store(i));
    } else if s.phases[i].Stored? {
      PendingBound(s.phases, i);
      assert Enabled(c, s, Post(i));
    }
  }

  /** The sequencer goes on unless it has finished or there is no token. */
  lemma SequencerMovesIff<R(!new)>(c: Config<R>, run: seq<State<R>>, k: nat)
    requires IsRun(c, run) && k < |run|
    ensures (exists t :: Next(c, run[k], t) && t.pc != run[k].pc)
       <==> !run[k].pc.Finished? && (run[k].pc.Wait? ==> run[k].done > 0)
  {
    var s := run[k];
    RunHolds(c, run, k);
    if !s.pc.Finished? && (s.pc.Wait? ==> s.done > 0) {
      var step := SequencerStep(c, s);
      assert Next(c, s, Apply(c, s, step)) && Apply(c, s, step).pc != s.pc;
    } else {
      forall t | Next(c, s, t)
        ensures t.pc == s.pc
      {
        var step :| Enabled(c, s, step) && t == Apply(c, s, step);
      }
    }
  }

  lemma SequencerStep<R>(c: Config<R>, s: State<R>) returns (step: Step)
    requires Holds(c, s) && !s.pc.Finished? && (s.pc.Wait? ==> s.done > 0)
    ensures Enabled(c, s, step) && Apply(c, s, step).pc != s.pc
  {
    match s.pc {
      case Outer => step := Enter;
      case Wait =>
        var i := PendingToken(s.phases);
        step := Receive(i);
      case Scan => step := Load;
      case Send(_) => step := Deliver;
      case Reset => step := Clear;
      case Release =>
        assert HasResult(s.phases[s.sequence - 1]);
        step := Free;
    }
  }

  // ---- The whole capacity is used ----

  /** The state with the first `j` workers running and nothing else done. */
  function WithRunning<R>(c: Config<R>, j: nat): State<R> {
    Init(c).(launched := j, sem := j, phases := seq(|c.results|, i => if i < j then Running else Idle))
  }

  lemma RunExtend<R(!new)>(c: Config<R>, run: seq<State<R>>, t: State<R>)
    requires IsRun(c, run) && Next(c, run[|run| - 1], t)
    ensures IsRun(c, run + [t])
  {
    hide Next;
    var longer := run + [t];
    forall k | 0 <= k < |longer| - 1
      ensures Next(c, longer[k], longer[k + 1])
    {
      if k < |run| - 1 {
        assert Next(c, run[k], run[k + 1]);
      }
    }
  }

  lemma {:induction false} RunningReached<R(!new)>(c: Config<R>, j: nat) returns (run: seq<State<R>>)
    requires j <= c.capacity && j <= |c.results|
    ensures IsRun(c, run) && run[|run| - 1] == WithRunning(c, j)
  {
    if j == 0 {
      run := [Init(c)];
      assert WithRunning(c, 0).phases == Init(c).phases;
    } else {
      run := RunningReached(c, j - 1);
      var s := WithRunning(c, j - 1);
      assert Enabled(c, s, Acquire);
      var t := Apply(c, s, Acquire);
      assert Enabled(c, t, Launch);
      assert Apply(c, t, Launch).phases == WithRunning(c, j).phases;
      RunExtend(c, run, t);
      RunExtend(c, run + [t], WithRunning(c, j));
      run := run + [t] + [WithRunning(c, j)];
    }
  }

  lemma {:induction false} RunningTotal(phases: seq<Phase>, j: nat)
    requires j <= |phases| && forall i :: 0 <= i < |phases| ==> phases[i] == if i < j then Running else Idle
    ensures Total(phases, IsRunning) == j
  {
    if phases != [] {
      RunningTotal(phases[1..], if j > 0 then j - 1 else 0);
    }
  }

  /** As many workers as the capacity allows can run at the same time. */
  lemma FullConcurrency<R(!new)>(c: Config<R>) returns (run: seq<State<R>>)
    ensures IsRun(c, run)
    ensures Total(run[|run| - 1].phases, IsRunning) == if c.capacity < |c.results| then c.capacity else |c.results|
  {
    var j := if c.capacity < |c.results| then c.capacity else |c.results|;
    run := RunningReached(c, j);
    RunningTotal(run[|run| - 1].phases, j);
  }

  // ---- Deadlock freedom and termination ----

  lemma SomeStep<R>(c: Config<R>, s: State<R>) returns (step: Step)
    requires Holds(c, s) && !Final(c, s)
    requires c.capacity >= 1 || c.results == []
    ensures Enabled(c, s, step)
  {
    var n := |c.results|;
    if s.acquired {
      step := Launch;
    } else if i :| 0 <= i < n && s.phases[i].Running? {
      step := Store(i);
    } else if i :| 0 <= i < n && s.phases[i].Stored? {
      PendingBound(s.phases, i);
      step := Post(i);
    } else {
      match s.pc
      case Outer => step := Enter;
      case Scan => step := Load;
      case Send(_) => step := Deliver;
      case Reset => step := Clear;
      case Release =>
        assert HasResult(s.phases[s.sequence - 1]);
        step := Free;
      case Finished =>
        assert false;
      case Wait =>
        if s.phases[s.sequence].Posted? {
          TotalUpdate(s.phases, s.sequence, Idle, TokenPending);
          step := Receive(s.sequence);
        } else {
          assert s.sequence > 0 ==> HasResult(s.phases[s.sequence - 1]);
          step := Acquire;
        }
    }
  }

  function Rank<R>(pc: Sequencer<R>): nat {
    match pc
    case Finished => 0
    case Wait => 1
    case Outer => 2
    case Scan => 3
    case Send(_) => 2
    case Reset => 1
    case Release => 4
  }

  function Measure<R>(c: Config<R>, s: State<R>): nat
    requires s.launched <= |c.results| && s.sequence <= |c.results|
  {
    var n := |c.results|;
    Total(s.phases, WorkLeft) + 2 * (n - s.launched) + (if s.acquired then 0 else 1) + 4 * (n - s.sequence) + Rank(s.pc)
  }

  lemma PhaseStepLowersMeasure<R>(c: Config<R>, s: State<R>, step: Step)
    requires Holds(c, s) && Enabled(c, s, step)
    requires step.Launch? || step.Store? || step.Post? || step.Receive?
    ensures WellFormed(c, Apply(c, s, step)) && Measure(c, Apply(c, s, step)) < Measure(c, s)
  {
    assert WellFormed(c, s) && (step.Launch? ==> s.phases[s.launched].Idle?);
    hide Holds, Total;
    match step {
      case Launch => TotalUpdate(s.phases, s.launched, Running, WorkLeft);
      case Store(i) => TotalUpdate(s.phases, i, Stored, WorkLeft);
      case Post(i) => TotalUpdate(s.phases, i, Posted, WorkLeft);
      case Receive(i) => TotalUpdate(s.phases, i, Collected, WorkLeft);
    }
  }

  lemma StepLowersMeasure<R>(c: Config<R>, s: State<R>, step: Step)
    requires Holds(c, s) && Enabled(c, s, step)
    ensures WellFormed(c, Apply(c, s, step)) && Measure(c, Apply(c, s, step)) < Measure(c, s)
  {
    if step.Launch? || step.Store? || step.Post? || step.Receive? {
      PhaseStepLowersMeasure(c, s, step);
    }
  }

  /** Every execution ends: no run takes more steps than a bound linear in the number of requests. */
  lemma {:induction false} RunBounded<R(!new)>(c: Config<R>, run: seq<State<R>>, k: nat)
    requires IsRun(c, run) && k < |run|
    ensures WellFormed(c, run[k]) && k + Measure(c, run[k]) <= 13 * |c.results| + 3
  {
    if k == 0 {
      InitMeasure(c);
    } else {
      hide IsRun, Holds, Enabled, Apply, Measure;
      RunBounded(c, run, k - 1);
      var step := RunStep(c, run, k - 1);
      StepLowersMeasure(c, run[k - 1], step);
    }
  }

  lemma InitMeasure<R>(c: Config<R>)
    ensures WellFormed(c, Init(c)) && Measure(c, Init(c)) == 13 * |c.results| + 3
  {
    TotalConstant(Init(c).phases, Idle, WorkLeft);
  }

  /** A run that cannot be continued has delivered every result, in order, and closed `out`. */
  lemma MaximalRunDelivers<R(!new)>(c: Config<R>, run: seq<State<R>>)
    requires IsRun(c, run) && Stuck(c, run[|run| - 1])
    requires c.capacity >= 1 || c.results == []
    ensures Final(c, run[|run| - 1])
  {
    var s := run[|run| - 1];
    RunHolds(c, run, |run| - 1);
    if !Final(c, s) {
      var step := SomeStep(c, s);
    }
  }

  lemma {:induction false} ZeroCapacityIdles<R(!new)>(c: Config<R>, run: seq<State<R>>, k: nat)
    requires IsRun(c, run) && c.capacity == 0 && k < |run|
    ensures run[k].launched == 0 && !run[k].acquired && run[k].sequence == 0 && run[k].out == []
  {
    RunHolds(c, run, k);
    if k > 0 {
      ZeroCapacityIdles(c, run, k - 1);
      RunHolds(c, run, k - 1);
      assert Next(c, run[k - 1], run[(k - 1) + 1]);
    }
  }

  lemma ZeroCapacityDeadlock<R(!new)>(c: Config<R>) returns (run: seq<State<R>>)
    requires c.capacity == 0 && c.results != []
    ensures IsRun(c, run) && Stuck(c, run[|run| - 1]) && !Final(c, run[|run| - 1])
  {
    var s := Init(c);
    InitHolds(c);
    assert Enabled(c, s, Enter);
    run := [s, Apply(c, s, Enter)];
    assert Next(c, run[0], run[0 + 1]);
    TotalConstant(s.phases, Idle, TokenPending);
  }

  /** The semaphore needs a slot exactly when there is something to do. */
  lemma DeliversIffCapacity<R(!new)>(c: Config<R>)
    ensures (forall run :: IsRun(c, run) && Stuck(c, run[|run| - 1]) ==> Final(c, run[|run| - 1]))
       <==> (c.capacity >= 1 || c.results == [])
  {
    if c.capacity >= 1 || c.results == [] {
      forall run | IsRun(c, run) && Stuck(c, run[|run| - 1])
        ensures Final(c, run[|run| - 1])
      {
        MaximalRunDelivers(c, run);
      }
    } else {
      var run := ZeroCapacityDeadlock(c);
    }
  }

  /** The capacity the prover's constructor stores for a configured value. */
  function EffectiveConcurrency(configured: nat): nat {
    if configured >= 1 then configured else 1
  }

  lemma AnyConfiguredConcurrencyDelivers<R(!new)>(results: seq<R>, configured: nat, run: seq<State<R>>)
    requires var c := Config(results, EffectiveConcurrency(configured));
             IsRun(c, run) && Stuck(c, run[|run| - 1])
    ensures run[|run| - 1].out == results && run[|run| - 1].pc.Finished?
  {
    MaximalRunDelivers(Config(results, EffectiveConcurrency(configured)), run);
  }
}
