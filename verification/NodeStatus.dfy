/** `NodeStatus`: the status of a network node, driven by the stages of node operations. */
module NodeStatuses {
  import Lifecycle

  datatype State = UP | DOWN | GOING_UP | GOING_DOWN

  datatype Operation = NodeStart | NodeShutdown | NodeCrash | OtherOperation(numStages: nat)

  /** `getNumStages`; a crash has two stages, although its documentation speaks of one. */
  function NumStages(op: Operation): nat
  {
    match op
    case NodeStart => 8
    case NodeShutdown => 8
    case NodeCrash => 2
    case OtherOperation(n) => n
  }

  datatype Outcome = Done | WrongStatus | AssertFailed

  /** The status that an operation wants to find, the one it sets meanwhile, and the one it leaves. */
  datatype Course = Course(before: State, meanwhile: State, after: State)

  function CourseOf(op: Operation): Course
    requires !op.OtherOperation?
  {
    if op.NodeStart? then Course(DOWN, GOING_UP, UP) else Course(UP, GOING_DOWN, DOWN)
  }

  datatype Step = Step(outcome: Outcome, state: State)

  function AfterStage(state: State, op: Operation, opStage: nat): Step
  {
    if op.OtherOperation? then Step(Done, state)
    else
      var c := CourseOf(op);
      if opStage == 0 && state != c.before then Step(WrongStatus, state)
      else
        var s := if opStage == 0 then c.meanwhile else state;
        if opStage != NumStages(op) - 1 then Step(Done, s)
        else if s != c.meanwhile then Step(AssertFailed, s)
        else Step(Done, c.after)
  }

  class NodeStatus {
    var state: State

    constructor (initialStatus: State)
      ensures state == initialStatus
    {
      state := initialStatus;
    }

    method SetState(s: State)
      modifies this
      ensures state == s
    {
      state := s;
    }

    method HandleOperationStage(operation: Operation, opStage: nat) returns (outcome: Outcome)
      modifies this
      ensures Step(outcome, state) == AfterStage(old(state), operation, opStage)
      ensures operation == NodeStart ==>
        if opStage == 0 && old(state) != DOWN then outcome == WrongStatus && state == old(state)
        else if opStage == 0 then outcome == Done && state == GOING_UP
        else if opStage == 7 && old(state) != GOING_UP then outcome == AssertFailed && state == old(state)
        else outcome == Done && state == if opStage == 7 then UP else old(state)
      ensures operation == NodeShutdown || operation == NodeCrash ==>
        var last := if operation == NodeCrash then 1 else 7;
        if opStage == 0 && old(state) != UP then outcome == WrongStatus && state == old(state)
        else if opStage == 0 then outcome == Done && state == GOING_DOWN
        else if opStage == last && old(state) != GOING_DOWN then outcome == AssertFailed && state == old(state)
        else outcome == Done && state == if opStage == last then DOWN else old(state)
      ensures operation.OtherOperation? ==> outcome == Done && state == old(state)
    {
      if operation.NodeStart? {
        if opStage == 0 {
          if state != DOWN {
            return WrongStatus;
          }
          SetState(GOING_UP);
        }
        if opStage == NumStages(operation) - 1 {
          if state != GOING_UP {
            return AssertFailed;
          }
          SetState(UP);
        }
      } else if operation.NodeShutdown? {
        if opStage == 0 {
          if state != UP {
            return WrongStatus;
          }
          SetState(GOING_DOWN);
        }
        if opStage == NumStages(operation) - 1 {
          if state != GOING_DOWN {
            return AssertFailed;
          }
          SetState(DOWN);
        }
      } else if operation.NodeCrash? {
        if opStage == 0 {
          if state != UP {
            return WrongStatus;
          }
          SetState(GOING_DOWN);
        }
        if opStage == NumStages(operation) - 1 {
          if state != GOING_DOWN {
            return AssertFailed;
          }
          SetState(DOWN);
        }
      }
      return Done;
    }
  }

  // ---------- interleaved operations ----------

  /** A call for a stage of operation number `id`. */
  datatype StageCall = StageCall(id: nat, stage: nat)

  /** How many stages of operation `id` have been done. */
  function Progress(calls: seq<StageCall>, id: nat): nat
  {
    if calls == [] then 0
    else Progress(calls[..|calls| - 1], id) + if calls[|calls| - 1].id == id then 1 else 0
  }

  /** The calls of each operation come in the order of its stages; calls of different operations may interleave. */
  ghost predicate InStageOrder(kinds: nat -> Operation, calls: seq<StageCall>)
  {
    calls == [] ||
    var front, last := calls[..|calls| - 1], calls[|calls| - 1];
    InStageOrder(kinds, front) && last.stage == Progress(front, last.id) && last.stage < NumStages(kinds(last.id))
  }

  /** A run of the node, up to the first error. */
  function Run(kinds: nat -> Operation, start: State, calls: seq<StageCall>): Step
  {
    if calls == [] then Step(Done, start)
    else
      var before := Run(kinds, start, calls[..|calls| - 1]);
      var last := calls[|calls| - 1];
      if before.outcome != Done then before else AfterStage(before.state, kinds(last.id), last.stage)
  }

  /** An operation on the status has begun and not ended. */
  ghost predicate Underway(kinds: nat -> Operation, calls: seq<StageCall>, id: nat)
  {
    !kinds(id).OtherOperation? && 0 < Progress(calls, id) < NumStages(kinds(id))
  }

  /** While an operation is underway it is the only one, and the status is the one it set. */
  ghost predicate StatusShows(kinds: nat -> Operation, calls: seq<StageCall>, state: State)
  {
    && (forall id {:trigger Underway(kinds, calls, id)} :: Underway(kinds, calls, id) ==>
          state == CourseOf(kinds(id)).meanwhile)
    && (forall id, id' {:trigger Underway(kinds, calls, id), Underway(kinds, calls, id')} ::
          Underway(kinds, calls, id) && Underway(kinds, calls, id') ==> id == id')
  }

  lemma ProgressStep(calls: seq<StageCall>, id: nat)
    requires calls != []
    ensures Progress(calls, id) == Progress(calls[..|calls| - 1], id) + if calls[|calls| - 1].id == id then 1 else 0
  {
  }

  /** However the operations interleave and whatever the initial status: no assertion fails. An operation that does not
      find the status it wants is rejected at its stage 0, which ends the run. */
  lemma {:induction false} NoAssertFails(kinds: nat -> Operation, start: State, calls: seq<StageCall>)
    requires InStageOrder(kinds, calls)
    ensures Run(kinds, start, calls).outcome != AssertFailed
    ensures Run(kinds, start, calls).outcome == Done ==> StatusShows(kinds, calls, Run(kinds, start, calls).state)
    decreases |calls|
  {
    if calls != [] {
      var front, last := calls[..|calls| - 1], calls[|calls| - 1];
      NoAssertFails(kinds, start, front);
      var before := Run(kinds, start, front);
      if before.outcome == Done {
        OneCall(kinds, front, calls, before.state, last);
      }
    }
  }

  lemma OneCall(kinds: nat -> Operation, front: seq<StageCall>, calls: seq<StageCall>, state: State, last: StageCall)
    requires calls != [] && front == calls[..|calls| - 1] && last == calls[|calls| - 1]
    requires StatusShows(kinds, front, state)
    requires last.stage == Progress(front, last.id) && last.stage < NumStages(kinds(last.id))
    ensures AfterStage(state, kinds(last.id), last.stage).outcome != AssertFailed
    ensures AfterStage(state, kinds(last.id), last.stage).outcome == Done ==>
      StatusShows(kinds, calls, AfterStage(state, kinds(last.id), last.stage).state)
  {
    var op := kinds(last.id);
    forall id ensures id != last.id ==> (Underway(kinds, calls, id) <==> Underway(kinds, front, id)) {
      ProgressStep(calls, id);
    }
    ProgressStep(calls, last.id);
    assert Underway(kinds, front, last.id) <==> !op.OtherOperation? && last.stage > 0;
  }

  /** An operation that began alone on a node with the right status brings it to its end status. */
  lemma {:induction false} CourseIsCompleted(kinds: nat -> Operation, id: nat, n: nat)
    requires !kinds(id).OtherOperation? && 0 < n <= NumStages(kinds(id))
    ensures var c := CourseOf(kinds(id));
      Run(kinds, c.before, Alone(id, n)) == Step(Done, if n < NumStages(kinds(id)) then c.meanwhile else c.after)
    decreases n
  {
    var calls := Alone(id, n);
    assert calls[..n - 1] == Alone(id, n - 1);
    if n > 1 {
      CourseIsCompleted(kinds, id, n - 1);
    }
  }

  /** A crash is down only after its second stage. */
  lemma CrashHasTwoStages(kinds: nat -> Operation, id: nat)
    requires kinds(id) == NodeCrash
    ensures Run(kinds, UP, Alone(id, 1)) == Step(Done, GOING_DOWN)
    ensures Run(kinds, UP, Alone(id, 2)) == Step(Done, DOWN)
  {
    CourseIsCompleted(kinds, id, 1);
    CourseIsCompleted(kinds, id, 2);
  }

  /** A start wants a node that is down; it is going up from stage 0 on and up after stage 7. */
  lemma StartHasEightStages(kinds: nat -> Operation, id: nat, state: State)
    requires kinds(id) == NodeStart
    ensures state != DOWN ==> Run(kinds, state, Alone(id, 1)) == Step(WrongStatus, state)
    ensures forall n :: 1 <= n <= 7 ==> Run(kinds, DOWN, Alone(id, n)) == Step(Done, GOING_UP)
    ensures Run(kinds, DOWN, Alone(id, 8)) == Step(Done, UP)
  {
    assert Alone(id, 1) == [StageCall(id, 0)] && Alone(id, 1)[..0] == [];
    forall n: nat | 1 <= n <= 8 ensures Run(kinds, DOWN, Alone(id, n)) == Step(Done, if n <= 7 then GOING_UP else UP) {
      CourseIsCompleted(kinds, id, n);
    }
  }

  /** A shutdown wants a node that is up; it is going down from stage 0 on and down after stage 7. */
  lemma ShutdownHasEightStages(kinds: nat -> Operation, id: nat, state: State)
    requires kinds(id) == NodeShutdown
    ensures state != UP ==> Run(kinds, state, Alone(id, 1)) == Step(WrongStatus, state)
    ensures forall n :: 1 <= n <= 7 ==> Run(kinds, UP, Alone(id, n)) == Step(Done, GOING_DOWN)
    ensures Run(kinds, UP, Alone(id, 8)) == Step(Done, DOWN)
  {
    assert Alone(id, 1) == [StageCall(id, 0)] && Alone(id, 1)[..0] == [];
    forall n: nat | 1 <= n <= 8
      ensures Run(kinds, UP, Alone(id, n)) == Step(Done, if n <= 7 then GOING_DOWN else DOWN)
    {
      CourseIsCompleted(kinds, id, n);
    }
  }

  // ---------- the operation that completed last ----------

  /** The call ends an operation on the status. */
  predicate Completes(kinds: nat -> Operation, call: StageCall)
  {
    match kinds(call.id)
    case NodeStart => call.stage == 7
    case NodeShutdown => call.stage == 7
    case NodeCrash => call.stage == 1
    case OtherOperation(_) => false
  }

  ghost predicate LastToComplete(kinds: nat -> Operation, calls: seq<StageCall>, i: nat)
  {
    i < |calls| && Completes(kinds, calls[i]) && forall j :: i < j < |calls| ==> !Completes(kinds, calls[j])
  }

  /** The status of a node at rest: set by the operation that completed last. */
  function Resting(kinds: nat -> Operation, start: State, calls: seq<StageCall>): State
  {
    if calls == [] then start
    else
      var last := calls[|calls| - 1];
      if !Completes(kinds, last) then Resting(kinds, start, calls[..|calls| - 1])
      else if kinds(last.id).NodeStart? then UP
      else DOWN
  }

  lemma {:induction false} RestingMeans(kinds: nat -> Operation, start: State, calls: seq<StageCall>)
    ensures forall i: nat :: LastToComplete(kinds, calls, i) ==>
      Resting(kinds, start, calls) == if kinds(calls[i].id).NodeStart? then UP else DOWN
    ensures (forall i :: 0 <= i < |calls| ==> !Completes(kinds, calls[i])) ==> Resting(kinds, start, calls) == start
    decreases |calls|
  {
    if calls != [] {
      var front := calls[..|calls| - 1];
      RestingMeans(kinds, start, front);
      forall i: nat | LastToComplete(kinds, calls, i)
        ensures Resting(kinds, start, calls) == if kinds(calls[i].id).NodeStart? then UP else DOWN
      {
        assert i < |front| ==> LastToComplete(kinds, front, i);
      }
    }
  }

  lemma {:induction false} RestsAsLastCompleted(kinds: nat -> Operation, start: State, calls: seq<StageCall>)
    requires InStageOrder(kinds, calls) && Run(kinds, start, calls).outcome == Done
    requires forall id {:trigger Underway(kinds, calls, id)} :: !Underway(kinds, calls, id)
    ensures Run(kinds, start, calls).state == Resting(kinds, start, calls)
    decreases |calls|
  {
    if calls != [] {
      var front, last := calls[..|calls| - 1], calls[|calls| - 1];
      ProgressStep(calls, last.id);
      assert !Underway(kinds, calls, last.id);
      if !Completes(kinds, last) {
        assert kinds(last.id).OtherOperation?;
        forall id ensures !Underway(kinds, front, id) {
          assert !Underway(kinds, calls, id);
          ProgressStep(calls, id);
        }
        RestsAsLastCompleted(kinds, start, front);
      }
    }
  }

  /** Over any interleaving: while no operation on the status is underway, the node is UP if the last one that completed
      was a start, DOWN if it was a shutdown or a crash, and as it was in the beginning if none completed. While one is
      underway, the node is GOING_UP for a start and GOING_DOWN for a shutdown or a crash. */
  lemma StatusIsOfLastCompleted(kinds: nat -> Operation, start: State, calls: seq<StageCall>)
    requires InStageOrder(kinds, calls) && Run(kinds, start, calls).outcome == Done
    ensures var state := Run(kinds, start, calls).state;
      if exists id :: Underway(kinds, calls, id) then
        forall id :: Underway(kinds, calls, id) ==> state == if kinds(id) == NodeStart then GOING_UP else GOING_DOWN
      else
        && (forall i: nat :: LastToComplete(kinds, calls, i) ==> (state == UP <==> kinds(calls[i].id) == NodeStart))
        && (forall i: nat :: LastToComplete(kinds, calls, i) ==> (state == DOWN <==> kinds(calls[i].id) != NodeStart))
        && ((forall i :: 0 <= i < |calls| ==> !Completes(kinds, calls[i])) ==> state == start)
  {
    NoAssertFails(kinds, start, calls);
    if !exists id :: Underway(kinds, calls, id) {
      RestsAsLastCompleted(kinds, start, calls);
      RestingMeans(kinds, start, calls);
    }
  }

  /** The first `n` stages of one operation. */
  function Alone(id: nat, n: nat): (calls: seq<StageCall>)
    ensures |calls| == n
  {
    if n == 0 then [] else Alone(id, n - 1) + [StageCall(id, n - 1)]
  }

  // ---------- under a controller ----------

  /** The stages that operation `id` was called for. */
  function StagesGiven(calls: seq<StageCall>, id: nat): seq<nat>
  {
    if calls == [] then []
    else
      var last := calls[|calls| - 1];
      StagesGiven(calls[..|calls| - 1], id) + if last.id == id then [last.stage] else []
  }

  /** The stages of `id` come from 0 on, one after the other, and not beyond the last one. */
  ghost predicate StagesInOrder(kinds: nat -> Operation, calls: seq<StageCall>, id: nat)
  {
    var given := StagesGiven(calls, id);
    given == Lifecycle.Upto(|given|) && |given| <= NumStages(kinds(id))
  }

  lemma {:induction false} ProgressIsCount(calls: seq<StageCall>, id: nat)
    ensures Progress(calls, id) == |StagesGiven(calls, id)|
    decreases |calls|
  {
    if calls != [] {
      ProgressIsCount(calls[..|calls| - 1], id);
    }
  }

  lemma {:induction false} UptoParts(s: seq<nat>, x: nat)
    requires s + [x] == Lifecycle.Upto(|s| + 1)
    ensures s == Lifecycle.Upto(|s|) && x == |s|
  {
    UptoLength(|s|);
    assert (s + [x])[..|s|] == s && (s + [x])[|s|] == x;
  }

  lemma {:induction false} UptoLength(n: nat)
    ensures |Lifecycle.Upto(n)| == n
    decreases n
  {
    if n > 0 {
      UptoLength(n - 1);
    }
  }

  lemma {:induction false} InOrderBefore(kinds: nat -> Operation, calls: seq<StageCall>, id: nat)
    requires calls != [] && StagesInOrder(kinds, calls, id)
    ensures StagesInOrder(kinds, calls[..|calls| - 1], id)
    ensures var last := calls[|calls| - 1];
      last.id == id ==> last.stage == Progress(calls[..|calls| - 1], id) && last.stage < NumStages(kinds(id))
  {
    var front, last := calls[..|calls| - 1], calls[|calls| - 1];
    ProgressIsCount(front, id);
    if last.id == id {
      UptoParts(StagesGiven(front, id), last.stage);
    }
  }

  /** When the stages of each operation are in order, so is any interleaving of the operations. */
  lemma {:induction false} InterleavingIsInOrder(kinds: nat -> Operation, calls: seq<StageCall>)
    requires forall id {:trigger StagesInOrder(kinds, calls, id)} :: StagesInOrder(kinds, calls, id)
    ensures InStageOrder(kinds, calls)
    decreases |calls|
  {
    if calls != [] {
      var front, last := calls[..|calls| - 1], calls[|calls| - 1];
      forall id ensures StagesInOrder(kinds, front, id) {
        assert StagesInOrder(kinds, calls, id);
        InOrderBefore(kinds, calls, id);
      }
      InterleavingIsInOrder(kinds, front);
      assert StagesInOrder(kinds, calls, last.id);
      InOrderBefore(kinds, calls, last.id);
    }
  }

  /** `calls` is what the operations of a controller give to module `m`, in any interleaving. */
  ghost predicate GivenTo(ops: Lifecycle.Operations, m: Lifecycle.ModuleId, calls: seq<StageCall>, id: nat)
  {
    StagesGiven(calls, id) == if id in ops then Lifecycle.StagesOf(Lifecycle.Calls(ops[id].trace), m) else []
  }

  /** What a sound operation gives to a module that occurs at most once below its root. */
  lemma {:induction false} SoundStages(f: Lifecycle.OperationFields, m: Lifecycle.ModuleId)
    requires Lifecycle.Sound(f) && Lifecycle.Occurrences(Lifecycle.Participants(f.rootModule), m) <= 1
    ensures var given := Lifecycle.StagesOf(Lifecycle.Calls(f.trace), m);
      given == Lifecycle.Upto(|given|) && |given| <= f.numStages
  {
    var ms := Lifecycle.Participants(f.rootModule);
    if !Lifecycle.NotInitiated(f) {
      var n := if Lifecycle.Underway(f) then f.currentStage + 1 else f.numStages;
      assert Lifecycle.Performed(f, n);
      UptoLength(n);
      if Lifecycle.Occurrences(ms, m) == 1 {
        Lifecycle.EachStageOnce(ms, n, m);
      } else {
        Lifecycle.NoStageSeen(ms, n, m);
      }
    }
  }

  /** The status module of a node under a controller: however the controller's operations interleave, the status never
      fails an assertion. */
  lemma ControlledStatusIsSafe(ops: Lifecycle.Operations, kinds: nat -> Operation, m: Lifecycle.ModuleId, start: State,
                               calls: seq<StageCall>)
    requires Lifecycle.AllSound(ops)
    requires forall id :: id in ops ==>
      && ops[id].numStages == NumStages(kinds(id))
      && Lifecycle.Occurrences(Lifecycle.Participants(ops[id].rootModule), m) <= 1
    requires forall id {:trigger GivenTo(ops, m, calls, id)} :: GivenTo(ops, m, calls, id)
    ensures InStageOrder(kinds, calls) && Run(kinds, start, calls).outcome != AssertFailed
  {
    forall id ensures StagesInOrder(kinds, calls, id) {
      assert GivenTo(ops, m, calls, id);
      if id in ops {
        SoundStages(ops[id], m);
      }
    }
    InterleavingIsInOrder(kinds, calls);
    NoAssertFails(kinds, start, calls);
  }
}
