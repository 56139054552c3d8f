/** `LifecycleController`: performs operations stage by stage on module trees; a stage is over when every module has
    finished it, which it may do within the call or later, by invoking the callback it was given. */
module LifecycleControl {
  import opened Lifecycle
  import opened LifecycleTree
  import opened Wrappers

  datatype InvokeResult = Invoked | UsageError

  class LifecycleController {
    /** Whether a module finishes a stage of an operation within the call. */
    const handleOperationStage: (nat, nat, ModuleId) -> bool
    var operationAt: Operations
    var spareCallback: Option<Callback>
    var callbackAt: Callbacks              // the callback objects that have not been deleted

    ghost predicate Valid()
      reads this
    {
      && Accounted(operationAt, callbackAt, spareCallback)
      && AllSound(operationAt) && AllTruthful(handleOperationStage, operationAt)
    }

    constructor (handleOperationStage: (nat, nat, ModuleId) -> bool)
      ensures Valid() && operationAt.Keys == {}
    {
      this.handleOperationStage := handleOperationStage;
      operationAt, spareCallback, callbackAt := map[], None, map[];
    }

    /** A new operation object. */
    method NewOperation(o: nat, rootModule: Module, numStages: nat)
      requires Valid() && o !in operationAt
      modifies this`operationAt
      ensures Valid() && o in operationAt && NotInitiated(operationAt[o])
      ensures operationAt[o].rootModule == rootModule && operationAt[o].numStages == numStages
      ensures operationAt - {o} == old(operationAt)
    {
      var f := OperationFields(rootModule, numStages, 0, [], false, false, []);
      SameLists(operationAt, callbackAt, spareCallback, o, f);
      operationAt := operationAt[o := f];
      OthersSound(handleOperationStage, old(operationAt), operationAt, o);
    }

    method InitiateOperation(o: nat, completionCallback: bool) returns (done: bool)
      requires Valid() && o in operationAt && NotInitiated(operationAt[o])
      modifies this`operationAt, this`spareCallback, this`callbackAt
      ensures Valid() && o in operationAt && operationAt - {o} == old(operationAt) - {o}
      ensures done <==> Over(operationAt[o])
      ensures !done <==> Underway(operationAt[o])
      ensures done ==> Completions(operationAt[o].trace) == 0
      ensures AllCalled(operationAt[o], if done then operationAt[o].numStages else operationAt[o].currentStage + 1)
      ensures operationAt[o].rootModule == old(operationAt[o].rootModule)
      ensures operationAt[o].numStages == old(operationAt[o].numStages)
    {
      var f := operationAt[o].(currentStage := 0, completionCallback := completionCallback,
                               insideInitiateOperation := true);
      SameLists(operationAt, callbackAt, spareCallback, o, f);
      operationAt := operationAt[o := f];
      done := ResumeOperation(o);
      PerformedMeans(operationAt[o], if done then operationAt[o].numStages else operationAt[o].currentStage + 1);
      OthersSound(handleOperationStage, old(operationAt), operationAt, o);
    }

    /** Changes fields of an operation object other than the pending list. */
    method Update(o: nat, f: OperationFields)
      requires Accounted(operationAt, callbackAt, spareCallback)
      requires o in operationAt && f.pendingList == operationAt[o].pendingList
      modifies this`operationAt
      ensures Accounted(operationAt, callbackAt, spareCallback)
      ensures operationAt == old(operationAt)[o := f]
    {
      SameLists(operationAt, callbackAt, spareCallback, o, f);
      operationAt := operationAt[o := f];
    }

    method ResumeOperation(o: nat) returns (done: bool)
      requires Accounted(operationAt, callbackAt, spareCallback)
      requires o in operationAt && AtStageStart(operationAt[o])
      requires Truthful(handleOperationStage, o, operationAt[o].trace)
      modifies this`operationAt, this`spareCallback, this`callbackAt
      ensures Accounted(operationAt, callbackAt, spareCallback)
      ensures o in operationAt && operationAt - {o} == old(operationAt) - {o}
      ensures Truthful(handleOperationStage, o, operationAt[o].trace)
      ensures SamePlan(old(operationAt[o]), operationAt[o])
      ensures operationAt[o].currentStage >= old(operationAt[o].currentStage)
      ensures if done then Over(operationAt[o]) else Underway(operationAt[o])
      ensures Completions(operationAt[o].trace) ==
        if done && operationAt[o].completionCallback && !operationAt[o].insideInitiateOperation then 1 else 0
    {
      var numStages := operationAt[o].numStages;
      while operationAt[o].currentStage < numStages
        invariant Accounted(operationAt, callbackAt, spareCallback)
        invariant o in operationAt && AtStageStart(operationAt[o])
        invariant Truthful(handleOperationStage, o, operationAt[o].trace)
        invariant operationAt - {o} == old(operationAt) - {o} && SamePlan(old(operationAt[o]), operationAt[o])
        invariant operationAt[o].currentStage >= old(operationAt[o].currentStage)
        decreases numStages - operationAt[o].currentStage
      {
        ghost var start := operationAt[o];
        DoOneStage(o, operationAt[o].rootModule);
        StagePerformed(start, operationAt[o]);
        if operationAt[o].pendingList == [] {
          StageOver(operationAt[o]);
          Update(o, operationAt[o].(currentStage := operationAt[o].currentStage + 1));
        } else {
          return false;
        }
      }
      Complete(o);
      return true;
    }

    /** The end of an operation: the completion callback, if there is one and this is not the initiating call. */
    method Complete(o: nat)
      requires Accounted(operationAt, callbackAt, spareCallback) && o in operationAt
      requires AtStageStart(operationAt[o]) && operationAt[o].currentStage == operationAt[o].numStages
      requires Truthful(handleOperationStage, o, operationAt[o].trace)
      modifies this`operationAt
      ensures Accounted(operationAt, callbackAt, spareCallback)
      ensures o in operationAt && operationAt - {o} == old(operationAt) - {o}
      ensures Truthful(handleOperationStage, o, operationAt[o].trace)
      ensures SamePlan(old(operationAt[o]), operationAt[o]) && Over(operationAt[o])
      ensures operationAt[o].trace == old(operationAt[o]).trace +
        if operationAt[o].completionCallback && !operationAt[o].insideInitiateOperation then [Completion] else []
    {
      if operationAt[o].completionCallback && !operationAt[o].insideInitiateOperation {
        CompletionKeepsOrder(operationAt[o]);
        Update(o, AfterCompletion(operationAt[o]));
      }
    }

    /** Calls the lifecycle modules at and below `submodule`, in order, for the current stage. */
    method DoOneStage(o: nat, submodule: Module)
      requires Accounted(operationAt, callbackAt, spareCallback)
      requires o in operationAt && Orderly(operationAt[o]) && Truthful(handleOperationStage, o, operationAt[o].trace)
      modifies this`operationAt, this`spareCallback, this`callbackAt
      ensures Accounted(operationAt, callbackAt, spareCallback)
      ensures o in operationAt && operationAt - {o} == old(operationAt) - {o}
      ensures Truthful(handleOperationStage, o, operationAt[o].trace)
      ensures Called(old(operationAt[o]), operationAt[o], Participants(submodule))
      decreases submodule
    {
      CalledNone(operationAt[o]);
      if submodule.isLifecycle {
        var _ := CallModule(o, submodule.id);
      }
      ghost var before := if submodule.isLifecycle then [submodule.id] else [];
      for i := 0 to |submodule.children|
        invariant Accounted(operationAt, callbackAt, spareCallback)
        invariant o in operationAt && operationAt - {o} == old(operationAt) - {o}
        invariant Truthful(handleOperationStage, o, operationAt[o].trace)
        invariant Called(old(operationAt[o]), operationAt[o], before + AllParticipants(submodule.children[..i]))
      {
        ghost var soFar := before + AllParticipants(submodule.children[..i]);
        ghost var f := operationAt[o];
        DoOneStage(o, submodule.children[i]);
        CalledBoth(old(operationAt[o]), f, operationAt[o], soFar, Participants(submodule.children[i]));
        NextChild(before, submodule.children, i);
      }
      assert submodule.children[..|submodule.children|] == submodule.children;
    }

    /** The call gets the spare callback, or a new one if there is none. */
    method CallModule(o: nat, m: ModuleId) returns (ghost used: Callback)
      requires Accounted(operationAt, callbackAt, spareCallback)
      requires o in operationAt && Orderly(operationAt[o]) && Truthful(handleOperationStage, o, operationAt[o].trace)
      modifies this`operationAt, this`spareCallback, this`callbackAt
      ensures Accounted(operationAt, callbackAt, spareCallback)
      ensures o in operationAt && operationAt - {o} == old(operationAt) - {o}
      ensures Truthful(handleOperationStage, o, operationAt[o].trace)
      ensures Called(old(operationAt[o]), operationAt[o], [m])
      ensures Available(old(callbackAt), old(spareCallback), used)
      ensures var f := old(operationAt[o]);
        var done := handleOperationStage(o, f.currentStage, m);
        operationAt[o] == AfterCall(f, m, done, used) && spareCallback == if done then Some(used) else None
    {
      var callback;
      if spareCallback.Some? {
        callback := spareCallback.value;
      } else {
        SomeFresh(callbackAt);
        callback :| callback !in callbackAt;
      }
      var done := handleOperationStage(o, operationAt[o].currentStage, m);
      CalledOne(operationAt[o], m, done, callback);
      TruthfulCall(handleOperationStage, o, operationAt[o], m, callback);
      used := callback;
      Account(o, m, done, callback);
    }

    /** After the call: a callback still needed goes into the pending list, another one becomes the spare one. */
    method Account(o: nat, m: ModuleId, done: bool, callback: Callback)
      requires Accounted(operationAt, callbackAt, spareCallback) && Available(callbackAt, spareCallback, callback)
      requires o in operationAt
      modifies this`operationAt, this`spareCallback, this`callbackAt
      ensures Accounted(operationAt, callbackAt, spareCallback)
      ensures operationAt == old(operationAt)[o := AfterCall(old(operationAt[o]), m, done, callback)]
      ensures spareCallback == if done then Some(callback) else None
    {
      var f := AfterCall(operationAt[o], m, done, callback);
      if !done {
        HandOut(operationAt, callbackAt, spareCallback, callback, o, m, f);
        callbackAt := callbackAt[callback := Some(Owner(o, m))];
        spareCallback := None;
      } else {
        KeepSpare(operationAt, callbackAt, spareCallback, callback);
        callbackAt := callbackAt[callback := None];
        spareCallback := Some(callback);
        SameLists(operationAt, callbackAt, spareCallback, o, f);
      }
      operationAt := operationAt[o := f];
    }

    /** `Callback::invoke`; only a callback that was handed out to a module that was not done may be invoked. */
    method InvokeCallback(callback: Callback) returns (result: InvokeResult)
      requires Valid() && callback in callbackAt
      modifies this`operationAt, this`spareCallback, this`callbackAt
      ensures Valid()
      ensures result == UsageError <==> old(spareCallback) == Some(callback)
      ensures result == UsageError ==> operationAt == old(operationAt) && callbackAt == old(callbackAt)
      ensures result == Invoked ==>
        old(callbackAt[callback]).Some? &&
        var o := old(callbackAt[callback]).value.operation;
        o in old(operationAt) && o in operationAt && operationAt - {o} == old(operationAt) - {o} &&
        Underway(old(operationAt[o])) && callback in old(operationAt[o].pendingList) &&
        CompletesStage(old(operationAt[o]), callback, operationAt[o])
    {
      if callbackAt[callback].None? {
        return UsageError;
      }
      assert Listed(operationAt, callbackAt, callback);
      ModuleOperationStageCompleted(callback);
      return Invoked;
    }

    method ModuleOperationStageCompleted(callback: Callback)
      requires Valid() && callback in callbackAt && callbackAt[callback].Some?
      requires var o := callbackAt[callback].value.operation; o in operationAt && callback in operationAt[o].pendingList
      modifies this`operationAt, this`spareCallback, this`callbackAt
      ensures Valid()
      ensures var o := old(callbackAt[callback]).value.operation;
        o in operationAt && operationAt - {o} == old(operationAt) - {o} &&
        Underway(old(operationAt[o])) &&
        CompletesStage(old(operationAt[o]), callback, operationAt[o]) &&
        (operationAt[o].pendingList == [] ==>
           Completions(operationAt[o].trace) == if operationAt[o].completionCallback then 1 else 0) &&
        (operationAt[o].pendingList != [] ==> Completions(operationAt[o].trace) == 0)
    {
      var operation := callbackAt[callback].value.operation;
      FinishStep(operationAt[operation], callback);
      DeleteCallback(operation, callback);
      if operationAt[operation].pendingList == [] {
        var f := operationAt[operation];
        StageOver(f);
        Update(operation, f.(currentStage := f.currentStage + 1, insideInitiateOperation := false));
        var _ := ResumeOperation(operation);
      }
      OthersSound(handleOperationStage, old(operationAt), operationAt, operation);
    }

    /** `vector_delete_element`: the callback leaves the pending list and is freed. */
    method DeleteCallback(operation: nat, callback: Callback)
      requires Accounted(operationAt, callbackAt, spareCallback) && operation in operationAt
      requires Belongs(callbackAt, operation, callback)
      modifies this`operationAt, this`callbackAt
      ensures Accounted(operationAt, callbackAt, spareCallback)
      ensures operationAt == old(operationAt)[operation := AfterFinish(old(operationAt[operation]), callback)]
    {
      var f := AfterFinish(operationAt[operation], callback);
      Release(operationAt, callbackAt, spareCallback, callback, f);
      operationAt := operationAt[operation := f];
      callbackAt := callbackAt - {callback};
    }
  }
}
