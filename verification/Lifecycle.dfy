/** Lifecycle operations: the module tree they are applied to, and what may happen to one operation. */
module Lifecycle {
  import opened Wrappers

  type ModuleId = nat
  type Callback = nat

  /** A module; only some modules take part in operations. */
  datatype Module = Module(id: ModuleId, isLifecycle: bool, children: seq<Module>)

  /** The modules that take part, in the order of the traversal. */
  function Participants(m: Module): seq<ModuleId>
  {
    (if m.isLifecycle then [m.id] else []) + AllParticipants(m.children)
  }

  function AllParticipants(ms: seq<Module>): seq<ModuleId>
  {
    if ms == [] then [] else Participants(ms[0]) + AllParticipants(ms[1..])
  }

  lemma {:induction false} AllParticipantsAppend(ms: seq<Module>, m: Module)
    ensures AllParticipants(ms + [m]) == AllParticipants(ms) + Participants(m)
    decreases |ms|
  {
    if ms == [] {
      assert ms + [m] == [m] && [m][1..] == [];
    } else {
      assert (ms + [m])[1..] == ms[1..] + [m];
      AllParticipantsAppend(ms[1..], m);
    }
  }

  // ---------- what happens to an operation ----------

  datatype Event =
    | StageCall(stage: nat, mod: ModuleId, done: bool, callback: Callback)   // `handleOperationStage` and its result
    | Finished(callback: Callback)                                          // a module that was not done finished
    | Completion                                                            // the completion callback is invoked

  type Trace = seq<Event>

  datatype Call = Call(stage: nat, mod: ModuleId)

  /** The calls of `handleOperationStage`. */
  function Calls(tr: Trace): seq<Call>
  {
    if tr == [] then []
    else
      var e := tr[|tr| - 1];
      Calls(tr[..|tr| - 1]) + if e.StageCall? then [Call(e.stage, e.mod)] else []
  }

  /** A module that has not finished a stage, and the callback it is to use. */
  datatype Ticket = Ticket(callback: Callback, stage: nat, mod: ModuleId)

  function Waiting(tr: Trace): seq<Ticket>
  {
    if tr == [] then []
    else
      var w := Waiting(tr[..|tr| - 1]);
      match tr[|tr| - 1]
      case StageCall(s, m, done, c) => if done then w else w + [Ticket(c, s, m)]
      case Finished(c) => Dropped(w, c)
      case Completion => w
  }

  /** Without the first ticket for `c`. */
  function Dropped(w: seq<Ticket>, c: Callback): seq<Ticket>
  {
    if w == [] then [] else if w[0].callback == c then w[1..] else [w[0]] + Dropped(w[1..], c)
  }

  function Completions(tr: Trace): nat
  {
    if tr == [] then 0 else Completions(tr[..|tr| - 1]) + if tr[|tr| - 1].Completion? then 1 else 0
  }

  /** Whenever a module is called for a stage, no module is still busy with another stage. */
  ghost predicate Barrier(tr: Trace)
  {
    tr == [] ||
    var front := tr[..|tr| - 1];
    Barrier(front) && (tr[|tr| - 1].StageCall? ==> AllAtStage(Waiting(front), tr[|tr| - 1].stage))
  }

  ghost predicate AllAtStage(w: seq<Ticket>, stage: nat)
  {
    forall i :: 0 <= i < |w| ==> w[i].stage == stage
  }

  /** Every module is called for stage `s`. */
  function StageCalls(ms: seq<ModuleId>, s: nat): (cs: seq<Call>)
    ensures |cs| == |ms| && forall i :: 0 <= i < |cs| ==> cs[i] == Call(s, ms[i])
  {
    if ms == [] then [] else StageCalls(ms[..|ms| - 1], s) + [Call(s, ms[|ms| - 1])]
  }

  /** Stages 0 to `n - 1`, one after the other, each with every module in order. */
  function AllCalls(ms: seq<ModuleId>, n: nat): seq<Call>
  {
    if n == 0 then [] else AllCalls(ms, n - 1) + StageCalls(ms, n - 1)
  }

  /** Every call of stage `s` lies after every call of stage `s - 1`, and there is one for each module. */
  lemma {:induction false} AllCallsAt(ms: seq<ModuleId>, n: nat, s: nat, i: nat)
    requires s < n && i < |ms|
    ensures |AllCalls(ms, n)| == n * |ms| && 0 <= s * |ms| + i < n * |ms|
    ensures AllCalls(ms, n)[s * |ms| + i] == Call(s, ms[i])
    decreases n
  {
    assert n * |ms| == (n - 1) * |ms| + |ms|;
    AllCallsLength(ms, n - 1);
    if s < n - 1 {
      AllCallsAt(ms, n - 1, s, i);
    }
  }

  lemma {:induction false} AllCallsLength(ms: seq<ModuleId>, n: nat)
    ensures |AllCalls(ms, n)| == n * |ms|
    decreases n
  {
    if n > 0 {
      AllCallsLength(ms, n - 1);
      assert n * |ms| == (n - 1) * |ms| + |ms|;
    }
  }

  /** The stages that module `m` is called for. */
  function StagesOf(cs: seq<Call>, m: ModuleId): seq<nat>
  {
    if cs == [] then []
    else StagesOf(cs[..|cs| - 1], m) + if cs[|cs| - 1].mod == m then [cs[|cs| - 1].stage] else []
  }

  lemma {:induction false} StagesOfConcat(a: seq<Call>, b: seq<Call>, m: ModuleId)
    ensures StagesOf(a + b, m) == StagesOf(a, m) + StagesOf(b, m)
    decreases |b|
  {
    if b == [] {
      assert a + b == a;
    } else {
      assert (a + b)[..|a + b| - 1] == a + b[..|b| - 1];
      StagesOfConcat(a, b[..|b| - 1], m);
    }
  }

  function Occurrences(ms: seq<ModuleId>, m: ModuleId): nat
  {
    if ms == [] then 0 else Occurrences(ms[..|ms| - 1], m) + if ms[|ms| - 1] == m then 1 else 0
  }

  lemma {:induction false} StageSeen(ms: seq<ModuleId>, s: nat, m: ModuleId)
    ensures Occurrences(ms, m) == 0 ==> StagesOf(StageCalls(ms, s), m) == []
    ensures Occurrences(ms, m) == 1 ==> StagesOf(StageCalls(ms, s), m) == [s]
    decreases |ms|
  {
    if ms != [] {
      var front := ms[..|ms| - 1];
      StageSeen(front, s, m);
      assert StageCalls(ms, s)[..|front|] == StageCalls(front, s);
    }
  }

  function Upto(n: nat): seq<nat>
  {
    if n == 0 then [] else Upto(n - 1) + [n - 1]
  }

  /** A module that takes part sees stages 0 to `n - 1`, each once and in this order. */
  lemma {:induction false} EachStageOnce(ms: seq<ModuleId>, n: nat, m: ModuleId)
    requires Occurrences(ms, m) == 1
    ensures StagesOf(AllCalls(ms, n), m) == Upto(n)
    decreases n
  {
    if n > 0 {
      EachStageOnce(ms, n - 1, m);
      OneMoreStage(AllCalls(ms, n - 1), ms, n, m);
    }
  }

  /** A module that does not take part sees none. */
  lemma {:induction false} NoStageSeen(ms: seq<ModuleId>, n: nat, m: ModuleId)
    requires Occurrences(ms, m) == 0
    ensures |StagesOf(AllCalls(ms, n), m)| == 0
    decreases n
  {
    if n > 0 {
      NoStageSeen(ms, n - 1, m);
      StillNone(ms, n, m);
    }
  }

  lemma {:induction false} StillNone(ms: seq<ModuleId>, n: nat, m: ModuleId)
    requires n > 0 && |StagesOf(AllCalls(ms, n - 1), m)| == 0 && Occurrences(ms, m) == 0
    ensures |StagesOf(AllCalls(ms, n), m)| == 0
  {
    StageSeen(ms, n - 1, m);
    StagesOfConcat(AllCalls(ms, n - 1), StageCalls(ms, n - 1), m);
  }

  lemma {:induction false} OneMoreStage(before: seq<Call>, ms: seq<ModuleId>, n: nat, m: ModuleId)
    requires n > 0 && StagesOf(before, m) == Upto(n - 1) && Occurrences(ms, m) == 1
    ensures StagesOf(before + StageCalls(ms, n - 1), m) == Upto(n)
  {
    StageSeen(ms, n - 1, m);
    StagesOfConcat(before, StageCalls(ms, n - 1), m);
  }

  /** A module that was not done with a stage finishes it before any module is called for another stage. */
  lemma FinishedBefore(tr: Trace, p: nat, q: nat)
    requires Barrier(tr) && p < q < |tr| && tr[p].StageCall? && !tr[p].done
    requires tr[q].StageCall? && tr[q].stage != tr[p].stage
    ensures exists r :: p < r < q && tr[r] == Finished(tr[p].callback)
  {
    BarrierAt(tr, q);
    if forall r :: p < r < q ==> tr[r] != Finished(tr[p].callback) {
      StillWaiting(tr, p, q);
    }
  }

  lemma {:induction false} BarrierAt(tr: Trace, q: nat)
    requires Barrier(tr) && q < |tr| && tr[q].StageCall?
    ensures AllAtStage(Waiting(tr[..q]), tr[q].stage)
    decreases |tr|
  {
    if q < |tr| - 1 {
      BarrierAt(tr[..|tr| - 1], q);
      assert tr[..|tr| - 1][..q] == tr[..q];
    }
  }

  lemma {:induction false} StillWaiting(tr: Trace, p: nat, q: nat)
    requires p < q <= |tr| && tr[p].StageCall? && !tr[p].done
    requires forall r :: p < r < q ==> tr[r] != Finished(tr[p].callback)
    ensures Ticket(tr[p].callback, tr[p].stage, tr[p].mod) in Waiting(tr[..q])
    decreases q
  {
    assert tr[..q][..q - 1] == tr[..q - 1];
    if p < q - 1 {
      StillWaiting(tr, p, q - 1);
      if tr[q - 1].Finished? {
        DroppedKeeps(Waiting(tr[..q - 1]), tr[q - 1].callback, Ticket(tr[p].callback, tr[p].stage, tr[p].mod));
      }
    } else {
      var t := Ticket(tr[p].callback, tr[p].stage, tr[p].mod);
      assert t in Waiting(tr[..p]) + [t];
    }
  }

  lemma {:induction false} DroppedKeeps(w: seq<Ticket>, c: Callback, t: Ticket)
    requires t in w && t.callback != c
    ensures t in Dropped(w, c)
    decreases |w|
  {
    if w[0].callback != c && t != w[0] {
      DroppedKeeps(w[1..], c, t);
    }
  }

  // ---------- one operation ----------

  datatype OperationFields = OperationFields(rootModule: Module, numStages: nat, currentStage: nat,
                                             pendingList: seq<Callback>, insideInitiateOperation: bool,
                                             completionCallback: bool, trace: Trace)

  function CallbacksOf(w: seq<Ticket>): (cs: seq<Callback>)
    ensures |cs| == |w| && forall i :: 0 <= i < |w| ==> cs[i] == w[i].callback
  {
    if w == [] then [] else [w[0].callback] + CallbacksOf(w[1..])
  }

  /** The pending list is the list of those who wait, all of them for the current stage. */
  ghost predicate Orderly(f: OperationFields)
  {
    && f.pendingList == CallbacksOf(Waiting(f.trace))
    && AllAtStage(Waiting(f.trace), f.currentStage)
    && Barrier(f.trace)
  }

  /** All stages before stage `n` were done in full, and nothing else. */
  ghost predicate Performed(f: OperationFields, n: nat)
  {
    Calls(f.trace) == AllCalls(Participants(f.rootModule), n)
  }

  ghost predicate NotInitiated(f: OperationFields)
  {
    f.trace == [] && f.pendingList == []
  }

  /** Some modules have yet to finish the current stage. */
  ghost predicate Underway(f: OperationFields)
  {
    && f.currentStage < f.numStages && Orderly(f) && f.pendingList != []
    && Performed(f, f.currentStage + 1) && Completions(f.trace) == 0
  }

  /** All stages are over; the completion callback was invoked once, unless the operation ended within the call that
      initiated it. */
  ghost predicate Over(f: OperationFields)
  {
    && f.currentStage == f.numStages && Orderly(f) && f.pendingList == []
    && Performed(f, f.numStages)
    && Completions(f.trace) == if f.completionCallback && !f.insideInitiateOperation then 1 else 0
  }

  ghost predicate Sound(f: OperationFields)
  {
    NotInitiated(f) || Underway(f) || Over(f)
  }

  /** Between two stages: ready for the current one. */
  ghost predicate AtStageStart(f: OperationFields)
  {
    && f.currentStage <= f.numStages && Orderly(f) && f.pendingList == []
    && Performed(f, f.currentStage) && Completions(f.trace) == 0
  }

  // ---------- steps ----------

  /** A module was called for the current stage. */
  function AfterCall(f: OperationFields, m: ModuleId, done: bool, c: Callback): OperationFields
  {
    f.(trace := f.trace + [StageCall(f.currentStage, m, done, c)],
       pendingList := if done then f.pendingList else f.pendingList + [c])
  }

  lemma CallKeepsOrder(f: OperationFields, m: ModuleId, done: bool, c: Callback)
    requires Orderly(f)
    ensures var f' := AfterCall(f, m, done, c);
      && Orderly(f')
      && Calls(f'.trace) == Calls(f.trace) + [Call(f.currentStage, m)]
      && Completions(f'.trace) == Completions(f.trace)
  {
    var e := StageCall(f.currentStage, m, done, c);
    assert (f.trace + [e])[..|f.trace|] == f.trace;
    CallbacksOfAppend(Waiting(f.trace), Ticket(c, f.currentStage, m));
  }

  lemma {:induction false} CallbacksOfAppend(w: seq<Ticket>, t: Ticket)
    ensures CallbacksOf(w + [t]) == CallbacksOf(w) + [t.callback]
  {
  }

  function Erased(cs: seq<Callback>, c: Callback): seq<Callback>
  {
    if cs == [] then [] else if cs[0] == c then cs[1..] else [cs[0]] + Erased(cs[1..], c)
  }

  lemma {:induction false} DroppedIsErased(w: seq<Ticket>, c: Callback, stage: nat)
    requires AllAtStage(w, stage)
    ensures CallbacksOf(Dropped(w, c)) == Erased(CallbacksOf(w), c) && AllAtStage(Dropped(w, c), stage)
    decreases |w|
  {
    if w != [] && w[0].callback != c {
      DroppedIsErased(w[1..], c, stage);
    }
  }

  function AfterFinish(f: OperationFields, c: Callback): OperationFields
  {
    f.(trace := f.trace + [Finished(c)], pendingList := Erased(f.pendingList, c))
  }

  lemma FinishKeepsOrder(f: OperationFields, c: Callback)
    requires Orderly(f)
    ensures var f' := AfterFinish(f, c);
      Orderly(f') && Calls(f'.trace) == Calls(f.trace) && Completions(f'.trace) == Completions(f.trace)
  {
    assert (f.trace + [Finished(c)])[..|f.trace|] == f.trace;
    DroppedIsErased(Waiting(f.trace), c, f.currentStage);
  }

  /** The last module finished: the next stage may start. */
  lemma StageOver(f: OperationFields)
    requires f.currentStage < f.numStages && Orderly(f) && f.pendingList == []
    requires Performed(f, f.currentStage + 1) && Completions(f.trace) == 0
    ensures AtStageStart(f.(currentStage := f.currentStage + 1))
    ensures AtStageStart(f.(currentStage := f.currentStage + 1, insideInitiateOperation := false))
  {
    assert Waiting(f.trace) == [];
  }

  /** What invoking the callback `c` does to its operation: if others are still busy, nothing else happens; otherwise
      the operation moves on to a later stage, or is over and has invoked its completion callback. */
  ghost predicate CompletesStage(f: OperationFields, c: Callback, f': OperationFields)
  {
    if Erased(f.pendingList, c) != [] then f' == AfterFinish(f, c) && Underway(f')
    else
      && SamePlan(AfterFinish(f, c).(insideInitiateOperation := false), f')
      && f'.currentStage > f.currentStage
      && (Underway(f') || Over(f'))
  }

  lemma FinishStep(f: OperationFields, c: Callback)
    requires Sound(f) && c in f.pendingList
    ensures Underway(f)
    ensures var f' := AfterFinish(f, c);
      && Orderly(f') && Performed(f', f'.currentStage + 1) && Completions(f'.trace) == 0
      && (f'.pendingList != [] ==> CompletesStage(f, c, f'))
  {
    FinishKeepsOrder(f, c);
  }

  function AfterCompletion(f: OperationFields): OperationFields
  {
    f.(trace := f.trace + [Completion])
  }

  lemma CompletionKeepsOrder(f: OperationFields)
    requires Orderly(f)
    ensures var f' := AfterCompletion(f);
      Orderly(f') && Calls(f'.trace) == Calls(f.trace) && Completions(f'.trace) == Completions(f.trace) + 1
  {
    assert (f.trace + [Completion])[..|f.trace|] == f.trace;
  }

  /** `f'` is `f` with more having happened. */
  ghost predicate SamePlan(f: OperationFields, f': OperationFields)
  {
    && f'.(currentStage := f.currentStage, pendingList := f.pendingList, trace := f.trace) == f
    && f.trace <= f'.trace
  }

  /** The recorded results are those that the modules gave. */
  ghost predicate Truthful(handle: (nat, nat, ModuleId) -> bool, o: nat, tr: Trace)
  {
    forall i :: 0 <= i < |tr| && tr[i].StageCall? ==> tr[i].done == handle(o, tr[i].stage, tr[i].mod)
  }

  ghost predicate AllTruthful(handle: (nat, nat, ModuleId) -> bool, ops: Operations)
  {
    forall o {:trigger ops[o]} :: o in ops ==> Truthful(handle, o, ops[o].trace)
  }

  /** `f'` is `f` after exactly the modules `ms` were called, in this order, for the current stage. */
  ghost predicate Called(f: OperationFields, f': OperationFields, ms: seq<ModuleId>)
  {
    && SamePlan(f, f') && f'.currentStage == f.currentStage && Orderly(f')
    && Calls(f'.trace) == Calls(f.trace) + StageCalls(ms, f.currentStage)
    && Completions(f'.trace) == Completions(f.trace)
  }

  lemma CalledNone(f: OperationFields)
    requires Orderly(f)
    ensures Called(f, f, [])
  {
  }

  lemma CalledOne(f: OperationFields, m: ModuleId, done: bool, c: Callback)
    requires Orderly(f)
    ensures Called(f, AfterCall(f, m, done, c), [m])
  {
    CallKeepsOrder(f, m, done, c);
  }

  lemma TruthfulCall(handle: (nat, nat, ModuleId) -> bool, o: nat, f: OperationFields, m: ModuleId, c: Callback)
    requires Truthful(handle, o, f.trace)
    ensures Truthful(handle, o, AfterCall(f, m, handle(o, f.currentStage, m), c).trace)
  {
  }

  lemma CalledBoth(f: OperationFields, f1: OperationFields, f2: OperationFields, ms1: seq<ModuleId>, ms2: seq<ModuleId>)
    requires Called(f, f1, ms1) && Called(f1, f2, ms2)
    ensures Called(f, f2, ms1 + ms2)
  {
    var a, b := StageCalls(ms1, f.currentStage), StageCalls(ms2, f.currentStage);
    assert StageCalls(ms1 + ms2, f.currentStage) == a + b;
    assert Calls(f.trace) + a + b == Calls(f.trace) + (a + b);
  }

  lemma NextChild(before: seq<ModuleId>, children: seq<Module>, i: nat)
    requires i < |children|
    ensures before + AllParticipants(children[..i]) + Participants(children[i]) ==
      before + AllParticipants(children[..i + 1])
  {
    assert children[..i + 1] == children[..i] + [children[i]];
    AllParticipantsAppend(children[..i], children[i]);
  }

  /** A complete stage. */
  lemma StagePerformed(f: OperationFields, f': OperationFields)
    requires AtStageStart(f) && f.currentStage < f.numStages && Called(f, f', Participants(f.rootModule))
    ensures Performed(f', f'.currentStage + 1) && Completions(f'.trace) == 0
  {
  }

  type Operations = map<nat, OperationFields>

  ghost predicate AllSound(ops: Operations)
  {
    forall o {:trigger ops[o]} :: o in ops ==> Sound(ops[o])
  }

  lemma OthersSound(handle: (nat, nat, ModuleId) -> bool, ops: Operations, ops': Operations, o: nat)
    requires AllSound(ops) && AllTruthful(handle, ops)
    requires ops' - {o} == ops - {o} && o in ops' && Sound(ops'[o]) && Truthful(handle, o, ops'[o].trace)
    ensures AllSound(ops') && AllTruthful(handle, ops')
  {
    forall o' | o' in ops' ensures Sound(ops'[o']) && Truthful(handle, o', ops'[o'].trace) {
      if o' != o {
        assert o' in ops' - {o};
        assert (ops' - {o})[o'] == (ops - {o})[o'] == ops[o'];
      }
    }
  }

  // ---------- callbacks ----------

  /** To which operation and module a callback belongs, once initialised. */
  datatype Owner = Owner(operation: nat, mod: ModuleId)

  type Callbacks = map<Callback, Option<Owner>>

  /** The callbacks in the pending list of `o` are distinct and belong to `o`. */
  ghost predicate HandedOut(cbs: Callbacks, o: nat, pending: seq<Callback>)
  {
    && (forall i, j :: 0 <= i < j < |pending| ==> pending[i] != pending[j])
    && (forall i :: 0 <= i < |pending| ==> Belongs(cbs, o, pending[i]))
  }

  ghost predicate Belongs(cbs: Callbacks, o: nat, c: Callback)
  {
    c in cbs && cbs[c].Some? && cbs[c].value.operation == o
  }

  /** A callback object that belongs to an operation is in the pending list of that operation. */
  ghost predicate Listed(ops: Operations, cbs: Callbacks, c: Callback)
    requires c in cbs
  {
    cbs[c].Some? ==> cbs[c].value.operation in ops && c in ops[cbs[c].value.operation].pendingList
  }

  /** The spare callback is the only one that is not initialised. */
  ghost predicate Accounted(ops: Operations, cbs: Callbacks, spare: Option<Callback>)
  {
    && (forall o {:trigger HandedOut(cbs, o, ops[o].pendingList)} :: o in ops ==> HandedOut(cbs, o, ops[o].pendingList))
    && (forall c {:trigger Listed(ops, cbs, c)} :: c in cbs ==> Listed(ops, cbs, c))
    && (forall c :: c in cbs ==> (cbs[c].None? <==> spare == Some(c)))
    && (spare.Some? ==> spare.value in cbs)
  }

  /** So it is in no pending list. */
  lemma SpareIsNotPending(ops: Operations, cbs: Callbacks, spare: Option<Callback>, o: nat)
    requires Accounted(ops, cbs, spare) && spare.Some? && o in ops
    ensures spare.value !in ops[o].pendingList
  {
    assert HandedOut(cbs, o, ops[o].pendingList);
    forall i | 0 <= i < |ops[o].pendingList| ensures ops[o].pendingList[i] != spare.value {
      assert Belongs(cbs, o, ops[o].pendingList[i]);
    }
  }

  /** Changing an operation without changing its pending list. */
  lemma SameLists(ops: Operations, cbs: Callbacks, spare: Option<Callback>, o: nat, f: OperationFields)
    requires Accounted(ops, cbs, spare)
    requires if o in ops then f.pendingList == ops[o].pendingList else f.pendingList == []
    ensures Accounted(ops[o := f], cbs, spare)
  {
    var ops' := ops[o := f];
    forall o' | o' in ops' ensures HandedOut(cbs, o', ops'[o'].pendingList) {
      assert o' in ops ==> HandedOut(cbs, o', ops[o'].pendingList);
    }
    forall c | c in cbs ensures Listed(ops', cbs, c) {
      assert Listed(ops, cbs, c);
    }
  }

  lemma {:induction false} Bounded(keys: set<nat>) returns (n: nat)
    ensures forall k :: k in keys ==> k < n
    decreases |keys|
  {
    n := 0;
    if keys != {} {
      var k :| k in keys;
      var n' := Bounded(keys - {k});
      n := if k < n' then n' else k + 1;
      assert forall x :: x in keys ==> x == k || x in keys - {k};
    }
  }

  /** There is always a new callback object. */
  lemma SomeFresh(cbs: Callbacks)
    ensures exists c: Callback :: c !in cbs
  {
    var n := Bounded(cbs.Keys);
    assert n !in cbs;
  }

  /** The callback that a call is made with: the spare one or a new one. */
  predicate Available(cbs: Callbacks, spare: Option<Callback>, c: Callback)
  {
    if spare.Some? then c == spare.value else c !in cbs
  }

  /** The module was done: the callback is kept for the next call. */
  lemma KeepSpare(ops: Operations, cbs: Callbacks, spare: Option<Callback>, c: Callback)
    requires Accounted(ops, cbs, spare) && Available(cbs, spare, c)
    ensures Accounted(ops, cbs[c := None], Some(c))
  {
    var cbs' := cbs[c := None];
    forall o | o in ops ensures HandedOut(cbs', o, ops[o].pendingList) {
      OtherCallbacks(ops, cbs, cbs', spare, c, o);
    }
    forall c' | c' in cbs' ensures Listed(ops, cbs', c') {
      assert c' != c ==> Listed(ops, cbs, c');
    }
  }

  /** The callbacks in pending lists do not change with one that is available. */
  lemma OtherCallbacks(ops: Operations, cbs: Callbacks, cbs': Callbacks, spare: Option<Callback>, c: Callback, o: nat)
    requires Accounted(ops, cbs, spare) && Available(cbs, spare, c) && o in ops
    requires forall c' :: c' in cbs && c' != c ==> c' in cbs' && cbs'[c'] == cbs[c']
    ensures c !in ops[o].pendingList && HandedOut(cbs', o, ops[o].pendingList)
  {
    var pending := ops[o].pendingList;
    assert HandedOut(cbs, o, pending);
    forall i | 0 <= i < |pending| ensures pending[i] != c && Belongs(cbs', o, pending[i]) {
      assert Belongs(cbs, o, pending[i]);
    }
  }

  /** The module was not done: the callback goes into the pending list. */
  lemma HandOut(ops: Operations, cbs: Callbacks, spare: Option<Callback>, c: Callback, o: nat, m: ModuleId,
                f: OperationFields)
    requires Accounted(ops, cbs, spare) && Available(cbs, spare, c)
    requires o in ops && f.pendingList == ops[o].pendingList + [c]
    ensures Accounted(ops[o := f], cbs[c := Some(Owner(o, m))], None)
  {
    var ops', cbs' := ops[o := f], cbs[c := Some(Owner(o, m))];
    forall o' | o' in ops' ensures HandedOut(cbs', o', ops'[o'].pendingList) {
      OtherCallbacks(ops, cbs, cbs', spare, c, o');
      assert Belongs(cbs', o, c);
    }
    forall c' | c' in cbs' ensures Listed(ops', cbs', c') {
      assert c' != c ==> Listed(ops, cbs, c');
    }
  }

  lemma {:induction false} ErasedMeans(cs: seq<Callback>, c: Callback, x: Callback)
    requires forall i, j :: 0 <= i < j < |cs| ==> cs[i] != cs[j]
    ensures x in Erased(cs, c) <==> x in cs && x != c
    decreases |cs|
  {
    if cs != [] && cs[0] != c {
      ErasedMeans(cs[1..], c, x);
    }
  }

  lemma {:induction false} ErasedDistinct(cs: seq<Callback>, c: Callback)
    requires forall i, j :: 0 <= i < j < |cs| ==> cs[i] != cs[j]
    ensures var r := Erased(cs, c); forall i, j :: 0 <= i < j < |r| ==> r[i] != r[j]
    decreases |cs|
  {
    if cs != [] && cs[0] != c {
      ErasedDistinct(cs[1..], c);
      ErasedMeans(cs[1..], c, cs[0]);
    }
  }

  /** A callback was invoked: it leaves the pending list and is deleted. */
  lemma Release(ops: Operations, cbs: Callbacks, spare: Option<Callback>, c: Callback, f: OperationFields)
    requires Accounted(ops, cbs, spare) && c in cbs && cbs[c].Some?
    requires var o := cbs[c].value.operation; o in ops && f.pendingList == Erased(ops[o].pendingList, c)
    ensures Accounted(ops[cbs[c].value.operation := f], cbs - {c}, spare)
  {
    var o := cbs[c].value.operation;
    var ops', cbs' := ops[o := f], cbs - {c};
    forall o' | o' in ops' ensures HandedOut(cbs', o', ops'[o'].pendingList) {
      ReleasedList(ops, cbs, c, o', ops'[o'].pendingList);
    }
    forall c' | c' in cbs' ensures Listed(ops', cbs', c') {
      assert Listed(ops, cbs, c');
      if cbs[c'].Some? && cbs[c'].value.operation == o {
        assert HandedOut(cbs, o, ops[o].pendingList);
        ErasedMeans(ops[o].pendingList, c, c');
      }
    }
  }

  lemma ReleasedList(ops: Operations, cbs: Callbacks, c: Callback, o: nat, pending: seq<Callback>)
    requires c in cbs && cbs[c].Some? && o in ops && HandedOut(cbs, o, ops[o].pendingList)
    requires pending == if o == cbs[c].value.operation then Erased(ops[o].pendingList, c) else ops[o].pendingList
    ensures HandedOut(cbs - {c}, o, pending)
  {
    var before := ops[o].pendingList;
    if o == cbs[c].value.operation {
      ErasedDistinct(before, c);
    }
    forall i | 0 <= i < |pending| ensures Belongs(cbs - {c}, o, pending[i]) {
      if o == cbs[c].value.operation {
        ErasedMeans(before, c, pending[i]);
      }
      var k :| 0 <= k < |before| && before[k] == pending[i];
      assert Belongs(cbs, o, before[k]);
    }
  }
}
