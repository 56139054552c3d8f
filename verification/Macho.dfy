/** `Macho`'s machine: entry and exit actions with their boxes, history, and the loop that carries out transitions.
    The fields of the state instances are tables of the machine indexed by state. */
module Macho {
  import opened MachoRuns
  import opened MachoStates
  import opened Wrappers

  /** The box of a state that declares none is the shared empty box; others are numbered in the order of creation. */
  datatype Box = EmptyBox | UserBox(serial: nat)

  ghost predicate IsProperSubstate(s: State, t: State)
  {
    t <= s && s != t
  }

  /** A state's box: kept while the state is entered, released on exit unless persistent; released memory is cached. */
  ghost predicate BoxFits(b: Behaviour, entered: bool, box: Option<Box>, cached: bool)
  {
    if b.hasBox then
      && (box.Some? ==> box.value.UserBox? && !cached)
      && (entered ==> box.Some?) && (if b.persistent then !cached else box.Some? ==> entered)
    else
      (box.Some? ==> box.value == EmptyBox) && !cached && (entered ==> box.Some?)
  }

  class Machine {
    const spec: Spec
    /** What user code does: a state's init action and its event handler, given everything that has happened so far. */
    const userInit: (State, seq<Action>) -> Option<Request>
    const handler: (State, Event, seq<Action>) -> Reaction
    /** `myInstances`: all user states, in the order of their IDs. */
    const instances: seq<State>

    var current: Option<State>
    var pending: Option<Request>
    var pendingEvent: Option<Event>
    var history: map<State, State>
    var box: map<State, Box>
    var boxPlace: set<State>
    var created: nat          // boxes created so far
    var log: seq<Action>

    /** What the library asks of user code: transitions go to declared states, and init goes to proper substates. */
    ghost predicate Obedient()
    {
      && ClosedSpec(spec)
      && (forall s, l :: userInit(s, l).Some? ==>
            userInit(s, l).value.target in spec && IsProperSubstate(userInit(s, l).value.target, s))
      && (forall s, e, l :: handler(s, e, l).request.Some? ==> handler(s, e, l).request.value.target in spec)
    }

    ghost predicate IsState(s: State)
    {
      s == Root || s in spec
    }

    function BoxOf(s: State): Option<Box>
      reads this`box
    {
      if s in box then Some(box[s]) else None
    }

    ghost predicate BoxFitsIn(s: State, t: State)
      reads this`box, this`boxPlace
      requires t in spec
    {
      BoxFits(spec[t], t <= s, BoxOf(t), t in boxPlace)
    }

    /** Boxes exist as they should when exactly `s` and its superstates are entered. */
    ghost predicate BoxesFit(s: State)
      reads this`box, this`boxPlace
    {
      forall t {:trigger BoxFitsIn(s, t)} :: t in spec ==> BoxFitsIn(s, t)
    }

    /** The machine rests in state `s`: exactly `s` and its superstates are entered, boxes and histories agree. */
    ghost predicate In(s: State)
      reads this
    {
      && Obedient() && IsState(s)
      && Replay(log) == Stack(Chain(s)) && LeavesDeclared(spec, log)
      && BoxesFit(s)
      && history == Histories(spec, log)
    }

    ghost predicate Valid()
      reads this
    {
      && current.Some? && In(current.value)
      && (pending.Some? ==> IsState(pending.value.target))
    }

    // ---------- entry and exit ----------

    /** Boxes of persistent states survive: once created, they stay the same. */
    ghost predicate Survive(b: map<State, Box>, b': map<State, Box>)
    {
      forall s :: s in spec && spec[s].persistent && s in b ==> s in b' && b'[s] == b[s]
    }

    method CreateBox(s: State)
      requires ClosedSpec(spec) && s in spec && BoxesFit(Parent(s))
      modifies this`box, this`boxPlace, this`created
      ensures BoxesFit(s) && Survive(old(box), box)
      ensures s in old(box) ==> box == old(box) && boxPlace == old(boxPlace)
      ensures s !in old(box) ==> box == old(box)[s := if spec[s].hasBox then UserBox(old(created)) else EmptyBox]
      ensures s !in old(box) && spec[s].hasBox ==> boxPlace == old(boxPlace) - {s} && created == old(created) + 1
    {
      var b := spec[s];
      assert BoxFitsIn(Parent(s), s);
      if s !in box {
        if b.hasBox {
          box, boxPlace, created := box[s := UserBox(created)], boxPlace - {s}, created + 1;
        } else {
          box := box[s := EmptyBox];
        }
      }
      forall t | t in spec ensures BoxFitsIn(s, t) {
        assert old(BoxFitsIn(Parent(s), t));
        PrefixOfParent(t, s);
      }
    }

    /** `_StateInstance::entry` */
    method Entry(s: State, previous: State, first: bool)
      requires ClosedSpec(spec) && IsState(s)
      requires BoxesFit(s[..if first then Pivot(previous, s) else Common(previous, s)])
      modifies this`box, this`boxPlace, this`created, this`log
      ensures BoxesFit(s) && Survive(old(box), box)
      ensures log == old(log) + EntryLog(s, if first then Pivot(previous, s) else Common(previous, s))
      decreases |s|
    {
      if s == Root {
        return;
      }
      IsChildIsPrefix(previous, s);
      if first || !IsChild(previous, s) {
        CommonOfParent(previous, s);
        Entry(Parent(s), previous, false);
        CreateBox(s);
        log := log + [Entered(s)];
      } else {
        CommonIsLongest(previous, s, |s|);
        assert s[..|s|] == s;
      }
    }

    method DeleteBox(s: State)
      requires s in spec && s in box && s !in boxPlace
      modifies this`box, this`boxPlace
      ensures box == old(box) - {s} && boxPlace == old(boxPlace) + {s}
    {
      box, boxPlace := box - {s}, boxPlace + {s};
    }

    /** The box part of `exit`: the asserts in `deleteBox` and `_deleteBox` hold. */
    method ReleaseBox(s: State)
      requires ClosedSpec(spec) && s in spec && BoxesFit(s)
      modifies this`box, this`boxPlace
      ensures BoxesFit(Parent(s)) && Survive(old(box), box)
      ensures if spec[s].hasBox && !spec[s].persistent then box == old(box) - {s} && boxPlace == old(boxPlace) + {s}
        else box == old(box) && boxPlace == old(boxPlace)
    {
      assert BoxFitsIn(s, s);
      if BoxOf(s) != Some(EmptyBox) {
        if !spec[s].persistent {
          DeleteBox(s);
        }
      }
      forall t | t in spec ensures BoxFitsIn(Parent(s), t) {
        assert old(BoxFitsIn(s, t));
        PrefixOfParent(t, s);
      }
    }

    /** `_StateInstance::exit` */
    method Exit(s: State, next: State)
      requires ClosedSpec(spec) && IsState(s) && BoxesFit(s)
      modifies this`box, this`boxPlace, this`created, this`log
      ensures BoxesFit(s[..Pivot(s, next)]) && Survive(old(box), box)
      ensures log == old(log) + ExitLog(s, Pivot(s, next))
      decreases |s|
    {
      PivotOfParent(s, next);
      if s == Root {
        return;
      }
      IsChildIsPrefix(next, s);
      if s == next || !IsChild(next, s) {
        log := log + [Exited(s)];
        ReleaseBox(s);
        Exit(Parent(s), next);
      }
    }

    // ---------- history ----------

    /** Does a superstate of `s` select a history strategy? Decides which `_setHistorySuper` a state inherits. */
    predicate HistoryAbove(s: State)
      requires ClosedSpec(spec) && s in spec
      decreases |s|
    {
      |s| > 1 && (spec[Parent(s)].strategy != NoHistory || HistoryAbove(Parent(s)))
    }

    method SetHistorySuper(s: State, deep: State)
      requires ClosedSpec(spec) && IsState(s)
      modifies this`history
      ensures history == Recorded(spec, old(history), s, deep)
      decreases |s|, 1
    {
      if s != Root {
        SaveHistory(Parent(s), s, deep);
      }
    }

    method SaveHistory(s: State, shallow: State, deep: State)
      requires ClosedSpec(spec) && shallow in spec && s == Parent(shallow)
      modifies this`history
      ensures history == Recorded(spec, old(history), shallow, deep)
      decreases |s|, 2
    {
      if s == Root {
        return;
      }
      match spec[s].strategy {
        case NoHistory =>
        case Shallow => history := history[s := shallow];
        case Deep => history := history[s := deep];
      }
      if HistoryAbove(s) {
        SetHistorySuper(s, deep);
      } else {
        NothingToRecord(history, s, deep);
      }
    }

    lemma NothingToRecord(h: map<State, State>, s: State, deep: State)
      requires ClosedSpec(spec) && s in spec && !HistoryAbove(s)
      ensures Recorded(spec, h, s, deep) == h
      decreases |s|
    {
      if |s| > 1 {
        NothingToRecord(h, Parent(s), deep);
      }
    }

    method ClearHistory(s: State)
      requires Valid() && s in spec
      modifies this`history, this`log
      ensures Valid() && history == old(history) - {s} && log == old(log) + [Forgotten(s)]
    {
      InitRecords(spec, log, Forgotten(s));
      history, log := history - {s}, log + [Forgotten(s)];
    }

    // ---------- transitions ----------

    ghost function Code(): UserCode
    {
      UserCode(spec, userInit, handler)
    }

    ghost function Now(): Config
      requires current.Some?
      reads this
    {
      Config(current.value, pending, pendingEvent, log)
    }

    /** `_StateInstance::init` */
    method Init(s: State, byHistory: bool)
      requires In(s) && pending == None
      modifies this`pending, this`history, this`log
      ensures In(s)
      ensures var c := Inited(Code(), Config(s, None, pendingEvent, old(log)), byHistory, old(history));
        pending == c.pending && log == c.log
      ensures pending.Some? ==> pending.value.target in spec && IsProperSubstate(pending.value.target, s) && s != Root
    {
      if byHistory && s in history {
        RememberedIsSubstate(spec, s, log);
        pending := Some(Request(history[s], false));
        RememberedIsDeclared(spec, s, log);
        InitRecords(spec, log, Resumed(s));
        history, log := history - {s}, log + [Resumed(s)];
      } else {
        if s != Root {
          pending := userInit(s, log);
        }
        InitRecords(spec, log, Initialised(s));
        history, log := history - {s}, log + [Initialised(s)];
      }
    }

    /** The moving part of a transition: exit actions, history, entry actions. */
    method Move(p: State, n: State)
      requires In(p) && IsState(n)
      modifies this`current, this`history, this`box, this`boxPlace, this`created, this`log
      ensures In(n) && current == Some(n) && log == old(log) + TransitionLog(p, n) && Survive(old(box), box)
    {
      ghost var before := log;
      Exit(p, n);
      SetHistorySuper(p, p);
      log := log + [Left(p, n)];
      current := Some(n);
      assert n[..Pivot(p, n)] == p[..Pivot(p, n)];
      Entry(n, p, true);
      TransitionInParts(before, p, n);
      assert log == before + TransitionLog(p, n);
      TransitionRecords(spec, before, p, n);
      TransitionLeavesDeclared(spec, before, p, n);
      ReplayTransition(before, p, n);
    }

    /** One round of the inner loop of `rattleOn`. */
    method Transition()
      requires Valid() && pending.Some?
      modifies this`current, this`pending, this`history, this`box, this`boxPlace, this`created, this`log
      ensures Valid() && current == Some(old(pending).value.target) && Survive(old(box), box)
      ensures Now() == Transitioned(Code(), old(Now()))
      ensures pending.Some? ==> pending.value.target in spec && IsProperSubstate(pending.value.target, current.value)
      ensures current == Some(Root) ==> pending == None
    {
      var request := pending.value;
      Move(current.value, request.target);
      pending := None;
      Init(request.target, request.byHistory);
      // the assert at the end of the loop
      assert pending.Some? ==>
          IsChild(pending.value.target, current.value) && current.value != pending.value.target by {
        if pending.Some? {
          IsChildIsPrefix(pending.value.target, current.value);
        }
      }
    }

    /** The declared states that lie deeper in the tree than `t`. */
    ghost function Deeper(t: State): set<State>
    {
      set s | s in spec && |s| > |t|
    }

    /** The inner loop of `rattleOn`. It ends because init only ever goes deeper into the finite state tree. */
    method Settle() returns (ghost path: seq<Config>)
      requires Valid()
      modifies this`current, this`pending, this`history, this`box, this`boxPlace, this`created, this`log
      ensures Valid() && pending == None && Survive(old(box), box)
      ensures IsPath(Code(), path, old(Now()), Now())
      ensures old(pending) == None ==> path == [Now()]
      ensures old(pending).Some? ==> old(pending).value.target <= current.value
      ensures old(pending).Some? && old(pending).value.target == Root ==> current == Some(Root)
      ensures old(log) <= log && NoneHandled(log, |old(log)|, |log|)
    {
      ghost var first := true;
      path := [Now()];
      while pending.Some?
        invariant Valid() && IsPath(Code(), path, old(Now()), Now()) && Survive(old(box), box)
        invariant first ==> pending == old(pending) && current == old(current) && path == [Now()]
        invariant !first ==> old(pending).Some? && old(pending).value.target <= current.value
        invariant !first && old(pending).value.target == Root ==> current == Some(Root) && pending == None
        invariant !first && pending.Some? ==>
          pending.value.target in spec && IsProperSubstate(pending.value.target, current.value)
        invariant old(log) <= log && NoneHandled(log, |old(log)|, |log|)
        decreases first, Deeper(current.value)
      {
        ghost var from := current.value;
        OneStep(Code(), path, old(Now()), Now());
        ghost var more := MovesAndInit(Code(), Now());
        Transition();
        path := path + [Now()];
        if !first {
          assert current.value in spec && |current.value| > |from|;
          assert current.value in Deeper(from) && current.value !in Deeper(current.value);
          assert Deeper(current.value) <= Deeper(from);
          assert old(pending).value.target == current.value[..|old(pending).value.target|];
        }
        first := false;
      }
    }

    /** `event->dispatch`: the handler of the current state runs and may ask for a transition and another event. */
    method React(event: Event)
      requires Valid() && pending == None && pendingEvent == None
      modifies this`pending, this`pendingEvent, this`log
      ensures Valid() && Now() == Reacted(Code(), old(Now()), event)
    {
      var r := handler(current.value, event, log);
      HandlingKeeps(spec, log, current.value, event);
      pending, pendingEvent := r.request, r.event;
      log := log + [Handled(current.value, event)];
    }

    /** One round of the outer loop of `rattleOn`: transitions first, then an event. */
    method Round() returns (ghost path: seq<Config>)
      requires Valid() && (pending.Some? || pendingEvent.Some?)
      modifies this
      ensures Valid() && Survive(old(box), box) && IsPath(Code(), path, old(Now()), Now()) && |path| > 1
      ensures old(pendingEvent).Some? ==> HandledNext(old(log), old(pendingEvent.value), log)
      ensures old(pending == Some(Request(Root, false)) && pendingEvent == None) ==>
        current == Some(Root) && pending == None && pendingEvent == None
    {
      path := Settle();
      ghost var settled := Now();
      if pendingEvent.Some? {
        var event := pendingEvent.value;
        pendingEvent := None;
        React(event);
        EventTaken(Code(), path, old(Now()), settled, event, Now());
        path := path + [Now()];
      }
    }

    /** `rattleOn`, cut off after `limit` rounds of its outer loop, which need not end by itself. */
    method RattleOn(limit: nat) returns (done: bool, ghost path: seq<Config>)
      requires Valid()
      modifies this
      ensures Valid() && (done <==> pending == None && pendingEvent == None) && Survive(old(box), box)
      ensures IsPath(Code(), path, old(Now()), Now()) && (done || |path| > limit)
      ensures limit > 0 && old(pending.Some? || pendingEvent.Some?) ==> |path| > 1
      ensures limit > 0 && old(pendingEvent).Some? ==> HandledNext(old(log), old(pendingEvent.value), log)
      ensures old(pending == None && pendingEvent == None) ==>
        done && (current, log, box, history) == old((current, log, box, history))
      ensures old(pending == Some(Request(Root, false)) && pendingEvent == None) && limit > 0 ==>
        done && current == Some(Root)
    {
      var round := 0;
      path := [Now()];
      while (pending.Some? || pendingEvent.Some?) && round < limit
        invariant Valid() && round <= limit && Survive(old(box), box)
        invariant IsPath(Code(), path, old(Now()), Now()) && |path| > round
        invariant round == 0 ==> Now() == old(Now()) && box == old(box) && history == old(history)
        invariant round > 0 ==> old(pending.Some? || pendingEvent.Some?)
        invariant round > 0 && old(pendingEvent).Some? ==> HandledNext(old(log), old(pendingEvent.value), log)
        invariant old(pending == Some(Request(Root, false)) && pendingEvent == None) && round > 0 ==>
          current == Some(Root) && pending == None && pendingEvent == None
      {
        ghost var before := Now();
        ghost var steps := Round();
        BothPaths(Code(), path, steps, old(Now()), before, Now());
        path := path + steps[1..];
        LogGrows(Code(), steps, before, Now());
        if round > 0 && old(pendingEvent).Some? {
          StillHandledNext(old(log), old(pendingEvent.value), before.log, log);
        }
        round := round + 1;
      }
      done := !(pending.Some? || pendingEvent.Some?);
    }

    constructor (spec: Spec, instances: seq<State>,
                 userInit: (State, seq<Action>) -> Option<Request>, handler: (State, Event, seq<Action>) -> Reaction)
      ensures this.spec == spec && this.instances == instances && this.userInit == userInit && this.handler == handler
      ensures current == None && pending == None && pendingEvent == None
      ensures history == map[] && box == map[] && boxPlace == {} && log == []
    {
      this.spec, this.instances, this.userInit, this.handler := spec, instances, userInit, handler;
      current, pending, pendingEvent := None, None, None;
      history, box, boxPlace, log, created := map[], map[], {}, [], 0;
    }

    /** `start`: begin in Root, then go to the given state. */
    method Start(state: State, limit: nat) returns (done: bool, ghost path: seq<Config>)
      requires Obedient() && state in spec && current == None && pending == None && pendingEvent == None
      requires history == map[] && box == map[] && boxPlace == {} && log == []
      modifies this
      ensures Valid() && (done <==> pending == None && pendingEvent == None) && Survive(old(box), box)
      ensures IsPath(Code(), path, Config(Root, Some(Request(state, false)), None, []), Now())
      ensures (done || |path| > limit) && StartAnswered(Code(), state, limit, Now())
    {
      assert Chain(Root) == [];
      assert Histories(spec, []) == map[];
      forall t | t in spec ensures BoxFitsIn(Root, t) {
      }
      current := Some(Root);
      pending := Some(Request(state, false));
      done, path := RattleOn(limit);
      assert StartAnswered(Code(), state, limit, Now()) by {
        StartObeys(Code(), path, state, limit, Now());
      }
    }

    /** An event given to the machine from outside. */
    method Dispatch(event: Event, limit: nat) returns (done: bool, ghost path: seq<Config>)
      requires Valid() && pending == None && pendingEvent == None
      modifies this
      ensures Valid() && (done <==> pending == None && pendingEvent == None) && Survive(old(box), box)
      ensures IsPath(Code(), path, Reacted(Code(), old(Now()), event), Now()) && (done || |path| > limit)
      ensures EventAnswered(Code(), old(Now()), event, limit, Now())
      ensures AsksNothing(Code(), old(Now()), event) ==>
        done && (current, log, box, history) ==
          (old(current), old(log) + [Handled(old(current).value, event)], old(box), old(history))
    {
      ghost var before := Now();
      ghost var nothing := AsksNothing(Code(), before, event);
      React(event);
      assert nothing ==> pending == None && pendingEvent == None;
      assert log == before.log + [Handled(before.current, event)];
      done, path := RattleOn(limit);
      assert EventAnswered(Code(), before, event, limit, Now()) by {
        DispatchObeys(Code(), path, before, event, limit, Now());
      }
    }

    /** `shutdown`: every entered state is exited, and only persistent boxes and shared empty boxes are left. */
    method Shutdown()
      requires Valid() && pending == None && pendingEvent == None
      modifies this
      ensures current == None && Replay(log) == Stack([]) && Survive(old(box), box)
      ensures forall s :: s in spec && s in box ==> spec[s].persistent || box[s] == EmptyBox
      ensures CarriedOut(Code(), old(log), old(current).value, Request(Root, false), log)
    {
      ghost var before := Now().(pending := Some(Request(Root, false)));
      pending := Some(Request(Root, false));
      var done, path := RattleOn(1);
      RunObeys(Code(), path, before, Now(), |before.log|);
      assert Chain(Root) == [];
      forall s | s in spec && s in box ensures spec[s].persistent || box[s] == EmptyBox {
        assert BoxFitsIn(Root, s);
      }
      current := None;
    }

    /** Clears the history of a state and of all its substates. */
    method ClearHistoryDeep(instance: State)
      requires Valid() && instance in spec && forall s :: s in spec <==> s in instances
      modifies this`history, this`log
      ensures Valid()
      ensures forall s :: s in history <==> s in old(history) && !(instance <= s)
      ensures forall s :: s in history ==> history[s] == old(history)[s]
    {
      for i := 0 to |instances|
        invariant Valid()
        invariant forall s :: s in history <==> s in old(history) && !(s in instances[..i] && instance <= s)
        invariant forall s :: s in history ==> history[s] == old(history)[s]
      {
        var s := instances[i];
        IsChildIsPrefix(s, instance);
        assert instances[..i + 1] == instances[..i] + [s];
        if IsChild(s, instance) {
          ClearHistory(s);
        }
      }
      assert instances[..|instances|] == instances;
      assert history.Keys <= spec.Keys;
    }
  }

  lemma PrefixOfParent(t: State, s: State)
    requires s != Root
    ensures t != s ==> (t <= s <==> t <= Parent(s))
    ensures !(s <= Parent(s))
  {
    if t <= s && t != s {
      assert t == s[..|t|] == Parent(s)[..|t|];
    }
    if t <= Parent(s) {
      assert t == Parent(s)[..|t|] == s[..|t|];
    }
  }

  /** A state that a transition leaves has the same turning point as its parent. */
  lemma PivotOfParent(s: State, n: State)
    ensures s != Root && (s == n || !(s <= n)) ==>
      Pivot(s, n) == Pivot(Parent(s), n) <= |s| - 1 && s[..Pivot(s, n)] == Parent(s)[..Pivot(s, n)]
    ensures s == Root || (s != n && s <= n) ==> Pivot(s, n) == |s| && s[..|s|] == s
  {
    PivotMeans(s, n, s);
    if s != Root && (s == n || !(s <= n)) {
      var k := Pivot(s, n);
      if n != Root {
        assert Parent(s)[..k] == s[..k];
        CommonIsLongest(Parent(s), Parent(n), k);
        var j := Common(Parent(s), Parent(n));
        assert s[..j] == Parent(s)[..j];
        CommonIsLongest(s, Parent(n), j);
      }
    } else if s != Root {
      assert Parent(n)[..|s|] == n[..|s|] == s;
      assert s[..|s|] == s;
      CommonIsLongest(s, Parent(n), |s|);
    }
  }

  lemma CommonOfParent(p: State, s: State)
    requires s != Root
    ensures Pivot(p, s) == Common(p, Parent(s))
    ensures !(s <= p) ==> Common(p, s) == Common(p, Parent(s))
    ensures s[..Pivot(p, s)] == Parent(s)[..Pivot(p, s)]
  {
    var k := Common(p, s);
    if !(s <= p) {
      assert k < |s|;
      assert Parent(s)[..k] == s[..k];
      CommonIsLongest(p, Parent(s), k);
      var j := Common(p, Parent(s));
      assert s[..j] == Parent(s)[..j];
      CommonIsLongest(p, s, j);
    }
  }
}
