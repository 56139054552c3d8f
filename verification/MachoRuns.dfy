/** What a `Macho` machine does, one step at a time, and what user code gets from it: every request for a transition is
    carried out next, and every event asked for is the next one handled. */
module MachoRuns {
  import opened MachoStates
  import opened Wrappers

  /** A pending transition: where to, and whether its init goes to the history of the target. */
  datatype Request = Request(target: State, byHistory: bool)

  /** What an event handler asks for: a transition, and another event. */
  datatype Reaction = Reaction(request: Option<Request>, event: Option<Event>)

  /** What user code does: a state's init action and its event handler, given everything that has happened so far. */
  datatype UserCode = UserCode(spec: Spec, userInit: (State, seq<Action>) -> Option<Request>,
                               handler: (State, Event, seq<Action>) -> Reaction)

  /** What a machine is about to do depends on this much of it: the log determines the histories. */
  datatype Config = Config(current: State, pending: Option<Request>, pendingEvent: Option<Event>, log: seq<Action>)

  // ---------- steps ----------

  /** Init at the current state: the history, if it is asked for and there is one, else the init action. */
  ghost function Inited(u: UserCode, c: Config, byHistory: bool, h: map<State, State>): Config
  {
    var s := c.current;
    if byHistory && s in h then c.(pending := Some(Request(h[s], false)), log := c.log + [Resumed(s)])
    else c.(pending := if s == Root then None else u.userInit(s, c.log), log := c.log + [Initialised(s)])
  }

  /** A pending transition: exits and entries, then init. */
  ghost function Transitioned(u: UserCode, c: Config): Config
    requires c.pending.Some?
  {
    var target := c.pending.value.target;
    var moved := c.log + TransitionLog(c.current, target);
    Inited(u, Config(target, None, c.pendingEvent, moved), c.pending.value.byHistory, Histories(u.spec, moved))
  }

  /** The handler of the current state gets the event; it asks for a transition and another event, or for neither. */
  ghost function Reacted(u: UserCode, c: Config, event: Event): Config
  {
    var r := u.handler(c.current, event, c.log);
    Config(c.current, r.request, r.event, c.log + [Handled(c.current, event)])
  }

  /** Transitions go before events; a machine without either rests. */
  ghost function Next(u: UserCode, c: Config): Config
  {
    if c.pending.Some? then Transitioned(u, c)
    else if c.pendingEvent.Some? then Reacted(u, c, c.pendingEvent.value)
    else c
  }

  /** `path` leads from `c` to `c'`, step by step. */
  ghost predicate IsPath(u: UserCode, path: seq<Config>, c: Config, c': Config)
  {
    && path != [] && path[0] == c && path[|path| - 1] == c'
    && forall i :: 0 <= i < |path| - 1 ==> path[i + 1] == Next(u, path[i])
  }

  lemma OneStep(u: UserCode, path: seq<Config>, c: Config, c': Config)
    requires IsPath(u, path, c, c')
    ensures IsPath(u, path + [Next(u, c')], c, Next(u, c'))
  {
  }

  lemma BothPaths(u: UserCode, path: seq<Config>, more: seq<Config>, c: Config, c': Config, c'': Config)
    requires IsPath(u, path, c, c') && IsPath(u, more, c', c'')
    ensures IsPath(u, path + more[1..], c, c'')
  {
    var all := path + more[1..];
    forall i | 0 <= i < |all| - 1 ensures all[i + 1] == Next(u, all[i]) {
      if i + 1 < |path| {
        assert all[i] == path[i] && all[i + 1] == path[i + 1];
      } else {
        assert all[i + 1] == more[i + 2 - |path|] && all[i] == more[i + 1 - |path|];
      }
    }
  }

  // ---------- what user code asks for, and what it gets ----------

  /** After `log`, in state `s`, the request is carried out: the exits and entries on the way to its target, and there
      the history, if that is asked for and there is one, or else the init action. */
  ghost predicate CarriedOut(u: UserCode, log: seq<Action>, s: State, r: Request, log': seq<Action>)
  {
    var arrived := log + TransitionLog(s, r.target);
    var resumes := r.byHistory && r.target in Histories(u.spec, arrived);
    arrived + [if resumes then Resumed(r.target) else Initialised(r.target)] <= log'
  }

  /** The transition that user code asks for at entry `k` of the log: an event handler, an init action, or a history in
      its place. */
  ghost function AskedFor(u: UserCode, log: seq<Action>, k: nat): Option<Request>
    requires k < |log|
  {
    match log[k]
    case Handled(s, event) => u.handler(s, event, log[..k]).request
    case Initialised(s) => if s == Root then None else u.userInit(s, log[..k])
    case Resumed(s) =>
      var h := Histories(u.spec, log[..k]);
      if s in h then Some(Request(h[s], false)) else None
    case _ => None
  }

  predicate Asks(a: Action)
  {
    a.Handled? || a.Initialised? || a.Resumed?
  }

  /** What was asked for at entry `k` is what happens next. If nothing was asked for, an event is handled next. */
  ghost predicate Answered(u: UserCode, log: seq<Action>, k: nat)
    requires k + 1 < |log|
  {
    Asks(log[k]) ==>
      match AskedFor(u, log, k)
      case Some(r) => CarriedOut(u, log[..k + 1], log[k].s, r, log)
      case None => log[k + 1].Handled?
  }

  ghost predicate NoneHandled(log: seq<Action>, i: nat, j: nat)
    requires j <= |log|
  {
    forall m :: i <= m < j ==> !log[m].Handled?
  }

  /** If the event of entry `k'` is the next one handled after that of entry `k`, the handler at `k` asked for it, and
      it is handled in the state that the entries and exits have led to. */
  ghost predicate FollowedBy(u: UserCode, log: seq<Action>, k: nat, k': nat)
    requires k < k' < |log| && log[k].Handled?
  {
    log[k'].Handled? && NoneHandled(log, k + 1, k') ==>
      && u.handler(log[k].s, log[k].event, log[..k]).event == Some(log[k'].event)
      && Replay(log[..k']) == Stack(Chain(log[k'].s))
  }

  /** From entry `base` of the log on, everything asked for is done next. */
  ghost predicate AllAnswered(u: UserCode, log: seq<Action>, base: nat)
  {
    && (forall k: nat :: base <= k && k + 1 < |log| ==> Answered(u, log, k))
    && (forall k: nat, k': nat :: base <= k < k' < |log| && log[k].Handled? ==> FollowedBy(u, log, k, k'))
  }

  /** What the last entry of the log asks for is pending. */
  ghost predicate LastAsks(u: UserCode, c: Config)
    requires c.log != []
  {
    var k := |c.log| - 1;
    Asks(c.log[k]) && c.log[k].s == c.current && AskedFor(u, c.log, k) == c.pending
  }

  /** The event that the last handler asked for is pending. */
  ghost predicate LastEventAsked(u: UserCode, c: Config, base: nat)
  {
    forall k: nat :: base <= k < |c.log| && c.log[k].Handled? && NoneHandled(c.log, k + 1, |c.log|) ==>
      u.handler(c.log[k].s, c.log[k].event, c.log[..k]).event == c.pendingEvent
  }

  /** From entry `base` of the log on, everything asked for was done, or is pending. */
  ghost predicate Obeyed(u: UserCode, c: Config, base: nat)
  {
    && base <= |c.log| && Replay(c.log) == Stack(Chain(c.current))
    && AllAnswered(u, c.log, base) && (|c.log| > base ==> LastAsks(u, c)) && LastEventAsked(u, c, base)
  }

  /** After `log`, the next event handled is `event`, in the state that the entries and exits have led to. */
  ghost predicate HandledNext(log: seq<Action>, event: Event, log': seq<Action>)
  {
    exists k :: HandledAt(log, event, log', k)
  }

  ghost predicate HandledAt(log: seq<Action>, event: Event, log': seq<Action>, k: nat)
  {
    && |log| <= k < |log'| && log'[k].Handled? && log'[k].event == event && NoneHandled(log', |log|, k)
    && Replay(log'[..k]) == Stack(Chain(log'[k].s))
  }

  // ---------- every step keeps this ----------

  lemma {:induction false} SamePrefix(log: seq<Action>, more: seq<Action>, k: nat)
    requires k <= |log|
    ensures (log + more)[..k] == log[..k]
  {
  }

  lemma {:induction false} StillAnswered(u: UserCode, log: seq<Action>, more: seq<Action>, k: nat)
    requires k + 1 < |log| && Answered(u, log, k)
    ensures Answered(u, log + more, k)
  {
    SamePrefix(log, more, k);
    SamePrefix(log, more, k + 1);
  }

  lemma {:induction false} StillFollowed(u: UserCode, log: seq<Action>, more: seq<Action>, k: nat, k': nat)
    requires k < k' < |log| && log[k].Handled? && FollowedBy(u, log, k, k')
    ensures FollowedBy(u, log + more, k, k')
  {
    SamePrefix(log, more, k);
    SamePrefix(log, more, k');
    if NoneHandled(log + more, k + 1, k') {
      forall m | k + 1 <= m < k' ensures !log[m].Handled? {
        assert (log + more)[m] == log[m];
      }
    }
  }

  /** What `k` asked for is done by what is appended next. */
  lemma {:induction false} NowAnswered(u: UserCode, log: seq<Action>, more: seq<Action>)
    requires log != [] && more != [] && Asks(log[|log| - 1])
    requires match AskedFor(u, log, |log| - 1)
      case Some(r) => CarriedOut(u, log, log[|log| - 1].s, r, log + more)
      case None => more[0].Handled?
    ensures Answered(u, log + more, |log| - 1)
  {
    SamePrefix(log, more, |log| - 1);
    SamePrefix(log, more, |log|);
    assert log[..|log|] == log;
  }

  lemma {:induction false} InitAsks(u: UserCode, c: Config)
    requires c.pending.Some?
    ensures LastAsks(u, Transitioned(u, c))
  {
    var target := c.pending.value.target;
    var moved := c.log + TransitionLog(c.current, target);
    var c' := Transitioned(u, c);
    assert c'.log[..|moved|] == moved && |c'.log| == |moved| + 1;
  }

  /** The log of a transition: moves, in which nothing is asked for, and an init. */
  lemma {:induction false} MovesAndInit(u: UserCode, c: Config) returns (more: seq<Action>)
    requires c.pending.Some?
    ensures more != [] && Transitioned(u, c).log == c.log + more
    ensures forall i :: 0 <= i < |more| ==> !more[i].Handled? && (i < |more| - 1 ==> !Asks(more[i]))
    ensures CarriedOut(u, c.log, c.current, c.pending.value, c.log + more)
  {
    var p, n := c.current, c.pending.value.target;
    var moves := TransitionLog(p, n);
    var c' := Transitioned(u, c);
    more := moves + [c'.log[|c'.log| - 1]];
    assert c'.log == c.log + more;
    MoveLogs(p, Pivot(p, n));
    MoveLogs(n, Pivot(p, n));
  }

  lemma {:induction false} TransitionObeys(u: UserCode, c: Config, base: nat)
    requires c.pending.Some? && Obeyed(u, c, base)
    ensures Obeyed(u, Transitioned(u, c), base)
  {
    var c' := Transitioned(u, c);
    var more := MovesAndInit(u, c);
    InitAsks(u, c);
    TransitionReplays(u, c);
    MoreMoves(u, c.log, more, base, c);
    EventStillAsked(u, c, c', base, more);
  }

  lemma {:induction false} TransitionReplays(u: UserCode, c: Config)
    requires c.pending.Some? && Replay(c.log) == Stack(Chain(c.current))
    ensures Replay(Transitioned(u, c).log) == Stack(Chain(Transitioned(u, c).current))
  {
    var n := c.pending.value.target;
    var c' := Transitioned(u, c);
    ReplayTransition(c.log, c.current, n);
    ReplayAppend(c.log + TransitionLog(c.current, n), c'.log[|c'.log| - 1]);
  }

  lemma {:induction false} MoreMoves(u: UserCode, log: seq<Action>, more: seq<Action>, base: nat, c: Config)
    requires c.log == log && c.pending.Some? && Obeyed(u, c, base) && more != []
    requires forall i :: 0 <= i < |more| ==> !more[i].Handled? && (i < |more| - 1 ==> !Asks(more[i]))
    requires CarriedOut(u, log, c.current, c.pending.value, log + more)
    ensures AllAnswered(u, log + more, base)
  {
    forall k: nat | base <= k && k + 1 < |log + more| ensures Answered(u, log + more, k) {
      if k + 1 < |log| {
        StillAnswered(u, log, more, k);
      } else if k + 1 == |log| {
        NowAnswered(u, log, more);
      } else {
        assert (log + more)[k] == more[k - |log|];
      }
    }
    forall k: nat, k': nat | base <= k < k' < |log + more| && (log + more)[k].Handled?
      ensures FollowedBy(u, log + more, k, k')
    {
      if k' < |log| {
        StillFollowed(u, log, more, k, k');
      } else {
        assert (log + more)[k'] == more[k' - |log|];
      }
    }
  }

  lemma {:induction false} EventStillAsked(u: UserCode, c: Config, c': Config, base: nat, more: seq<Action>)
    requires LastEventAsked(u, c, base) && c'.log == c.log + more && c'.pendingEvent == c.pendingEvent
    requires forall i :: 0 <= i < |more| ==> !more[i].Handled?
    ensures LastEventAsked(u, c', base)
  {
    forall i | |c.log| <= i < |c'.log| ensures !c'.log[i].Handled? {
      assert c'.log[i] == more[i - |c.log|];
    }
    forall k: nat | base <= k < |c'.log| && c'.log[k].Handled? && NoneHandled(c'.log, k + 1, |c'.log|)
      ensures u.handler(c'.log[k].s, c'.log[k].event, c'.log[..k]).event == c'.pendingEvent
    {
      SamePrefix(c.log, more, k);
      forall m | k + 1 <= m < |c.log| ensures !c.log[m].Handled? {
        assert c'.log[m] == c.log[m];
      }
    }
  }

  lemma {:induction false} ReactionObeys(u: UserCode, c: Config, event: Event, base: nat)
    requires c.pending == None && Obeyed(u, c, base) && (c.pendingEvent == Some(event) || base == |c.log|)
    ensures Obeyed(u, Reacted(u, c, event), base)
  {
    var c' := Reacted(u, c, event);
    var a := Handled(c.current, event);
    ReplayAppend(c.log, a);
    assert c'.log[..|c.log|] == c.log;
    forall k: nat | base <= k && k + 1 < |c'.log| ensures Answered(u, c'.log, k) {
      if k + 1 < |c.log| {
        StillAnswered(u, c.log, [a], k);
      } else {
        NowAnswered(u, c.log, [a]);
      }
    }
    forall k: nat, k': nat | base <= k < k' < |c'.log| && c'.log[k].Handled? ensures FollowedBy(u, c'.log, k, k') {
      if k' < |c.log| {
        StillFollowed(u, c.log, [a], k, k');
      } else if NoneHandled(c'.log, k + 1, k') {
        SamePrefix(c.log, [a], k);
        forall m | k + 1 <= m < |c.log| ensures !c.log[m].Handled? {
          assert c'.log[m] == c.log[m];
        }
        assert NoneHandled(c.log, k + 1, |c.log|);
      }
    }
    assert c'.log[|c.log|].Handled?;
  }

  lemma {:induction false} PathObeys(u: UserCode, path: seq<Config>, c: Config, c': Config, base: nat)
    requires IsPath(u, path, c, c') && Obeyed(u, c, base)
    ensures Obeyed(u, c', base) && c.log <= c'.log
    decreases |path|
  {
    if |path| > 1 {
      var before := path[|path| - 2];
      assert IsPath(u, path[..|path| - 1], c, before) && c' == Next(u, before);
      PathObeys(u, path[..|path| - 1], c, before, base);
      if before.pending.Some? {
        TransitionObeys(u, before, base);
        var more := MovesAndInit(u, before);
      } else if before.pendingEvent.Some? {
        ReactionObeys(u, before, before.pendingEvent.value, base);
      }
    }
  }

  lemma {:induction false} LogGrows(u: UserCode, path: seq<Config>, c: Config, c': Config)
    requires IsPath(u, path, c, c') && Replay(c.log) == Stack(Chain(c.current))
    ensures c.log <= c'.log
  {
    PathObeys(u, path, c, c', |c.log|);
  }

  /** The first step that a machine takes. */
  lemma {:induction false} FirstStep(u: UserCode, path: seq<Config>, c: Config, c': Config)
    requires IsPath(u, path, c, c') && |path| > 1 && Replay(c.log) == Stack(Chain(c.current))
    ensures c.pending.Some? ==> CarriedOut(u, c.log, c.current, c.pending.value, c'.log)
    ensures c.pending == None && c.pendingEvent.Some? ==> c.log + [Handled(c.current, c.pendingEvent.value)] <= c'.log
  {
    var next := path[1];
    assert IsPath(u, path[1..], next, c');
    if c.pending.Some? {
      TransitionReplays(u, c);
      var more := MovesAndInit(u, c);
    } else if c.pendingEvent.Some? {
      ReplayAppend(c.log, Handled(c.current, c.pendingEvent.value));
    }
    PathObeys(u, path[1..], next, c', |next.log|);
  }

  lemma {:induction false} StillHandledNext(log: seq<Action>, event: Event, log': seq<Action>, log'': seq<Action>)
    requires HandledNext(log, event, log') && log' <= log''
    ensures HandledNext(log, event, log'')
  {
    var k :| HandledAt(log, event, log', k);
    SamePrefix(log', log''[|log'|..], k);
    assert log'' == log' + log''[|log'|..];
    assert HandledAt(log, event, log'', k);
  }

  /** Without any other event handled in between. */
  lemma {:induction false} HandlesNow(log: seq<Action>, moved: seq<Action>, s: State, event: Event)
    requires log <= moved && NoneHandled(moved, |log|, |moved|) && Replay(moved) == Stack(Chain(s))
    ensures HandledNext(log, event, moved + [Handled(s, event)])
  {
    var log' := moved + [Handled(s, event)];
    assert log'[..|moved|] == moved;
    assert HandledAt(log, event, log', |moved|);
  }

  /** A round of transitions without an event in between, and then the event that was pending all the time. */
  lemma {:induction false} EventTaken(u: UserCode, path: seq<Config>, c: Config, settled: Config, event: Event,
                                      c': Config)
    requires IsPath(u, path, c, settled) && settled.pending == None && settled.pendingEvent == Some(event)
    requires c.log <= settled.log && NoneHandled(settled.log, |c.log|, |settled.log|)
    requires Replay(settled.log) == Stack(Chain(settled.current)) && c' == Reacted(u, settled, event)
    ensures IsPath(u, path + [c'], c, c') && HandledNext(c.log, event, c'.log)
  {
    OneStep(u, path, c, settled);
    HandlesNow(c.log, settled.log, settled.current, event);
  }

  /** Over a whole run: everything asked for on the way is done next, and when nothing is pending at the end, nothing
      more was asked for. */
  lemma {:induction false} RunObeys(u: UserCode, path: seq<Config>, c: Config, c': Config, base: nat)
    requires IsPath(u, path, c, c') && Obeyed(u, c, base)
    ensures c.log <= c'.log && AllAnswered(u, c'.log, base)
    ensures c'.pending == None && |c'.log| > base ==> AskedFor(u, c'.log, |c'.log| - 1) == None
    ensures |path| > 1 && c.pending.Some? ==> CarriedOut(u, c.log, c.current, c.pending.value, c'.log)
  {
    PathObeys(u, path, c, c', base);
    if |path| > 1 {
      FirstStep(u, path, c, c');
    }
  }

  /** What a machine does from its start in Root, in `limit` rounds: first the transition to the given state, then all
      that is asked for on the way. */
  ghost predicate StartAnswered(u: UserCode, state: State, limit: nat, c': Config)
  {
    && AllAnswered(u, c'.log, 0) && (limit > 0 ==> CarriedOut(u, [], Root, Request(state, false), c'.log))
    && (c'.pending == None && c'.log != [] ==> AskedFor(u, c'.log, |c'.log| - 1) == None)
  }

  lemma {:induction false} StartObeys(u: UserCode, path: seq<Config>, state: State, limit: nat, c': Config)
    requires IsPath(u, path, Config(Root, Some(Request(state, false)), None, []), c') && (limit > 0 ==> |path| > 1)
    ensures StartAnswered(u, state, limit, c')
  {
    var c := Config(Root, Some(Request(state, false)), None, []);
    assert Chain(Root) == [];
    RunObeys(u, path, c, c', 0);
  }

  ghost predicate AsksNothing(u: UserCode, c: Config, event: Event)
  {
    u.handler(c.current, event, c.log) == Reaction(None, None)
  }

  /** What a machine at rest makes of an event in `limit` rounds: the handler of the current state gets it; the
      transition that the handler asks for comes next, then the event that it asks for; and so on for all that is asked
      for on the way. When nothing is pending at the end, nothing more was asked for. */
  ghost predicate EventAnswered(u: UserCode, c: Config, event: Event, limit: nat, c': Config)
  {
    var answer, handled := u.handler(c.current, event, c.log), c.log + [Handled(c.current, event)];
    && handled <= c'.log && AllAnswered(u, c'.log, |c.log|)
    && (answer.request.Some? && limit > 0 ==> CarriedOut(u, handled, c.current, answer.request.value, c'.log))
    && (answer.event.Some? && limit > 0 ==> HandledNext(handled, answer.event.value, c'.log))
    && (c'.pending == None ==> AskedFor(u, c'.log, |c'.log| - 1) == None)
  }

  lemma {:induction false} DispatchObeys(u: UserCode, path: seq<Config>, c: Config, event: Event, limit: nat,
                                         c': Config)
    requires c.pending == None && Replay(c.log) == Stack(Chain(c.current))
    requires var c1 := Reacted(u, c, event);
      && IsPath(u, path, c1, c')
      && (limit > 0 && (c1.pending.Some? || c1.pendingEvent.Some?) ==> |path| > 1)
      && (limit > 0 && c1.pendingEvent.Some? ==> HandledNext(c1.log, c1.pendingEvent.value, c'.log))
    ensures EventAnswered(u, c, event, limit, c')
  {
    ReactionObeys(u, c, event, |c.log|);
    RunObeys(u, path, Reacted(u, c, event), c', |c.log|);
  }
}
