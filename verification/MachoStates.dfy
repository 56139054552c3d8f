/** The state tree of a `Macho` machine and what a log of its actions means. */
module MachoStates {

  /** A state is named by the chain of its superstates: Root is [], the parent of s drops the last element. */
  type State = seq<nat>

  const Root: State := []

  function Parent(s: State): State
    requires s != Root
  {
    s[..|s| - 1]
  }

  /** `_StateInstance::isChild`: is `t` the state `s` or one of its superstates? */
  predicate IsChild(s: State, t: State)
    decreases |s|
  {
    s == t || (s != Root && IsChild(Parent(s), t))
  }

  lemma {:induction false} IsChildIsPrefix(s: State, t: State)
    ensures IsChild(s, t) <==> t <= s
    decreases |s|
  {
    if s != Root {
      IsChildIsPrefix(Parent(s), t);
    }
  }

  datatype Strategy = NoHistory | Shallow | Deep

  datatype Behaviour = Behaviour(strategy: Strategy, hasBox: bool, persistent: bool)

  type Spec = map<State, Behaviour>

  /** Superstates of declared states are declared; Root is not a user state. */
  ghost predicate ClosedSpec(spec: Spec)
  {
    Root !in spec && forall s :: s in spec && |s| > 1 ==> Parent(s) in spec
  }

  lemma {:induction false} SuperstateDeclared(spec: Spec, s: State, k: nat)
    requires ClosedSpec(spec) && s in spec && 0 < k <= |s|
    ensures s[..k] in spec
    decreases |s|
  {
    if k == |s| {
      assert s[..k] == s;
    } else {
      assert Parent(s) in spec;
      SuperstateDeclared(spec, Parent(s), k);
      assert Parent(s)[..k] == s[..k];
    }
  }

  // ---------- actions ----------

  /** An event object, with its parameters. */
  type Event = nat

  datatype Action =
    | Entered(s: State)
    | Exited(s: State)
    | Left(from: State, to: State)   // history of the superstates of `from` is stored here
    | Initialised(s: State)          // the state's own init action
    | Resumed(s: State)              // init action replaced by a history transition
    | Forgotten(s: State)            // history cleared by the user
    | Handled(s: State, event: Event)

  /** The entered-but-not-exited states, innermost last; None when an entry or exit breaks stack discipline. */
  datatype Stack = Broken | Stack(states: seq<State>)

  ghost function Step(k: Stack, a: Action): Stack
  {
    if k.Broken? then Broken
    else match a
      case Entered(s) =>
        if s != Root && Parent(s) == (if k.states == [] then Root else k.states[|k.states| - 1])
        then Stack(k.states + [s]) else Broken
      case Exited(s) =>
        if k.states != [] && k.states[|k.states| - 1] == s then Stack(k.states[..|k.states| - 1]) else Broken
      case _ => k
  }

  ghost function Replay(log: seq<Action>): Stack
  {
    if log == [] then Stack([]) else Step(Replay(log[..|log| - 1]), log[|log| - 1])
  }

  lemma ReplayAppend(log: seq<Action>, a: Action)
    ensures Replay(log + [a]) == Step(Replay(log), a)
  {
    assert (log + [a])[..|log|] == log;
  }

  /** The user states on the way from Root to `s`. */
  ghost function Chain(s: State): seq<State>
  {
    seq(|s|, i requires 0 <= i < |s| => s[..i + 1])
  }

  lemma ChainOfParent(s: State)
    requires s != Root
    ensures Chain(s) == Chain(Parent(s)) + [s]
  {
    assert s[..|s|] == s;
    forall i | 0 <= i < |s| - 1 ensures Chain(s)[i] == Chain(Parent(s))[i] {
      assert Parent(s)[..i + 1] == s[..i + 1];
    }
  }

  // ---------- which states a transition leaves and enters ----------

  /** Depth of the innermost state that is a superstate of both, or one of the two itself. */
  ghost function Common(a: State, b: State): (k: nat)
    ensures k <= |a| && k <= |b| && a[..k] == b[..k]
    ensures k < |a| && k < |b| ==> a[k] != b[k]
  {
    if a == [] || b == [] || a[0] != b[0] then 0
    else
      var k := Common(a[1..], b[1..]);
      assert a[..k + 1] == [a[0]] + a[1..][..k] && b[..k + 1] == [b[0]] + b[1..][..k];
      k + 1
  }

  lemma CommonIsLongest(a: State, b: State, j: nat)
    requires j <= |a| && j <= |b| && a[..j] == b[..j]
    ensures j <= Common(a, b)
  {
    forall i | 0 <= i < j ensures a[i] == b[i] {
      assert a[i] == a[..j][i] && b[i] == b[..j][i];
    }
  }

  /** A transition from `p` to `n` turns at the innermost state that is `p` or a superstate of `p`, and is a
      superstate of `n` other than `n` itself. */
  ghost function Pivot(p: State, n: State): (k: nat)
    ensures k <= |p| && k <= |n| && p[..k] == n[..k]
  {
    if n == Root then 0
    else
      var k := Common(p, Parent(n));
      assert n[..k] == Parent(n)[..k];
      k
  }

  /** The states a transition leaves are those on the way to `p` that are not proper superstates of `n`;
      the states it enters are those on the way to `n` that are `n` or not on the way to `p`. */
  lemma PivotMeans(p: State, n: State, s: State)
    ensures s <= p && s != Root ==> (|s| > Pivot(p, n) <==> !(s <= n && s != n))
    ensures s <= n && s != Root ==> (|s| > Pivot(p, n) <==> s == n || !(s <= p))
  {
    var k := Pivot(p, n);
    if s != Root && n != Root {
      if s <= n && s != n && s <= p {
        assert Parent(n)[..|s|] == n[..|s|] == s == p[..|s|];
        CommonIsLongest(p, Parent(n), |s|);
      }
      if |s| <= k {
        assert s <= p ==> s == p[..|s|] == p[..k][..|s|] == n[..k][..|s|] == n[..|s|];
        assert s <= n ==> s == n[..|s|] == n[..k][..|s|] == p[..k][..|s|] == p[..|s|];
        assert k < |n|;
      }
    }
  }

  /** Leaving from `s` up to depth `k`, innermost first. */
  ghost function ExitLog(s: State, k: nat): seq<Action>
    decreases |s|
  {
    if |s| <= k then [] else [Exited(s)] + ExitLog(Parent(s), k)
  }

  /** Entering from depth `k` down to `s`, outermost first. */
  ghost function EntryLog(s: State, k: nat): seq<Action>
    decreases |s|
  {
    if |s| <= k then [] else EntryLog(Parent(s), k) + [Entered(s)]
  }

  lemma {:induction false} ReplayExits(log: seq<Action>, s: State, k: nat)
    requires Replay(log) == Stack(Chain(s)) && k <= |s|
    ensures Replay(log + ExitLog(s, k)) == Stack(Chain(s[..k]))
    decreases |s|
  {
    if |s| <= k {
      assert log + [] == log && s[..k] == s;
    } else {
      ReplayAppend(log, Exited(s));
      ChainOfParent(s);
      ReplayExits(log + [Exited(s)], Parent(s), k);
      assert log + ExitLog(s, k) == log + [Exited(s)] + ExitLog(Parent(s), k);
      assert Parent(s)[..k] == s[..k];
    }
  }

  lemma {:induction false} ReplayEntries(log: seq<Action>, s: State, k: nat)
    requires k <= |s| && Replay(log) == Stack(Chain(s[..k]))
    ensures Replay(log + EntryLog(s, k)) == Stack(Chain(s))
    decreases |s|
  {
    if |s| <= k {
      assert log + [] == log && s[..k] == s;
    } else {
      assert Parent(s)[..k] == s[..k];
      ReplayEntries(log, Parent(s), k);
      ChainOfParent(s);
      ReplayAppend(log + EntryLog(Parent(s), k), Entered(s));
      assert log + EntryLog(s, k) == log + EntryLog(Parent(s), k) + [Entered(s)];
    }
  }

  /** The log of a whole transition. */
  ghost function TransitionLog(p: State, n: State): seq<Action>
  {
    ExitLog(p, Pivot(p, n)) + [Left(p, n)] + EntryLog(n, Pivot(p, n))
  }

  lemma {:induction false} ExitLogHolds(p: State, k: nat, s: State)
    ensures Exited(s) in ExitLog(p, k) <==> s <= p && |s| > k
    decreases |p|
  {
    if |p| > k {
      ExitLogHolds(Parent(p), k, s);
      assert s <= p <==> s == p || s <= Parent(p) by {
        assert s <= p && |s| < |p| ==> s == p[..|s|] == Parent(p)[..|s|];
        assert s <= Parent(p) ==> s == Parent(p)[..|s|] == p[..|s|];
      }
    }
  }

  lemma {:induction false} EntryLogHolds(n: State, k: nat, s: State)
    ensures Entered(s) in EntryLog(n, k) <==> s <= n && |s| > k
    decreases |n|
  {
    if |n| > k {
      EntryLogHolds(Parent(n), k, s);
      assert s <= n <==> s == n || s <= Parent(n) by {
        assert s <= n && |s| < |n| ==> s == n[..|s|] == Parent(n)[..|s|];
        assert s <= Parent(n) ==> s == Parent(n)[..|s|] == n[..|s|];
      }
    }
  }

  /** A transition from `p` to `n` exits exactly the states on the way to `p` that are not proper superstates of `n`,
      and enters exactly `n` and the states on the way to `n` that are not on the way to `p`. */
  lemma TransitionIsExact(p: State, n: State, s: State)
    ensures Exited(s) in TransitionLog(p, n) <==> s != Root && s <= p && !(s <= n && s != n)
    ensures Entered(s) in TransitionLog(p, n) <==> s != Root && s <= n && (s == n || !(s <= p))
  {
    var k := Pivot(p, n);
    PivotMeans(p, n, s);
    ExitLogHolds(p, k, s);
    EntryLogHolds(n, k, s);
    MoveLogs(p, k);
    MoveLogs(n, k);
  }

  lemma TransitionInParts(log: seq<Action>, p: State, n: State)
    ensures log + TransitionLog(p, n) == log + ExitLog(p, Pivot(p, n)) + [Left(p, n)] + EntryLog(n, Pivot(p, n))
  {
  }

  /** A transition turns the stack of the old state into the stack of the new one. */
  lemma ReplayTransition(log: seq<Action>, p: State, n: State)
    requires Replay(log) == Stack(Chain(p))
    ensures Replay(log + TransitionLog(p, n)) == Stack(Chain(n))
  {
    var k := Pivot(p, n);
    ReplayExits(log, p, k);
    ReplayAppend(log + ExitLog(p, k), Left(p, n));
    ReplayEntries(log + ExitLog(p, k) + [Left(p, n)], n, k);
    TransitionInParts(log, p, n);
  }

  // ---------- history ----------

  /** The last state inside `s` that was left since the history of `s` was last used up or cleared. */
  datatype LastLeft = Nothing | LastLeft(state: State)

  ghost function LastLeftIn(s: State, log: seq<Action>): LastLeft
  {
    if log == [] then Nothing
    else match log[|log| - 1]
      case Left(p, _) => if s <= p && s != p then LastLeft(p) else LastLeftIn(s, log[..|log| - 1])
      case Initialised(t) => if s == t then Nothing else LastLeftIn(s, log[..|log| - 1])
      case Resumed(t) => if s == t then Nothing else LastLeftIn(s, log[..|log| - 1])
      case Forgotten(t) => if s == t then Nothing else LastLeftIn(s, log[..|log| - 1])
      case _ => LastLeftIn(s, log[..|log| - 1])
  }

  /** What a state's strategy makes of the last state left inside it. */
  ghost function Remembered(spec: Spec, s: State, log: seq<Action>): LastLeft
    requires s in spec
  {
    match LastLeftIn(s, log)
    case Nothing => Nothing
    case LastLeft(p) =>
      match spec[s].strategy
      case NoHistory => Nothing
      case Shallow => LastLeft(if |s| < |p| then p[..|s| + 1] else p)
      case Deep => LastLeft(p)
  }

  /** Whatever is remembered for a state is a proper substate of it. */
  lemma {:induction false} RememberedIsSubstate(spec: Spec, s: State, log: seq<Action>)
    requires s in spec && Remembered(spec, s, log).LastLeft?
    ensures var h := Remembered(spec, s, log).state; s <= h && s != h
    ensures var p := LastLeftIn(s, log).state; s <= p && s != p && Remembered(spec, s, log).state <= p
    decreases |log|
  {
    LastLeftIsInside(s, log);
  }

  lemma {:induction false} LastLeftIsInside(s: State, log: seq<Action>)
    requires LastLeftIn(s, log).LastLeft?
    ensures var p := LastLeftIn(s, log).state; s <= p && s != p
    decreases |log|
  {
    var a := log[|log| - 1];
    if a.Left? && s <= a.from && s != a.from {
    } else {
      LastLeftIsInside(s, log[..|log| - 1]);
    }
  }

  /** The histories of all states, as a table. */
  ghost function Histories(spec: Spec, log: seq<Action>): map<State, State>
  {
    map s | s in spec && Remembered(spec, s, log).LastLeft? :: Remembered(spec, s, log).state
  }

  /** What a strategy stores for state `a`. */
  ghost function Stored(strategy: Strategy, h: map<State, State>, a: State, shallow: State, deep: State)
    : map<State, State>
  {
    match strategy
    case NoHistory => h
    case Shallow => h[a := shallow]
    case Deep => h[a := deep]
  }

  /** What bubbling up from `s` stores: every proper superstate that keeps history gets the child on the way to `deep`
      or `deep` itself. */
  ghost function Recorded(spec: Spec, h: map<State, State>, s: State, deep: State): map<State, State>
    requires ClosedSpec(spec) && (s == Root || s in spec)
    decreases |s|
  {
    if |s| <= 1 then h
    else
      var a := Parent(s);
      Recorded(spec, Stored(spec[a].strategy, h, a, s, deep), a, deep)
  }

  ghost function Lookup(h: map<State, State>, s: State): LastLeft
  {
    if s in h then LastLeft(h[s]) else Nothing
  }

  lemma {:induction false} RecordedAt(spec: Spec, h: map<State, State>, s: State, deep: State, a: State)
    requires ClosedSpec(spec) && (s == Root || s in spec) && a in spec
    ensures Lookup(Recorded(spec, h, s, deep), a) ==
      if a <= s && a != s && spec[a].strategy != NoHistory
      then LastLeft(if spec[a].strategy == Shallow then s[..|a| + 1] else deep) else Lookup(h, a)
    decreases |s|
  {
    if |s| > 1 {
      var p := Parent(s);
      RecordedAt(spec, Stored(spec[p].strategy, h, p, s, deep), p, deep, a);
      if a <= s && a != s && a != p {
        assert a == s[..|a|] == p[..|a|];
        assert p[..|a| + 1] == s[..|a| + 1];
      }
      assert a <= p ==> a == p[..|a|] == s[..|a|];
      assert s[..|p| + 1] == s;
    }
  }

  lemma {:induction false} RecordedKeys(spec: Spec, h: map<State, State>, s: State, deep: State)
    requires ClosedSpec(spec) && (s == Root || s in spec) && h.Keys <= spec.Keys
    ensures Recorded(spec, h, s, deep).Keys <= spec.Keys
    decreases |s|
  {
    if |s| > 1 {
      var a := Parent(s);
      RecordedKeys(spec, Stored(spec[a].strategy, h, a, s, deep), a, deep);
    }
  }

  /** Storing history on leaving `p` brings the histories up to date. */
  lemma LeavingRecords(spec: Spec, log: seq<Action>, p: State, n: State)
    requires ClosedSpec(spec) && (p == Root || p in spec)
    ensures Histories(spec, log + [Left(p, n)]) == Recorded(spec, Histories(spec, log), p, p)
  {
    var log' := log + [Left(p, n)];
    assert log'[..|log|] == log;
    var h, h' := Histories(spec, log), Recorded(spec, Histories(spec, log), p, p);
    RecordedKeys(spec, h, p, p);
    forall a | a in spec ensures Lookup(Histories(spec, log'), a) == Lookup(h', a) {
      RecordedAt(spec, h, p, p, a);
    }
    forall a ensures Lookup(Histories(spec, log'), a) == Lookup(h', a) {
    }
    SameLookups(Histories(spec, log'), h');
  }

  lemma SameLookups(h: map<State, State>, h': map<State, State>)
    requires forall a :: Lookup(h, a) == Lookup(h', a)
    ensures h == h'
  {
    forall a ensures a in h <==> a in h' {
      assert Lookup(h, a) == Lookup(h', a);
    }
    forall a | a in h ensures h[a] == h'[a] {
      assert Lookup(h, a) == Lookup(h', a);
    }
  }

  /** Entries, exits and the handling of events leave the histories alone. */
  lemma {:induction false} MovesKeepHistories(spec: Spec, log: seq<Action>, more: seq<Action>)
    requires forall i :: 0 <= i < |more| ==> more[i].Entered? || more[i].Exited? || more[i].Handled?
    ensures Histories(spec, log + more) == Histories(spec, log)
    decreases |more|
  {
    if more == [] {
      assert log + more == log;
    } else {
      var init, a := more[..|more| - 1], more[|more| - 1];
      MovesKeepHistories(spec, log, init);
      assert log + more == log + init + [a];
      assert (log + init + [a])[..|log + init|] == log + init;
    }
  }

  lemma {:induction false} MoveLogs(s: State, k: nat)
    ensures forall i :: 0 <= i < |ExitLog(s, k)| ==> ExitLog(s, k)[i].Exited?
    ensures forall i :: 0 <= i < |EntryLog(s, k)| ==> EntryLog(s, k)[i].Entered?
    decreases |s|
  {
    if |s| > k {
      MoveLogs(Parent(s), k);
    }
  }

  /** Using up or clearing the history of `s` drops exactly its entry. */
  lemma DroppingRecords(spec: Spec, log: seq<Action>, a: Action)
    requires a.Initialised? || a.Resumed? || a.Forgotten?
    ensures Histories(spec, log + [a]) == Histories(spec, log) - {a.s}
  {
    assert (log + [a])[..|log|] == log;
  }

  ghost predicate LeavesDeclared(spec: Spec, log: seq<Action>)
  {
    forall i :: 0 <= i < |log| && log[i].Left? ==> log[i].from == Root || log[i].from in spec
  }

  lemma {:induction false} RememberedIsDeclared(spec: Spec, s: State, log: seq<Action>)
    requires ClosedSpec(spec) && s in spec && LeavesDeclared(spec, log)
    requires Remembered(spec, s, log).LastLeft?
    ensures Remembered(spec, s, log).state in spec
  {
    LastLeftIsInside(s, log);
    LastLeftIsDeclared(spec, s, log);
    var p := LastLeftIn(s, log).state;
    SuperstateDeclared(spec, p, |s| + 1);
  }

  lemma {:induction false} LastLeftIsDeclared(spec: Spec, s: State, log: seq<Action>)
    requires s in spec && Root !in spec && LeavesDeclared(spec, log) && LastLeftIn(s, log).LastLeft?
    ensures LastLeftIn(s, log).state in spec
    decreases |log|
  {
    var a := log[|log| - 1];
    if a.Left? && s <= a.from && s != a.from {
    } else {
      LastLeftIsDeclared(spec, s, log[..|log| - 1]);
    }
  }

  /** Over a whole transition the histories change by what is stored on leaving `p`, and by nothing else. */
  lemma TransitionRecords(spec: Spec, log: seq<Action>, p: State, n: State)
    requires ClosedSpec(spec) && (p == Root || p in spec)
    ensures Histories(spec, log + TransitionLog(p, n)) == Recorded(spec, Histories(spec, log), p, p)
  {
    var k := Pivot(p, n);
    var exited := log + ExitLog(p, k);
    var left := exited + [Left(p, n)];
    MoveLogs(p, k);
    MoveLogs(n, k);
    assert Histories(spec, exited) == Histories(spec, log) by {
      MovesKeepHistories(spec, log, ExitLog(p, k));
    }
    assert Histories(spec, left) == Recorded(spec, Histories(spec, exited), p, p) by {
      LeavingRecords(spec, exited, p, n);
    }
    assert Histories(spec, left + EntryLog(n, k)) == Histories(spec, left) by {
      MovesKeepHistories(spec, left, EntryLog(n, k));
    }
    TransitionInParts(log, p, n);
  }

  lemma TransitionLeavesDeclared(spec: Spec, log: seq<Action>, p: State, n: State)
    requires (p == Root || p in spec) && LeavesDeclared(spec, log)
    ensures LeavesDeclared(spec, log + TransitionLog(p, n))
  {
    MoveLogs(p, Pivot(p, n));
    MoveLogs(n, Pivot(p, n));
  }

  /** What an init or a clearing at state `a.s` leaves as it is, and what it drops. */
  lemma InitRecords(spec: Spec, log: seq<Action>, a: Action)
    requires a.Initialised? || a.Resumed? || a.Forgotten?
    ensures Replay(log + [a]) == Replay(log)
    ensures Histories(spec, log + [a]) == Histories(spec, log) - {a.s}
    ensures LeavesDeclared(spec, log) ==> LeavesDeclared(spec, log + [a])
  {
    ReplayAppend(log, a);
    DroppingRecords(spec, log, a);
  }

  /** The handling of an event leaves stack and histories as they are. */
  lemma HandlingKeeps(spec: Spec, log: seq<Action>, s: State, event: Event)
    ensures Replay(log + [Handled(s, event)]) == Replay(log)
    ensures Histories(spec, log + [Handled(s, event)]) == Histories(spec, log)
    ensures LeavesDeclared(spec, log) ==> LeavesDeclared(spec, log + [Handled(s, event)])
  {
    ReplayAppend(log, Handled(s, event));
    MovesKeepHistories(spec, log, [Handled(s, event)]);
  }
}
