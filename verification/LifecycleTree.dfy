/** Which modules take part in an operation, by their places in the module tree. */
module LifecycleTree {
  import opened Lifecycle

  /** The place of a module below another: the index of a child, of a child of that child, and so on. */
  type Path = seq<nat>

  predicate IsPath(m: Module, p: Path)
    decreases |p|
  {
    p == [] || (p[0] < |m.children| && IsPath(m.children[p[0]], p[1..]))
  }

  function At(m: Module, p: Path): Module
    requires IsPath(m, p)
    decreases |p|
  {
    if p == [] then m else At(m.children[p[0]], p[1..])
  }

  /** There is a module at `p` that takes part. Those on the way to it need not. */
  ghost predicate TakesPart(m: Module, p: Path)
  {
    IsPath(m, p) && At(m, p).isLifecycle
  }

  /** A preorder walk comes to `p` before it comes to `q`: above it, or in an earlier branch. */
  predicate Precedes(p: Path, q: Path)
    decreases |p|
  {
    q != [] && (p == [] || p[0] < q[0] || (p[0] == q[0] && Precedes(p[1..], q[1..])))
  }

  lemma {:induction false} PrecedesIsStrict(p: Path, q: Path)
    ensures Precedes(p, q) ==> p != q && !Precedes(q, p)
    ensures p == q || Precedes(p, q) || Precedes(q, p)
    decreases |p|
  {
    if p != [] && q != [] {
      PrecedesIsStrict(p[1..], q[1..]);
      assert p == [p[0]] + p[1..] && q == [q[0]] + q[1..];
    }
  }

  ghost predicate InPreorder(paths: seq<Path>)
  {
    forall i, j :: 0 <= i < j < |paths| ==> Precedes(paths[i], paths[j])
  }

  /** The walk visits the places `paths` of `m`, in this order, and finds the IDs `ids`. */
  ghost predicate Visits(m: Module, paths: seq<Path>, ids: seq<ModuleId>)
  {
    && |paths| == |ids| && InPreorder(paths)
    && (forall i :: 0 <= i < |paths| ==> TakesPart(m, paths[i]) && At(m, paths[i]).id == ids[i])
    && (forall p :: TakesPart(m, p) ==> p in paths)
  }

  /** The same below the first `k` of the modules `ms`. */
  ghost predicate TakesPartIn(ms: seq<Module>, k: nat, p: Path)
  {
    p != [] && p[0] < k <= |ms| && TakesPart(ms[p[0]], p[1..])
  }

  ghost predicate VisitsAll(ms: seq<Module>, k: nat, paths: seq<Path>, ids: seq<ModuleId>)
  {
    && |paths| == |ids| && InPreorder(paths)
    && (forall i :: 0 <= i < |paths| ==>
          TakesPartIn(ms, k, paths[i]) && At(ms[paths[i][0]], paths[i][1..]).id == ids[i])
    && (forall p :: TakesPartIn(ms, k, p) ==> p in paths)
  }

  ghost function Below(k: nat, paths: seq<Path>): (r: seq<Path>)
    ensures |r| == |paths| && forall i :: 0 <= i < |r| ==> r[i] == [k] + paths[i]
  {
    seq(|paths|, i requires 0 <= i < |paths| => [k] + paths[i])
  }

  /** The participants are the modules of the tree, at any depth, that take part, each place once, in preorder. */
  lemma {:induction false} ParticipantsInPreorder(m: Module) returns (paths: seq<Path>)
    ensures Visits(m, paths, Participants(m))
    decreases m, 0
  {
    var below := ForestInPreorder(m.children, |m.children|);
    assert m.children[..|m.children|] == m.children;
    paths := if m.isLifecycle then [[]] + below else below;
    ChildrenAreBelow(m, below);
    if m.isLifecycle {
      RootFirst(m, below, AllParticipants(m.children));
    } else {
      OnlyBelow(m, below, AllParticipants(m.children));
      assert [] + AllParticipants(m.children) == AllParticipants(m.children);
    }
  }

  /** The same for the places below `m`, without `m` itself. */
  ghost predicate VisitsBelow(m: Module, paths: seq<Path>, ids: seq<ModuleId>)
  {
    && |paths| == |ids| && InPreorder(paths)
    && (forall i :: 0 <= i < |paths| ==> paths[i] != [] && TakesPart(m, paths[i]) && At(m, paths[i]).id == ids[i])
    && (forall p :: p != [] && TakesPart(m, p) ==> p in paths)
  }

  lemma {:induction false} ChildrenAreBelow(m: Module, paths: seq<Path>)
    requires VisitsAll(m.children, |m.children|, paths, AllParticipants(m.children))
    ensures VisitsBelow(m, paths, AllParticipants(m.children))
  {
    forall p | p != [] && TakesPart(m, p) ensures p in paths {
      assert TakesPartIn(m.children, |m.children|, p);
    }
    forall i | 0 <= i < |paths|
      ensures paths[i] != [] && TakesPart(m, paths[i]) && At(m, paths[i]).id == AllParticipants(m.children)[i]
    {
      assert TakesPartIn(m.children, |m.children|, paths[i]);
    }
  }

  lemma {:induction false} RootFirst(m: Module, below: seq<Path>, ids: seq<ModuleId>)
    requires m.isLifecycle && VisitsBelow(m, below, ids)
    ensures Visits(m, [[]] + below, [m.id] + ids)
  {
    var paths: seq<Path> := [[]] + below;
    forall i | 0 <= i < |paths| ensures TakesPart(m, paths[i]) && At(m, paths[i]).id == ([m.id] + ids)[i] {
      assert i > 0 ==> paths[i] == below[i - 1];
    }
    forall p | TakesPart(m, p) ensures p in paths {
      assert paths[0] == [];
      assert p in below ==> p in paths;
    }
    EmptyPathFirst(below);
  }

  lemma {:induction false} EmptyPathFirst(below: seq<Path>)
    requires InPreorder(below) && forall i :: 0 <= i < |below| ==> below[i] != []
    ensures InPreorder([[]] + below)
  {
    var paths: seq<Path> := [[]] + below;
    forall i, j | 0 <= i < j < |paths| ensures Precedes(paths[i], paths[j]) {
      if i > 0 {
        assert Precedes(below[i - 1], below[j - 1]);
      }
    }
  }

  lemma {:induction false} OnlyBelow(m: Module, below: seq<Path>, ids: seq<ModuleId>)
    requires !m.isLifecycle && VisitsBelow(m, below, ids)
    ensures Visits(m, below, ids)
  {
  }

  lemma {:induction false} ForestInPreorder(ms: seq<Module>, k: nat) returns (paths: seq<Path>)
    requires k <= |ms|
    ensures VisitsAll(ms, k, paths, AllParticipants(ms[..k]))
    decreases ms, k
  {
    if k == 0 {
      paths := [];
    } else {
      var earlier := ForestInPreorder(ms, k - 1);
      var here := ParticipantsInPreorder(ms[k - 1]);
      assert ms[..k] == ms[..k - 1] + [ms[k - 1]];
      AllParticipantsAppend(ms[..k - 1], ms[k - 1]);
      paths := earlier + Below(k - 1, here);
      OneMoreTree(ms, k, earlier, AllParticipants(ms[..k - 1]), here, Participants(ms[k - 1]));
    }
  }

  lemma {:induction false} OneMoreTree(ms: seq<Module>, k: nat, earlier: seq<Path>, ids: seq<ModuleId>,
                                       here: seq<Path>, ids': seq<ModuleId>)
    requires 0 < k <= |ms| && VisitsAll(ms, k - 1, earlier, ids) && Visits(ms[k - 1], here, ids')
    ensures VisitsAll(ms, k, earlier + Below(k - 1, here), ids + ids')
  {
    var below := Below(k - 1, here);
    var paths := earlier + below;
    forall i | 0 <= i < |below| ensures below[i][0] == k - 1 && below[i][1..] == here[i] {
    }
    forall p | TakesPartIn(ms, k, p) ensures p in paths {
      if p[0] < k - 1 {
        assert TakesPartIn(ms, k - 1, p);
      } else {
        var i :| 0 <= i < |here| && here[i] == p[1..];
        assert p == [k - 1] + p[1..] == below[i];
        assert paths[|earlier| + i] == below[i];
      }
    }
    forall i, j | 0 <= i < j < |paths| ensures Precedes(paths[i], paths[j]) {
      if i < |earlier| {
        assert TakesPartIn(ms, k - 1, earlier[i]);
      } else {
        assert Precedes(here[i - |earlier|], here[j - |earlier|]);
      }
    }
    forall i | 0 <= i < |paths|
      ensures TakesPartIn(ms, k, paths[i]) && At(ms[paths[i][0]], paths[i][1..]).id == (ids + ids')[i]
    {
      if i < |earlier| {
        assert TakesPartIn(ms, k - 1, earlier[i]);
      } else {
        assert TakesPart(ms[k - 1], here[i - |earlier|]);
      }
    }
  }

  /** A module takes part exactly when it is somewhere in the tree and is one of those that may. */
  lemma ParticipantIff(m: Module, id: ModuleId)
    ensures id in Participants(m) <==> exists p :: TakesPart(m, p) && At(m, p).id == id
  {
    var paths := ParticipantsInPreorder(m);
    if id in Participants(m) {
      var i :| 0 <= i < |Participants(m)| && Participants(m)[i] == id;
      assert TakesPart(m, paths[i]) && At(m, paths[i]).id == id;
    }
    if p :| TakesPart(m, p) && At(m, p).id == id {
      var i :| 0 <= i < |paths| && paths[i] == p;
      assert Participants(m)[i] == id;
    }
  }

  // ---------- a whole operation ----------

  /** Exactly the modules of the tree that take part were called, wherever they are, and for exactly the stages below
      `n`. */
  ghost predicate AllCalled(f: OperationFields, n: nat)
  {
    && (forall p, s: nat :: TakesPart(f.rootModule, p) && s < n ==> Call(s, At(f.rootModule, p).id) in Calls(f.trace))
    && (forall c :: c in Calls(f.trace) ==>
          c.stage < n && exists p :: TakesPart(f.rootModule, p) && At(f.rootModule, p).id == c.mod)
  }

  lemma {:induction false} CallsHold(ms: seq<ModuleId>, n: nat, c: Call)
    ensures c in AllCalls(ms, n) <==> c.stage < n && c.mod in ms
    decreases n
  {
    if n > 0 {
      var last := StageCalls(ms, n - 1);
      CallsHold(ms, n - 1, c);
      if c.stage == n - 1 && c.mod in ms {
        var i :| 0 <= i < |ms| && ms[i] == c.mod;
        assert last[i] == c;
      }
    }
  }

  lemma {:induction false} PerformedMeans(f: OperationFields, n: nat)
    requires Performed(f, n)
    ensures AllCalled(f, n)
  {
    var ms := Participants(f.rootModule);
    forall p, s: nat | TakesPart(f.rootModule, p) && s < n ensures Call(s, At(f.rootModule, p).id) in Calls(f.trace) {
      ParticipantIff(f.rootModule, At(f.rootModule, p).id);
      CallsHold(ms, n, Call(s, At(f.rootModule, p).id));
    }
    forall c | c in Calls(f.trace)
      ensures c.stage < n && exists p :: TakesPart(f.rootModule, p) && At(f.rootModule, p).id == c.mod
    {
      CallsHold(ms, n, c);
      ParticipantIff(f.rootModule, c.mod);
    }
  }

  /** The calls come stage by stage, and for each stage module by module, in preorder. */
  lemma {:induction false} CallsInPreorder(f: OperationFields, n: nat, paths: seq<Path>, s: nat, i: nat)
    requires Performed(f, n) && Visits(f.rootModule, paths, Participants(f.rootModule)) && s < n && i < |paths|
    ensures |Calls(f.trace)| == n * |paths| && 0 <= s * |paths| + i < n * |paths|
    ensures Calls(f.trace)[s * |paths| + i] == Call(s, At(f.rootModule, paths[i]).id)
  {
    var ms := Participants(f.rootModule);
    assert |ms| == |paths| && ms[i] == At(f.rootModule, paths[i]).id;
    CallAt(f, n, ms, |paths|, s, i);
  }

  lemma {:induction false} CallAt(f: OperationFields, n: nat, ms: seq<ModuleId>, w: nat, s: nat, i: nat)
    requires Performed(f, n) && ms == Participants(f.rootModule) && w == |ms| && s < n && i < w
    ensures |Calls(f.trace)| == n * w && 0 <= s * w + i < n * w
    ensures Calls(f.trace)[s * w + i] == Call(s, ms[i])
  {
    AllCallsAt(ms, n, s, i);
  }

  /** A module with an ID of its own, at any depth: when the operation is over it has seen every stage once, in
      order. */
  lemma {:induction false} SeesEveryStage(f: OperationFields, p: Path)
    requires Over(f) && TakesPart(f.rootModule, p)
    requires forall q :: TakesPart(f.rootModule, q) && q != p ==> At(f.rootModule, q).id != At(f.rootModule, p).id
    ensures StagesOf(Calls(f.trace), At(f.rootModule, p).id) == Upto(f.numStages)
  {
    var ms, id := Participants(f.rootModule), At(f.rootModule, p).id;
    var paths := ParticipantsInPreorder(f.rootModule);
    var i :| 0 <= i < |paths| && paths[i] == p;
    forall j | 0 <= j < |ms| && j != i ensures ms[j] != id {
      PrecedesIsStrict(paths[j], paths[i]);
      PrecedesIsStrict(paths[i], paths[j]);
      assert TakesPart(f.rootModule, paths[j]);
    }
    OccursAt(ms, id, i);
    EachStageOnce(ms, f.numStages, id);
  }

  lemma {:induction false} OccursAt(ms: seq<ModuleId>, id: ModuleId, i: nat)
    requires i < |ms| && ms[i] == id && forall j :: 0 <= j < |ms| && j != i ==> ms[j] != id
    ensures Occurrences(ms, id) == 1
    decreases |ms|
  {
    var front := ms[..|ms| - 1];
    if i < |front| {
      OccursAt(front, id, i);
    } else {
      OccursNowhere(front, id);
    }
  }

  lemma {:induction false} OccursNowhere(ms: seq<ModuleId>, id: ModuleId)
    requires forall j :: 0 <= j < |ms| ==> ms[j] != id
    ensures Occurrences(ms, id) == 0
    decreases |ms|
  {
    if ms != [] {
      OccursNowhere(ms[..|ms| - 1], id);
    }
  }
}
