/** `ReassemblyBuffer`: putting the fragments of a datagram together (section 3.2 of RFC 791). */
module Reassembly {
  import opened Wrappers

  type uint16 = x: int | 0 <= x < 0x1_0000

  datatype Region = Region(beg: uint16, end: uint16, islast: bool)

  /** The range assembled so far, and the regions put aside; there is no list until the first region is put aside. */
  datatype Buffer = Buffer(main: Region, fragments: Option<seq<Region>>)

  const Empty: Buffer := Buffer(Region(0, 0, false), None)

  // ---------- what the operations do to a buffer ----------

  function Extended(main: Region, f: Region): Region
  {
    Region(main.beg, f.end, main.islast || f.islast)
  }

  /** A region that touches the main range or lies inside it is taken in. */
  function Absorbed(main: Region, f: Region): Option<Region>
  {
    if main.end == f.beg then Some(Extended(main, f))
    else if main.beg == f.end then Some(main.(beg := f.beg))
    else if main.beg <= f.beg && main.end >= f.end then Some(main)
    else None
  }

  datatype Pass = Pass(main: Region, frags: seq<Region>)

  /** One pass over the list. */
  function Swept(main: Region, frags: seq<Region>): (p: Pass)
    ensures |p.frags| <= |frags|
    ensures |p.frags| == |frags| ==> p == Pass(main, frags)
    decreases |frags|
  {
    if frags == [] then Pass(main, frags)
    else
      var a := Absorbed(main, frags[0]);
      if a.Some? then Swept(a.value, frags[1..])
      else
        var p := Swept(main, frags[1..]);
        assert [frags[0]] + frags[1..] == frags;
        Pass(p.main, [frags[0]] + p.frags)
  }

  /** Passes until one takes in nothing. */
  function Merged(main: Region, frags: seq<Region>): Pass
    decreases |frags|
  {
    var p := Swept(main, frags);
    if |p.frags| == |frags| then p else Merged(p.main, p.frags)
  }

  function MergedBuffer(b: Buffer): Buffer
  {
    if b.fragments.None? then b
    else
      var p := Merged(b.main, b.fragments.value);
      Buffer(p.main, Some(p.frags))
  }

  function Added(b: Buffer, f: Region): Buffer
  {
    if b.main.end == f.beg then MergedBuffer(b.(main := Extended(b.main, f)))
    else if b.main.beg == f.end then MergedBuffer(b.(main := b.main.(beg := f.beg)))
    else if b.main.end < f.beg || b.main.beg > f.end then
      b.(fragments := Some((if b.fragments.Some? then b.fragments.value else []) + [f]))
    else b
  }

  predicate Complete(b: Buffer)
  {
    b.main.beg == 0 && b.main.islast
  }

  class ReassemblyBuffer {
    var main: Region
    var fragments: Option<seq<Region>>

    function State(): Buffer
      reads this
    {
      Buffer(main, fragments)
    }

    constructor ()
      ensures State() == Empty
    {
      main, fragments := Region(0, 0, false), None;
    }

    method AddFragment(beg: uint16, end: uint16, islast: bool) returns (complete: bool)
      modifies this
      ensures State() == Added(old(State()), Region(beg, end, islast))
      ensures complete == Complete(State())
    {
      Merge(beg, end, islast);
      return main.beg == 0 && main.islast;
    }

    method Merge(beg: uint16, end: uint16, islast: bool)
      modifies this
      ensures State() == Added(old(State()), Region(beg, end, islast))
    {
      if main.end == beg {
        main := main.(end := end);
        if islast {
          main := main.(islast := true);
        }
        if fragments.Some? {
          MergeFragments();
        }
      } else if main.beg == end {
        main := main.(beg := beg);
        if fragments.Some? {
          MergeFragments();
        }
      } else if main.end < beg || main.beg > end {
        if fragments.None? {
          fragments := Some([]);
        }
        fragments := Some(fragments.value + [Region(beg, end, islast)]);
      }
    }

    method MergeFragments()
      requires fragments.Some?
      modifies this
      ensures State() == MergedBuffer(old(State()))
    {
      var oncemore := true;
      while oncemore
        invariant fragments.Some?
        invariant var now := MergedBuffer(old(State()));
          if oncemore then MergedBuffer(State()) == now else State() == now
        decreases |fragments.value|, oncemore
      {
        oncemore := Sweep();
      }
    }

    /** One round of the outer loop; tells whether anything was deleted. */
    method Sweep() returns (oncemore: bool)
      requires fragments.Some?
      modifies this
      ensures fragments.Some? && Pass(main, fragments.value) == Swept(old(main), old(fragments.value))
      ensures oncemore <==> |fragments.value| < |old(fragments.value)|
    {
      oncemore := false;
      var i := 0;
      ghost var frags := fragments.value;
      assert frags[0..] == frags;
      while i < |fragments.value|
        invariant fragments.Some? && i <= |fragments.value| <= |frags|
        invariant oncemore <==> |fragments.value| < |frags|
        invariant Sweeping(old(main), frags, main, fragments.value, i)
        decreases |fragments.value| - i
      {
        var deleteit := false;
        var frag := fragments.value[i];
        SweepOne(old(main), frags, main, fragments.value, i);
        if main.end == frag.beg {
          main := main.(end := frag.end);
          if frag.islast {
            main := main.(islast := true);
          }
          deleteit := true;
        } else if main.beg == frag.end {
          main := main.(beg := frag.beg);
          deleteit := true;
        } else if main.beg <= frag.beg && main.end >= frag.end {
          deleteit := true;
        }
        if deleteit {
          fragments := Some(fragments.value[..i] + fragments.value[i + 1..]);
          oncemore := true;
        } else {
          i := i + 1;
        }
      }
    }
  }

  /** Within a pass: the first `i` regions stay, the others are still to be looked at. */
  ghost predicate Sweeping(main0: Region, frags0: seq<Region>, main: Region, frags: seq<Region>, i: nat)
    requires i <= |frags|
  {
    var rest := Swept(main, frags[i..]);
    Swept(main0, frags0) == Pass(rest.main, frags[..i] + rest.frags)
  }

  lemma SweepOne(main0: Region, frags0: seq<Region>, main: Region, frags: seq<Region>, i: nat)
    requires i < |frags| && Sweeping(main0, frags0, main, frags, i)
    ensures var a := Absorbed(main, frags[i]);
      if a.Some? then Sweeping(main0, frags0, a.value, frags[..i] + frags[i + 1..], i)
      else Sweeping(main0, frags0, main, frags, i + 1)
  {
    var rest := frags[i..];
    assert rest[1..] == frags[i + 1..];
    var gone := frags[..i] + frags[i + 1..];
    assert gone[i..] == frags[i + 1..] && gone[..i] == frags[..i];
    var p := Swept(main, frags[i + 1..]);
    assert frags[..i] + ([frags[i]] + p.frags) == frags[..i + 1] + p.frags;
  }

  // ---------- the fragments of one datagram ----------

  /** Cutting points of a datagram of length `cuts[|cuts| - 1]` into non-empty pieces. */
  ghost predicate IsPartition(cuts: seq<uint16>)
  {
    && |cuts| >= 2 && cuts[0] == 0
    && forall i, j :: 0 <= i < j < |cuts| ==> cuts[i] < cuts[j]
  }

  function Piece(cuts: seq<uint16>, k: nat): Region
    requires k + 1 < |cuts|
  {
    Region(cuts[k], cuts[k + 1], k + 2 == |cuts|)
  }

  /** Some piece that arrived. */
  ghost predicate IsPiece(cuts: seq<uint16>, got: set<nat>, f: Region)
  {
    exists k :: k in got && k + 1 < |cuts| && f == Piece(cuts, k)
  }

  /** The first `j` pieces are assembled, the other pieces that arrived are in the list. */
  ghost predicate Assembled(cuts: seq<uint16>, got: set<nat>, j: nat, main: Region, frags: seq<Region>)
  {
    && j < |cuts| && main == Region(0, cuts[j], j + 1 == |cuts|)
    && (forall k :: 0 <= k < j ==> k in got)
    && (forall k :: k in got && k >= j ==> k + 1 < |cuts| && Piece(cuts, k) in frags)
    && (forall i :: 0 <= i < |frags| ==> IsPiece(cuts, got, frags[i]))
  }

  /** Taking in or keeping one piece of the list. */
  lemma AbsorbPiece(cuts: seq<uint16>, j: nat, k: nat, main: Region)
    requires IsPartition(cuts) && j < |cuts| && k + 1 < |cuts| && main == Region(0, cuts[j], j + 1 == |cuts|)
    ensures Absorbed(main, Piece(cuts, k)) ==
      if k == j then Some(Region(0, cuts[j + 1], j + 2 == |cuts|)) else if k < j then Some(main) else None
  {
    assert cuts[k + 1] > cuts[0];
    if k > j {
      assert cuts[j] < cuts[k];
    } else if k < j {
      assert cuts[k] < cuts[j];
      assert k + 1 < j ==> cuts[k + 1] < cuts[j];
    }
  }

  lemma {:induction false} SweepKeeps(cuts: seq<uint16>, got: set<nat>, j: nat, main: Region,
                                      kept: seq<Region>, frags: seq<Region>)
    returns (j': nat)
    requires IsPartition(cuts) && Assembled(cuts, got, j, main, kept + frags)
    ensures var p := Swept(main, frags); Assembled(cuts, got, j', p.main, kept + p.frags)
    decreases |frags|
  {
    if frags == [] {
      return j;
    }
    var f, rest := frags[0], frags[1..];
    assert kept + frags == kept + [f] + rest;
    assert (kept + frags)[|kept|] == f;
    var k :| k in got && k + 1 < |cuts| && f == Piece(cuts, k);
    AbsorbPiece(cuts, j, k, main);
    var a := Absorbed(main, f);
    if a.Some? {
      var next := if k == j then j + 1 else j;
      TookIn(cuts, got, j, k, main, kept, rest);
      j' := SweepKeeps(cuts, got, next, a.value, kept, rest);
    } else {
      j' := SweepKeeps(cuts, got, j, main, kept + [f], rest);
      assert kept + [f] + Swept(main, rest).frags == kept + ([f] + Swept(main, rest).frags);
    }
  }

  lemma TookIn(cuts: seq<uint16>, got: set<nat>, j: nat, k: nat, main: Region, kept: seq<Region>, rest: seq<Region>)
    requires IsPartition(cuts) && k in got && k + 1 < |cuts| && k <= j
    requires Assembled(cuts, got, j, main, kept + [Piece(cuts, k)] + rest)
    ensures k == j ==> Assembled(cuts, got, j + 1, Region(0, cuts[j + 1], j + 2 == |cuts|), kept + rest)
    ensures k < j ==> Assembled(cuts, got, j, main, kept + rest)
  {
    var all := kept + [Piece(cuts, k)] + rest;
    forall i | 0 <= i < |kept + rest| ensures IsPiece(cuts, got, (kept + rest)[i]) {
      assert (kept + rest)[i] == all[if i < |kept| then i else i + 1];
    }
    forall k' | k' in got && k' >= j && k' != k ensures k' + 1 < |cuts| && Piece(cuts, k') in kept + rest {
      assert Piece(cuts, k').beg != Piece(cuts, k).beg;
    }
  }

  lemma {:induction false} StuckMeans(main: Region, frags: seq<Region>, i: nat)
    requires |Swept(main, frags).frags| == |frags| && i < |frags|
    ensures Absorbed(main, frags[i]).None?
    ensures main.end != frags[i].beg && main.beg != frags[i].end
    ensures !(main.beg <= frags[i].beg && frags[i].end <= main.end)
    decreases |frags|
  {
    if i > 0 && Absorbed(main, frags[0]).None? {
      StuckMeans(main, frags[1..], i - 1);
    }
  }

  lemma {:induction false} MergedKeeps(cuts: seq<uint16>, got: set<nat>, j: nat, main: Region, frags: seq<Region>)
    returns (j': nat)
    requires IsPartition(cuts) && Assembled(cuts, got, j, main, frags)
    ensures var p := Merged(main, frags); Assembled(cuts, got, j', p.main, p.frags) && j' !in got
    decreases |frags|
  {
    assert [] + frags == frags;
    j' := SweepKeeps(cuts, got, j, main, [], frags);
    var p := Swept(main, frags);
    assert [] + p.frags == p.frags;
    if |p.frags| < |frags| {
      j' := MergedKeeps(cuts, got, j', p.main, p.frags);
    } else if j' in got {
      var i :| 0 <= i < |frags| && frags[i] == Piece(cuts, j');
      StuckMeans(main, frags, i);
      AbsorbPiece(cuts, j', j', main);
      assert false;
    }
  }

  /** What every buffer satisfies to which some pieces of a partition were added: the pieces in `got`. */
  ghost predicate Ready(cuts: seq<uint16>, got: set<nat>, j: nat, b: Buffer)
  {
    && Assembled(cuts, got, j, b.main, if b.fragments.Some? then b.fragments.value else [])
    && j !in got
  }

  lemma AddPiece(cuts: seq<uint16>, got: set<nat>, j: nat, b: Buffer, k: nat) returns (j': nat)
    requires IsPartition(cuts) && Ready(cuts, got, j, b) && k + 1 < |cuts|
    ensures Ready(cuts, got + {k}, j', Added(b, Piece(cuts, k)))
  {
    if k == j {
      j' := AddNext(cuts, got, j, b);
    } else {
      j' := j;
      if k > j {
        AddLater(cuts, got, j, b, k);
      } else {
        AddAgain(cuts, got, j, b, k);
      }
    }
  }

  lemma AddNext(cuts: seq<uint16>, got: set<nat>, j: nat, b: Buffer) returns (j': nat)
    requires IsPartition(cuts) && Ready(cuts, got, j, b) && j + 1 < |cuts|
    ensures Ready(cuts, got + {j}, j', Added(b, Piece(cuts, j)))
  {
    var frags := if b.fragments.Some? then b.fragments.value else [];
    var main, got' := Extended(b.main, Piece(cuts, j)), got + {j};
    MorePieces(cuts, got, got', frags);
    assert Assembled(cuts, got', j + 1, main, frags);
    if b.fragments.Some? {
      j' := MergedKeeps(cuts, got', j + 1, main, frags);
    } else {
      j' := j + 1;
    }
  }

  lemma AddLater(cuts: seq<uint16>, got: set<nat>, j: nat, b: Buffer, k: nat)
    requires IsPartition(cuts) && Ready(cuts, got, j, b) && j < k && k + 1 < |cuts|
    ensures Ready(cuts, got + {k}, j, Added(b, Piece(cuts, k)))
  {
    var frags := if b.fragments.Some? then b.fragments.value else [];
    assert cuts[j] < cuts[k] && cuts[0] < cuts[k + 1];
    AssembledLater(cuts, got, j, b.main, frags, k);
  }

  /** A piece that is put aside. */
  lemma {:induction false} AssembledLater(cuts: seq<uint16>, got: set<nat>, j: nat,
                                          main: Region, frags: seq<Region>, k: nat)
    requires Assembled(cuts, got, j, main, frags) && j <= k && k + 1 < |cuts|
    ensures Assembled(cuts, got + {k}, j, main, frags + [Piece(cuts, k)])
  {
    var f, got' := Piece(cuts, k), got + {k};
    MorePieces(cuts, got, got', frags);
    assert k in got' && IsPiece(cuts, got', f);
    forall k' | k' in got' && k' >= j ensures k' + 1 < |cuts| && Piece(cuts, k') in frags + [f] {
    }
    forall i | 0 <= i < |frags + [f]| ensures IsPiece(cuts, got', (frags + [f])[i]) {
      assert i < |frags| ==> (frags + [f])[i] == frags[i];
    }
  }

  lemma AddAgain(cuts: seq<uint16>, got: set<nat>, j: nat, b: Buffer, k: nat)
    requires IsPartition(cuts) && Ready(cuts, got, j, b) && k < j && k + 1 < |cuts|
    ensures Ready(cuts, got + {k}, j, Added(b, Piece(cuts, k)))
  {
    assert cuts[k] < cuts[j] && cuts[0] < cuts[k + 1];
    assert got + {k} == got;
  }

  lemma MorePieces(cuts: seq<uint16>, got: set<nat>, got': set<nat>, frags: seq<Region>)
    requires got <= got' && forall i :: 0 <= i < |frags| ==> IsPiece(cuts, got, frags[i])
    ensures forall i :: 0 <= i < |frags| ==> IsPiece(cuts, got', frags[i])
  {
    forall i | 0 <= i < |frags| ensures IsPiece(cuts, got', frags[i]) {
      assert IsPiece(cuts, got, frags[i]);
      var k :| k in got && k + 1 < |cuts| && frags[i] == Piece(cuts, k);
      assert k in got';
    }
  }

  // ---------- whole runs ----------

  /** The buffer after the regions were added in this order. */
  function AfterAll(fs: seq<Region>): Buffer
  {
    if fs == [] then Empty else Added(AfterAll(fs[..|fs| - 1]), fs[|fs| - 1])
  }

  function Pieces(cuts: seq<uint16>, order: seq<nat>): (fs: seq<Region>)
    requires forall i :: 0 <= i < |order| ==> order[i] + 1 < |cuts|
    ensures |fs| == |order|
  {
    if order == [] then [] else Pieces(cuts, order[..|order| - 1]) + [Piece(cuts, order[|order| - 1])]
  }

  ghost function Arrived(order: seq<nat>): set<nat>
  {
    if order == [] then {} else Arrived(order[..|order| - 1]) + {order[|order| - 1]}
  }

  lemma {:induction false} ArrivedMeans(order: seq<nat>, k: nat)
    ensures k in Arrived(order) <==> k in order
    decreases |order|
  {
    if order != [] {
      var front := order[..|order| - 1];
      assert order == front + [order[|order| - 1]];
      ArrivedMeans(front, k);
    }
  }

  lemma FrontOf(fs: seq<Region>, f: Region)
    ensures AfterAll(fs + [f]) == Added(AfterAll(fs), f)
  {
    assert (fs + [f])[..|fs|] == fs;
  }

  lemma {:induction false} RunIsReady(cuts: seq<uint16>, order: seq<nat>) returns (j: nat)
    requires IsPartition(cuts) && forall i :: 0 <= i < |order| ==> order[i] + 1 < |cuts|
    ensures Ready(cuts, Arrived(order), j, AfterAll(Pieces(cuts, order)))
    decreases |order|
  {
    if order == [] {
      j := 0;
    } else {
      var front, k := order[..|order| - 1], order[|order| - 1];
      j := RunIsReady(cuts, front);
      j := AddPiece(cuts, Arrived(front), j, AfterAll(Pieces(cuts, front)), k);
      FrontOf(Pieces(cuts, front), Piece(cuts, k));
    }
  }

  ghost predicate AllArrived(cuts: seq<uint16>, order: seq<nat>)
  {
    forall k: nat :: k + 1 < |cuts| ==> k in order
  }

  /** Piece `j` is the first that has not arrived; there are `|cuts| - 1` pieces. */
  ghost predicate FirstMissing(cuts: seq<uint16>, order: seq<nat>, j: nat)
  {
    j < |cuts| && j !in order && forall k: nat :: k < j ==> k in order
  }

  /** Any order, any repetitions: the assembled range is the longest prefix of pieces that have all arrived, and the
      buffer is complete exactly when all pieces have arrived; its length is then that of the datagram. */
  lemma {:induction false} PartitionIsReassembled(cuts: seq<uint16>, order: seq<nat>)
    requires IsPartition(cuts) && forall i :: 0 <= i < |order| ==> order[i] + 1 < |cuts|
    ensures var b := AfterAll(Pieces(cuts, order));
      && b.main.beg == 0
      && (exists j: nat :: FirstMissing(cuts, order, j) && b.main.end == cuts[j])
      && (Complete(b) <==> AllArrived(cuts, order))
      && (Complete(b) ==> b.main.end == cuts[|cuts| - 1])
  {
    var j := RunAssembles(cuts, order);
    PrefixIsAssembled(cuts, order, j, AfterAll(Pieces(cuts, order)));
  }

  lemma PrefixIsAssembled(cuts: seq<uint16>, order: seq<nat>, j: nat, b: Buffer)
    requires FirstMissing(cuts, order, j) && (AllArrived(cuts, order) <==> j + 1 == |cuts|)
    requires b.main == Region(0, cuts[j], j + 1 == |cuts|)
    ensures b.main.beg == 0 && exists j: nat :: FirstMissing(cuts, order, j) && b.main.end == cuts[j]
    ensures (Complete(b) <==> AllArrived(cuts, order)) && (Complete(b) ==> b.main.end == cuts[|cuts| - 1])
  {
  }

  lemma {:induction false} RunAssembles(cuts: seq<uint16>, order: seq<nat>) returns (j: nat)
    requires IsPartition(cuts) && forall i :: 0 <= i < |order| ==> order[i] + 1 < |cuts|
    ensures FirstMissing(cuts, order, j) && (AllArrived(cuts, order) <==> j + 1 == |cuts|)
    ensures AfterAll(Pieces(cuts, order)).main == Region(0, cuts[j], j + 1 == |cuts|)
  {
    j := RunIsReady(cuts, order);
    FirstGap(cuts, order, j);
  }

  /** Once complete, the buffer stays complete, whatever pieces arrive again. */
  lemma {:induction false} CompletionIsPermanent(cuts: seq<uint16>, order: seq<nat>, more: seq<nat>)
    requires IsPartition(cuts) && forall i :: 0 <= i < |order + more| ==> (order + more)[i] + 1 < |cuts|
    requires forall i :: 0 <= i < |order| ==> order[i] + 1 < |cuts|
    requires Complete(AfterAll(Pieces(cuts, order)))
    ensures Complete(AfterAll(Pieces(cuts, order + more)))
    ensures AfterAll(Pieces(cuts, order + more)).main.end == cuts[|cuts| - 1]
  {
    PartitionIsReassembled(cuts, order);
    PartitionIsReassembled(cuts, order + more);
  }

  lemma FirstGap(cuts: seq<uint16>, order: seq<nat>, j: nat)
    requires j < |cuts| && j !in Arrived(order) && forall k :: 0 <= k < j ==> k in Arrived(order)
    ensures FirstMissing(cuts, order, j) && (AllArrived(cuts, order) <==> j + 1 == |cuts|)
  {
    forall k: nat ensures k in Arrived(order) <==> k in order {
      ArrivedMeans(order, k);
    }
  }

  // ---------- any fragments ----------

  ghost predicate Received(fs: seq<Region>, x: int)
  {
    exists i :: 0 <= i < |fs| && fs[i].beg <= x < fs[i].end
  }

  ghost predicate LastReceived(fs: seq<Region>, e: int)
  {
    exists i :: 0 <= i < |fs| && fs[i].islast && fs[i].end <= e
  }

  /** The main range holds nothing that did not arrive. */
  ghost predicate Sound(fs: seq<Region>, main: Region)
  {
    && main.beg == 0
    && (forall x :: 0 <= x < main.end ==> Received(fs, x))
    && (main.islast ==> LastReceived(fs, main.end))
  }

  lemma AbsorbSound(fs: seq<Region>, main: Region, i: nat)
    requires Sound(fs, main) && i < |fs| && fs[i].beg < fs[i].end && Absorbed(main, fs[i]).Some?
    ensures Sound(fs, Absorbed(main, fs[i]).value)
  {
    var f := fs[i];
    if main.end == f.beg {
      forall x | 0 <= x < f.end ensures Received(fs, x) {
        if x < main.end {
          assert Received(fs, x);
        }
      }
      if main.islast {
        var l :| 0 <= l < |fs| && fs[l].islast && fs[l].end <= main.end;
        assert fs[l].end <= f.end;
      }
    }
  }

  ghost predicate AllFrom(fs: seq<Region>, frags: seq<Region>)
  {
    forall i :: 0 <= i < |frags| ==> frags[i] in fs
  }

  lemma {:induction false} SweepSound(fs: seq<Region>, main: Region, frags: seq<Region>)
    requires Sound(fs, main) && AllFrom(fs, frags) && forall i :: 0 <= i < |fs| ==> fs[i].beg < fs[i].end
    ensures var p := Swept(main, frags); Sound(fs, p.main) && AllFrom(fs, p.frags)
    decreases |frags|
  {
    if frags != [] {
      var a := Absorbed(main, frags[0]);
      if a.Some? {
        var i :| 0 <= i < |fs| && fs[i] == frags[0];
        AbsorbSound(fs, main, i);
        SweepSound(fs, a.value, frags[1..]);
      } else {
        SweepSound(fs, main, frags[1..]);
      }
    }
  }

  lemma {:induction false} MergeSound(fs: seq<Region>, main: Region, frags: seq<Region>)
    requires Sound(fs, main) && AllFrom(fs, frags) && forall i :: 0 <= i < |fs| ==> fs[i].beg < fs[i].end
    ensures var p := Merged(main, frags); Sound(fs, p.main) && AllFrom(fs, p.frags)
    decreases |frags|
  {
    SweepSound(fs, main, frags);
    var p := Swept(main, frags);
    if |p.frags| < |frags| {
      MergeSound(fs, p.main, p.frags);
    }
  }

  lemma SoundWithMore(fs: seq<Region>, f: Region, main: Region)
    requires Sound(fs, main)
    ensures Sound(fs + [f], main)
  {
    var fs' := fs + [f];
    forall x | 0 <= x < main.end ensures Received(fs', x) {
      assert Received(fs, x);
      var i :| 0 <= i < |fs| && fs[i].beg <= x < fs[i].end;
      assert fs'[i] == fs[i];
    }
    if main.islast {
      var i :| 0 <= i < |fs| && fs[i].islast && fs[i].end <= main.end;
      assert fs'[i] == fs[i];
    }
  }

  /** Whatever non-empty fragments arrive, overlapping or not: the buffer claims only bytes that arrived, and the end of
      the datagram only after a last fragment. */
  lemma {:induction false} ClaimsOnlyWhatArrived(fs: seq<Region>)
    requires forall i :: 0 <= i < |fs| ==> fs[i].beg < fs[i].end
    ensures var b := AfterAll(fs); Sound(fs, b.main) && (b.fragments.Some? ==> AllFrom(fs, b.fragments.value))
    decreases |fs|
  {
    if fs != [] {
      var front, f := fs[..|fs| - 1], fs[|fs| - 1];
      assert fs == front + [f];
      ClaimsOnlyWhatArrived(front);
      var b := AfterAll(front);
      SoundWithMore(front, f, b.main);
      var frags := if b.fragments.Some? then b.fragments.value else [];
      if b.main.end == f.beg {
        AbsorbSound(fs, b.main, |fs| - 1);
        MergeSound(fs, Extended(b.main, f), frags);
      }
    }
  }

  // ---------- when any fragments complete the buffer ----------

  ghost predicate NonEmpty(fs: seq<Region>)
  {
    forall i :: 0 <= i < |fs| ==> fs[i].beg < fs[i].end
  }

  /** Received fragments of which the first begins at 0 and each other one where the one before it ends. */
  ghost predicate IsChain(fs: seq<Region>, ch: seq<Region>)
  {
    && (forall i :: 0 <= i < |ch| ==> ch[i] in fs)
    && (|ch| > 0 ==> ch[0].beg == 0)
    && (forall i :: 0 < i < |ch| ==> ch[i].beg == ch[i - 1].end)
  }

  function EndOf(ch: seq<Region>): uint16
  {
    if ch == [] then 0 else ch[|ch| - 1].end
  }

  ghost predicate HasLast(ch: seq<Region>)
  {
    exists i :: 0 <= i < |ch| && ch[i].islast
  }

  /** The main range is the chain `ch`, and whatever begins at its end or later is in the list. */
  ghost predicate Chained(fs: seq<Region>, ch: seq<Region>, main: Region, frags: seq<Region>)
  {
    && IsChain(fs, ch) && main.beg == 0 && main.end == EndOf(ch) && (main.islast <==> HasLast(ch))
    && AllFrom(fs, frags)
    && (forall i :: 0 <= i < |fs| && fs[i].beg >= main.end ==> fs[i] in frags)
  }

  lemma ChainExtended(fs: seq<Region>, ch: seq<Region>, f: Region)
    requires IsChain(fs, ch) && f in fs && f.beg == EndOf(ch)
    ensures IsChain(fs, ch + [f]) && EndOf(ch + [f]) == f.end
    ensures HasLast(ch + [f]) <==> HasLast(ch) || f.islast
  {
    var ch' := ch + [f];
    if f.islast {
      assert ch'[|ch|].islast;
    }
    if HasLast(ch) {
      var i :| 0 <= i < |ch| && ch[i].islast;
      assert ch'[i].islast;
    }
  }

  /** Taking in a stored region, or finding that it is covered. */
  lemma AbsorbChained(fs: seq<Region>, ch: seq<Region>, main: Region, kept: seq<Region>, f: Region, rest: seq<Region>)
    returns (ch': seq<Region>)
    requires NonEmpty(fs) && f in fs && Chained(fs, ch, main, kept + [f] + rest) && Absorbed(main, f).Some?
    ensures Chained(fs, ch', Absorbed(main, f).value, kept + rest)
  {
    var main' := Absorbed(main, f).value;
    ch' := ch;
    if main.end == f.beg {
      ChainExtended(fs, ch, f);
      ch' := ch + [f];
    }
    assert f.beg < main'.end;
    forall i | 0 <= i < |fs| && fs[i].beg >= main'.end ensures fs[i] in kept + rest {
      assert fs[i] in kept + [f] + rest;
    }
    forall i | 0 <= i < |kept + rest| ensures (kept + rest)[i] in fs {
      assert (kept + rest)[i] == (kept + [f] + rest)[if i < |kept| then i else i + 1];
    }
  }

  lemma {:induction false} SweepChained(fs: seq<Region>, ch: seq<Region>, main: Region, kept: seq<Region>,
                                        frags: seq<Region>)
    returns (ch': seq<Region>)
    requires NonEmpty(fs) && Chained(fs, ch, main, kept + frags)
    ensures var p := Swept(main, frags); Chained(fs, ch', p.main, kept + p.frags)
    decreases |frags|
  {
    ch' := ch;
    if frags != [] {
      var f, rest := frags[0], frags[1..];
      assert kept + frags == kept + [f] + rest;
      assert (kept + frags)[|kept|] == f;
      var a := Absorbed(main, f);
      if a.Some? {
        ch' := AbsorbChained(fs, ch, main, kept, f, rest);
        ch' := SweepChained(fs, ch', a.value, kept, rest);
      } else {
        ch' := SweepChained(fs, ch, main, kept + [f], rest);
        assert kept + [f] + Swept(main, rest).frags == kept + ([f] + Swept(main, rest).frags);
      }
    }
  }

  /** No fragment that arrived begins where the main range ends. */
  ghost predicate NothingFollows(fs: seq<Region>, main: Region)
  {
    forall i :: 0 <= i < |fs| ==> fs[i].beg != main.end
  }

  lemma {:induction false} MergeChained(fs: seq<Region>, ch: seq<Region>, main: Region, frags: seq<Region>)
    returns (ch': seq<Region>)
    requires NonEmpty(fs) && Chained(fs, ch, main, frags)
    ensures var p := Merged(main, frags); Chained(fs, ch', p.main, p.frags) && NothingFollows(fs, p.main)
    decreases |frags|
  {
    assert [] + frags == frags;
    ch' := SweepChained(fs, ch, main, [], frags);
    var p := Swept(main, frags);
    assert [] + p.frags == p.frags;
    if |p.frags| < |frags| {
      ch' := MergeChained(fs, ch', p.main, p.frags);
    } else {
      forall i | 0 <= i < |fs| ensures fs[i].beg != main.end {
        if fs[i] in frags {
          var k :| 0 <= k < |frags| && frags[k] == fs[i];
          StuckMeans(main, frags, k);
        }
      }
    }
  }

  lemma ChainedWithMore(fs: seq<Region>, f: Region, ch: seq<Region>, main: Region, frags: seq<Region>)
    requires Chained(fs, ch, main, frags)
    ensures f.beg < main.end ==> Chained(fs + [f], ch, main, frags)
    ensures Chained(fs + [f], ch, main, frags + [f])
  {
  }

  function Stored(b: Buffer): seq<Region>
  {
    if b.fragments.Some? then b.fragments.value else []
  }

  lemma {:induction false} RunIsChained(fs: seq<Region>) returns (ch: seq<Region>)
    requires NonEmpty(fs)
    ensures var b := AfterAll(fs); Chained(fs, ch, b.main, Stored(b)) && NothingFollows(fs, b.main)
    decreases |fs|
  {
    ch := [];
    if fs != [] {
      var front, f := fs[..|fs| - 1], fs[|fs| - 1];
      assert fs == front + [f];
      ch := RunIsChained(front);
      ch := AddChained(front, f, ch, AfterAll(front));
    }
  }

  lemma AddChained(fs: seq<Region>, f: Region, ch: seq<Region>, b: Buffer) returns (ch': seq<Region>)
    requires NonEmpty(fs + [f]) && Chained(fs, ch, b.main, Stored(b)) && NothingFollows(fs, b.main)
    ensures var b' := Added(b, f); Chained(fs + [f], ch', b'.main, Stored(b')) && NothingFollows(fs + [f], b'.main)
  {
    var fs', frags := fs + [f], Stored(b);
    assert fs'[|fs|] == f;
    ChainedWithMore(fs, f, ch, b.main, frags);
    ch' := ch;
    if b.main.end == f.beg {
      assert frags + [f] == frags + [f] + [] && frags == frags + [];
      ch' := AbsorbChained(fs', ch, b.main, frags, f, []);
      ch' := MergeChained(fs', ch', Extended(b.main, f), frags);
    }
  }

  /** Fragments that begin at the same offset are the same: nothing arrived in two lengths. */
  ghost predicate Consistent(fs: seq<Region>)
  {
    forall i, j :: 0 <= i < j < |fs| && fs[i].beg == fs[j].beg ==> fs[i] == fs[j]
  }

  lemma SameBegin(fs: seq<Region>, f: Region, g: Region)
    requires Consistent(fs) && f in fs && g in fs && f.beg == g.beg
    ensures f == g
  {
    var i :| 0 <= i < |fs| && fs[i] == f;
    var j :| 0 <= j < |fs| && fs[j] == g;
    assert i < j ==> fs[i] == fs[j];
    assert j < i ==> fs[j] == fs[i];
  }

  /** So there is only one way to go on, and every chain is a part of a chain that nothing follows. */
  lemma {:induction false} ChainIsPrefix(fs: seq<Region>, ch: seq<Region>, full: seq<Region>, k: nat)
    requires Consistent(fs) && IsChain(fs, ch) && IsChain(fs, full) && k <= |ch|
    requires forall i :: 0 <= i < |fs| ==> fs[i].beg != EndOf(full)
    ensures k <= |full| && ch[..k] == full[..k]
    decreases k
  {
    if k > 0 {
      ChainIsPrefix(fs, ch, full, k - 1);
      var f := ch[k - 1];
      assert k > 1 ==> ch[..k - 1][k - 2] == full[..k - 1][k - 2];
      assert f.beg == if k == 1 then 0 else full[k - 2].end;
      assert k - 1 < |full|;
      SameBegin(fs, f, full[k - 1]);
      assert ch[..k] == ch[..k - 1] + [f] && full[..k] == full[..k - 1] + [full[k - 1]];
    }
  }

  /** Overlapping or not: the assembled range is always a chain of fragments that nothing follows. */
  lemma RangeIsChain(fs: seq<Region>)
    requires NonEmpty(fs)
    ensures NothingFollows(fs, AfterAll(fs).main) && AfterAll(fs).main.beg == 0
    ensures exists ch :: IsRangeOf(fs, ch, AfterAll(fs).main)
  {
    var ch := RunIsChained(fs);
    assert IsRangeOf(fs, ch, AfterAll(fs).main);
  }

  ghost predicate IsRangeOf(fs: seq<Region>, ch: seq<Region>, main: Region)
  {
    IsChain(fs, ch) && main.end == EndOf(ch) && (main.islast <==> HasLast(ch))
  }

  /** Exactly when the buffer completes, for all fragments none of which arrived in two lengths: when some of them form
      a chain from offset 0 that contains a last one. Bytes that only overlapping fragments hold are of no help. */
  lemma CompleteIffChain(fs: seq<Region>)
    requires NonEmpty(fs) && Consistent(fs)
    ensures Complete(AfterAll(fs)) <==> exists ch :: IsChain(fs, ch) && HasLast(ch)
  {
    var full := RunIsChained(fs);
    forall ch: seq<Region> | IsChain(fs, ch) && HasLast(ch) ensures HasLast(full) {
      ChainIsPrefix(fs, ch, full, |ch|);
      var i :| 0 <= i < |ch| && ch[i].islast;
      assert ch[..|ch|][i] == full[..|ch|][i];
    }
  }

  // ---------- in which order ----------

  /** A chain that no fragment continues. */
  ghost predicate IsMaximal(fs: seq<Region>, ch: seq<Region>)
  {
    IsChain(fs, ch) && forall i :: 0 <= i < |fs| ==> fs[i].beg != EndOf(ch)
  }

  ghost predicate IsReordering(fs: seq<Region>, fs': seq<Region>)
  {
    multiset(fs) == multiset(fs')
  }

  lemma ReorderingMeans(fs: seq<Region>, fs': seq<Region>)
    requires IsReordering(fs, fs')
    ensures forall f :: f in fs <==> f in fs'
    ensures NonEmpty(fs) ==> NonEmpty(fs')
  {
    forall f ensures f in fs <==> f in fs' {
      assert f in fs <==> f in multiset(fs);
      assert f in fs' <==> f in multiset(fs');
    }
    forall i | 0 <= i < |fs'| && NonEmpty(fs) ensures fs'[i].beg < fs'[i].end {
      assert fs'[i] in fs;
    }
  }

  lemma MaximalInReordering(fs: seq<Region>, fs': seq<Region>, ch: seq<Region>)
    requires IsReordering(fs, fs') && IsMaximal(fs', ch)
    ensures IsMaximal(fs, ch)
  {
    ReorderingMeans(fs, fs');
    forall i | 0 <= i < |fs| ensures fs[i].beg != EndOf(ch) {
      assert fs[i] in fs';
    }
  }

  /** Whatever the order, the assembled range is some maximal chain. */
  lemma RangeIsMaximal(fs: seq<Region>, fs': seq<Region>) returns (ch: seq<Region>)
    requires NonEmpty(fs) && IsReordering(fs, fs')
    ensures IsMaximal(fs, ch) && (Complete(AfterAll(fs')) <==> HasLast(ch))
  {
    ReorderingMeans(fs, fs');
    ch := RunIsChained(fs');
    MaximalInReordering(fs, fs', ch);
  }

  /** Fragments that arrive in the order of a chain are assembled as they come. */
  lemma {:induction false} ChainArrives(fs: seq<Region>, ch: seq<Region>, k: nat)
    requires NonEmpty(fs) && IsChain(fs, ch) && k <= |ch|
    ensures AfterAll(ch[..k]) == Buffer(Region(0, EndOf(ch[..k]), HasLast(ch[..k])), None)
    decreases k
  {
    if k > 0 {
      var front, f := ch[..k - 1], ch[k - 1];
      ChainArrives(fs, ch, k - 1);
      assert ch[..k] == front + [f];
      FrontOf(front, f);
      ChainPrefix(fs, ch, k - 1);
      assert f.beg == EndOf(front);
      ChainExtended(fs, front, f);
    } else {
      assert ch[..0] == [];
    }
  }

  lemma ChainPrefix(fs: seq<Region>, ch: seq<Region>, k: nat)
    requires IsChain(fs, ch) && k <= |ch|
    ensures IsChain(fs, ch[..k])
    ensures k < |ch| ==> ch[k].beg == EndOf(ch[..k])
  {
  }

  /** Fragments that do not begin at the end of a range without a list change nothing in it. */
  lemma {:induction false} RangeStays(first: seq<Region>, rest: seq<Region>, main: Region)
    requires AfterAll(first).main == main && main.beg == 0
    requires forall i :: 0 <= i < |rest| ==> rest[i].beg != main.end && rest[i].beg < rest[i].end
    ensures AfterAll(first + rest).main == main
    decreases |rest|
  {
    if rest == [] {
      assert first + rest == first;
    } else {
      var front, f := rest[..|rest| - 1], rest[|rest| - 1];
      RangeStays(first, front, main);
      assert first + rest == first + front + [f];
      FrontOf(first + front, f);
    }
  }

  /** The fragments of a chain begin one behind the other, so each is counted once. */
  lemma {:induction false} ChainIsPart(fs: seq<Region>, ch: seq<Region>, k: nat)
    requires NonEmpty(fs) && IsChain(fs, ch) && k <= |ch|
    ensures forall i :: 0 <= i < k ==> ch[i].beg < EndOf(ch[..k])
    ensures multiset(ch[..k]) <= multiset(fs)
    decreases k
  {
    if k > 0 {
      var front, f := ch[..k - 1], ch[k - 1];
      ChainIsPart(fs, ch, k - 1);
      ChainPrefix(fs, ch, k - 1);
      assert ch[..k] == front + [f];
      FragmentIsNonEmpty(fs, f);
      assert forall i :: 0 <= i < k - 1 ==> front[i] == ch[i] && ch[i].beg < f.beg;
      assert f !in front;
      OneMore(front, f, fs);
    } else {
      assert ch[..0] == [];
    }
  }

  lemma FragmentIsNonEmpty(fs: seq<Region>, f: Region)
    requires NonEmpty(fs) && f in fs
    ensures f.beg < f.end
  {
  }

  lemma OneMore(front: seq<Region>, f: Region, fs: seq<Region>)
    requires multiset(front) <= multiset(fs) && f in fs && f !in front
    ensures multiset(front + [f]) <= multiset(fs)
  {
    assert f in multiset(fs) && f !in multiset(front);
    assert multiset(front + [f]) == multiset(front) + multiset{f};
  }

  lemma {:induction false} AsSequence(m: multiset<Region>) returns (s: seq<Region>)
    ensures multiset(s) == m
    decreases |m|
  {
    s := [];
    if |m| > 0 {
      var x :| x in m;
      var t := AsSequence(m - multiset{x});
      s := [x] + t;
      assert multiset(s) == multiset{x} + multiset(t);
    }
  }

  /** For every maximal chain there is an order in which it becomes the assembled range: the chain first. */
  lemma {:induction false} OrderForChain(fs: seq<Region>, ch: seq<Region>) returns (fs': seq<Region>)
    requires NonEmpty(fs) && IsMaximal(fs, ch)
    ensures IsReordering(fs, fs') && (Complete(AfterAll(fs')) <==> HasLast(ch))
  {
    assert ch[..|ch|] == ch;
    ChainIsPart(fs, ch, |ch|);
    var rest := AsSequence(multiset(fs) - multiset(ch));
    fs' := ch + rest;
    assert multiset(fs') == multiset(ch) + multiset(rest);
    ReorderingMeans(fs, fs');
    forall i | 0 <= i < |rest| ensures rest[i].beg != EndOf(ch) && rest[i].beg < rest[i].end {
      assert fs'[|ch| + i] == rest[i] && rest[i] in fs;
    }
    ChainArrives(fs, ch, |ch|);
    RangeStays(ch, rest, Region(0, EndOf(ch), HasLast(ch)));
  }

  /** Exactly when any non-empty fragments complete the buffer whatever the order of their arrival: when every chain
      from offset 0 that no fragment continues contains a last one. */
  lemma CompleteInEveryOrderIff(fs: seq<Region>)
    requires NonEmpty(fs)
    ensures (forall fs' :: IsReordering(fs, fs') ==> Complete(AfterAll(fs'))) <==>
      forall ch :: IsMaximal(fs, ch) ==> HasLast(ch)
  {
    if forall ch :: IsMaximal(fs, ch) ==> HasLast(ch) {
      forall fs' | IsReordering(fs, fs') ensures Complete(AfterAll(fs')) {
        var ch := RangeIsMaximal(fs, fs');
      }
    }
    if forall fs' :: IsReordering(fs, fs') ==> Complete(AfterAll(fs')) {
      forall ch | IsMaximal(fs, ch) ensures HasLast(ch) {
        var fs' := OrderForChain(fs, ch);
      }
    }
  }

  /** Exactly when they complete it in some order: when some such chain contains a last one. */
  lemma CompleteInSomeOrderIff(fs: seq<Region>)
    requires NonEmpty(fs)
    ensures (exists fs' :: IsReordering(fs, fs') && Complete(AfterAll(fs'))) <==>
      exists ch :: IsMaximal(fs, ch) && HasLast(ch)
  {
    if fs' :| IsReordering(fs, fs') && Complete(AfterAll(fs')) {
      var ch := RangeIsMaximal(fs, fs');
      assert IsMaximal(fs, ch) && HasLast(ch);
    }
    if ch :| IsMaximal(fs, ch) && HasLast(ch) {
      var fs' := OrderForChain(fs, ch);
      assert IsReordering(fs, fs') && Complete(AfterAll(fs'));
    }
  }

  lemma TwoAdded(a: Region, b: Region)
    ensures AfterAll([a, b]) == Added(Added(Empty, a), b)
  {
    FrontOf([], a);
    FrontOf([a], b);
    assert [] + [a] == [a] && [a] + [b] == [a, b];
  }

  lemma ThreeAdded(a: Region, b: Region, c: Region)
    ensures AfterAll([a, b, c]) == Added(Added(Added(Empty, a), b), c)
  {
    TwoAdded(a, b);
    FrontOf([a, b], c);
    assert [a, b] + [c] == [a, b, c];
  }

  /** For example [0, 4), [0, 8) and a last [4, 16): in this order they complete the buffer. */
  lemma ShortFirst()
    ensures Complete(AfterAll([Region(0, 4, false), Region(0, 8, false), Region(4, 16, true)]))
  {
    var short, long, last := Region(0, 4, false), Region(0, 8, false), Region(4, 16, true);
    ThreeAdded(short, long, last);
    assert Added(Empty, short) == Buffer(short, None) && Added(Buffer(short, None), long) == Buffer(short, None);
    assert Added(Buffer(short, None), last) == Buffer(Region(0, 16, true), None);
  }

  /** With the long one first they do not. */
  lemma LongFirst()
    ensures !Complete(AfterAll([Region(0, 8, false), Region(0, 4, false), Region(4, 16, true)]))
  {
    var short, long, last := Region(0, 4, false), Region(0, 8, false), Region(4, 16, true);
    ThreeAdded(long, short, last);
    assert Added(Empty, long) == Buffer(long, None) && Added(Buffer(long, None), short) == Buffer(long, None);
    assert Added(Buffer(long, None), last) == Buffer(long, None);
  }

  /** Overlapping fragments that together hold the whole datagram need not complete it: they are dropped. */
  lemma OverlapIsDropped()
    ensures var fs := [Region(0, 8, false), Region(4, 16, true)];
      (forall x :: 0 <= x < 16 ==> Received(fs, x)) && !Complete(AfterAll(fs)) && AfterAll(fs).main == fs[0]
  {
    var first, second := Region(0, 8, false), Region(4, 16, true);
    var fs := [first, second];
    TwoAdded(first, second);
    assert Added(Empty, first) == Buffer(first, None) && Added(Buffer(first, None), second) == Buffer(first, None);
    forall x | 0 <= x < 16 ensures Received(fs, x) {
      if x < 8 {
        assert fs[0].beg <= x < fs[0].end;
      } else {
        assert fs[1].beg <= x < fs[1].end;
      }
    }
  }
}
