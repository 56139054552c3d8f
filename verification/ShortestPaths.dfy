/** The graph theory behind `Topology`'s two path searches, on plain values: what a route and its cost are,
    the invariant of the label-correcting search, and why the labels of a finished search are shortest
    distances. Vertices and arcs are of any type; `Topology` uses its handles. */
module ShortestPaths {
  import opened ExtendedReals

  datatype Vertex = Vertex(weight: Ext, enabled: bool)

  datatype Arc<N> = Arc(src: N, dst: N, weight: Ext, enabled: bool)

  datatype Net<!N, !L> = Net(vertices: map<N, Vertex>, arcs: map<L, Arc<N>>)

  ghost predicate Closed<N, L>(g: Net<N, L>)
  {
    forall l :: l in g.arcs ==> g.arcs[l].src in g.vertices && g.arcs[l].dst in g.vertices
  }

  /** A link can carry a route when it is enabled and its source node is enabled. */
  ghost predicate Usable<N, L>(g: Net<N, L>, l: L)
    requires Closed(g) && l in g.arcs
  {
    g.arcs[l].enabled && g.vertices[g.arcs[l].src].enabled
  }

  // ---------- routes and their cost ----------

  /** `p` is a walk over usable links from `v` to `t`. */
  ghost predicate IsRoute<N, L>(g: Net<N, L>, v: N, older p: seq<L>, t: N)
    requires Closed(g)
    decreases |p|
  {
    && (forall l :: l in p ==> l in g.arcs)
    && if p == [] then v == t
       else Usable(g, p[0]) && g.arcs[p[0]].src == v && IsRoute(g, g.arcs[p[0]].dst, p[1..], t)
  }

  /** The weights of all links plus the weights of all intermediate nodes. */
  ghost function Cost<N, L>(g: Net<N, L>, p: seq<L>): Ext
    requires Closed(g) && forall l :: l in p ==> l in g.arcs
  {
    if p == [] then Zero
    else
      var a := g.arcs[p[0]];
      var rest := p[1..];
      a.weight.Plus(if rest == [] then Zero else g.vertices[a.dst].weight).Plus(Cost(g, rest))
  }

  /** One link costs its weight; two routes in a row cost what both cost and the weight of the node between them. */
  lemma {:induction false} JoinedCost<N, L>(g: Net<N, L>, p: seq<L>, q: seq<L>)
    requires Closed(g) && p != [] && q != [] && forall l :: l in p + q ==> l in g.arcs
    ensures (forall l :: l in p ==> l in g.arcs) && (forall l :: l in q ==> l in g.arcs)
    ensures |p| == 1 ==> Cost(g, p) == g.arcs[p[0]].weight
    ensures Cost(g, p + q) == Cost(g, p).Plus(g.vertices[g.arcs[p[|p| - 1]].dst].weight).Plus(Cost(g, q))
    decreases |p|
  {
    assert forall l :: l in p || l in q ==> l in p + q;
    if |p| == 1 {
      assert p[1..] == [] && (p + q)[1..] == q;
    } else {
      assert (p + q)[1..] == p[1..] + q;
      JoinedCost(g, p[1..], q);
    }
  }

  /** There is a route from `v` of finite cost. */
  ghost predicate Reaches<N, L>(g: Net<N, L>, v: N, t: N)
    requires Closed(g)
  {
    exists p :: IsRoute(g, v, p, t) && Cost(g, p).Fin?
  }

  /** No node that reaches the target has a negative weight, and every usable link into such a node has a positive one.
      The search's ASSERTs hold if and only if this does. */
  ghost predicate Admissible<N, L>(g: Net<N, L>, t: N)
    requires Closed(g)
  {
    && (forall l :: l in g.arcs && Usable(g, l) && Reaches(g, g.arcs[l].dst, t) ==> g.arcs[l].weight.Positive())
    && (forall v :: v in g.vertices && Reaches(g, v, t) ==> g.vertices[v].weight.NonNegative())
  }

  /** `p` is the chain of `out` links from `v`, ending the first time it meets `t`. */
  ghost predicate Follows<N, L>(g: Net<N, L>, out: map<N, L>, v: N, older p: seq<L>, t: N)
    decreases |p|
  {
    && (forall l :: l in p ==> l in g.arcs)
    && if p == [] then v == t
       else v != t && v in out && out[v] == p[0] && Follows(g, out, g.arcs[p[0]].dst, p[1..], t)
  }

  /** `dist` holds the least cost of any route to `t`, and `out` leads along a route of that cost. */
  ghost predicate IsShortestPathTree<N, L>(g: Net<N, L>, t: N, dist: map<N, Ext>, out: map<N, L>)
    requires Closed(g)
  {
    && dist.Keys == g.vertices.Keys
    && (forall v, p :: v in g.vertices && IsRoute(g, v, p, t) ==> !Cost(g, p).Less(dist[v]))
    && (forall v :: v in g.vertices && dist[v].Fin? ==>
          exists p :: Follows(g, out, v, p, t) && IsRoute(g, v, p, t) && Cost(g, p) == dist[v])
    && (forall v :: v in g.vertices ==> (v in out <==> dist[v].Fin? && v != t))
  }

  lemma InfiniteIffUnreachable<N, L>(g: Net<N, L>, t: N, dist: map<N, Ext>, out: map<N, L>, v: N)
    requires Closed(g) && IsShortestPathTree(g, t, dist, out) && v in g.vertices
    ensures dist[v].Inf? <==> forall p :: IsRoute(g, v, p, t) ==> Cost(g, p).Inf?
  {
    if dist[v].Inf? {
      forall p | IsRoute(g, v, p, t) ensures Cost(g, p).Inf? {
        assert !Cost(g, p).Less(dist[v]);
      }
    } else {
      var p :| Follows(g, out, v, p, t) && IsRoute(g, v, p, t) && Cost(g, p) == dist[v];
      assert Cost(g, p).Fin?;
    }
  }

  lemma DistancesAreUnique<N, L>(g: Net<N, L>, t: N, dist: map<N, Ext>, out: map<N, L>,
                                 dist': map<N, Ext>, out': map<N, L>)
    requires Closed(g) && IsShortestPathTree(g, t, dist, out) && IsShortestPathTree(g, t, dist', out')
    ensures dist == dist'
  {
    forall v | v in g.vertices ensures dist[v] == dist'[v] {
      if dist[v].Fin? {
        var p :| Follows(g, out, v, p, t) && IsRoute(g, v, p, t) && Cost(g, p) == dist[v];
        assert !Cost(g, p).Less(dist'[v]);
      }
      if dist'[v].Fin? {
        var p :| Follows(g, out', v, p, t) && IsRoute(g, v, p, t) && Cost(g, p) == dist'[v];
        assert !Cost(g, p).Less(dist[v]);
      }
    }
  }

  // ---------- the search ----------

  /** The state of a search: labels, nodes waiting, nodes settled (in the order they were taken out). */
  datatype Search<!N, !L> = Search(dist: map<N, Ext>, out: map<N, L>, queue: seq<N>, done: seq<N>)

  ghost predicate NoDuplicates<T>(s: seq<T>)
  {
    forall i, j :: 0 <= i < j < |s| ==> s[i] != s[j]
  }

  ghost predicate SortedBy<N>(dist: map<N, Ext>, s: seq<N>)
    requires forall v :: v in s ==> v in dist
  {
    forall i, j :: 0 <= i < j < |s| ==> !dist[s[j]].Less(dist[s[i]])
  }

  /** The distance a route gets that starts with link `l`, given distance `d` at the far end of `l`. */
  ghost function Through<N, L>(g: Net<N, L>, t: N, d: Ext, l: L): Ext
    requires Closed(g) && l in g.arcs
  {
    var a := g.arcs[l];
    var e := d.Plus(a.weight);
    if a.dst != t then e.Plus(g.vertices[a.dst].weight) else e
  }

  ghost predicate Relaxed<N, L>(g: Net<N, L>, t: N, dist: map<N, Ext>, l: L)
    requires Closed(g) && l in g.arcs && dist.Keys == g.vertices.Keys
  {
    !Through(g, t, dist[g.arcs[l].dst], l).Less(dist[g.arcs[l].src])
  }

  ghost predicate Met<N, L>(s: Search<N, L>, older v: N)
  {
    v in s.done || v in s.queue
  }

  /** Labels are typed, and exactly the nodes met so far are labelled. */
  ghost predicate Labelled<N, L>(g: Net<N, L>, t: N, s: Search<N, L>)
  {
    && Closed(g) && t in g.vertices
    && s.dist.Keys == g.vertices.Keys
    && s.dist[t] == Zero && t !in s.out
    && (forall i :: 0 <= i < |s.done| ==> s.done[i] in g.vertices)
    && (forall i :: 0 <= i < |s.queue| ==> s.queue[i] in g.vertices)
    && (forall v :: v in g.vertices ==> (s.dist[v].Fin? <==> Met(s, v)))
    && (forall v :: v in s.out ==> Met(s, v))
  }

  /** Settled and waiting nodes together form one duplicate-free list sorted by distance, headed by the target. */
  ghost predicate Ordered<N, L>(t: N, s: Search<N, L>)
    requires forall v :: v in s.done + s.queue ==> v in s.dist
  {
    var order := s.done + s.queue;
    order != [] && order[0] == t && NoDuplicates(order) && SortedBy(s.dist, order)
  }

  /** The out link of every labelled node leads to an earlier settled node and explains the label. */
  ghost predicate Supported<N, L>(g: Net<N, L>, t: N, s: Search<N, L>, j: int)
    requires Labelled(g, t, s) && 0 <= j < |s.done + s.queue|
  {
    var v := (s.done + s.queue)[j];
    v != t ==>
      && v in s.out && s.out[v] in g.arcs && Usable(g, s.out[v])
      && g.arcs[s.out[v]].src == v
      && g.arcs[s.out[v]].dst in s.done[..if j < |s.done| then j else |s.done|]
      && s.dist[v] == Through(g, t, s.dist[g.arcs[s.out[v]].dst], s.out[v])
  }

  /** Links into settled nodes offer no improvement, except the links in `todo`, which are yet to be looked at. */
  ghost predicate Settled<N, L>(g: Net<N, L>, t: N, s: Search<N, L>, todo: set<L>)
    requires Labelled(g, t, s)
  {
    && (forall l {:trigger Relaxed(g, t, s.dist, l)} ::
          l in g.arcs && Usable(g, l) && g.arcs[l].dst in s.done && l !in todo ==> Relaxed(g, t, s.dist, l))
    && (forall l :: l in todo ==> l in g.arcs && s.done != [] && g.arcs[l].dst == s.done[|s.done| - 1])
  }

  ghost predicate Inv<N, L>(g: Net<N, L>, t: N, s: Search<N, L>, todo: set<L>)
  {
    && Labelled(g, t, s) && Ordered(t, s)
    && (forall j :: 0 <= j < |s.done + s.queue| ==> Supported(g, t, s, j))
    && Settled(g, t, s, todo)
  }

  /** What the search's assertions have found so far: they looked at the settled nodes, and at the usable links into
      them other than those in `todo`. */
  ghost predicate Checked<N, L>(g: Net<N, L>, done: seq<N>, todo: set<L>)
    requires Closed(g)
  {
    && (forall v :: v in done ==> v in g.vertices && g.vertices[v].weight.NonNegative())
    && (forall l :: l in g.arcs && Usable(g, l) && g.arcs[l].dst in done && l !in todo ==> g.arcs[l].weight.Positive())
  }

  lemma StartInv<N, L>(g: Net<N, L>, t: N, s: Search<N, L>)
    requires Closed(g) && t in g.vertices && s.dist.Keys == g.vertices.Keys
    requires forall v :: v in g.vertices ==> s.dist[v] == if v == t then Zero else Inf
    requires s.out == map[] && s.queue == [t] && s.done == []
    ensures Inv(g, t, s, {})
  {
  }

  /** Taking the front node out of the queue: its incoming links are now to be looked at. */
  lemma PopInv<N, L>(g: Net<N, L>, t: N, s: Search<N, L>, s': Search<N, L>, todo: set<L>)
    requires Inv(g, t, s, {}) && s.queue != []
    requires s' == s.(queue := s.queue[1..], done := s.done + [s.queue[0]])
    requires forall l :: l in todo <==> l in g.arcs && g.arcs[l].dst == s.queue[0]
    ensures Inv(g, t, s', todo)
  {
    var order := s.done + s.queue;
    assert s'.done + s'.queue == order;
    forall j | 0 <= j < |order| ensures Supported(g, t, s', j) {
      assert Supported(g, t, s, j);
      assert s.done[..if j < |s.done| then j else |s.done|] <= s'.done[..if j < |s'.done| then j else |s'.done|];
    }
  }

  lemma PopChecked<N, L>(g: Net<N, L>, done: seq<N>, v: N, todo: set<L>)
    requires Closed(g) && Checked(g, done, {}) && v in g.vertices && g.vertices[v].weight.NonNegative()
    requires forall l :: l in todo <==> l in g.arcs && g.arcs[l].dst == v
    ensures Checked(g, done + [v], todo)
  {
  }

  /** Distances never decrease along the list of met nodes, so a settled node cannot be improved any more. */
  lemma SettledIsFinal<N, L>(g: Net<N, L>, t: N, s: Search<N, L>, todo: set<L>, l: L)
    requires Inv(g, t, s, todo) && l in todo && Usable(g, l)
    requires g.arcs[l].weight.Positive() && g.vertices[g.arcs[l].dst].weight.NonNegative()
    ensures forall v :: v in s.done ==> !Through(g, t, s.dist[g.arcs[l].dst], l).Less(s.dist[v])
  {
    var order := s.done + s.queue;
    var last := |s.done| - 1;
    var u := order[last];
    assert !Through(g, t, s.dist[u], l).Less(s.dist[u]);
    forall v | v in s.done ensures !s.dist[u].Less(s.dist[v]) {
      var i :| 0 <= i < |s.done| && s.done[i] == v;
      assert order[i] == v;
    }
  }

  /** Looking at a link that is disabled, has a disabled source or offers no shorter route changes nothing. */
  lemma SkipInv<N, L>(g: Net<N, L>, t: N, s: Search<N, L>, todo: set<L>, l: L)
    requires Inv(g, t, s, todo) && l in todo
    requires Usable(g, l) ==> Relaxed(g, t, s.dist, l)
    ensures Inv(g, t, s, todo - {l})
  {
  }

  ghost function Without<T>(s: seq<T>, x: T): (r: seq<T>)
    ensures forall i :: 0 <= i < |r| ==> r[i] in s && r[i] != x
    ensures x !in s ==> r == s
  {
    if s == [] then [] else if s[0] == x then Without(s[1..], x) else [s[0]] + Without(s[1..], x)
  }

  lemma WithoutStep<T>(r: seq<T>, q: seq<T>, i: nat, x: T)
    requires i < |q|
    ensures q[i] == x ==> Without(q[i..], x) == Without(q[i + 1..], x)
    ensures q[i] != x ==> r + Without(q[i..], x) == r + [q[i]] + Without(q[i + 1..], x)
  {
    assert q[i..][1..] == q[i + 1..];
  }

  lemma WithoutKeeps<T>(s: seq<T>, x: T, y: T)
    requires y in s && y != x
    ensures y in Without(s, x)
  {
  }

  lemma WithoutKeepsOrder<N>(dist: map<N, Ext>, s: seq<N>, x: N)
    requires forall v :: v in s ==> v in dist
    requires NoDuplicates(s) && SortedBy(dist, s)
    ensures NoDuplicates(Without(s, x)) && SortedBy(dist, Without(s, x))
  {
    if s != [] {
      WithoutKeepsOrder(dist, s[1..], x);
      assert SortedBy(dist, s[1..]);
      forall y | y in Without(s[1..], x) ensures y in s && y != s[0] && !dist[y].Less(dist[s[0]]) {
        var i :| 0 <= i < |s[1..]| && s[1..][i] == y;
        assert s[i + 1] == y;
      }
    }
  }

  /** `pos` is where the source's ordered insertion puts a node with distance `d`. */
  ghost predicate IsInsertionPoint<N>(dist: map<N, Ext>, q: seq<N>, d: Ext, pos: nat)
    requires forall v :: v in q ==> v in dist
  {
    && pos <= |q|
    && (forall i :: 0 <= i < pos ==> !d.Less(dist[q[i]]))
    && (pos < |q| ==> d.Less(dist[q[pos]]))
  }

  ghost function Inserted<T>(q: seq<T>, pos: nat, x: T): seq<T>
    requires pos <= |q|
  {
    q[..pos] + [x] + q[pos..]
  }

  /** The state after link `l` improved its source node to distance `d`, with `pos` the place in the queue. */
  ghost function Improved<N, L>(s: Search<N, L>, v: N, l: L, d: Ext, pos: nat): Search<N, L>
    requires pos <= |Without(s.queue, v)|
  {
    Search(s.dist[v := d], s.out[v := l], Inserted(Without(s.queue, v), pos, v), s.done)
  }

  lemma InsertedSorted<N>(dist: map<N, Ext>, order: seq<N>, d: Ext, k: nat, v: N)
    requires forall u :: u in order ==> u in dist
    requires SortedBy(dist, order) && v !in order && k <= |order|
    requires forall i :: 0 <= i < k ==> !d.Less(dist[order[i]])
    requires forall i :: k <= i < |order| ==> !dist[order[i]].Less(d)
    ensures SortedBy(dist[v := d], Inserted(order, k, v))
  {
    var order', dist' := Inserted(order, k, v), dist[v := d];
    assert forall i :: 0 <= i < |order'| && i != k ==> order'[i] == order[if i < k then i else i - 1];
    forall i, j | 0 <= i < j < |order'| ensures !dist'[order'[j]].Less(dist'[order'[i]]) {
    }
  }

  lemma InsertedDistinct<N>(order: seq<N>, k: nat, v: N)
    requires NoDuplicates(order) && v !in order && k <= |order|
    ensures NoDuplicates(Inserted(order, k, v))
  {
    var order' := Inserted(order, k, v);
    assert forall i :: 0 <= i < |order'| && i != k ==> order'[i] == order[if i < k then i else i - 1];
  }

  lemma InsertedKeepsOrder<N>(dist: map<N, Ext>, done: seq<N>, q: seq<N>, d: Ext, pos: nat, v: N)
    requires forall u :: u in done + q ==> u in dist
    requires NoDuplicates(done + q) && SortedBy(dist, done + q) && v !in done + q
    requires IsInsertionPoint(dist, q, d, pos)
    requires forall u :: u in done ==> !d.Less(dist[u])
    ensures NoDuplicates(done + Inserted(q, pos, v)) && SortedBy(dist[v := d], done + Inserted(q, pos, v))
  {
    var order, k := done + q, |done| + pos;
    forall i | 0 <= i < k ensures !d.Less(dist[order[i]]) {
    }
    forall i | k <= i < |order| ensures !dist[order[i]].Less(d) {
      assert !dist[order[i]].Less(dist[order[k]]);
    }
    InsertedSorted(dist, order, d, k, v);
    InsertedDistinct(order, k, v);
    assert done + Inserted(q, pos, v) == Inserted(order, k, v);
  }

  lemma QueueWithoutKeepsOrder<N>(dist: map<N, Ext>, done: seq<N>, q: seq<N>, v: N)
    requires forall u :: u in done + q ==> u in dist
    requires NoDuplicates(done + q) && SortedBy(dist, done + q) && v !in done
    ensures NoDuplicates(done + Without(q, v)) && SortedBy(dist, done + Without(q, v))
  {
    WithoutKeepsOrder(dist, done + q, v);
    WithoutDistributes(done, q, v);
  }

  lemma {:induction false} WithoutDistributes<T>(a: seq<T>, b: seq<T>, x: T)
    requires x !in a
    ensures Without(a + b, x) == a + Without(b, x)
  {
    if a == [] {
      assert a + b == b;
    } else {
      var rest, w := a[1..], Without(b, x);
      assert (a + b)[1..] == rest + b;
      calc {
        Without(a + b, x);
        [a[0]] + Without(rest + b, x);
        { WithoutDistributes(rest, b, x); }
        [a[0]] + (rest + w);
        { assert [a[0]] + rest == a; }
        a + w;
      }
    }
  }

  /** Improving a node: it is not settled, so re-inserting it keeps one sorted list, and every label stays explained. */
  lemma ImproveInv<N, L>(g: Net<N, L>, t: N, s: Search<N, L>, todo: set<L>, l: L, d: Ext, pos: nat)
    requires Inv(g, t, s, todo) && l in todo && Usable(g, l)
    requires g.arcs[l].weight.Positive() && g.vertices[g.arcs[l].dst].weight.NonNegative()
    requires d == Through(g, t, s.dist[g.arcs[l].dst], l) && d.Less(s.dist[g.arcs[l].src])
    requires IsInsertionPoint(s.dist, Without(s.queue, g.arcs[l].src), d, pos)
    ensures s.dist[g.arcs[l].src].Fin? ==> g.arcs[l].src in s.queue
    ensures Inv(g, t, Improved(s, g.arcs[l].src, l, d, pos), todo - {l})
  {
    var v := g.arcs[l].src;
    var s' := Improved(s, v, l, d, pos);
    SettledIsFinal(g, t, s, todo, l);
    assert v !in s.done;
    ImproveOrdered(g, t, s, v, l, d, pos);
    ImproveLabelled(g, t, s, v, l, d, pos);
    forall j | 0 <= j < |s'.done + s'.queue| ensures Supported(g, t, s', j) {
      ImproveSupported(g, t, s, l, d, pos, j);
    }
    ImproveSettled(g, t, s, todo, l, d, pos);
  }

  lemma ImproveSettled<N, L>(g: Net<N, L>, t: N, s: Search<N, L>, todo: set<L>, l: L, d: Ext, pos: nat)
    requires Labelled(g, t, s) && Settled(g, t, s, todo) && l in todo && l in g.arcs && g.arcs[l].src !in s.done
    requires pos <= |Without(s.queue, g.arcs[l].src)|
    requires d == Through(g, t, s.dist[g.arcs[l].dst], l) && d.Less(s.dist[g.arcs[l].src])
    requires Labelled(g, t, Improved(s, g.arcs[l].src, l, d, pos))
    ensures Settled(g, t, Improved(s, g.arcs[l].src, l, d, pos), todo - {l})
  {
    var s' := Improved(s, g.arcs[l].src, l, d, pos);
    forall k | k in g.arcs && Usable(g, k) && g.arcs[k].dst in s'.done && k !in todo - {l}
      ensures Relaxed(g, t, s'.dist, k)
    {
      assert k != l ==> Relaxed(g, t, s.dist, k);
    }
  }

  lemma ImproveOrdered<N, L>(g: Net<N, L>, t: N, s: Search<N, L>, v: N, l: L, d: Ext, pos: nat)
    requires Labelled(g, t, s) && Ordered(t, s) && v in g.vertices && v !in s.done && s.done != []
    requires IsInsertionPoint(s.dist, Without(s.queue, v), d, pos)
    requires forall u :: u in s.done ==> !d.Less(s.dist[u])
    ensures var s' := Improved(s, v, l, d, pos);
      && (forall u :: u in s'.done + s'.queue ==> u in s'.dist)
      && Ordered(t, s')
  {
    var s' := Improved(s, v, l, d, pos);
    var q := Without(s.queue, v);
    QueueWithoutKeepsOrder(s.dist, s.done, s.queue, v);
    InsertedKeepsOrder(s.dist, s.done, q, d, pos, v);
    assert s'.done + s'.queue == s.done + Inserted(q, pos, v);
    assert (s.done + s.queue)[0] == s.done[0];
    forall u | u in s'.done + s'.queue ensures u in s'.dist {
      ImprovedMember(s, v, l, d, pos, u);
      assert Met(s, u) || u == v;
    }
  }

  lemma ImproveLabelled<N, L>(g: Net<N, L>, t: N, s: Search<N, L>, v: N, l: L, d: Ext, pos: nat)
    requires Labelled(g, t, s) && Ordered(t, s) && v in g.vertices && v !in s.done && s.done != [] && d.Fin?
    requires pos <= |Without(s.queue, v)|
    ensures Labelled(g, t, Improved(s, v, l, d, pos))
  {
    var s' := Improved(s, v, l, d, pos);
    assert v != t by {
      assert (s.done + s.queue)[0] in s.done;
    }
    forall u ensures Met(s', u) <==> Met(s, u) || u == v {
      ImprovedMember(s, v, l, d, pos, u);
    }
  }

  lemma ImprovedMember<N, L>(s: Search<N, L>, v: N, l: L, d: Ext, pos: nat, u: N)
    requires pos <= |Without(s.queue, v)|
    ensures u in Improved(s, v, l, d, pos).queue <==> u in s.queue || u == v
  {
    var q := Without(s.queue, v);
    if u in s.queue && u != v {
      WithoutKeeps(s.queue, v, u);
    }
    assert q == q[..pos] + q[pos..];
    assert u in q <==> u in q[..pos] || u in q[pos..];
  }

  lemma ImproveSupported<N, L>(g: Net<N, L>, t: N, s: Search<N, L>, l: L, d: Ext, pos: nat, j: int)
    requires Labelled(g, t, s) && forall i :: 0 <= i < |s.done + s.queue| ==> Supported(g, t, s, i)
    requires l in g.arcs && Usable(g, l) && g.arcs[l].dst in s.done && g.arcs[l].src !in s.done
    requires d == Through(g, t, s.dist[g.arcs[l].dst], l)
    requires pos <= |Without(s.queue, g.arcs[l].src)|
    requires Labelled(g, t, Improved(s, g.arcs[l].src, l, d, pos))
    requires var s' := Improved(s, g.arcs[l].src, l, d, pos); 0 <= j < |s'.done + s'.queue|
    ensures Supported(g, t, Improved(s, g.arcs[l].src, l, d, pos), j)
  {
    var v := g.arcs[l].src;
    var s' := Improved(s, v, l, d, pos);
    var u := (s'.done + s'.queue)[j];
    if j < |s.done| {
      assert u == (s.done + s.queue)[j];
      assert Supported(g, t, s, j);
      assert u != t ==> g.arcs[s.out[u]].dst in s.done;
    } else if u != v {
      ImprovedMember(s, v, l, d, pos, u);
      assert u in s'.queue;
      assert u in s.queue;
      var i :| 0 <= i < |s.queue| && s.queue[i] == u;
      assert (s.done + s.queue)[|s.done| + i] == u;
      assert Supported(g, t, s, |s.done| + i);
      assert s.done[..|s.done|] == s.done;
    } else {
      assert s.done[..|s.done|] == s.done;
    }
  }

  // ---------- a finished search ----------

  /** No route is cheaper than the label of its first node. */
  lemma NoCheaperRoute<N, L>(g: Net<N, L>, t: N, s: Search<N, L>, v: N, p: seq<L>)
    requires Inv(g, t, s, {}) && s.queue == [] && Checked(g, s.done, {})
    requires v in g.vertices && IsRoute(g, v, p, t)
    ensures !Cost(g, p).Less(s.dist[v])
    decreases |p|
  {
    if p != [] {
      var l, u, rest := p[0], g.arcs[p[0]].dst, p[1..];
      NoCheaperRoute(g, t, s, u, rest);
      if Cost(g, p).Fin? {
        assert s.dist[u].Fin? && u in s.done;
        assert Relaxed(g, t, s.dist, l);
        assert g.vertices[u].weight.NonNegative();
      }
    }
  }

  /** Following the out links from a settled node reaches the target at exactly the labelled cost. */
  lemma OutLinksAttain<N, L>(g: Net<N, L>, t: N, s: Search<N, L>, todo: set<L>, j: nat) returns (p: seq<L>)
    requires Inv(g, t, s, todo) && j < |s.done|
    ensures Follows(g, s.out, s.done[j], p, t) && IsRoute(g, s.done[j], p, t) && Cost(g, p) == s.dist[s.done[j]]
    ensures p == [] <==> s.done[j] == t
    decreases j
  {
    var v := s.done[j];
    assert (s.done + s.queue)[j] == v;
    if v == t {
      p := [];
    } else {
      assert Supported(g, t, s, j);
      var l := s.out[v];
      var i :| 0 <= i < j && s.done[i] == g.arcs[l].dst;
      var rest := OutLinksAttain(g, t, s, todo, i);
      p := [l] + rest;
      assert p[1..] == rest;
    }
  }

  lemma SettledReaches<N, L>(g: Net<N, L>, t: N, s: Search<N, L>, todo: set<L>, v: N)
    requires Inv(g, t, s, todo) && v in s.done
    ensures Reaches(g, v, t)
  {
    var j :| 0 <= j < |s.done| && s.done[j] == v;
    var p := OutLinksAttain(g, t, s, todo, j);
    assert Met(s, v);
  }

  lemma FinishedSearch<N, L>(g: Net<N, L>, t: N, s: Search<N, L>)
    requires Inv(g, t, s, {}) && s.queue == [] && Checked(g, s.done, {})
    ensures IsShortestPathTree(g, t, s.dist, s.out)
  {
    forall v, p | v in g.vertices && IsRoute(g, v, p, t) ensures !Cost(g, p).Less(s.dist[v]) {
      NoCheaperRoute(g, t, s, v, p);
    }
    assert s.done + s.queue == s.done;
    forall v | v in g.vertices && s.dist[v].Fin?
      ensures exists p :: Follows(g, s.out, v, p, t) && IsRoute(g, v, p, t) && Cost(g, p) == s.dist[v]
      ensures v in s.out <==> v != t
    {
      var j :| 0 <= j < |s.done| && s.done[j] == v;
      assert Supported(g, t, s, j);
      var p := OutLinksAttain(g, t, s, {}, j);
    }
  }

  /** Every node that reaches the target was taken out, so the assertions looked at everything that matters. */
  lemma FinishedMeansAdmissible<N, L>(g: Net<N, L>, t: N, s: Search<N, L>)
    requires Inv(g, t, s, {}) && s.queue == [] && Checked(g, s.done, {})
    ensures Admissible(g, t)
  {
    forall v | v in g.vertices && Reaches(g, v, t) ensures v in s.done {
      var p :| IsRoute(g, v, p, t) && Cost(g, p).Fin?;
      NoCheaperRoute(g, t, s, v, p);
      assert Met(s, v);
    }
  }

  // ---------- hop counts ----------

  /** The same graph with every link weight 1 and every node weight 0. */
  ghost function Unit<N, L>(g: Net<N, L>): Net<N, L>
  {
    Net(map v | v in g.vertices :: Vertex(Zero, g.vertices[v].enabled),
        map l | l in g.arcs :: Arc(g.arcs[l].src, g.arcs[l].dst, Fin(1.0), g.arcs[l].enabled))
  }

  /** In the unit graph the routes are the same and the cost of a route is its number of links. */
  lemma UnitCostIsHopCount<N, L>(g: Net<N, L>, v: N, p: seq<L>, t: N)
    requires Closed(g)
    ensures Closed(Unit(g))
    ensures IsRoute(Unit(g), v, p, t) <==> IsRoute(g, v, p, t)
    ensures IsRoute(g, v, p, t) ==> Cost(Unit(g), p) == Fin(|p| as real)
    decreases |p|
  {
    if p != [] && p[0] in g.arcs {
      UnitCostIsHopCount(g, g.arcs[p[0]].dst, p[1..], t);
    }
  }

  /** In the breadth-first search the waiting nodes are at most one hop beyond the last settled node. */
  ghost predicate OneLevel<N, L>(s: Search<N, L>)
    requires forall i :: 0 <= i < |s.done| ==> s.done[i] in s.dist
    requires forall i :: 0 <= i < |s.queue| ==> s.queue[i] in s.dist
  {
    if s.done == [] then |s.queue| <= 1
    else forall i :: 0 <= i < |s.queue| ==> !s.dist[s.done[|s.done| - 1]].Plus(Fin(1.0)).Less(s.dist[s.queue[i]])
  }

  lemma PopOneLevel<N, L>(g: Net<N, L>, t: N, s: Search<N, L>)
    requires Inv(g, t, s, {}) && OneLevel(s) && s.queue != []
    ensures OneLevel(s.(queue := s.queue[1..], done := s.done + [s.queue[0]]))
  {
    var s' := s.(queue := s.queue[1..], done := s.done + [s.queue[0]]);
    var order := s.done + s.queue;
    var k := |s.done|;
    forall i | 0 <= i < |s'.queue|
      ensures !s.dist[s.queue[0]].Plus(Fin(1.0)).Less(s.dist[s'.queue[i]])
    {
      assert s'.queue[i] == s.queue[i + 1] == order[k + 1 + i];
      assert order[k] == s.queue[0] && order[k - 1] == s.done[k - 1];
      assert !s.dist[order[k]].Less(s.dist[order[k - 1]]);
      assert Met(s, order[k]);
    }
  }

  /** A node that already has a hop count cannot be improved. */
  lemma SeenNeedsNoLabel<N, L>(g: Net<N, L>, t: N, s: Search<N, L>, todo: set<L>, l: L)
    requires Closed(g) && Inv(Unit(g), t, s, todo) && OneLevel(s) && l in todo && Usable(Unit(g), l)
    requires s.dist[g.arcs[l].src].Fin?
    ensures Relaxed(Unit(g), t, s.dist, l)
  {
    var v, u := g.arcs[l].src, s.done[|s.done| - 1];
    assert Met(s, v) && Met(s, u);
    if v in s.done {
      SettledIsFinal(Unit(g), t, s, todo, l);
    }
  }

  /** Appending a node met for the first time is an ordered insertion and keeps the queue within one level. */
  lemma {:induction false} AppendKeepsOneLevel<N, L>(g: Net<N, L>, t: N, s: Search<N, L>, todo: set<L>, l: L, d: Ext)
    requires Closed(g) && Inv(Unit(g), t, s, todo) && OneLevel(s) && l in todo && Usable(Unit(g), l)
    requires s.dist[g.arcs[l].src].Inf? && d == s.dist[g.arcs[l].dst].Plus(Fin(1.0))
    ensures d == Through(Unit(g), t, s.dist[g.arcs[l].dst], l) && d.Fin?
    ensures Without(s.queue, g.arcs[l].src) == s.queue
    ensures IsInsertionPoint(s.dist, s.queue, d, |s.queue|)
    ensures Inserted(s.queue, |s.queue|, g.arcs[l].src) == s.queue + [g.arcs[l].src]
    ensures var s' := Improved(s, g.arcs[l].src, l, d, |s.queue|);
      && (forall i :: 0 <= i < |s'.done| ==> s'.done[i] in s'.dist)
      && (forall i :: 0 <= i < |s'.queue| ==> s'.queue[i] in s'.dist)
      && OneLevel(s')
  {
    var v, u := g.arcs[l].src, g.arcs[l].dst;
    assert !Met(s, v);
    assert u == s.done[|s.done| - 1] && Met(s, u);
    assert d == Through(Unit(g), t, s.dist[u], l);
    AppendedLevel(s, v, l, d);
  }

  lemma AppendedLevel<N, L>(s: Search<N, L>, v: N, l: L, d: Ext)
    requires forall i :: 0 <= i < |s.done| ==> s.done[i] in s.dist
    requires forall i :: 0 <= i < |s.queue| ==> s.queue[i] in s.dist
    requires OneLevel(s) && s.done != [] && !Met(s, v)
    requires d == s.dist[s.done[|s.done| - 1]].Plus(Fin(1.0))
    ensures Without(s.queue, v) == s.queue && IsInsertionPoint(s.dist, s.queue, d, |s.queue|)
    ensures Inserted(s.queue, |s.queue|, v) == s.queue + [v]
    ensures var s' := Improved(s, v, l, d, |s.queue|);
      && (forall i :: 0 <= i < |s'.done| ==> s'.done[i] in s'.dist)
      && (forall i :: 0 <= i < |s'.queue| ==> s'.queue[i] in s'.dist)
      && OneLevel(s')
  {
    assert Inserted(s.queue, |s.queue|, v) == s.queue + [v];
    var s' := Improved(s, v, l, d, |s.queue|);
    assert s'.queue == s.queue + [v];
    forall i | 0 <= i < |s'.queue| ensures s'.queue[i] in s'.dist && !d.Less(s'.dist[s'.queue[i]]) {
      assert i < |s.queue| ==> s'.queue[i] == s.queue[i] && s.queue[i] != v;
    }
  }

  /** Unit weights pass the assertions that the weighted search makes. */
  lemma FinishedHops<N, L>(g: Net<N, L>, t: N, s: Search<N, L>)
    requires Closed(g) && Inv(Unit(g), t, s, {}) && s.queue == []
    ensures Closed(Unit(g)) && IsShortestPathTree(Unit(g), t, s.dist, s.out)
  {
    assert Checked(Unit(g), s.done, {});
    FinishedSearch(Unit(g), t, s);
  }

  /** A breadth-first result: each finite distance is the least number of usable links on any route to the target. */
  lemma HopCountsAreMinimal<N, L>(g: Net<N, L>, t: N, dist: map<N, Ext>, out: map<N, L>, v: N)
    requires Closed(g) && Closed(Unit(g)) && IsShortestPathTree(Unit(g), t, dist, out) && v in g.vertices
    ensures forall p :: IsRoute(g, v, p, t) ==> dist[v].Fin? && dist[v].v <= |p| as real
    ensures dist[v].Fin? ==> exists p :: IsRoute(g, v, p, t) && Follows(g, out, v, p, t) && dist[v] == Fin(|p| as real)
  {
    forall p | IsRoute(g, v, p, t) ensures dist[v].Fin? && dist[v].v <= |p| as real {
      UnitCostIsHopCount(g, v, p, t);
      assert !Cost(Unit(g), p).Less(dist[v]);
    }
    if dist[v].Fin? {
      var p :| Follows(Unit(g), out, v, p, t) && IsRoute(Unit(g), v, p, t) && Cost(Unit(g), p) == dist[v];
      UnitCostIsHopCount(g, v, p, t);
      UnitFollows(g, out, v, p, t);
    }
  }

  lemma UnitFollows<N, L>(g: Net<N, L>, out: map<N, L>, v: N, p: seq<L>, t: N)
    ensures Follows(Unit(g), out, v, p, t) <==> Follows(g, out, v, p, t)
    decreases |p|
  {
    if p != [] && p[0] in g.arcs {
      UnitFollows(g, out, g.arcs[p[0]].dst, p[1..], t);
    }
  }

  /** When all links weigh 1 and all nodes weigh 0, the two searches give every node the same distance. */
  lemma SearchesAgreeOnUnitWeights<N, L>(g: Net<N, L>, t: N, hops: map<N, Ext>, hopOut: map<N, L>,
                                         dist: map<N, Ext>, out: map<N, L>)
    requires forall v :: v in g.vertices ==> g.vertices[v].weight == Zero
    requires forall l :: l in g.arcs ==> g.arcs[l].weight == Fin(1.0)
    requires Closed(g) && Closed(Unit(g)) && IsShortestPathTree(Unit(g), t, hops, hopOut)
    requires IsShortestPathTree(g, t, dist, out)
    ensures hops == dist
  {
    assert Unit(g).vertices == g.vertices;
    assert Unit(g).arcs == g.arcs;
    DistancesAreUnique(g, t, hops, hopOut, dist, out);
  }
}
