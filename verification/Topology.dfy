/** `Topology`: a mutable directed graph with editing operations and two single-target shortest path searches.
    `nodeAt[n]` and `linkAt[l]` are the objects that the pointers `n` and `l` point to. */
module Topologies {
  import opened ExtendedReals
  import opened ShortestPaths
  import opened TopologyGraph
  import opened Wrappers

  /** Removing the first occurrence of `x`, as `std::find` and `erase` do. */
  method EraseFirst<T(==)>(s: seq<T>, x: T) returns (r: seq<T>)
    requires x in s && NoDuplicates(s)
    ensures r == Without(s, x)
  {
    var i := 0;
    while s[i] != x
      invariant i < |s| && x !in s[..i]
      decreases |s| - i
    {
      i := i + 1;
    }
    r := s[..i] + s[i + 1..];
    assert s == s[..i] + s[i..];
    assert x !in s[i + 1..] by {
      assert forall k :: i + 1 <= k < |s| ==> s[k] != s[i];
    }
    WithoutDistributes(s[..i], s[i..], x);
    assert Without(s[i..], x) == s[i + 1..];
  }

  /** How the weighted search ends: a null target is refused, one of its two ASSERTs fails, or all paths are found. */
  datatype SearchResult = NullTarget | AssertionFailed | Found

  class Topology {
    var nodes: seq<Node>
    var target: Option<Node>
    var nodeAt: NodeTable
    var linkAt: LinkTable

    ghost predicate Valid()
      reads this
    {
      Consistent(nodes, nodeAt, linkAt)
    }

    ghost function Graph(): Net<Node, Link>
      reads this
    {
      View(nodes, nodeAt, linkAt)
    }

    constructor ()
      ensures Valid() && nodes == [] && Graph().vertices.Keys == {} && Graph().arcs.Keys == {}
    {
      nodes, target, nodeAt, linkAt := [], None, map[], map[];
    }

    method NewNode(node: Node, moduleId: int32)
      requires Valid() && node !in nodeAt
      modifies this`nodeAt
      ensures Valid() && Graph() == old(Graph())
      ensures nodeAt == old(nodeAt)[node := NodeFields(moduleId, Zero, true, [], [], Inf, None)]
    {
      var f := NodeFields(moduleId, Zero, true, [], [], Inf, None);
      NewNodeConsistent(nodes, nodeAt, linkAt, node, f);
      nodeAt := nodeAt[node := f];
    }

    method NewLink(link: Link, weight: Ext)
      requires Valid() && link !in linkAt
      modifies this`linkAt
      ensures Valid() && Graph() == old(Graph())
      ensures linkAt == old(linkAt)[link := LinkFields(None, -1, None, -1, weight, true)]
    {
      var f := LinkFields(None, -1, None, -1, weight, true);
      NewLinkConsistent(nodes, nodeAt, linkAt, link, f);
      linkAt := linkAt[link := f];
    }

    // ---------- editing ----------

    method SetNodeWeight(node: Node, weight: Ext)
      requires Valid() && node in nodeAt
      modifies this`nodeAt
      ensures Valid() && nodeAt == old(nodeAt)[node := old(nodeAt)[node].(weight := weight)]
      ensures Graph() == if node !in Elements(nodes) then old(Graph()) else
        old(Graph()).(vertices := old(Graph()).vertices[node := Vertex(weight, nodeAt[node].enabled)])
    {
      ChangedNode(nodes, nodeAt, linkAt, node, weight, nodeAt[node].enabled);
      nodeAt := nodeAt[node := nodeAt[node].(weight := weight)];
    }

    /** `enable` and `disable` of a node. */
    method SetNodeEnabled(node: Node, enabled: bool)
      requires Valid() && node in nodeAt
      modifies this`nodeAt
      ensures Valid() && nodeAt == old(nodeAt)[node := old(nodeAt)[node].(enabled := enabled)]
      ensures Graph() == if node !in Elements(nodes) then old(Graph()) else
        old(Graph()).(vertices := old(Graph()).vertices[node := Vertex(nodeAt[node].weight, enabled)])
    {
      ChangedNode(nodes, nodeAt, linkAt, node, nodeAt[node].weight, enabled);
      nodeAt := nodeAt[node := nodeAt[node].(enabled := enabled)];
    }

    method SetLinkWeight(link: Link, weight: Ext)
      requires Valid() && link in linkAt
      modifies this`linkAt
      ensures Valid() && linkAt == old(linkAt)[link := old(linkAt)[link].(weight := weight)]
      ensures Graph() == if link !in Arcs(old(linkAt)) then old(Graph()) else
        old(Graph()).(arcs := old(Graph()).arcs[link := old(Graph()).arcs[link].(weight := weight)])
    {
      ChangedLink(nodes, nodeAt, linkAt, link, weight, linkAt[link].enabled);
      linkAt := linkAt[link := linkAt[link].(weight := weight)];
    }

    /** `enable` and `disable` of a link. */
    method SetLinkEnabled(link: Link, enabled: bool)
      requires Valid() && link in linkAt
      modifies this`linkAt
      ensures Valid() && linkAt == old(linkAt)[link := old(linkAt)[link].(enabled := enabled)]
      ensures Graph() == if link !in Arcs(old(linkAt)) then old(Graph()) else
        old(Graph()).(arcs := old(Graph()).arcs[link := old(Graph()).arcs[link].(enabled := enabled)])
    {
      ChangedLink(nodes, nodeAt, linkAt, link, linkAt[link].weight, enabled);
      linkAt := linkAt[link := linkAt[link].(enabled := enabled)];
    }

    /** `std::lower_bound` by module ID. */
    method LowerBound(id: int32) returns (pos: nat)
      requires Valid()
      ensures pos <= |nodes| && forall n :: n in nodes ==> n in nodeAt
      ensures forall i :: 0 <= i < pos ==> AsUnsigned(nodeAt[nodes[i]].moduleId) < AsUnsigned(id)
      ensures forall i :: pos <= i < |nodes| ==> AsUnsigned(nodeAt[nodes[i]].moduleId) >= AsUnsigned(id)
    {
      NodeListMeans(nodeAt, nodes);
      pos := 0;
      var hi := |nodes|;
      while pos < hi
        invariant 0 <= pos <= hi <= |nodes|
        invariant forall i :: 0 <= i < pos ==> AsUnsigned(nodeAt[nodes[i]].moduleId) < AsUnsigned(id)
        invariant forall i :: hi <= i < |nodes| ==> AsUnsigned(nodeAt[nodes[i]].moduleId) >= AsUnsigned(id)
      {
        var mid := (pos + hi) / 2;
        if AsUnsigned(nodeAt[nodes[mid]].moduleId) < AsUnsigned(id) {
          pos := mid + 1;
        } else {
          hi := mid;
        }
      }
    }

    /** Exactly the nodes before `pos` have IDs below `id`. */
    ghost predicate IsBoundary(s: seq<Node>, pos: int, id: int)
      reads this
    {
      forall i :: 0 <= i < |s| ==> s[i] in nodeAt && (i < pos <==> AsUnsigned(nodeAt[s[i]].moduleId) < id)
    }

    method GetNodeFor(id: int32) returns (n: Option<Node>)
      requires Valid()
      ensures forall m :: m in nodes ==> m in nodeAt
      ensures n.Some? ==> n.value in nodes && nodeAt[n.value].moduleId == id
      ensures n.None? ==> forall m :: m in nodes ==> nodeAt[m].moduleId != id
    {
      NodeListMeans(nodeAt, nodes);
      var pos := LowerBound(id);
      if pos == |nodes| || nodeAt[nodes[pos]].moduleId != id {
        n := None;
        assert forall i :: 0 <= i < |nodes| ==> nodeAt[nodes[i]].moduleId != id;
      } else {
        n := Some(nodes[pos]);
      }
    }

    method AddNode(node: Node) returns (pos: int)
      requires Valid() && node in nodeAt && node !in nodes
      modifies this`nodes
      ensures Valid()
      ensures 0 <= pos <= |old(nodes)| && nodes == old(nodes)[..pos] + [node] + old(nodes)[pos..]
      ensures nodeAt[node].moduleId == -1 ==> pos == |old(nodes)|
      ensures nodeAt[node].moduleId != -1 ==> IsBoundary(old(nodes), pos, AsUnsigned(nodeAt[node].moduleId))
      ensures Graph() == old(Graph()).(vertices :=
        old(Graph()).vertices[node := Vertex(nodeAt[node].weight, nodeAt[node].enabled)])
    {
      ElementsMean(nodes);
      if nodeAt[node].moduleId == -1 {
        NodeListMeans(nodeAt, nodes);
        pos := |nodes|;
        AddNodeConsistent(nodes, nodeAt, linkAt, pos, node);
        assert nodes + [node] == nodes[..pos] + [node] + nodes[pos..];
        nodes := nodes + [node];
      } else {
        pos := LowerBound(nodeAt[node].moduleId);
        AddNodeConsistent(nodes, nodeAt, linkAt, pos, node);
        nodes := nodes[..pos] + [node] + nodes[pos..];
      }
    }

    method UnlinkFromSourceNode(link: Link)
      requires link in Sources(linkAt) && Sources(linkAt)[link] in nodeAt
      requires var s := nodeAt[Sources(linkAt)[link]].outLinks; link in s && NoDuplicates(s)
      modifies this`nodeAt
      ensures var n := Sources(linkAt)[link];
        nodeAt == old(nodeAt)[n := old(nodeAt)[n].(outLinks := Without(old(nodeAt)[n].outLinks, link))]
    {
      var n := linkAt[link].srcNode.value;
      var rest := EraseFirst(nodeAt[n].outLinks, link);
      nodeAt := nodeAt[n := nodeAt[n].(outLinks := rest)];
    }

    method UnlinkFromDestNode(link: Link)
      requires link in Destinations(linkAt) && Destinations(linkAt)[link] in nodeAt
      requires var s := nodeAt[Destinations(linkAt)[link]].inLinks; link in s && NoDuplicates(s)
      modifies this`nodeAt
      ensures var n := Destinations(linkAt)[link];
        nodeAt == old(nodeAt)[n := old(nodeAt)[n].(inLinks := Without(old(nodeAt)[n].inLinks, link))]
    {
      var n := linkAt[link].destNode.value;
      var rest := EraseFirst(nodeAt[n].inLinks, link);
      nodeAt := nodeAt[n := nodeAt[n].(inLinks := rest)];
    }

    method DeleteLink(link: Link)
      requires Valid() && link in linkAt && linkAt[link].srcNode.Some?
      modifies this`nodeAt, this`linkAt
      ensures Valid()
      ensures linkAt == old(linkAt) - {link} && SameNodes(old(nodeAt), nodeAt)
      ensures Graph() == old(Graph()).(arcs := old(Graph()).arcs - {link})
    {
      ListedAtEnds(nodes, nodeAt, linkAt, link);
      ghost var ns, ls := nodeAt, linkAt;
      UnlinkFromSourceNode(link);
      UnlinkFromDestNode(link);
      linkAt := linkAt - {link};
      assert nodeAt == Unlinked(ns, link, ls[link]);
      DeleteLinkConsistent(nodes, ns, ls, link);
    }

    /** `addLink`: remove the link from the graph if it is already in. */
    method Disconnect(link: Link)
      requires Valid() && link in linkAt
      modifies this`nodeAt
      ensures Consistent(nodes, nodeAt, linkAt - {link}) && SameNodes(old(nodeAt), nodeAt)
      ensures View(nodes, nodeAt, linkAt - {link}) == old(Graph()).(arcs := old(Graph()).arcs - {link})
    {
      ghost var ns := nodeAt;
      if linkAt[link].srcNode.Some? {
        ListedAtEnds(nodes, nodeAt, linkAt, link);
        UnlinkFromSourceNode(link);
        UnlinkFromDestNode(link);
        assert nodeAt == Unlinked(ns, link, linkAt[link]);
        DeleteLinkConsistent(nodes, ns, linkAt, link);
      } else {
        FreeUnconnected(nodes, ns, linkAt, link);
      }
    }

    /** `addLink`: insert a link that no list holds. */
    method Connect(link: Link, srcNode: Node, destNode: Node)
      requires link in linkAt && Consistent(nodes, nodeAt, linkAt - {link})
      requires srcNode in Elements(nodes) && destNode in Elements(nodes)
      modifies this`nodeAt, this`linkAt
      ensures Valid() && SameNodes(old(nodeAt), nodeAt)
      ensures linkAt == old(linkAt)[link := Connected(old(linkAt)[link], srcNode, destNode)]
      ensures Graph() == View(nodes, old(nodeAt), old(linkAt) - {link}).(arcs :=
        Arcs(old(linkAt) - {link})[link := Arc(srcNode, destNode, linkAt[link].weight, linkAt[link].enabled)])
    {
      ghost var ns, ls := nodeAt, linkAt - {link};
      var f := linkAt[link];
      if f.srcNode != Some(srcNode) {
        f := f.(srcGateId := -1);
      }
      if f.destNode != Some(destNode) {
        f := f.(destGateId := -1);
      }
      f := f.(srcNode := Some(srcNode), destNode := Some(destNode));
      linkAt := linkAt[link := f];
      nodeAt := nodeAt[srcNode := nodeAt[srcNode].(outLinks := nodeAt[srcNode].outLinks + [link])];
      nodeAt := nodeAt[destNode := nodeAt[destNode].(inLinks := nodeAt[destNode].inLinks + [link])];
      assert nodeAt == Linked(ns, link, srcNode, destNode);
      assert linkAt == ls[link := f];
      AddLinkConsistent(nodes, ns, ls, link, f);
      LinkedTables(ns, link, srcNode, destNode);
    }

    /** Adds a link, or reconnects one that is already in the graph. */
    method AddLink(link: Link, srcNode: Node, destNode: Node)
      requires Valid() && link in linkAt && srcNode in nodes && destNode in nodes
      modifies this`nodeAt, this`linkAt
      ensures Valid() && SameNodes(old(nodeAt), nodeAt)
      ensures linkAt == old(linkAt)[link := Connected(old(linkAt)[link], srcNode, destNode)]
      ensures Graph() == old(Graph()).(arcs :=
        old(Graph()).arcs[link := Arc(srcNode, destNode, linkAt[link].weight, linkAt[link].enabled)])
    {
      ElementsMean(nodes);
      Disconnect(link);
      Connect(link, srcNode, destNode);
    }

    method DeleteNode(node: Node)
      requires Valid() && node in nodes
      modifies this`nodes, this`nodeAt, this`linkAt
      ensures Valid()
      ensures nodes == Without(old(nodes), node)
      ensures linkAt == LinksAwayFrom(old(linkAt), node)
      ensures SameNodes(old(nodeAt) - {node}, nodeAt)
      ensures Graph() == Net(old(Graph()).vertices - {node}, Arcs(linkAt))
    {
      ElementsMean(nodes);
      NodeListMeans(nodeAt, nodes);
      DeleteOutLinks(node);
      DeleteInLinks(node);
      AwayIsWithoutBoth(old(linkAt), node);
      DropNodeConsistent(nodes, nodeAt, linkAt, node);
      nodes := EraseFirst(nodes, node);
      nodeAt := nodeAt - {node};
    }

    /** The first loop of `deleteNode`: the out list of the node stays as it is until all its links are gone. `ns` is
        the node table that would result had every link so far been erased from both of its lists. */
    method DeleteOutLinks(node: Node)
      requires Valid() && node in Elements(nodes)
      modifies this`nodeAt, this`linkAt
      ensures Valid() && SameNodes(old(nodeAt), nodeAt) && nodeAt[node].outLinks == []
      ensures linkAt == LinksWithoutSource(old(linkAt), node)
      ensures Graph() == Net(old(Graph()).vertices, Arcs(linkAt))
    {
      ghost var ns := nodeAt;
      ghost var outs := nodeAt[node].outLinks;
      var i := 0;
      while i < |nodeAt[node].outLinks|
        invariant node in ns && nodeAt == WithOutLinks(ns, node, outs)
        invariant i <= |outs| && ns[node].outLinks == outs[i..]
        invariant Consistent(nodes, ns, linkAt) && SameNodes(old(nodeAt), ns)
        invariant LinksWithoutSource(linkAt, node) == LinksWithoutSource(old(linkAt), node)
        invariant View(nodes, ns, linkAt) == Net(old(Graph()).vertices, Arcs(linkAt))
        decreases |outs| - i
      {
        ns := DeleteOutLink(node, nodeAt[node].outLinks[i], ns, outs);
        i := i + 1;
      }
      nodeAt := nodeAt[node := nodeAt[node].(outLinks := [])];
      assert nodeAt == ns;
      NoLinkWithSource(nodes, ns, linkAt, node);
    }

    method DeleteOutLink(node: Node, link: Link, ghost ns: NodeTable, ghost outs: seq<Link>)
      returns (ghost ns': NodeTable)
      requires Consistent(nodes, ns, linkAt) && node in ns && nodeAt == WithOutLinks(ns, node, outs)
      requires ns[node].outLinks != [] && link == ns[node].outLinks[0]
      modifies this`nodeAt, this`linkAt
      ensures Consistent(nodes, ns', linkAt) && SameNodes(ns, ns') && nodeAt == WithOutLinks(ns', node, outs)
      ensures ns'[node].outLinks == ns[node].outLinks[1..]
      ensures LinksWithoutSource(linkAt, node) == LinksWithoutSource(old(linkAt), node)
      ensures View(nodes, ns', linkAt) == Net(View(nodes, ns, old(linkAt)).vertices, Arcs(linkAt))
    {
      ghost var l;
      l, ns' := DeleteFirstOutLink(nodes, ns, linkAt, node);
      HalfUnlinkedOut(ns, link, linkAt[link], node, outs);
      UnlinkFromDestNode(link);
      linkAt := linkAt - {link};
    }

    /** The second loop of `deleteNode`, likewise. */
    method DeleteInLinks(node: Node)
      requires Valid() && node in Elements(nodes) && nodeAt[node].outLinks == []
      modifies this`nodeAt, this`linkAt
      ensures Valid() && SameNodes(old(nodeAt), nodeAt) && nodeAt[node].outLinks == nodeAt[node].inLinks == []
      ensures linkAt == LinksWithoutDestination(old(linkAt), node)
      ensures Graph() == Net(old(Graph()).vertices, Arcs(linkAt))
    {
      ghost var ns := nodeAt;
      ghost var ins := nodeAt[node].inLinks;
      var i := 0;
      while i < |nodeAt[node].inLinks|
        invariant node in ns && nodeAt == WithInLinks(ns, node, ins)
        invariant i <= |ins| && ns[node].inLinks == ins[i..] && ns[node].outLinks == []
        invariant Consistent(nodes, ns, linkAt) && SameNodes(old(nodeAt), ns)
        invariant LinksWithoutDestination(linkAt, node) == LinksWithoutDestination(old(linkAt), node)
        invariant View(nodes, ns, linkAt) == Net(old(Graph()).vertices, Arcs(linkAt))
        decreases |ins| - i
      {
        ns := DeleteInLink(node, nodeAt[node].inLinks[i], ns, ins);
        i := i + 1;
      }
      nodeAt := nodeAt[node := nodeAt[node].(inLinks := [])];
      assert nodeAt == ns;
      NoLinkWithDestination(nodes, ns, linkAt, node);
    }

    method DeleteInLink(node: Node, link: Link, ghost ns: NodeTable, ghost ins: seq<Link>)
      returns (ghost ns': NodeTable)
      requires Consistent(nodes, ns, linkAt) && node in ns && nodeAt == WithInLinks(ns, node, ins)
      requires ns[node].inLinks != [] && link == ns[node].inLinks[0] && ns[node].outLinks == []
      modifies this`nodeAt, this`linkAt
      ensures Consistent(nodes, ns', linkAt) && SameNodes(ns, ns') && nodeAt == WithInLinks(ns', node, ins)
      ensures ns'[node].inLinks == ns[node].inLinks[1..] && ns'[node].outLinks == []
      ensures LinksWithoutDestination(linkAt, node) == LinksWithoutDestination(old(linkAt), node)
      ensures View(nodes, ns', linkAt) == Net(View(nodes, ns, old(linkAt)).vertices, Arcs(linkAt))
    {
      ghost var l;
      l, ns' := DeleteFirstInLink(nodes, ns, linkAt, node);
      HalfUnlinkedIn(ns, link, linkAt[link], node, ins);
      UnlinkFromSourceNode(link);
      linkAt := linkAt - {link};
    }

    // ---------- shortest paths ----------

    ghost function Dist(): map<Node, Ext>
      reads this
    {
      Distances(Elements(nodes), nodeAt)
    }

    ghost function Out(): map<Node, Link>
      reads this
    {
      OutPaths(Elements(nodes), nodeAt)
    }

    /** Both searches start by clearing the path information of all nodes. */
    method ClearPathInfo(t: Node) returns (ghost s: Search<Node, Link>)
      requires Valid() && t in Elements(nodes)
      modifies this`nodeAt
      ensures SameGraph(old(nodeAt), nodeAt) && Valid() && Graph() == old(Graph())
      ensures s == Search(Dist(), Out(), [t], []) && s.out == map[]
      ensures s.dist == map n | n in Elements(nodes) :: if n == t then Zero else Inf
    {
      ElementsMean(nodes);
      ClearLabels();
      ClearedLabels(Elements(nodes), nodeAt, t);
      nodeAt := nodeAt[t := nodeAt[t].(dist := Fin(0.0))];
      SearchKeepsGraph(nodes, old(nodeAt), linkAt, nodeAt);
      s := Search(Dist(), Out(), [t], []);
    }

    method ClearLabels()
      requires Valid()
      modifies this`nodeAt
      ensures SameGraph(old(nodeAt), nodeAt)
      ensures forall n :: n in Elements(nodes) ==> n in nodeAt && nodeAt[n].dist == Inf && nodeAt[n].outPath == None
    {
      NodeListMeans(nodeAt, nodes);
      for i := 0 to |nodes|
        invariant SameGraph(old(nodeAt), nodeAt)
        invariant forall j :: 0 <= j < i ==> nodeAt[nodes[j]].dist == Inf && nodeAt[nodes[j]].outPath == None
      {
        var n := nodes[i];
        nodeAt := nodeAt[n := nodeAt[n].(dist := Inf, outPath := None)];
      }
      ElementsMean(nodes);
    }

    /** What both searches know between two steps: the nodes hold the labels of `s`, and the graph is `g`. */
    ghost predicate Searching(g: Net<Node, Link>, s: Search<Node, Link>, q: seq<Node>)
      reads this
    {
      && Valid() && Graph() == g && Closed(g) && g.vertices.Keys == Elements(nodes)
      && s.dist == Dist() && s.out == Out() && s.queue == q
    }

    /** Storing a new label in a node. */
    method Label(n: Node, d: Ext, link: Link, ghost g: Net<Node, Link>, ghost s: Search<Node, Link>)
      requires Searching(g, s, s.queue) && n in Elements(nodes)
      modifies this`nodeAt
      ensures SameGraph(old(nodeAt), nodeAt)
      ensures Searching(g, s.(dist := s.dist[n := d], out := s.out[n := link]), s.queue)
    {
      Relabelled(Elements(nodes), nodeAt, n, d, link);
      nodeAt := nodeAt[n := nodeAt[n].(dist := d, outPath := Some(link))];
      SearchKeepsGraph(nodes, old(nodeAt), linkAt, nodeAt);
    }

    /** Looking at one incoming link of the node just taken out of the breadth-first queue. */
    method VisitHop(t: Node, v: Node, link: Link, q: seq<Node>,
                    ghost g: Net<Node, Link>, ghost s: Search<Node, Link>, ghost todo: set<Link>)
      returns (q': seq<Node>, ghost s': Search<Node, Link>)
      requires Searching(g, s, q) && Inv(Unit(g), t, s, todo) && OneLevel(s)
      requires link in todo && link in g.arcs && g.arcs[link].dst == v
      modifies this`nodeAt
      ensures SameGraph(old(nodeAt), nodeAt) && Searching(g, s', q') && s'.done == s.done
      ensures Inv(Unit(g), t, s', todo - {link}) && OneLevel(s')
    {
      q', s' := q, s;
      if linkAt[link].enabled {
        var w := linkAt[link].srcNode.value;
        if nodeAt[w].enabled && nodeAt[w].dist == Inf {
          var d := nodeAt[v].dist.Plus(Fin(1.0));
          AppendKeepsOneLevel(g, t, s, todo, link, d);
          ImproveInv(Unit(g), t, s, todo, link, d, |q|);
          Label(w, d, link, g, s);
          q' := q + [w];
          s' := Improved(s, w, link, d, |q|);
          return;
        }
      }
      if Usable(Unit(g), link) {
        SeenNeedsNoLabel(g, t, s, todo, link);
      }
      SkipInv(Unit(g), t, s, todo, link);
    }

    /** One round of the breadth-first search: the incoming links of the node just taken out are looked at. */
    method VisitHops(t: Node, v: Node, q: seq<Node>, ghost g: Net<Node, Link>, ghost s: Search<Node, Link>)
      returns (q': seq<Node>, ghost s': Search<Node, Link>)
      requires Searching(g, s, q) && v in nodeAt
      requires Inv(Unit(g), t, s, ElementSet(nodeAt[v].inLinks)) && OneLevel(s)
      modifies this`nodeAt
      ensures SameGraph(old(nodeAt), nodeAt) && Searching(g, s', q') && s'.done == s.done
      ensures Inv(Unit(g), t, s', {}) && OneLevel(s')
    {
      ghost var incoming := nodeAt[v].inLinks;
      InLinksAreArcs(nodes, nodeAt, linkAt, v);
      q', s' := q, s;
      assert incoming[0..] == incoming;
      for i := 0 to |nodeAt[v].inLinks|
        invariant SameGraph(old(nodeAt), nodeAt) && nodeAt[v].inLinks == incoming
        invariant Searching(g, s', q') && s'.done == s.done
        invariant Inv(Unit(g), t, s', ElementSet(incoming[i..])) && OneLevel(s')
      {
        DropFirst(incoming, i);
        q', s' := VisitHop(t, v, nodeAt[v].inLinks[i], q', g, s', ElementSet(incoming[i..]));
      }
      assert ElementSet(incoming[|incoming|..]) == {};
    }

    /** Breadth-first search; the distances are hop counts. Fails, without touching anything, on a null target. */
    method CalculateUnweightedSingleShortestPathsTo(target': Option<Node>) returns (ok: bool)
      requires Valid() && (target'.Some? ==> target'.value in nodes)
      modifies this`target, this`nodeAt
      ensures ok <==> target'.Some?
      ensures !ok ==> target == old(target) && nodeAt == old(nodeAt)
      ensures ok ==> target == target' && SameGraph(old(nodeAt), nodeAt) && Valid() && Graph() == old(Graph())
      ensures ok ==> Closed(Graph()) && Closed(Unit(Graph()))
      ensures ok ==> IsShortestPathTree(Unit(Graph()), target'.value, Dist(), Out())
    {
      if target'.None? {
        return false;
      }
      ok, target := true, target';
      var t := target'.value;
      ghost var g := Graph();
      ElementsMean(nodes);
      ViewIsClosed(nodes, nodeAt, linkAt);
      ghost var s := ClearPathInfo(t);
      var q := [t];
      StartInv(Unit(g), t, s);
      while q != []
        invariant target == target' && SameGraph(old(nodeAt), nodeAt) && Searching(g, s, q)
        invariant Inv(Unit(g), t, s, {}) && OneLevel(s)
        decreases Elements(nodes) - Elements(s.done)
      {
        var v := q[0];
        q := q[1..];
        NewlySettled(Unit(g), t, s);
        ElementsOfAppended(s.done, v);
        InLinksAreArcs(nodes, nodeAt, linkAt, v);
        PopOneLevel(Unit(g), t, s);
        ghost var s' := s.(queue := q, done := s.done + [v]);
        PopInv(Unit(g), t, s, s', ElementSet(nodeAt[v].inLinks));
        q, s := VisitHops(t, v, q, g, s');
      }
      FinishedHops(g, t, s);
    }

    /** `list::remove` */
    method RemoveAll(q: seq<Node>, n: Node) returns (r: seq<Node>)
      ensures r == Without(q, n)
    {
      r := [];
      assert q[0..] == q;
      for i := 0 to |q|
        invariant r + Without(q[i..], n) == Without(q, n)
      {
        WithoutStep(r, q, i, n);
        if q[i] != n {
          r := r + [q[i]];
        }
      }
      assert q[|q|..] == [];
    }

    /** Where the ordered insertion of the weighted search stops. */
    method FindPlace(q: seq<Node>, d: Ext) returns (pos: nat)
      requires forall n :: n in q ==> n in nodeAt
      ensures pos <= |q|
      ensures forall i :: 0 <= i < pos ==> !d.Less(nodeAt[q[i]].dist)
      ensures pos < |q| ==> d.Less(nodeAt[q[pos]].dist)
    {
      pos := 0;
      while pos < |q| && !d.Less(nodeAt[q[pos]].dist)
        invariant pos <= |q| && forall i :: 0 <= i < pos ==> !d.Less(nodeAt[q[i]].dist)
      {
        pos := pos + 1;
      }
    }

    /** Looking at one incoming link of the node just taken out of the ordered list. Not `ok`: the ASSERT failed. */
    method Relax(t: Node, dest: Node, link: Link, q: seq<Node>,
                 ghost g: Net<Node, Link>, ghost s: Search<Node, Link>, ghost todo: set<Link>)
      returns (ok: bool, q': seq<Node>, ghost s': Search<Node, Link>)
      requires Searching(g, s, q) && Inv(g, t, s, todo) && Checked(g, s.done, todo)
      requires link in todo && link in g.arcs && g.arcs[link].dst == dest
      modifies this`nodeAt
      ensures SameGraph(old(nodeAt), nodeAt) && Searching(g, s', q') && s'.done == s.done
      ensures ok ==> Inv(g, t, s', todo - {link}) && Checked(g, s'.done, todo - {link})
      ensures !ok ==> !Admissible(g, t)
    {
      ok, q', s' := true, q, s;
      if linkAt[link].enabled {
        var src := linkAt[link].srcNode.value;
        if nodeAt[src].enabled {
          assert Usable(g, link);
          if !linkAt[link].weight.Positive() {
            SettledReaches(g, t, s, todo, dest);
            return false, q, s;
          }
          var newdist := nodeAt[dest].dist.Plus(linkAt[link].weight);
          if dest != t {
            newdist := newdist.Plus(nodeAt[dest].weight);
          }
          assert newdist == Through(g, t, s.dist[dest], link);
          if newdist != Inf && newdist.Less(nodeAt[src].dist) {
            q', s' := Insert(t, link, src, newdist, q, g, s, todo);
            return;
          }
        }
      }
      SkipInv(g, t, s, todo, link);
    }

    /** Gives `src` its shorter distance and puts it at its place in the ordered list. */
    method Insert(t: Node, link: Link, src: Node, newdist: Ext, q: seq<Node>,
                  ghost g: Net<Node, Link>, ghost s: Search<Node, Link>, ghost todo: set<Link>)
      returns (q': seq<Node>, ghost s': Search<Node, Link>)
      requires Searching(g, s, q) && Inv(g, t, s, todo)
      requires link in todo && link in g.arcs && Usable(g, link) && g.arcs[link].src == src
      requires g.arcs[link].weight.Positive() && g.vertices[g.arcs[link].dst].weight.NonNegative()
      requires newdist == Through(g, t, s.dist[g.arcs[link].dst], link) && newdist.Less(s.dist[src])
      modifies this`nodeAt
      ensures SameGraph(old(nodeAt), nodeAt) && Searching(g, s', q') && s'.done == s.done
      ensures Inv(g, t, s', todo - {link})
    {
      var rest := q;
      if nodeAt[src].dist != Inf {
        rest := RemoveAll(q, src);
      } else {
        assert !Met(s, src);
      }
      assert rest == Without(s.queue, src);
      var pos := FindPlace(rest, newdist);
      ImproveInv(g, t, s, todo, link, newdist, pos);
      assert nodeAt[src].dist != Inf ==> src in q;  // "src is in the queue"
      Label(src, newdist, link, g, s);
      q' := rest[..pos] + [src] + rest[pos..];
      s' := Improved(s, src, link, newdist, pos);
    }

    /** One round of the weighted search: the incoming links of the node just taken out are looked at. */
    method RelaxAll(t: Node, dest: Node, q: seq<Node>, ghost g: Net<Node, Link>, ghost s: Search<Node, Link>)
      returns (ok: bool, q': seq<Node>, ghost s': Search<Node, Link>)
      requires Searching(g, s, q) && dest in nodeAt
      requires Inv(g, t, s, ElementSet(nodeAt[dest].inLinks)) && Checked(g, s.done, ElementSet(nodeAt[dest].inLinks))
      modifies this`nodeAt
      ensures SameGraph(old(nodeAt), nodeAt) && Searching(g, s', q') && s'.done == s.done
      ensures ok ==> Inv(g, t, s', {}) && Checked(g, s'.done, {})
      ensures !ok ==> !Admissible(g, t)
    {
      ghost var incoming := nodeAt[dest].inLinks;
      InLinksAreArcs(nodes, nodeAt, linkAt, dest);
      ok, q', s' := true, q, s;
      assert incoming[0..] == incoming;
      for i := 0 to |nodeAt[dest].inLinks|
        invariant SameGraph(old(nodeAt), nodeAt) && nodeAt[dest].inLinks == incoming
        invariant Searching(g, s', q') && s'.done == s.done
        invariant ok && Inv(g, t, s', ElementSet(incoming[i..])) && Checked(g, s'.done, ElementSet(incoming[i..]))
      {
        DropFirst(incoming, i);
        ok, q', s' := Relax(t, dest, nodeAt[dest].inLinks[i], q', g, s', ElementSet(incoming[i..]));
        if !ok {
          return;
        }
      }
      assert ElementSet(incoming[|incoming|..]) == {};
    }

    /** Dijkstra's search over an ordered list. Fails, without touching anything, on a null target, and stops where one
        of its two ASSERTs does not hold, which is so exactly when the weights are not admissible. */
    method CalculateWeightedSingleShortestPathsTo(target': Option<Node>) returns (result: SearchResult)
      requires Valid() && (target'.Some? ==> target'.value in nodes)
      modifies this`target, this`nodeAt
      ensures result == NullTarget <==> target'.None?
      ensures result == NullTarget ==> target == old(target) && nodeAt == old(nodeAt)
      ensures result != NullTarget ==>
        target == target' && SameGraph(old(nodeAt), nodeAt) && Valid() && Graph() == old(Graph())
      ensures Closed(Graph()) && (result != NullTarget ==> (result == Found <==> Admissible(Graph(), target'.value)))
      ensures result == Found ==> IsShortestPathTree(Graph(), target'.value, Dist(), Out())
    {
      ViewIsClosed(nodes, nodeAt, linkAt);
      if target'.None? {
        return NullTarget;
      }
      target := target';
      var t := target'.value;
      ghost var g := Graph();
      ElementsMean(nodes);
      ghost var s := ClearPathInfo(t);
      var q := [t];
      StartInv(g, t, s);
      while q != []
        invariant target == target' && SameGraph(old(nodeAt), nodeAt) && Searching(g, s, q)
        invariant Inv(g, t, s, {}) && Checked(g, s.done, {})
        decreases Elements(nodes) - Elements(s.done)
      {
        var dest := q[0];
        q := q[1..];
        NewlySettled(g, t, s);
        ElementsOfAppended(s.done, dest);
        InLinksAreArcs(nodes, nodeAt, linkAt, dest);
        ghost var todo := ElementSet(nodeAt[dest].inLinks);
        ghost var s' := s.(queue := q, done := s.done + [dest]);
        PopInv(g, t, s, s', todo);
        if !nodeAt[dest].weight.NonNegative() {
          SettledReaches(g, t, s', todo, dest);
          return AssertionFailed;
        }
        PopChecked(g, s.done, dest, todo);
        var ok;
        ok, q, s := RelaxAll(t, dest, q, g, s');
        if !ok {
          return AssertionFailed;
        }
      }
      FinishedSearch(g, t, s);
      FinishedMeansAdmissible(g, t, s);
      return Found;
    }
  }
}
