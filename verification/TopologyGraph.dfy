/** The objects behind a `Topology` as values, and how editing them keeps the graph consistent. */
module TopologyGraph {
  import opened ExtendedReals
  import opened ShortestPaths
  import opened LinkLists
  import opened Wrappers

  /** A C++ `int`. */
  newtype int32 = x: int | -0x8000_0000 <= x < 0x8000_0000

  /** The `(unsigned int)` cast: nodes with module ID -1 sort last. */
  function AsUnsigned(id: int32): nat
  {
    if id < 0 then id as int + 0x1_0000_0000 else id as int
  }

  /** Pointers to node and link objects. */
  datatype Node = Node(address: nat)

  datatype Link = Link(address: nat)

  datatype NodeFields = NodeFields(
    moduleId: int32, weight: Ext, enabled: bool,
    inLinks: seq<Link>, outLinks: seq<Link>,
    dist: Ext, outPath: Option<Link>)

  datatype LinkFields = LinkFields(
    srcNode: Option<Node>, srcGateId: int32,
    destNode: Option<Node>, destGateId: int32,
    weight: Ext, enabled: bool)

  type NodeTable = map<Node, NodeFields>

  type LinkTable = map<Link, LinkFields>

  // ---------- the node list ----------

  ghost function Elements(s: seq<Node>): set<Node>
  {
    if s == [] then {} else {s[0]} + Elements(s[1..])
  }

  lemma ElementsMean(s: seq<Node>)
    ensures forall n :: n in Elements(s) <==> n in s
  {
  }

  /** The node list is sorted by ID and free of duplicates. */
  ghost predicate NodeList(ns: NodeTable, s: seq<Node>)
  {
    s == [] ||
    (&& s[0] in ns && s[0] !in Elements(s[1..])
     && NodeList(ns, s[1..])
     && (|s| > 1 ==> AsUnsigned(ns[s[0]].moduleId) <= AsUnsigned(ns[s[1]].moduleId)))
  }

  lemma NodeListMeans(ns: NodeTable, s: seq<Node>)
    requires NodeList(ns, s)
    ensures (forall n :: n in s ==> n in ns) && NoDuplicates(s)
    ensures forall i, j :: 0 <= i < j < |s| ==> AsUnsigned(ns[s[i]].moduleId) <= AsUnsigned(ns[s[j]].moduleId)
  {
    if s != [] {
      NodeListMeans(ns, s[1..]);
      ElementsMean(s[1..]);
      forall j | 0 < j < |s| ensures s[0] != s[j] && AsUnsigned(ns[s[0]].moduleId) <= AsUnsigned(ns[s[j]].moduleId) {
        assert s[j] == s[1..][j - 1] && s[1] == s[1..][0];
      }
      forall i, j | 0 < i < j < |s|
        ensures s[i] != s[j] && AsUnsigned(ns[s[i]].moduleId) <= AsUnsigned(ns[s[j]].moduleId)
      {
        assert s[i] == s[1..][i - 1] && s[j] == s[1..][j - 1];
      }
    }
  }

  lemma NodeListDependsOnIds(ns: NodeTable, ns': NodeTable, s: seq<Node>)
    requires NodeList(ns, s)
    requires forall n :: n in ns ==> n in ns' && ns'[n].moduleId == ns[n].moduleId
    ensures NodeList(ns', s)
  {
    if |s| > 1 {
      assert NodeList(ns, s[1..]) && s[1..][0] == s[1];
    }
  }

  /** Inserting a node where the IDs of its neighbours allow it. */
  lemma InsertedInOrder(ns: NodeTable, s: seq<Node>, pos: nat, n: Node)
    requires NodeList(ns, s) && n in ns && n !in Elements(s) && pos <= |s|
    requires pos > 0 ==> s[pos - 1] in ns && AsUnsigned(ns[s[pos - 1]].moduleId) <= AsUnsigned(ns[n].moduleId)
    requires pos < |s| ==> s[pos] in ns && AsUnsigned(ns[n].moduleId) <= AsUnsigned(ns[s[pos]].moduleId)
    ensures Elements(s[..pos] + [n] + s[pos..]) == Elements(s) + {n}
    ensures NodeList(ns, s[..pos] + [n] + s[pos..])
  {
    var r := s[..pos] + [n] + s[pos..];
    if pos == 0 {
      assert r[1..] == s;
    } else {
      InsertedInOrder(ns, s[1..], pos - 1, n);
      assert r[1..] == s[1..][..pos - 1] + [n] + s[1..][pos - 1..];
    }
  }

  lemma RemovedInOrder(ns: NodeTable, s: seq<Node>, n: Node)
    requires NodeList(ns, s)
    ensures Elements(Without(s, n)) == Elements(s) - {n}
    ensures NodeList(ns, Without(s, n))
  {
    if s != [] {
      var rest := Without(s[1..], n);
      RemovedInOrder(ns, s[1..], n);
      if s[0] == n {
      } else {
        assert Without(s, n)[1..] == rest;
        if rest != [] {
          NodeListMeans(ns, s);
          assert rest[0] in s[1..];
          var k :| 0 <= k < |s[1..]| && s[1..][k] == rest[0];
          assert s[k + 1] == rest[0];
        }
      }
    }
  }

  // ---------- consistency ----------

  ghost function Outs(ns: NodeTable): map<Node, seq<Link>>
  {
    map n | n in ns :: ns[n].outLinks
  }

  ghost function Ins(ns: NodeTable): map<Node, seq<Link>>
  {
    map n | n in ns :: ns[n].inLinks
  }

  ghost function Sources(ls: LinkTable): map<Link, Node>
  {
    map l | l in ls && ls[l].srcNode.Some? :: ls[l].srcNode.value
  }

  ghost function Destinations(ls: LinkTable): map<Link, Node>
  {
    map l | l in ls && ls[l].destNode.Some? :: ls[l].destNode.value
  }

  /** A link object is either connected at both ends, to listed nodes, or at none. */
  ghost predicate Ends(members: set<Node>, f: LinkFields)
  {
    if f.srcNode.Some? then f.destNode.Some? && f.srcNode.value in members && f.destNode.value in members
    else f.destNode.None?
  }

  /** The node list is sorted and duplicate-free. Every connected link lies between two listed nodes; it appears exactly
      once in the out list of its source, exactly once in the in list of its destination, and nowhere else. */
  ghost predicate Consistent(s: seq<Node>, ns: NodeTable, ls: LinkTable)
  {
    && NodeList(ns, s)
    && Elements(s) <= ns.Keys
    && (forall l {:trigger Ends(Elements(s), ls[l])} :: l in ls ==> Ends(Elements(s), ls[l]))
    && Side(Outs(ns), Sources(ls)) && Side(Ins(ns), Destinations(ls))
  }

  /** The graph that the searches see. */
  ghost function View(s: seq<Node>, ns: NodeTable, ls: LinkTable): Net<Node, Link>
  {
    Net(Vertices(Elements(s), ns), Arcs(ls))
  }

  ghost function Vertices(members: set<Node>, ns: NodeTable): map<Node, Vertex>
  {
    map n | n in members && n in ns :: Vertex(ns[n].weight, ns[n].enabled)
  }

  ghost function Arcs(ls: LinkTable): map<Link, Arc<Node>>
  {
    map l | l in ls && ls[l].srcNode.Some? && ls[l].destNode.Some? ::
      Arc(ls[l].srcNode.value, ls[l].destNode.value, ls[l].weight, ls[l].enabled)
  }

  // ---------- edits ----------

  lemma NewNodeConsistent(s: seq<Node>, ns: NodeTable, ls: LinkTable, n: Node, f: NodeFields)
    requires Consistent(s, ns, ls) && n !in ns && f.inLinks == f.outLinks == []
    ensures Consistent(s, ns[n := f], ls)
    ensures View(s, ns[n := f], ls) == View(s, ns, ls)
  {
    NodeListDependsOnIds(ns, ns[n := f], s);
    AddEmpty(Outs(ns), Sources(ls), n);
    AddEmpty(Ins(ns), Destinations(ls), n);
    UpdatedLists(ns, n, f);
    assert Vertices(Elements(s), ns[n := f]) == Vertices(Elements(s), ns);
  }

  /** Changing the weight of a node, enabling or disabling it changes its vertex if it is listed, and nothing else. */
  lemma ChangedNode(s: seq<Node>, ns: NodeTable, ls: LinkTable, n: Node, w: Ext, b: bool)
    requires Consistent(s, ns, ls) && n in ns
    ensures var ns' := ns[n := ns[n].(weight := w, enabled := b)];
      && Consistent(s, ns', ls)
      && View(s, ns', ls).arcs == View(s, ns, ls).arcs
      && View(s, ns', ls).vertices ==
        if n in Elements(s) then View(s, ns, ls).vertices[n := Vertex(w, b)] else View(s, ns, ls).vertices
  {
    var f := ns[n].(weight := w, enabled := b);
    SameLists(ns, n, f);
    NodeListDependsOnIds(ns, ns[n := f], s);
    ChangedVertex(Elements(s), ns, n, f);
  }

  lemma SameLists(ns: NodeTable, n: Node, f: NodeFields)
    requires n in ns && f.outLinks == ns[n].outLinks && f.inLinks == ns[n].inLinks
    ensures Outs(ns[n := f]) == Outs(ns) && Ins(ns[n := f]) == Ins(ns)
  {
  }

  lemma ChangedVertex(members: set<Node>, ns: NodeTable, n: Node, f: NodeFields)
    requires n in ns
    ensures Vertices(members, ns[n := f]) ==
      if n in members then Vertices(members, ns)[n := Vertex(f.weight, f.enabled)] else Vertices(members, ns)
  {
  }

  /** Changing the weight of a link, enabling or disabling it changes its arc if it is connected, and nothing else. */
  lemma ChangedLink(s: seq<Node>, ns: NodeTable, ls: LinkTable, l: Link, w: Ext, b: bool)
    requires Consistent(s, ns, ls) && l in ls
    ensures var ls' := ls[l := ls[l].(weight := w, enabled := b)];
      && Consistent(s, ns, ls')
      && Arcs(ls') == if l in Arcs(ls) then Arcs(ls)[l := Arcs(ls)[l].(weight := w, enabled := b)] else Arcs(ls)
  {
    var f := ls[l].(weight := w, enabled := b);
    var ls' := ls[l := f];
    assert Ends(Elements(s), ls[l]);
    SameEnds(ls, l, f);
    forall k | k in ls' ensures Ends(Elements(s), ls'[k]) {
      assert k != l ==> Ends(Elements(s), ls[k]);
    }
  }

  lemma SameEnds(ls: LinkTable, l: Link, f: LinkFields)
    requires l in ls && f.srcNode == ls[l].srcNode && f.destNode == ls[l].destNode
    ensures Sources(ls[l := f]) == Sources(ls) && Destinations(ls[l := f]) == Destinations(ls)
    ensures Arcs(ls[l := f]) ==
      if l in Arcs(ls) then Arcs(ls)[l := Arcs(ls)[l].(weight := f.weight, enabled := f.enabled)] else Arcs(ls)
  {
  }

  lemma UpdatedLists(ns: NodeTable, n: Node, f: NodeFields)
    ensures Outs(ns[n := f]) == Outs(ns)[n := f.outLinks] && Ins(ns[n := f]) == Ins(ns)[n := f.inLinks]
  {
  }

  lemma NewLinkConsistent(s: seq<Node>, ns: NodeTable, ls: LinkTable, l: Link, f: LinkFields)
    requires Consistent(s, ns, ls) && l !in ls && f.srcNode == f.destNode == None
    ensures Consistent(s, ns, ls[l := f])
    ensures View(s, ns, ls[l := f]) == View(s, ns, ls)
  {
    UnconnectedLink(ls, l, f);
  }

  lemma UnconnectedLink(ls: LinkTable, l: Link, f: LinkFields)
    requires l !in ls && f.srcNode == f.destNode == None
    ensures Sources(ls[l := f]) == Sources(ls) && Destinations(ls[l := f]) == Destinations(ls)
    ensures Arcs(ls[l := f]) == Arcs(ls)
  {
  }

  lemma ConnectedLink(ls: LinkTable, l: Link, f: LinkFields)
    requires f.srcNode.Some? && f.destNode.Some?
    ensures Sources(ls[l := f]) == Sources(ls)[l := f.srcNode.value]
    ensures Destinations(ls[l := f]) == Destinations(ls)[l := f.destNode.value]
    ensures Arcs(ls[l := f]) == Arcs(ls)[l := Arc(f.srcNode.value, f.destNode.value, f.weight, f.enabled)]
  {
  }

  lemma FreedLink(ls: LinkTable, l: Link)
    ensures Sources(ls - {l}) == Sources(ls) - {l} && Destinations(ls - {l}) == Destinations(ls) - {l}
    ensures Arcs(ls - {l}) == Arcs(ls) - {l}
  {
  }

  lemma AddNodeConsistent(s: seq<Node>, ns: NodeTable, ls: LinkTable, pos: nat, n: Node)
    requires Consistent(s, ns, ls) && n in ns && n !in Elements(s) && pos <= |s|
    requires pos > 0 ==> s[pos - 1] in ns && AsUnsigned(ns[s[pos - 1]].moduleId) <= AsUnsigned(ns[n].moduleId)
    requires pos < |s| ==> s[pos] in ns && AsUnsigned(ns[n].moduleId) <= AsUnsigned(ns[s[pos]].moduleId)
    ensures Consistent(s[..pos] + [n] + s[pos..], ns, ls)
    ensures View(s[..pos] + [n] + s[pos..], ns, ls) ==
      View(s, ns, ls).(vertices := View(s, ns, ls).vertices[n := Vertex(ns[n].weight, ns[n].enabled)])
  {
    InsertedInOrder(ns, s, pos, n);
    ListedVertex(Elements(s), ns, n);
    forall l | l in ls ensures Ends(Elements(s) + {n}, ls[l]) {
      assert Ends(Elements(s), ls[l]);
    }
  }

  lemma ListedVertex(members: set<Node>, ns: NodeTable, n: Node)
    requires n in ns
    ensures Vertices(members + {n}, ns) == Vertices(members, ns)[n := Vertex(ns[n].weight, ns[n].enabled)]
  {
  }

  /** The two tables agree on everything but link lists and search results. */
  ghost predicate SameNodes(ns: NodeTable, ns': NodeTable)
  {
    && ns'.Keys == ns.Keys
    && forall n :: n in ns ==>
      ns'[n].moduleId == ns[n].moduleId && ns'[n].weight == ns[n].weight && ns'[n].enabled == ns[n].enabled
  }

  lemma SameVertices(members: set<Node>, ns: NodeTable, ns': NodeTable)
    requires SameNodes(ns, ns')
    ensures Vertices(members, ns') == Vertices(members, ns)
  {
  }

  /** A connected link is in the lists at its two ends, once. */
  lemma ListedAtEnds(s: seq<Node>, ns: NodeTable, ls: LinkTable, l: Link)
    requires Consistent(s, ns, ls) && l in ls && ls[l].srcNode.Some?
    ensures Ends(ns.Keys, ls[l])
    ensures l in ns[ls[l].srcNode.value].outLinks && NoDuplicates(ns[ls[l].srcNode.value].outLinks)
    ensures l in ns[ls[l].destNode.value].inLinks && NoDuplicates(ns[ls[l].destNode.value].inLinks)
  {
    assert Ends(Elements(s), ls[l]);
    ListsOnceMeans(Outs(ns)[ls[l].srcNode.value], At(Sources(ls), ls[l].srcNode.value));
    ListsOnceMeans(Ins(ns)[ls[l].destNode.value], At(Destinations(ls), ls[l].destNode.value));
    assert l in At(Sources(ls), ls[l].srcNode.value) && l in At(Destinations(ls), ls[l].destNode.value);
  }

  /** The node table after link `l` has been erased from the lists at its two ends. */
  ghost function Unlinked(ns: NodeTable, l: Link, f: LinkFields): NodeTable
    requires f.srcNode.Some? && f.destNode.Some? && f.srcNode.value in ns && f.destNode.value in ns
  {
    var src, dest := f.srcNode.value, f.destNode.value;
    var ns1 := ns[src := ns[src].(outLinks := Without(ns[src].outLinks, l))];
    ns1[dest := ns1[dest].(inLinks := Without(ns1[dest].inLinks, l))]
  }

  lemma {:induction false} UnlinkedTables(ns: NodeTable, l: Link, f: LinkFields)
    requires f.srcNode.Some? && f.destNode.Some? && f.srcNode.value in ns && f.destNode.value in ns
    ensures Outs(Unlinked(ns, l, f)) == Outs(ns)[f.srcNode.value := Without(ns[f.srcNode.value].outLinks, l)]
    ensures Ins(Unlinked(ns, l, f)) == Ins(ns)[f.destNode.value := Without(ns[f.destNode.value].inLinks, l)]
    ensures SameNodes(ns, Unlinked(ns, l, f))
  {
    var src, dest := f.srcNode.value, f.destNode.value;
    var ns1 := ns[src := ns[src].(outLinks := Without(ns[src].outLinks, l))];
    UpdatedLists(ns, src, ns1[src]);
    UpdatedLists(ns1, dest, ns1[dest].(inLinks := Without(ns1[dest].inLinks, l)));
    OutsAt(ns1, dest);
    OutsAt(ns, src);
  }

  lemma OutsAt(ns: NodeTable, n: Node)
    requires n in ns
    ensures Outs(ns)[n := ns[n].outLinks] == Outs(ns) && Ins(ns)[n := ns[n].inLinks] == Ins(ns)
  {
  }

  lemma UnlinkedLists(s: seq<Node>, ns: NodeTable, ls: LinkTable, l: Link)
    requires Consistent(s, ns, ls) && l in ls && ls[l].srcNode.Some? && Ends(ns.Keys, ls[l])
    ensures Outs(Unlinked(ns, l, ls[l])) == Unlisted(Outs(ns), l)
    ensures Ins(Unlinked(ns, l, ls[l])) == Unlisted(Ins(ns), l)
  {
    UnlinkedTables(ns, l, ls[l]);
    UnlistedAtEnd(Outs(ns), Sources(ls), l);
    UnlistedAtEnd(Ins(ns), Destinations(ls), l);
  }

  /** Erasing a link from the lists at its ends and freeing it removes exactly its arc from the graph. */
  lemma DeleteLinkConsistent(s: seq<Node>, ns: NodeTable, ls: LinkTable, l: Link)
    requires Consistent(s, ns, ls) && l in ls && ls[l].srcNode.Some? && Ends(ns.Keys, ls[l])
    ensures SameNodes(ns, Unlinked(ns, l, ls[l]))
    ensures Consistent(s, Unlinked(ns, l, ls[l]), ls - {l})
    ensures View(s, Unlinked(ns, l, ls[l]), ls - {l}) == View(s, ns, ls).(arcs := View(s, ns, ls).arcs - {l})
  {
    var ns' := Unlinked(ns, l, ls[l]);
    UnlinkedTables(ns, l, ls[l]);
    UnlinkedLists(s, ns, ls, l);
    NodeListDependsOnIds(ns, ns', s);
    Unlist(Outs(ns), Sources(ls), l);
    Unlist(Ins(ns), Destinations(ls), l);
    FreedLink(ls, l);
    SameVertices(Elements(s), ns, ns');
  }

  lemma FreeUnconnected(s: seq<Node>, ns: NodeTable, ls: LinkTable, l: Link)
    requires Consistent(s, ns, ls) && (l in ls ==> ls[l].srcNode.None?)
    ensures Consistent(s, ns, ls - {l}) && Arcs(ls - {l}) == Arcs(ls) - {l}
  {
    FreedLink(ls, l);
    assert l in ls ==> Ends(Elements(s), ls[l]);
    assert Sources(ls) - {l} == Sources(ls) && Destinations(ls) - {l} == Destinations(ls);
  }

  /** A link object between its new ends; a gate ID survives only if its end stays the same. */
  function Connected(f: LinkFields, src: Node, dest: Node): LinkFields
  {
    LinkFields(Some(src), if f.srcNode == Some(src) then f.srcGateId else -1,
               Some(dest), if f.destNode == Some(dest) then f.destGateId else -1, f.weight, f.enabled)
  }

  /** The node table after link `l` has been appended to the lists of `src` and `dest`. */
  ghost function Linked(ns: NodeTable, l: Link, src: Node, dest: Node): NodeTable
    requires src in ns && dest in ns
  {
    var ns1 := ns[src := ns[src].(outLinks := ns[src].outLinks + [l])];
    ns1[dest := ns1[dest].(inLinks := ns1[dest].inLinks + [l])]
  }

  lemma LinkedTables(ns: NodeTable, l: Link, src: Node, dest: Node)
    requires src in ns && dest in ns
    ensures Outs(Linked(ns, l, src, dest)) == Outs(ns)[src := Outs(ns)[src] + [l]]
    ensures Ins(Linked(ns, l, src, dest)) == Ins(ns)[dest := Ins(ns)[dest] + [l]]
    ensures SameNodes(ns, Linked(ns, l, src, dest))
  {
  }

  /** Appending a link that no list holds to the lists at its ends adds exactly its arc to the graph. */
  lemma AddLinkConsistent(s: seq<Node>, ns: NodeTable, ls: LinkTable, l: Link, f: LinkFields)
    requires Consistent(s, ns, ls) && l !in ls && f.srcNode.Some? && Ends(Elements(s), f)
    ensures Consistent(s, Linked(ns, l, f.srcNode.value, f.destNode.value), ls[l := f])
    ensures View(s, Linked(ns, l, f.srcNode.value, f.destNode.value), ls[l := f]) ==
      View(s, ns, ls).(arcs := View(s, ns, ls).arcs[l := Arc(f.srcNode.value, f.destNode.value, f.weight, f.enabled)])
  {
    var ns' := Linked(ns, l, f.srcNode.value, f.destNode.value);
    LinkedTables(ns, l, f.srcNode.value, f.destNode.value);
    NodeListDependsOnIds(ns, ns', s);
    AppendEnd(Outs(ns), Sources(ls), l, f.srcNode.value);
    AppendEnd(Ins(ns), Destinations(ls), l, f.destNode.value);
    ConnectedLink(ls, l, f);
    SameVertices(Elements(s), ns, ns');
  }

  ghost function LinksWithoutSource(ls: LinkTable, n: Node): LinkTable
  {
    map l | l in ls && ls[l].srcNode != Some(n) :: ls[l]
  }

  ghost function LinksWithoutDestination(ls: LinkTable, n: Node): LinkTable
  {
    map l | l in ls && ls[l].destNode != Some(n) :: ls[l]
  }

  /** The links that do not touch node `n`. */
  ghost function LinksAwayFrom(ls: LinkTable, n: Node): LinkTable
  {
    map l | l in ls && ls[l].srcNode != Some(n) && ls[l].destNode != Some(n) :: ls[l]
  }

  lemma AwayIsWithoutBoth(ls: LinkTable, n: Node)
    ensures LinksWithoutDestination(LinksWithoutSource(ls, n), n) == LinksAwayFrom(ls, n)
  {
  }

  ghost function WithOutLinks(ns: NodeTable, n: Node, outs: seq<Link>): NodeTable
    requires n in ns
  {
    ns[n := ns[n].(outLinks := outs)]
  }

  ghost function WithInLinks(ns: NodeTable, n: Node, ins: seq<Link>): NodeTable
    requires n in ns
  {
    ns[n := ns[n].(inLinks := ins)]
  }

  /** Erasing an outgoing link of `n` from its far list only is erasing it from both lists, up to the list of `n`. */
  lemma HalfUnlinkedOut(ns: NodeTable, l: Link, f: LinkFields, n: Node, outs: seq<Link>)
    requires f.srcNode == Some(n) && Ends(ns.Keys, f)
    ensures var t, dest := WithOutLinks(ns, n, outs), f.destNode.value;
      dest in t && WithInLinks(t, dest, Without(t[dest].inLinks, l)) == WithOutLinks(Unlinked(ns, l, f), n, outs)
  {
  }

  lemma HalfUnlinkedIn(ns: NodeTable, l: Link, f: LinkFields, n: Node, ins: seq<Link>)
    requires f.srcNode.Some? && f.destNode == Some(n) && Ends(ns.Keys, f)
    ensures var t, src := WithInLinks(ns, n, ins), f.srcNode.value;
      src in t && WithOutLinks(t, src, Without(t[src].outLinks, l)) == WithInLinks(Unlinked(ns, l, f), n, ins)
  {
  }

  /** One round of the first loop of `deleteNode`, seen on the table in which links are erased from both lists. */
  lemma DeleteFirstOutLink(s: seq<Node>, ns: NodeTable, ls: LinkTable, n: Node) returns (l: Link, ns': NodeTable)
    requires Consistent(s, ns, ls) && n in ns && ns[n].outLinks != []
    ensures l == ns[n].outLinks[0] && l in ls && ls[l].srcNode == Some(n) && Ends(ns.Keys, ls[l])
    ensures ns' == Unlinked(ns, l, ls[l]) && SameNodes(ns, ns') && ns'[n].outLinks == ns[n].outLinks[1..]
    ensures ns[n].inLinks == [] ==> ns'[n].inLinks == []
    ensures Consistent(s, ns', ls - {l})
    ensures View(s, ns', ls - {l}) == Net(View(s, ns, ls).vertices, Arcs(ls - {l}))
    ensures LinksWithoutSource(ls - {l}, n) == LinksWithoutSource(ls, n)
    ensures l in ns[ls[l].destNode.value].inLinks && NoDuplicates(ns[ls[l].destNode.value].inLinks)
  {
    l := ns[n].outLinks[0];
    FirstOutLink(s, ns, ls, n);
    ListedAtEnds(s, ns, ls, l);
    ns' := Unlinked(ns, l, ls[l]);
    DeleteLinkConsistent(s, ns, ls, l);
    FreedLink(ls, l);
  }

  lemma DeleteFirstInLink(s: seq<Node>, ns: NodeTable, ls: LinkTable, n: Node) returns (l: Link, ns': NodeTable)
    requires Consistent(s, ns, ls) && n in ns && ns[n].inLinks != []
    ensures l == ns[n].inLinks[0] && l in ls && ls[l].srcNode.Some? && ls[l].destNode == Some(n) && Ends(ns.Keys, ls[l])
    ensures ns' == Unlinked(ns, l, ls[l]) && SameNodes(ns, ns') && ns'[n].inLinks == ns[n].inLinks[1..]
    ensures ns[n].outLinks == [] ==> ns'[n].outLinks == []
    ensures Consistent(s, ns', ls - {l})
    ensures View(s, ns', ls - {l}) == Net(View(s, ns, ls).vertices, Arcs(ls - {l}))
    ensures LinksWithoutDestination(ls - {l}, n) == LinksWithoutDestination(ls, n)
    ensures l in ns[ls[l].srcNode.value].outLinks && NoDuplicates(ns[ls[l].srcNode.value].outLinks)
  {
    l := ns[n].inLinks[0];
    FirstInLink(s, ns, ls, n);
    ListedAtEnds(s, ns, ls, l);
    ns' := Unlinked(ns, l, ls[l]);
    DeleteLinkConsistent(s, ns, ls, l);
    FreedLink(ls, l);
  }

  lemma NoLinkWithSource(s: seq<Node>, ns: NodeTable, ls: LinkTable, n: Node)
    requires Consistent(s, ns, ls) && n in ns && ns[n].outLinks == []
    ensures LinksWithoutSource(ls, n) == ls
  {
    assert ListsOnce(Outs(ns)[n], At(Sources(ls), n));
    forall l | l in ls ensures ls[l].srcNode != Some(n) {
      assert ls[l].srcNode == Some(n) ==> l in At(Sources(ls), n);
    }
  }

  lemma NoLinkWithDestination(s: seq<Node>, ns: NodeTable, ls: LinkTable, n: Node)
    requires Consistent(s, ns, ls) && n in ns && ns[n].inLinks == []
    ensures LinksWithoutDestination(ls, n) == ls
  {
    assert ListsOnce(Ins(ns)[n], At(Destinations(ls), n));
    forall l | l in ls ensures ls[l].destNode != Some(n) {
      assert ls[l].destNode == Some(n) ==> l in At(Destinations(ls), n);
    }
  }

  lemma FirstOutLink(s: seq<Node>, ns: NodeTable, ls: LinkTable, n: Node)
    requires Consistent(s, ns, ls) && n in ns && ns[n].outLinks != []
    ensures ns[n].outLinks[0] in ls && ls[ns[n].outLinks[0]].srcNode == Some(n)
    ensures Without(ns[n].outLinks, ns[n].outLinks[0]) == ns[n].outLinks[1..]
  {
    var l := ns[n].outLinks[0];
    assert ListsOnce(Outs(ns)[n], At(Sources(ls), n));
    ListsOnceMeans(ns[n].outLinks, At(Sources(ls), n));
    assert l !in ns[n].outLinks[1..];
  }

  lemma FirstInLink(s: seq<Node>, ns: NodeTable, ls: LinkTable, n: Node)
    requires Consistent(s, ns, ls) && n in ns && ns[n].inLinks != []
    ensures ns[n].inLinks[0] in ls && ls[ns[n].inLinks[0]].srcNode.Some?
    ensures ls[ns[n].inLinks[0]].destNode == Some(n)
    ensures Without(ns[n].inLinks, ns[n].inLinks[0]) == ns[n].inLinks[1..]
  {
    var l := ns[n].inLinks[0];
    assert ListsOnce(Ins(ns)[n], At(Destinations(ls), n));
    assert Ends(Elements(s), ls[l]);
    ListsOnceMeans(ns[n].inLinks, At(Destinations(ls), n));
    assert l !in ns[n].inLinks[1..];
  }

  lemma DropNodeConsistent(s: seq<Node>, ns: NodeTable, ls: LinkTable, n: Node)
    requires Consistent(s, ns, ls) && n in Elements(s) && ns[n].outLinks == ns[n].inLinks == []
    ensures Consistent(Without(s, n), ns - {n}, ls)
    ensures View(Without(s, n), ns - {n}, ls) == View(s, ns, ls).(vertices := View(s, ns, ls).vertices - {n})
  {
    RemovedInOrder(ns, s, n);
    DropEmpty(Outs(ns), Sources(ls), n);
    DropEmpty(Ins(ns), Destinations(ls), n);
    DroppedLists(s, ns, n);
    forall l | l in ls ensures Ends(Elements(s) - {n}, ls[l]) {
      assert Ends(Elements(s), ls[l]);
      assert l in Sources(ls) ==> l in Destinations(ls) && Sources(ls)[l] != n && Destinations(ls)[l] != n;
    }
    NodeListOfRest(ns, Without(s, n), n);
  }

  lemma DroppedLists(s: seq<Node>, ns: NodeTable, n: Node)
    ensures Outs(ns - {n}) == Outs(ns) - {n} && Ins(ns - {n}) == Ins(ns) - {n}
    ensures Vertices(Elements(s) - {n}, ns - {n}) == Vertices(Elements(s), ns) - {n}
  {
  }

  lemma NodeListOfRest(ns: NodeTable, s: seq<Node>, n: Node)
    requires NodeList(ns, s) && n !in Elements(s)
    ensures NodeList(ns - {n}, s)
  {
    if s != [] {
      NodeListOfRest(ns, s[1..], n);
      if |s| > 1 {
        assert NodeList(ns, s[1..]) && s[1..][0] == s[1];
      }
    }
  }

  // ---------- search results ----------

  ghost function Distances(members: set<Node>, ns: NodeTable): map<Node, Ext>
  {
    map n | n in members && n in ns :: ns[n].dist
  }

  ghost function OutPaths(members: set<Node>, ns: NodeTable): map<Node, Link>
  {
    map n | n in members && n in ns && ns[n].outPath.Some? :: ns[n].outPath.value
  }

  /** The two tables agree on everything but search results. */
  ghost predicate SameGraph(ns: NodeTable, ns': NodeTable)
  {
    && ns'.Keys == ns.Keys
    && forall n :: n in ns ==> ns'[n] == ns[n].(dist := ns'[n].dist, outPath := ns'[n].outPath)
  }

  lemma SearchKeepsGraph(s: seq<Node>, ns: NodeTable, ls: LinkTable, ns': NodeTable)
    requires Consistent(s, ns, ls) && SameGraph(ns, ns')
    ensures Consistent(s, ns', ls) && View(s, ns', ls) == View(s, ns, ls)
  {
    NodeListDependsOnIds(ns, ns', s);
    assert Outs(ns') == Outs(ns) && Ins(ns') == Ins(ns);
    SameVertices(Elements(s), ns, ns');
  }

  lemma Relabelled(members: set<Node>, ns: NodeTable, n: Node, d: Ext, l: Link)
    requires n in members && n in ns
    ensures Distances(members, ns[n := ns[n].(dist := d, outPath := Some(l))]) == Distances(members, ns)[n := d]
    ensures OutPaths(members, ns[n := ns[n].(dist := d, outPath := Some(l))]) == OutPaths(members, ns)[n := l]
  {
  }

  /** The labels after clearing: 0 at the target, INFINITY elsewhere, no paths. */
  lemma ClearedLabels(members: set<Node>, ns: NodeTable, t: Node)
    requires t in members && members <= ns.Keys
    requires forall n :: n in members ==> ns[n].dist == Inf && ns[n].outPath == None
    ensures var ns' := ns[t := ns[t].(dist := Zero)];
      && OutPaths(members, ns') == map[]
      && Distances(members, ns') == map n | n in members :: if n == t then Zero else Inf
  {
  }

  ghost function ElementSet(s: seq<Link>): set<Link>
  {
    set l | l in s
  }

  lemma DropFirst(s: seq<Link>, i: nat)
    requires NoDuplicates(s) && i < |s|
    ensures s[i] in ElementSet(s[i..]) && ElementSet(s[i + 1..]) == ElementSet(s[i..]) - {s[i]}
  {
    assert s[i..] == [s[i]] + s[i + 1..];
    assert s[i] !in s[i + 1..];
  }

  lemma ElementsOfAppended(s: seq<Node>, n: Node)
    ensures Elements(s + [n]) == Elements(s) + {n}
  {
    if s != [] {
      assert (s + [n])[1..] == s[1..] + [n];
      ElementsOfAppended(s[1..], n);
    }
  }

  /** A node is taken out of the queue at most once. */
  lemma NewlySettled(g: Net<Node, Link>, t: Node, s: Search<Node, Link>)
    requires Inv(g, t, s, {}) && s.queue != []
    ensures s.queue[0] in g.vertices && s.queue[0] !in Elements(s.done)
  {
    ElementsMean(s.done);
    var order := s.done + s.queue;
    assert order[|s.done|] == s.queue[0];
    assert forall i :: 0 <= i < |s.done| ==> order[i] == s.done[i];
  }

  lemma FrontIsTargetOrEnabled(g: Net<Node, Link>, t: Node, s: Search<Node, Link>)
    requires Inv(g, t, s, {}) && s.queue != []
    ensures s.queue[0] in g.vertices && (s.queue[0] == t || g.vertices[s.queue[0]].enabled)
  {
    assert Supported(g, t, s, |s.done|);
    assert (s.done + s.queue)[|s.done|] == s.queue[0];
  }

  lemma InLinksAreArcs(s: seq<Node>, ns: NodeTable, ls: LinkTable, n: Node)
    requires Consistent(s, ns, ls) && n in ns
    ensures NoDuplicates(ns[n].inLinks)
    ensures forall l :: l in ns[n].inLinks <==> l in Arcs(ls) && Arcs(ls)[l].dst == n
    ensures forall l :: l in ns[n].inLinks ==> l in ls && ls[l].srcNode.Some? && ls[l].srcNode.value in Elements(s)
  {
    ListsOnceMeans(Ins(ns)[n], At(Destinations(ls), n));
    forall l ensures l in ns[n].inLinks <==> l in Arcs(ls) && Arcs(ls)[l].dst == n {
      assert l in ls ==> Ends(Elements(s), ls[l]);
      assert l in At(Destinations(ls), n) <==> l in Arcs(ls) && Arcs(ls)[l].dst == n;
    }
    forall l | l in ns[n].inLinks ensures l in ls && ls[l].srcNode.Some? && ls[l].srcNode.value in Elements(s) {
      assert Ends(Elements(s), ls[l]);
    }
  }

  lemma ViewIsClosed(s: seq<Node>, ns: NodeTable, ls: LinkTable)
    requires Consistent(s, ns, ls)
    ensures Closed(View(s, ns, ls)) && View(s, ns, ls).vertices.Keys == Elements(s)
  {
    forall l | l in Arcs(ls) ensures Arcs(ls)[l].src in Elements(s) && Arcs(ls)[l].dst in Elements(s) {
      assert Ends(Elements(s), ls[l]);
    }
  }
}
