// What hiding does to hop rings in general: exactly when the rings of the visible graph are the rings
// its nodes had, whichever filters are in force.
module FilteredRings {
  import opened Collections
  import opened Graphs
  import opened HopRings
  import opened Declutter

  /** The visible graph is searched from the same seeds. */
  ghost predicate SameSeeds(nodes: seq<Node>, hidden: set<NodeId>) {
    forall s :: s in Seeds(nodes) <==> s in Seeds(VisibleNodes(nodes, hidden))
  }

  ghost predicate Filtered(nodes: seq<Node>, edges: seq<Edge>, ring: map<NodeId, nat>, orphanRing: nat,
                           hidden: set<NodeId>) {
    Resolved(nodes, edges) && IsRingMap(nodes, edges, ring, orphanRing) && SameSeeds(nodes, hidden)
  }

  predicate IsVisible(nodes: seq<Node>, hidden: set<NodeId>, v: Node) {
    v in nodes && v.id !in hidden
  }

  /** Some visible node linked to this one lies exactly one ring further in. */
  predicate HasSupport(nodes: seq<Node>, edges: seq<Edge>, ring: map<NodeId, nat>, hidden: set<NodeId>, v: Node)
    requires v.id in ring && forall n | n in nodes :: n.id in ring
  {
    exists u | u in nodes :: u.id !in hidden && Adjacent(edges, u.id, v.id) && ring[u.id] + 1 == ring[v.id]
  }

  /** Every visible node outside the core and not an orphan has support. */
  ghost predicate Supported(nodes: seq<Node>, edges: seq<Edge>, ring: map<NodeId, nat>, orphanRing: nat,
                            hidden: set<NodeId>)
    requires forall n | n in nodes :: n.id in ring
  {
    forall v | IsVisible(nodes, hidden, v) && 0 < ring[v.id] < orphanRing :: HasSupport(nodes, edges, ring, hidden, v)
  }

  /** The ring numbers tell which nodes are reached. */
  lemma ReachedIff(nodes: seq<Node>, edges: seq<Edge>, ring: map<NodeId, nat>, orphanRing: nat, v: Node)
    requires IsRingMap(nodes, edges, ring, orphanRing) && v in nodes
    ensures ring[v.id] <= orphanRing && (ring[v.id] < orphanRing <==> SeedConnected(edges, Seeds(nodes), v.id))
    ensures ring[v.id] < orphanRing ==> IsSeedDistance(edges, Seeds(nodes), v.id, ring[v.id])
  {
    hide Seeds, IsSeedDistance, SeedConnected;
  }

  lemma DistanceConnects(edges: seq<Edge>, seeds: seq<NodeId>, v: NodeId, n: nat)
    requires IsSeedDistance(edges, seeds, v, n)
    ensures SeedConnected(edges, seeds, v)
  {
    hide Reaches;
    var s :| s in seeds && Reaches(edges, s, v, n);
    assert Connected(edges, s, v);
  }

  lemma InCore(edges: seq<Edge>, seeds: seq<NodeId>, v: NodeId)
    requires IsSeedDistance(edges, seeds, v, 0)
    ensures v in seeds
  {
    var s :| s in seeds && Reaches(edges, s, v, 0);
    var w :| IsWalkFromTo(edges, w, s, v) && |w| == 1;
  }

  /** Support leads back to a seed, ring by ring, through visible nodes only. */
  lemma {:induction false} SupportLeadsBack(nodes: seq<Node>, edges: seq<Edge>, ring: map<NodeId, nat>, orphanRing: nat,
                                            hidden: set<NodeId>, v: Node)
    returns (s: NodeId)
    requires Filtered(nodes, edges, ring, orphanRing, hidden) && Supported(nodes, edges, ring, orphanRing, hidden)
    requires IsVisible(nodes, hidden, v) && ring[v.id] < orphanRing
    ensures s in Seeds(nodes) && Reaches(VisibleEdges(edges, hidden), s, v.id, ring[v.id])
    decreases ring[v.id]
  {
    hide Seeds, IsSeedDistance, VisibleEdges, VisibleNodes, Reaches, IsMaxDepth, IsRing;
    ReachedIff(nodes, edges, ring, orphanRing, v);
    if ring[v.id] == 0 {
      InCore(edges, Seeds(nodes), v.id);
      ReachSelf(VisibleEdges(edges, hidden), v.id);
      s := v.id;
    } else {
      var u :| u in nodes && u.id !in hidden && Adjacent(edges, u.id, v.id) && ring[u.id] + 1 == ring[v.id];
      s := SupportLeadsBack(nodes, edges, ring, orphanRing, hidden, u);
      VisibleEdgesAre(edges, hidden, Edge(u.id, v.id));
      VisibleEdgesAre(edges, hidden, Edge(v.id, u.id));
      ReachStep(VisibleEdges(edges, hidden), s, u.id, v.id, ring[u.id]);
    }
  }

  /** With support the visible graph gives a reached node the distance it had. */
  lemma SupportedDistance(nodes: seq<Node>, edges: seq<Edge>, ring: map<NodeId, nat>, orphanRing: nat,
                          hidden: set<NodeId>, v: Node)
    requires Filtered(nodes, edges, ring, orphanRing, hidden) && Supported(nodes, edges, ring, orphanRing, hidden)
    requires IsVisible(nodes, hidden, v) && ring[v.id] < orphanRing
    ensures IsSeedDistance(VisibleEdges(edges, hidden), Seeds(VisibleNodes(nodes, hidden)), v.id, ring[v.id])
  {
    hide Seeds, VisibleEdges, VisibleNodes, Reaches, Supported, IsMaxDepth, IsRing;
    ReachedIff(nodes, edges, ring, orphanRing, v);
    var s := SupportLeadsBack(nodes, edges, ring, orphanRing, hidden, v);
    forall t, m: nat | t in Seeds(VisibleNodes(nodes, hidden)) && Reaches(VisibleEdges(edges, hidden), t, v.id, m)
      ensures ring[v.id] <= m
    {
      VisibleWalk(edges, hidden, t, v.id, m);
    }
  }

  /** And a node that keeps its distance has support: the last step of a shortest visible walk. */
  lemma DistanceNeedsSupport(nodes: seq<Node>, edges: seq<Edge>, ring: map<NodeId, nat>, orphanRing: nat,
                             hidden: set<NodeId>, v: Node)
    requires Filtered(nodes, edges, ring, orphanRing, hidden)
    requires IsVisible(nodes, hidden, v) && 0 < ring[v.id] < orphanRing
    requires IsSeedDistance(VisibleEdges(edges, hidden), Seeds(VisibleNodes(nodes, hidden)), v.id, ring[v.id])
    ensures HasSupport(nodes, edges, ring, hidden, v)
  {
    hide Seeds, VisibleEdges, VisibleNodes, IsMaxDepth, IsRing, IsWalk;
    var edges', seeds, r := VisibleEdges(edges, hidden), Seeds(nodes), ring[v.id];
    var s :| s in seeds && Reaches(edges', s, v.id, r);
    var w :| IsWalkFromTo(edges', w, s, v.id) && |w| == r + 1;
    var x := w[r - 1];
    StepOf(edges', w, r - 1);
    VisibleEdgesAre(edges, hidden, Edge(x, v.id));
    VisibleEdgesAre(edges, hidden, Edge(v.id, x));
    WalkPrefix(edges', w, r - 1);
    VisibleWalk(edges, hidden, s, x, r - 1);
    var u :| u in nodes && u.id == x;
    assert Connected(edges, s, x);
    ReachedIff(nodes, edges, ring, orphanRing, u);
    ReachedIff(nodes, edges, ring, orphanRing, v);
    LinkedRingsAreClose(edges, seeds, x, v.id, ring[x], r);
  }

  /**
   * Every visible reached node keeps its distance in the visible graph if and only if each of them
   * outside the core has a visible node linked to it one ring further in.
   */
  lemma DistancesStayIff(nodes: seq<Node>, edges: seq<Edge>, ring: map<NodeId, nat>, orphanRing: nat,
                         hidden: set<NodeId>)
    requires Filtered(nodes, edges, ring, orphanRing, hidden)
    ensures Supported(nodes, edges, ring, orphanRing, hidden) <==>
            forall v | IsVisible(nodes, hidden, v) && ring[v.id] < orphanRing ::
              IsSeedDistance(VisibleEdges(edges, hidden), Seeds(VisibleNodes(nodes, hidden)), v.id, ring[v.id])
  {
    hide SameSeeds, IsMaxDepth, IsRing, IsSeedDistance, Seeds, VisibleEdges, VisibleNodes, HasSupport;
    if Supported(nodes, edges, ring, orphanRing, hidden) {
      forall v | IsVisible(nodes, hidden, v) && ring[v.id] < orphanRing
        ensures IsSeedDistance(VisibleEdges(edges, hidden), Seeds(VisibleNodes(nodes, hidden)), v.id, ring[v.id])
      {
        SupportedDistance(nodes, edges, ring, orphanRing, hidden, v);
      }
    } else {
      var v :| IsVisible(nodes, hidden, v) && 0 < ring[v.id] < orphanRing && !HasSupport(nodes, edges, ring, hidden, v);
      if IsSeedDistance(VisibleEdges(edges, hidden), Seeds(VisibleNodes(nodes, hidden)), v.id, ring[v.id]) {
        DistanceNeedsSupport(nodes, edges, ring, orphanRing, hidden, v);
      }
    }
  }

  // Ring numbers, orphans included.

  /** The node keeps its ring, and stays reached or an orphan as it was. */
  predicate Keeps(ring: map<NodeId, nat>, orphanRing: nat, ring': map<NodeId, nat>, orphanRing': nat, v: Node)
    requires v.id in ring && v.id in ring'
  {
    ring'[v.id] == ring[v.id] && (ring'[v.id] < orphanRing' <==> ring[v.id] < orphanRing)
  }

  /** If an orphan is visible, some node of the deepest ring is visible too. */
  ghost predicate RimSeen(nodes: seq<Node>, ring: map<NodeId, nat>, orphanRing: nat, hidden: set<NodeId>)
    requires forall n | n in nodes :: n.id in ring
  {
    (exists v :: IsVisible(nodes, hidden, v) && ring[v.id] == orphanRing) ==>
    (exists n :: IsVisible(nodes, hidden, n) && ring[n.id] + 1 == orphanRing)
  }

  /** The rings of the visible graph. */
  ghost predicate Redrawn(nodes: seq<Node>, edges: seq<Edge>, hidden: set<NodeId>, ring': map<NodeId, nat>,
                          orphanRing': nat) {
    IsRingMap(VisibleNodes(nodes, hidden), VisibleEdges(edges, hidden), ring', orphanRing')
  }

  lemma VisibleHasRing(nodes: seq<Node>, edges: seq<Edge>, hidden: set<NodeId>, ring': map<NodeId, nat>,
                       orphanRing': nat, v: Node)
    requires Redrawn(nodes, edges, hidden, ring', orphanRing') && IsVisible(nodes, hidden, v)
    ensures v in VisibleNodes(nodes, hidden) && v.id in ring'
  {
    hide IsMaxDepth, IsRing;
    VisibleNodesAre(nodes, hidden, v);
  }

  /** The deepest ring of the visible graph holds a visible node. */
  lemma DeepestVisible(nodes: seq<Node>, edges: seq<Edge>, hidden: set<NodeId>, ring': map<NodeId, nat>,
                       orphanRing': nat) returns (x: Node)
    requires Resolved(nodes, edges) && Redrawn(nodes, edges, hidden, ring', orphanRing')
    requires VisibleNodes(nodes, hidden) != []
    ensures IsVisible(nodes, hidden, x) && x.id in ring' && orphanRing' > 0 && ring'[x.id] == orphanRing' - 1
    ensures IsSeedDistance(VisibleEdges(edges, hidden), Seeds(VisibleNodes(nodes, hidden)), x.id, orphanRing' - 1)
  {
    hide Seeds, VisibleEdges, VisibleNodes, Reaches;
    var vis, edges' := VisibleNodes(nodes, hidden), VisibleEdges(edges, hidden);
    var seeds' := Seeds(vis);
    SeedsAreNodes(vis);
    var id :| IsSeedDistance(edges', seeds', id, orphanRing' - 1);
    var s :| s in seeds' && Reaches(edges', s, id, orphanRing' - 1);
    VisibleResolved(nodes, edges, hidden);
    ReachedIsNode(vis, edges', s, id, orphanRing' - 1);
    x :| x in vis && x.id == id;
    VisibleNodesAre(nodes, hidden, x);
    DistanceConnects(edges', seeds', id, orphanRing' - 1);
    DistanceIsRing(vis, edges', ring', orphanRing', x, orphanRing' - 1);
  }

  /** A node reached in the visible graph was reached before. */
  lemma VisiblyReached(nodes: seq<Node>, edges: seq<Edge>, hidden: set<NodeId>, v: NodeId)
    requires SameSeeds(nodes, hidden)
    requires SeedConnected(VisibleEdges(edges, hidden), Seeds(VisibleNodes(nodes, hidden)), v)
    ensures SeedConnected(edges, Seeds(nodes), v)
  {
    hide Reaches, VisibleEdges, VisibleNodes, Seeds;
    var edges' := VisibleEdges(edges, hidden);
    var t :| t in Seeds(VisibleNodes(nodes, hidden)) && Connected(edges', t, v);
    var m: nat :| Reaches(edges', t, v, m);
    VisibleWalk(edges, hidden, t, v, m);
    assert Connected(edges, t, v);
  }

  lemma SupportedKeeps(nodes: seq<Node>, edges: seq<Edge>, ring: map<NodeId, nat>, orphanRing: nat, hidden: set<NodeId>,
                       ring': map<NodeId, nat>, orphanRing': nat, v: Node)
    requires Filtered(nodes, edges, ring, orphanRing, hidden) && Redrawn(nodes, edges, hidden, ring', orphanRing')
    requires Supported(nodes, edges, ring, orphanRing, hidden)
    requires IsVisible(nodes, hidden, v) && ring[v.id] < orphanRing
    ensures v.id in ring' && ring'[v.id] == ring[v.id] < orphanRing'
  {
    hide Seeds, VisibleEdges, VisibleNodes, IsSeedDistance, SeedConnected, IsMaxDepth, IsRing, Supported, SameSeeds;
    var vis, edges' := VisibleNodes(nodes, hidden), VisibleEdges(edges, hidden);
    VisibleHasRing(nodes, edges, hidden, ring', orphanRing', v);
    SupportedDistance(nodes, edges, ring, orphanRing, hidden, v);
    DistanceConnects(edges', Seeds(vis), v.id, ring[v.id]);
    DistanceIsRing(vis, edges', ring', orphanRing', v, ring[v.id]);
    ReachedIff(vis, edges', ring', orphanRing', v);
  }

  /** With support and the rim seen, the orphan ring stays where it was. */
  lemma RimStays(nodes: seq<Node>, edges: seq<Edge>, ring: map<NodeId, nat>, orphanRing: nat, hidden: set<NodeId>,
                 ring': map<NodeId, nat>, orphanRing': nat, n: Node)
    requires Filtered(nodes, edges, ring, orphanRing, hidden) && Redrawn(nodes, edges, hidden, ring', orphanRing')
    requires Supported(nodes, edges, ring, orphanRing, hidden)
    requires IsVisible(nodes, hidden, n) && ring[n.id] + 1 == orphanRing
    ensures orphanRing' == orphanRing
  {
    hide Seeds, VisibleEdges, VisibleNodes, IsSeedDistance, IsMaxDepth, IsRing, SeedConnected, Supported;
    SupportedKeeps(nodes, edges, ring, orphanRing, hidden, ring', orphanRing', n);
    VisibleHasRing(nodes, edges, hidden, ring', orphanRing', n);
    var x := DeepestVisible(nodes, edges, hidden, ring', orphanRing');
    DistanceConnects(VisibleEdges(edges, hidden), Seeds(VisibleNodes(nodes, hidden)), x.id, orphanRing' - 1);
    VisiblyReached(nodes, edges, hidden, x.id);
    ReachedIff(nodes, edges, ring, orphanRing, x);
    SupportedKeeps(nodes, edges, ring, orphanRing, hidden, ring', orphanRing', x);
  }

  lemma OrphanStays(nodes: seq<Node>, edges: seq<Edge>, ring: map<NodeId, nat>, orphanRing: nat, hidden: set<NodeId>,
                    ring': map<NodeId, nat>, orphanRing': nat, v: Node)
    requires Filtered(nodes, edges, ring, orphanRing, hidden) && Redrawn(nodes, edges, hidden, ring', orphanRing')
    requires IsVisible(nodes, hidden, v) && ring[v.id] == orphanRing
    ensures v.id in ring' && ring'[v.id] == orphanRing'
  {
    hide Seeds, VisibleEdges, VisibleNodes, IsSeedDistance, IsMaxDepth, IsRing, SeedConnected, SameSeeds;
    VisibleHasRing(nodes, edges, hidden, ring', orphanRing', v);
    ReachedIff(nodes, edges, ring, orphanRing, v);
    ReachedIff(VisibleNodes(nodes, hidden), VisibleEdges(edges, hidden), ring', orphanRing', v);
    if SeedConnected(VisibleEdges(edges, hidden), Seeds(VisibleNodes(nodes, hidden)), v.id) {
      VisiblyReached(nodes, edges, hidden, v.id);
    }
  }

  /** What every visible node keeping its ring says of one of them. */
  lemma KeptNeedsSupport(nodes: seq<Node>, edges: seq<Edge>, ring: map<NodeId, nat>, orphanRing: nat,
                         hidden: set<NodeId>,
                         ring': map<NodeId, nat>, orphanRing': nat, v: Node)
    requires Filtered(nodes, edges, ring, orphanRing, hidden) && Redrawn(nodes, edges, hidden, ring', orphanRing')
    requires IsVisible(nodes, hidden, v) && v.id in ring' && Keeps(ring, orphanRing, ring', orphanRing', v)
    requires 0 < ring[v.id] < orphanRing
    ensures HasSupport(nodes, edges, ring, hidden, v)
  {
    hide Seeds, VisibleEdges, VisibleNodes, IsSeedDistance, IsMaxDepth, IsRing, SeedConnected, SameSeeds, HasSupport;
    VisibleHasRing(nodes, edges, hidden, ring', orphanRing', v);
    ReachedIff(VisibleNodes(nodes, hidden), VisibleEdges(edges, hidden), ring', orphanRing', v);
    DistanceNeedsSupport(nodes, edges, ring, orphanRing, hidden, v);
  }

  /**
   * Whatever is hidden, as long as the seeds stay: every visible node keeps its ring, orphans included,
   * if and only if each visible reached node outside the core has a visible node linked to it one ring
   * further in, and, should an orphan be visible, the deepest ring is visible somewhere.
   */
  lemma RingsStayIff(nodes: seq<Node>, edges: seq<Edge>, ring: map<NodeId, nat>, orphanRing: nat, hidden: set<NodeId>,
                     ring': map<NodeId, nat>, orphanRing': nat)
    requires Filtered(nodes, edges, ring, orphanRing, hidden) && Redrawn(nodes, edges, hidden, ring', orphanRing')
    ensures forall v | IsVisible(nodes, hidden, v) :: v.id in ring'
    ensures (forall v | IsVisible(nodes, hidden, v) :: Keeps(ring, orphanRing, ring', orphanRing', v)) <==>
            Supported(nodes, edges, ring, orphanRing, hidden) && RimSeen(nodes, ring, orphanRing, hidden)
  {
    hide Seeds, VisibleEdges, VisibleNodes, IsSeedDistance, IsMaxDepth, IsRing, SeedConnected, SameSeeds, HasSupport;
    hide Redrawn;
    forall v | IsVisible(nodes, hidden, v)
      ensures v.id in ring' && v in VisibleNodes(nodes, hidden) && ring[v.id] <= orphanRing
    {
      VisibleHasRing(nodes, edges, hidden, ring', orphanRing', v);
      ReachedIff(nodes, edges, ring, orphanRing, v);
    }
    if Supported(nodes, edges, ring, orphanRing, hidden) && RimSeen(nodes, ring, orphanRing, hidden) {
      forall v | IsVisible(nodes, hidden, v)
        ensures Keeps(ring, orphanRing, ring', orphanRing', v)
      {
        AllKeep(nodes, edges, ring, orphanRing, hidden, ring', orphanRing', v);
      }
    }
    if forall v | IsVisible(nodes, hidden, v) :: Keeps(ring, orphanRing, ring', orphanRing', v) {
      forall v | IsVisible(nodes, hidden, v) && 0 < ring[v.id] < orphanRing
        ensures HasSupport(nodes, edges, ring, hidden, v)
      {
        KeptNeedsSupport(nodes, edges, ring, orphanRing, hidden, ring', orphanRing', v);
      }
      if v :| IsVisible(nodes, hidden, v) && ring[v.id] == orphanRing {
        OrphanStays(nodes, edges, ring, orphanRing, hidden, ring', orphanRing', v);
        var x := DeepestVisible(nodes, edges, hidden, ring', orphanRing');
        assert Keeps(ring, orphanRing, ring', orphanRing', x) && Keeps(ring, orphanRing, ring', orphanRing', v);
      }
    }
  }

  lemma AllKeep(nodes: seq<Node>, edges: seq<Edge>, ring: map<NodeId, nat>, orphanRing: nat, hidden: set<NodeId>,
                ring': map<NodeId, nat>, orphanRing': nat, v: Node)
    requires Filtered(nodes, edges, ring, orphanRing, hidden) && Redrawn(nodes, edges, hidden, ring', orphanRing')
    requires Supported(nodes, edges, ring, orphanRing, hidden) && RimSeen(nodes, ring, orphanRing, hidden)
    requires IsVisible(nodes, hidden, v)
    ensures v.id in ring' && Keeps(ring, orphanRing, ring', orphanRing', v)
  {
    hide Seeds, VisibleEdges, VisibleNodes, IsSeedDistance, IsMaxDepth, IsRing, SeedConnected, SameSeeds, HasSupport;
    hide Redrawn, Supported;
    ReachedIff(nodes, edges, ring, orphanRing, v);
    if ring[v.id] < orphanRing {
      SupportedKeeps(nodes, edges, ring, orphanRing, hidden, ring', orphanRing', v);
    } else {
      OrphanStays(nodes, edges, ring, orphanRing, hidden, ring', orphanRing', v);
      var n :| IsVisible(nodes, hidden, n) && ring[n.id] + 1 == orphanRing;
      RimStays(nodes, edges, ring, orphanRing, hidden, ring', orphanRing', n);
    }
  }

  // When the seeds stay.

  lemma VisibleGateways(nodes: seq<Node>, hidden: set<NodeId>, s: NodeId)
    requires forall n | n in nodes && n.isGateway :: n.id !in hidden
    ensures s in Gateways(VisibleNodes(nodes, hidden)) <==> s in Gateways(nodes)
  {
    hide VisibleNodes;
    var vis := VisibleNodes(nodes, hidden);
    forall n ensures n in vis <==> n in nodes && n.id !in hidden { VisibleNodesAre(nodes, hidden, n); }
    GatewaysAre(nodes, s);
    GatewaysAre(vis, s);
  }

  /** With a gateway the gateways are the seeds, and no filter hides them. */
  lemma GatewaySeedsStay(nodes: seq<Node>, hidden: set<NodeId>)
    requires (exists g | g in nodes :: g.isGateway) && forall n | n in nodes && n.isGateway :: n.id !in hidden
    ensures SameSeeds(nodes, hidden)
  {
    hide VisibleNodes;
    var vis := VisibleNodes(nodes, hidden);
    GatewaysEmpty(nodes);
    FirstIsIn(Gateways(nodes));
    FirstIsIn(Gateways(vis));
    forall s
      ensures s in Gateways(vis) <==> s in Gateways(nodes)
    {
      VisibleGateways(nodes, hidden, s);
    }
  }

  /** Without one the only seed is the most connected node. */
  lemma RootSeedStaysIff(nodes: seq<Node>, hidden: set<NodeId>)
    requires nodes != [] && forall n | n in nodes :: !n.isGateway
    ensures SameSeeds(nodes, hidden) <==> MostConnected(nodes).id !in hidden
  {
    hide VisibleNodes, MostConnected, Gateways;
    var vis, root := VisibleNodes(nodes, hidden), MostConnected(nodes);
    GatewaysEmpty(nodes);
    forall n | n in vis ensures !n.isGateway { VisibleNodesAre(nodes, hidden, n); }
    GatewaysEmpty(vis);
    assert Seeds(nodes) == [root.id];
    if root.id !in hidden {
      MostConnectedStays(nodes, hidden);
    } else if SameSeeds(nodes, hidden) {
      assert root.id in Seeds(vis);
      SeedsAreNodes(vis);
      var n :| n in vis && n.id == root.id;
      VisibleNodesAre(nodes, hidden, n);
    }
  }

  /**
   * Under every filter setting the seeds stay if and only if there is a gateway, or the fallback root is
   * not hidden, or there is nothing to see.
   */
  lemma SeedsStayIff(nodes: seq<Node>, ring: map<NodeId, nat>, maxHops: int, minLinks: int, hideMqtt: bool)
    requires UniqueIds(nodes) && forall n | n in nodes :: n.id in ring
    ensures var hidden := HiddenIds(nodes, ring, maxHops, minLinks, hideMqtt);
      SameSeeds(nodes, hidden) <==>
      nodes == [] || (exists g | g in nodes :: g.isGateway) || MostConnected(nodes).id !in hidden
  {
    hide VisibleNodes, HiddenIds, MostConnected, Seeds;
    var hidden := HiddenIds(nodes, ring, maxHops, minLinks, hideMqtt);
    forall n | n in nodes && n.isGateway
      ensures n.id !in hidden
    {
      GatewaysStay(nodes, ring, maxHops, minLinks, hideMqtt, n);
      VisibleNodesAre(nodes, hidden, n);
    }
    if nodes == [] {
      NothingStays(hidden);
    } else if g :| g in nodes && g.isGateway {
      GatewaySeedsStay(nodes, hidden);
    } else {
      RootSeedStaysIff(nodes, hidden);
    }
  }

  lemma NothingStays(hidden: set<NodeId>)
    ensures VisibleNodes([], hidden) == []
  {
  }

  // Rings do move: a gateway 1, a relay 2 behind it and a node 3 behind the relay.

  lemma FirstStep(edges: seq<Edge>, w: seq<NodeId>)
    ensures IsWalk(edges, w) && |w| > 1 ==> Adjacent(edges, w[0], w[1])
  {
  }

  lemma NoEdgesNoWalk(seeds: seq<NodeId>, v: NodeId, n: nat)
    requires IsSeedDistance([], seeds, v, n)
    ensures n == 0
  {
    var s :| s in seeds && Reaches([], s, v, n);
    var w :| IsWalkFromTo([], w, s, v) && |w| == n + 1;
    FirstStep([], w);
  }

  /** Behind a relay, two hops out. */
  lemma TwoHopsOut(nodes: seq<Node>, edges: seq<Edge>, ring: map<NodeId, nat>, orphanRing: nat, v: Node)
    requires IsRingMap(nodes, edges, ring, orphanRing) && v in nodes && v.id == 3
    requires Seeds(nodes) == [1] && Adjacent(edges, 1, 2) && Adjacent(edges, 2, 3) && !Adjacent(edges, 1, 3)
    ensures ring[3] == 2 < orphanRing
  {
    hide Seeds, IsMaxDepth;
    ReachSelf(edges, 1);
    ReachStep(edges, 1, 1, 2, 0);
    ReachStep(edges, 1, 2, 3, 1);
    assert Connected(edges, 1, 3);
    forall m: nat | Reaches(edges, 1, 3, m)
      ensures m >= 2
    {
      var w :| IsWalkFromTo(edges, w, 1, 3) && |w| == m + 1;
      FirstStep(edges, w);
    }
    assert IsSeedDistance(edges, [1], 3, 2);
    SeedDistanceUnique(edges, [1], 3, ring[3], 2);
    ReachedIff(nodes, edges, ring, orphanRing, v);
  }

  /** Once every link is hidden, whatever is not a seed becomes an orphan on ring 1. */
  lemma LinklessOrphan(nodes: seq<Node>, edges: seq<Edge>, hidden: set<NodeId>, ring': map<NodeId, nat>,
                       orphanRing': nat,
                       v: Node)
    requires Redrawn(nodes, edges, hidden, ring', orphanRing') && IsVisible(nodes, hidden, v)
    requires v.id !in Seeds(VisibleNodes(nodes, hidden)) && forall e | e in edges :: e.a in hidden || e.b in hidden
    ensures v.id in ring' && ring'[v.id] == orphanRing' == 1
  {
    hide Seeds, VisibleEdges, VisibleNodes, IsSeedDistance;
    var vis, edges' := VisibleNodes(nodes, hidden), VisibleEdges(edges, hidden);
    VisibleHasRing(nodes, edges, hidden, ring', orphanRing', v);
    forall e | e in edges'
      ensures false
    {
      VisibleEdgesAre(edges, hidden, e);
    }
    FirstIsIn(edges');
    assert edges' == [];
    SeedsAreNodes(vis);
    var x :| IsSeedDistance(edges', Seeds(vis), x, orphanRing' - 1);
    NoEdgesNoWalk(Seeds(vis), x, orphanRing' - 1);
    forall u | Adjacent(edges, u, v.id) ensures u in hidden {}
    CutOffIsOrphan(nodes, edges, hidden, v);
  }

  function RelayNodes(): seq<Node> {
    [Node(1, true, 1, false), Node(2, false, 2, true), Node(3, false, 1, false)]
  }

  function RelayEdges(): seq<Edge> { [Edge(1, 2), Edge(2, 3)] }

  lemma RelayHidden(ring: map<NodeId, nat>)
    requires forall n | n in RelayNodes() :: n.id in ring
    ensures HiddenIds(RelayNodes(), ring, ALL_HOPS, 1, true) == {2}
  {
    var nodes := RelayNodes();
    assert nodes[0] in nodes && nodes[1] in nodes && nodes[2] in nodes;
  }

  /** Hiding what was only heard over MQTT moves node 3 from ring 2 to the orphans, now on ring 1. */
  lemma MqttFilterMovesRings(ring: map<NodeId, nat>, orphanRing: nat, ring': map<NodeId, nat>, orphanRing': nat)
    requires IsRingMap(RelayNodes(), RelayEdges(), ring, orphanRing)
    requires Redrawn(RelayNodes(), RelayEdges(), HiddenIds(RelayNodes(), ring, ALL_HOPS, 1, true), ring', orphanRing')
    ensures HiddenIds(RelayNodes(), ring, ALL_HOPS, 1, true) == {2}
    ensures 3 in ring && 3 in ring' && ring[3] == 2 < orphanRing && ring'[3] == orphanRing' == 1
  {
    hide Redrawn, VisibleNodes, Seeds, HiddenIds, IsMaxDepth, IsRing;
    var nodes, hidden := RelayNodes(), HiddenIds(RelayNodes(), ring, ALL_HOPS, 1, true);
    RelayHidden(ring);
    OneGateway(nodes, hidden);
    TwoHopsOut(nodes, RelayEdges(), ring, orphanRing, nodes[2]);
    LinklessOrphan(nodes, RelayEdges(), hidden, ring', orphanRing', nodes[2]);
  }

  function HubNodes(): seq<Node> {
    [Node(1, true, 1, false), Node(2, false, 2, false), Node(3, false, 3, false),
     Node(4, false, 1, false), Node(5, false, 1, false)]
  }

  function HubEdges(): seq<Edge> { [Edge(1, 2), Edge(2, 3), Edge(3, 4), Edge(3, 5)] }

  lemma HubHidden(ring: map<NodeId, nat>)
    requires forall n | n in HubNodes() :: n.id in ring
    ensures HiddenIds(HubNodes(), ring, ALL_HOPS, 3, false) == {2, 4, 5}
  {
    hide HiddenIds;
    var nodes := HubNodes();
    HiddenByLinks(nodes, ring, 3);
    assert nodes[1] in nodes && nodes[3] in nodes && nodes[4] in nodes;
  }

  lemma HiddenByLinks(nodes: seq<Node>, ring: map<NodeId, nat>, minLinks: int)
    requires forall n | n in nodes :: n.id in ring
    ensures HiddenIds(nodes, ring, ALL_HOPS, minLinks, false) ==
            set n | n in nodes && !n.isGateway && n.degree < minLinks :: n.id
  {
  }

  /** So does asking for three links, when node 3 has three and the relay two. */
  lemma LinkFilterMovesRings(ring: map<NodeId, nat>, orphanRing: nat, ring': map<NodeId, nat>, orphanRing': nat)
    requires IsRingMap(HubNodes(), HubEdges(), ring, orphanRing)
    requires Redrawn(HubNodes(), HubEdges(), HiddenIds(HubNodes(), ring, ALL_HOPS, 3, false), ring', orphanRing')
    ensures HiddenIds(HubNodes(), ring, ALL_HOPS, 3, false) == {2, 4, 5}
    ensures 3 in ring && 3 in ring' && ring[3] == 2 < orphanRing && ring'[3] == orphanRing' == 1
  {
    hide Redrawn, VisibleNodes, Seeds, HiddenIds, IsMaxDepth, IsRing;
    var nodes, hidden := HubNodes(), HiddenIds(HubNodes(), ring, ALL_HOPS, 3, false);
    HubHidden(ring);
    OneGateway(nodes, hidden);
    TwoHopsOut(nodes, HubEdges(), ring, orphanRing, nodes[2]);
    LinklessOrphan(nodes, HubEdges(), hidden, ring', orphanRing', nodes[2]);
  }

  lemma OneGateway(nodes: seq<Node>, hidden: set<NodeId>)
    requires nodes != [] && nodes[0].isGateway && nodes[0].id == 1 && 1 !in hidden
    requires forall i | 0 < i < |nodes| :: !nodes[i].isGateway
    ensures Seeds(nodes) == [1] && Seeds(VisibleNodes(nodes, hidden)) == [1]
  {
    OnlyFirst(nodes, hidden);
  }

  lemma {:induction false} OnlyFirst(nodes: seq<Node>, hidden: set<NodeId>)
    requires nodes != [] && nodes[0].isGateway && nodes[0].id == 1 && 1 !in hidden
    requires forall i | 0 < i < |nodes| :: !nodes[i].isGateway
    ensures Gateways(nodes) == [1] && Gateways(VisibleNodes(nodes, hidden)) == [1]
  {
    var rest, last := nodes[..|nodes| - 1], nodes[|nodes| - 1];
    assert nodes == rest + [last];
    VisibleNodesSnoc(rest, hidden, last);
    GatewaysSnoc(rest, last);
    GatewaysSnoc(VisibleNodes(rest, hidden), last);
    if rest != [] {
      OnlyFirst(rest, hidden);
      assert VisibleNodes(rest, hidden) + [] == VisibleNodes(rest, hidden);
    }
  }

  lemma {:induction false} GatewaysSnoc(rest: seq<Node>, last: Node)
    ensures Gateways(rest + [last]) == Gateways(rest) + if last.isGateway then [last.id] else []
  {
    hide Gateways;
    GatewaysFirst(rest + [last]);
    GatewaysFirst(rest);
    if rest == [] {
      assert (rest + [last])[1..] == [];
      GatewaysFirst([]);
    } else {
      assert (rest + [last])[1..] == rest[1..] + [last];
      GatewaysSnoc(rest[1..], last);
    }
  }

  lemma GatewaysFirst(nodes: seq<Node>)
    ensures nodes == [] ==> Gateways(nodes) == []
    ensures nodes != [] ==>
      Gateways(nodes) == (if nodes[0].isGateway then [nodes[0].id] else []) + Gateways(nodes[1..])
  {
  }
}
