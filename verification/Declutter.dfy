// The declutter filters of the mesh view: which nodes they hide, and what hiding does to hop rings.
module Declutter {
  import opened Collections
  import opened Graphs
  import opened HopRings

  const ALL_HOPS := 7

  predicate Hides(n: Node, ring: nat, maxHops: int, minLinks: int, hideMqtt: bool) {
    && !n.isGateway
    && ((maxHops < ALL_HOPS && ring > maxHops) || n.degree < minLinks || (hideMqtt && n.mqttOnly))
  }

  function HiddenIds(nodes: seq<Node>, ring: map<NodeId, nat>, maxHops: int, minLinks: int, hideMqtt: bool): set<NodeId>
    requires forall n | n in nodes :: n.id in ring
  {
    set n | n in nodes && Hides(n, ring[n.id], maxHops, minLinks, hideMqtt) :: n.id
  }

  function VisibleNodes(nodes: seq<Node>, hidden: set<NodeId>): seq<Node> {
    if nodes == [] then []
    else
      var n := nodes[|nodes| - 1];
      VisibleNodes(nodes[..|nodes| - 1], hidden) + if n.id in hidden then [] else [n]
  }

  /** A link is drawn only when neither end is hidden. */
  function VisibleEdges(edges: seq<Edge>, hidden: set<NodeId>): seq<Edge> {
    if edges == [] then []
    else
      var e := edges[|edges| - 1];
      VisibleEdges(edges[..|edges| - 1], hidden) + if e.a in hidden || e.b in hidden then [] else [e]
  }

  lemma {:induction false} VisibleNodesAre(nodes: seq<Node>, hidden: set<NodeId>, n: Node)
    ensures n in VisibleNodes(nodes, hidden) <==> n in nodes && n.id !in hidden
  {
    if nodes != [] {
      assert nodes == nodes[..|nodes| - 1] + [nodes[|nodes| - 1]];
      VisibleNodesAre(nodes[..|nodes| - 1], hidden, n);
    }
  }

  lemma {:induction false} VisibleEdgesAre(edges: seq<Edge>, hidden: set<NodeId>, e: Edge)
    ensures e in VisibleEdges(edges, hidden) <==> e in edges && e.a !in hidden && e.b !in hidden
  {
    if edges != [] {
      assert edges == edges[..|edges| - 1] + [edges[|edges| - 1]];
      VisibleEdgesAre(edges[..|edges| - 1], hidden, e);
    }
  }

  lemma HiddenSnoc(rest: seq<Node>, n: Node, ring: map<NodeId, nat>, maxHops: int, minLinks: int, hideMqtt: bool)
    requires forall m | m in rest + [n] :: m.id in ring
    ensures n in rest + [n] && forall m | m in rest :: m in rest + [n]
    ensures HiddenIds(rest + [n], ring, maxHops, minLinks, hideMqtt) ==
            HiddenIds(rest, ring, maxHops, minLinks, hideMqtt)
            + if Hides(n, ring[n.id], maxHops, minLinks, hideMqtt) then {n.id} else {}
  {
  }

  lemma NothingHidden(ring: map<NodeId, nat>, maxHops: int, minLinks: int, hideMqtt: bool)
    ensures HiddenIds([], ring, maxHops, minLinks, hideMqtt) == {}
  {
  }

  lemma HiddenAreNodes(nodes: seq<Node>, ring: map<NodeId, nat>, maxHops: int, minLinks: int, hideMqtt: bool)
    requires forall n | n in nodes :: n.id in ring
    ensures forall id | id in HiddenIds(nodes, ring, maxHops, minLinks, hideMqtt) :: HasId(nodes, id)
  {
  }

  // Counting.

  lemma {:induction false} CountsAddUp(nodes: seq<Node>, hidden: set<NodeId>)
    requires UniqueIds(nodes) && forall id | id in hidden :: HasId(nodes, id)
    ensures |VisibleNodes(nodes, hidden)| + |hidden| == |nodes|
  {
    if nodes == [] {
      if hidden != {} { var id := HasElement(hidden); }
    } else {
      var n, rest := nodes[|nodes| - 1], nodes[..|nodes| - 1];
      assert nodes == rest + [n];
      forall id | id in hidden - {n.id}
        ensures HasId(rest, id)
      {
        var m :| m in nodes && m.id == id;
      }
      CountsAddUp(rest, hidden - {n.id});
      SameOnRest(rest, hidden, n.id);
    }
  }

  lemma {:induction false} SameOnRest(rest: seq<Node>, hidden: set<NodeId>, id: NodeId)
    requires !HasId(rest, id)
    ensures VisibleNodes(rest, hidden) == VisibleNodes(rest, hidden - {id})
  {
    if rest != [] {
      assert rest == rest[..|rest| - 1] + [rest[|rest| - 1]];
      assert rest[|rest| - 1] in rest;
      forall n | n in rest[..|rest| - 1]
        ensures n.id != id
      {
        assert n in rest;
      }
      SameOnRest(rest[..|rest| - 1], hidden, id);
    }
  }

  /** Gateways are never hidden, whatever the filters. */
  lemma GatewaysStay(nodes: seq<Node>, ring: map<NodeId, nat>, maxHops: int, minLinks: int, hideMqtt: bool, g: Node)
    requires UniqueIds(nodes) && g in nodes && g.isGateway
    requires forall n | n in nodes :: n.id in ring
    ensures g in VisibleNodes(nodes, HiddenIds(nodes, ring, maxHops, minLinks, hideMqtt))
  {
    VisibleNodesAre(nodes, HiddenIds(nodes, ring, maxHops, minLinks, hideMqtt), g);
  }

  /** A node is hidden exactly when it is no gateway and too far out, or too little linked, or MQTT-only. */
  lemma HiddenIff(nodes: seq<Node>, ring: map<NodeId, nat>, maxHops: int, minLinks: int, hideMqtt: bool, n: Node)
    requires UniqueIds(nodes) && n in nodes && forall m | m in nodes :: m.id in ring
    ensures n.id in HiddenIds(nodes, ring, maxHops, minLinks, hideMqtt) <==>
            !n.isGateway && ((maxHops < 7 && ring[n.id] > maxHops) || n.degree < minLinks || (hideMqtt && n.mqttOnly))
  {
  }

  // Limiting by hops alone keeps the rings.

  /** The server counts a node's links, so a node on a link has at least one. */
  ghost predicate LinksCounted(nodes: seq<Node>, edges: seq<Edge>) {
    forall n, v {:trigger n in nodes, Adjacent(edges, n.id, v)} | n in nodes && Adjacent(edges, n.id, v) ::
      n.degree >= 1
  }

  lemma LinksCountedIff(nodes: seq<Node>, edges: seq<Edge>)
    ensures LinksCounted(nodes, edges) <==>
            forall n, e | n in nodes && e in edges && (e.a == n.id || e.b == n.id) :: n.degree > 0
  {
    if LinksCounted(nodes, edges) {
      forall n, e | n in nodes && e in edges && (e.a == n.id || e.b == n.id)
        ensures n.degree > 0
      {
        assert Adjacent(edges, n.id, if e.a == n.id then e.b else e.a);
      }
    }
  }

  lemma MostConnectedSnoc(rest: seq<Node>, b: Node)
    ensures MostConnected(rest + [b]) ==
            if rest == [] || b.degree > MostConnected(rest).degree then b else MostConnected(rest)
  {
    assert (rest + [b])[..|rest|] == rest;
  }

  lemma VisibleNodesSnoc(rest: seq<Node>, hidden: set<NodeId>, b: Node)
    ensures VisibleNodes(rest + [b], hidden) == VisibleNodes(rest, hidden) + if b.id in hidden then [] else [b]
  {
    assert (rest + [b])[..|rest|] == rest;
  }

  lemma {:induction false} MostConnectedStays(nodes: seq<Node>, hidden: set<NodeId>)
    requires nodes != [] && MostConnected(nodes).id !in hidden
    ensures VisibleNodes(nodes, hidden) != [] && MostConnected(VisibleNodes(nodes, hidden)) == MostConnected(nodes)
  {
    hide MostConnected, VisibleNodes;
    var b, rest := nodes[|nodes| - 1], nodes[..|nodes| - 1];
    assert nodes == rest + [b];
    var vis := VisibleNodes(rest, hidden);
    MostConnectedSnoc(rest, b);
    MostConnectedSnoc(vis, b);
    VisibleNodesSnoc(rest, hidden, b);
    if rest == [] || b.degree > MostConnected(rest).degree {
      if vis != [] { VisibleNodesAre(rest, hidden, MostConnected(vis)); }
    } else {
      MostConnectedStays(rest, hidden);
      assert vis + [] == vis;
    }
  }

  lemma GatewaysEmpty(nodes: seq<Node>)
    ensures Gateways(nodes) == [] <==> forall n | n in nodes :: !n.isGateway
  {
    if Gateways(nodes) != [] {
      GatewaysAre(nodes, Gateways(nodes)[0]);
    }
    forall n | n in nodes && n.isGateway
      ensures Gateways(nodes) != []
    {
      GatewaysAre(nodes, n.id);
    }
  }

  /** The setting of the theorem: only the hop limit is in force. */
  ghost predicate HopLimited(nodes: seq<Node>, edges: seq<Edge>, ring: map<NodeId, nat>, orphanRing: nat,
                             maxHops: nat, hidden: set<NodeId>) {
    && UniqueIds(nodes) && Resolved(nodes, edges) && LinksCounted(nodes, edges)
    && IsRingMap(nodes, edges, ring, orphanRing)
    && hidden == HiddenIds(nodes, ring, maxHops, 1, false)
  }

  lemma OneNodePerId(nodes: seq<Node>, m: Node, n: Node)
    requires UniqueIds(nodes) && m in nodes && n in nodes && m.id == n.id
    ensures m == n
  {
  }

  /** A node within the limit that lies on a link or is a gateway stays visible. */
  lemma NearNodeStays(nodes: seq<Node>, edges: seq<Edge>, ring: map<NodeId, nat>, orphanRing: nat, maxHops: nat,
                      hidden: set<NodeId>, n: Node)
    requires HopLimited(nodes, edges, ring, orphanRing, maxHops, hidden)
    requires n in nodes && (n.degree >= 1 || n.isGateway)
    requires maxHops < ALL_HOPS ==> ring[n.id] <= maxHops
    ensures n.id !in hidden
  {
    if n.id in hidden {
      var m :| m in nodes && Hides(m, ring[m.id], maxHops, 1, false) && m.id == n.id;
      OneNodePerId(nodes, m, n);
    }
  }

  lemma SeedRingIsZero(nodes: seq<Node>, edges: seq<Edge>, ring: map<NodeId, nat>, orphanRing: nat, n: Node)
    requires IsRingMap(nodes, edges, ring, orphanRing)
    requires n in nodes && n.id in Seeds(nodes)
    ensures ring[n.id] == 0
  {
    hide Seeds, IsMaxDepth;
    var seeds := Seeds(nodes);
    SeedIsReached(edges, seeds, n.id);
    var s :| s in seeds && Reaches(edges, s, n.id, 0);
  }

  /** Unless everything is hidden, the visible graph has the same seeds. */
  lemma SeedsStay(nodes: seq<Node>, edges: seq<Edge>, ring: map<NodeId, nat>, orphanRing: nat, maxHops: nat,
                  hidden: set<NodeId>, s: NodeId)
    requires HopLimited(nodes, edges, ring, orphanRing, maxHops, hidden)
    requires VisibleNodes(nodes, hidden) != []
    ensures s in Seeds(VisibleNodes(nodes, hidden)) <==> s in Seeds(nodes)
  {
    hide IsMaxDepth, IsRing, MostConnected, VisibleNodes;
    var vis := VisibleNodes(nodes, hidden);
    forall n ensures n in vis <==> n in nodes && n.id !in hidden { VisibleNodesAre(nodes, hidden, n); }
    GatewaysEmpty(nodes);
    GatewaysEmpty(vis);
    forall n | n in nodes && n.isGateway
      ensures n in vis
    {
      GatewaysStay(nodes, ring, maxHops, 1, false, n);
    }
    GatewaysAre(nodes, s);
    GatewaysAre(vis, s);
    if Gateways(nodes) == [] {
      var best := MostConnected(nodes);
      assert vis[0] in vis && vis[0].degree >= 1;
      SeedRingIsZero(nodes, edges, ring, orphanRing, best);
      NearNodeStays(nodes, edges, ring, orphanRing, maxHops, hidden, best);
      MostConnectedStays(nodes, hidden);
    }
  }

  /** Every node on a shortest chain from a seed to a visible node is itself visible. */
  lemma ChainStays(nodes: seq<Node>, edges: seq<Edge>, ring: map<NodeId, nat>, orphanRing: nat, maxHops: nat,
                   hidden: set<NodeId>, v: Node, w: seq<NodeId>, k: nat)
    requires HopLimited(nodes, edges, ring, orphanRing, maxHops, hidden)
    requires v in nodes && v.id !in hidden && IsSeedDistance(edges, Seeds(nodes), v.id, ring[v.id])
    requires |w| == ring[v.id] + 1 && IsWalk(edges, w) && w[0] in Seeds(nodes) && w[|w| - 1] == v.id
    requires k < |w|
    ensures w[k] !in hidden
  {
    hide IsMaxDepth, Seeds, IsWalk, Reaches;
    if k < |w| - 1 {
      assert Adjacent(edges, w[k], w[k + 1]) by { StepOf(edges, w, k); }
      var n :| n in nodes && n.id == w[k];
      WalkPrefix(edges, w, k);
      assert SeedConnected(edges, Seeds(nodes), n.id) by { assert Connected(edges, w[0], w[k]); }
      assert ring[n.id] <= k;
      assert n.degree >= 1;
      if maxHops < ALL_HOPS { assert v.isGateway || ring[v.id] <= maxHops; }
      if v.isGateway { GatewayRingIsZero(nodes, edges, ring, orphanRing, v); }
      NearNodeStays(nodes, edges, ring, orphanRing, maxHops, hidden, n);
    }
  }

  lemma StepOf(edges: seq<Edge>, w: seq<NodeId>, k: nat)
    requires IsWalk(edges, w) && k + 1 < |w|
    ensures Adjacent(edges, w[k], w[k + 1])
  {
  }

  lemma GatewayRingIsZero(nodes: seq<Node>, edges: seq<Edge>, ring: map<NodeId, nat>, orphanRing: nat, g: Node)
    requires IsRingMap(nodes, edges, ring, orphanRing)
    requires g in nodes && g.isGateway
    ensures ring[g.id] == 0
  {
    GatewaysAre(nodes, g.id);
    SeedRingIsZero(nodes, edges, ring, orphanRing, g);
  }

  /** So the visible graph gives a reached visible node the distance it had. */
  lemma {:induction false} DistanceStays(nodes: seq<Node>, edges: seq<Edge>, ring: map<NodeId, nat>, orphanRing: nat,
                                         maxHops: nat, hidden: set<NodeId>, v: Node)
    requires HopLimited(nodes, edges, ring, orphanRing, maxHops, hidden)
    requires v in nodes && v.id !in hidden
    requires SeedConnected(edges, Seeds(nodes), v.id)
    ensures IsSeedDistance(VisibleEdges(edges, hidden), Seeds(VisibleNodes(nodes, hidden)), v.id, ring[v.id])
    ensures SeedConnected(VisibleEdges(edges, hidden), Seeds(VisibleNodes(nodes, hidden)), v.id)
  {
    hide IsMaxDepth, Seeds, VisibleEdges, VisibleNodes, IsWalk, HiddenIds;
    var vis, edges', seeds, r := VisibleNodes(nodes, hidden), VisibleEdges(edges, hidden), Seeds(nodes), ring[v.id];
    VisibleNodesAre(nodes, hidden, v);
    var s :| s in seeds && Reaches(edges, s, v.id, r);
    var w :| IsWalkFromTo(edges, w, s, v.id) && |w| == r + 1;
    forall k: nat | k < |w|
      ensures w[k] !in hidden
    {
      ChainStays(nodes, edges, ring, orphanRing, maxHops, hidden, v, w, k);
    }
    WalkStays(edges, hidden, w);
    SeedsStay(nodes, edges, ring, orphanRing, maxHops, hidden, s);
    assert IsWalkFromTo(edges', w, s, v.id);
    assert Reaches(edges', s, v.id, r);
    assert Connected(edges', s, v.id);
    forall t, m: nat | t in Seeds(vis) && Reaches(edges', t, v.id, m)
      ensures r <= m
    {
      SeedsStay(nodes, edges, ring, orphanRing, maxHops, hidden, t);
      VisibleWalk(edges, hidden, t, v.id, m);
    }
  }

  lemma WalkStays(edges: seq<Edge>, hidden: set<NodeId>, w: seq<NodeId>)
    requires IsWalk(edges, w) && forall k: nat | k < |w| :: w[k] !in hidden
    ensures IsWalk(VisibleEdges(edges, hidden), w)
  {
    hide VisibleEdges;
    forall i, j | 0 <= i < |w| && 0 <= j < |w| && j == i + 1
      ensures Adjacent(VisibleEdges(edges, hidden), w[i], w[j])
    {
      VisibleEdgesAre(edges, hidden, Edge(w[i], w[j]));
      VisibleEdgesAre(edges, hidden, Edge(w[j], w[i]));
    }
  }

  lemma VisibleWalk(edges: seq<Edge>, hidden: set<NodeId>, a: NodeId, b: NodeId, n: nat)
    requires Reaches(VisibleEdges(edges, hidden), a, b, n)
    ensures Reaches(edges, a, b, n)
  {
    hide VisibleEdges;
    var edges' := VisibleEdges(edges, hidden);
    var w :| IsWalkFromTo(edges', w, a, b) && |w| == n + 1;
    forall e | e in edges' ensures e in edges { VisibleEdgesAre(edges, hidden, e); }
    WalkInLargerGraph(edges', edges, w);
    assert IsWalkFromTo(edges, w, a, b);
  }

  /** With a visible orphan, some node of the deepest ring is visible too. */
  lemma DeepestRingStays(nodes: seq<Node>, edges: seq<Edge>, ring: map<NodeId, nat>, orphanRing: nat, maxHops: nat,
                         hidden: set<NodeId>, v: Node) returns (n: Node)
    requires HopLimited(nodes, edges, ring, orphanRing, maxHops, hidden)
    requires v in nodes && v.id !in hidden && !SeedConnected(edges, Seeds(nodes), v.id)
    ensures n in nodes && n.id !in hidden && IsSeedDistance(edges, Seeds(nodes), n.id, orphanRing - 1)
    ensures ring[n.id] == orphanRing - 1 && SeedConnected(edges, Seeds(nodes), n.id)
  {
    hide VisibleEdges, VisibleNodes, IsWalk, MostConnected;
    var seeds := Seeds(nodes);
    SeedsAreNodes(nodes);
    if v.isGateway { GatewaysAre(nodes, v.id); SeedIsReached(edges, seeds, v.id); }
    var x :| IsSeedDistance(edges, seeds, x, orphanRing - 1);
    var s :| s in seeds && Reaches(edges, s, x, orphanRing - 1);
    ReachedIsNode(nodes, edges, s, x, orphanRing - 1);
    n :| n in nodes && n.id == x;
    assert Connected(edges, s, x);
    assert SeedConnected(edges, seeds, x);
    DistanceIsRing(nodes, edges, ring, orphanRing, n, orphanRing - 1);
    if n.degree < 1 && !n.isGateway {
      LinklessIsFallback(nodes, edges, s, n, orphanRing - 1);
    }
    NearNodeStays(nodes, edges, ring, orphanRing, maxHops, hidden, n);
  }

  lemma DistanceIsRing(nodes: seq<Node>, edges: seq<Edge>, ring: map<NodeId, nat>, orphanRing: nat, n: Node, d: nat)
    requires IsRingMap(nodes, edges, ring, orphanRing) && n in nodes
    requires IsSeedDistance(edges, Seeds(nodes), n.id, d) && SeedConnected(edges, Seeds(nodes), n.id)
    ensures ring[n.id] == d
  {
    hide IsMaxDepth, Seeds, Reaches;
    var seeds := Seeds(nodes);
    var s :| s in seeds && Reaches(edges, s, n.id, d);
    var t :| t in seeds && Reaches(edges, t, n.id, ring[n.id]);
  }

  /** A reached node without links can only be the fallback seed, and then no node has links. */
  lemma LinklessIsFallback(nodes: seq<Node>, edges: seq<Edge>, s: NodeId, n: Node, d: nat)
    requires UniqueIds(nodes) && LinksCounted(nodes, edges)
    requires n in nodes && n.degree < 1 && !n.isGateway
    requires s in Seeds(nodes) && Reaches(edges, s, n.id, d)
    ensures forall m | m in nodes :: m.degree < 1 && !m.isGateway
  {
    var w :| IsWalkFromTo(edges, w, s, n.id) && |w| == d + 1;
    if d > 0 {
      StepOf(edges, w, d - 1);
      assert Adjacent(edges, n.id, w[d - 1]);
      assert false;
    }
    GatewaysAre(nodes, s);
    if s in Gateways(nodes) {
      var g :| g in nodes && g.isGateway && g.id == s;
      OneNodePerId(nodes, g, n);
    } else {
      OneNodePerId(nodes, MostConnected(nodes), n);
      GatewaysEmpty(nodes);
    }
  }

  /**
   * Limiting by hops alone preserves rings: the rings recomputed on the visible graph are the
   * rings its nodes had, orphans included.
   */
  lemma {:induction false} HopLimitKeepsRings(nodes: seq<Node>, edges: seq<Edge>, ring: map<NodeId, nat>,
                                              orphanRing: nat, maxHops: nat, hidden: set<NodeId>,
                                              ring': map<NodeId, nat>, orphanRing': nat, v: Node)
    requires HopLimited(nodes, edges, ring, orphanRing, maxHops, hidden)
    requires IsRingMap(VisibleNodes(nodes, hidden), VisibleEdges(edges, hidden), ring', orphanRing')
    requires v in nodes && v.id !in hidden
    ensures v in VisibleNodes(nodes, hidden) && v.id in ring' && ring'[v.id] == ring[v.id]
  {
    hide VisibleEdges, VisibleNodes, IsSeedDistance, Seeds, HiddenIds;
    var vis, edges' := VisibleNodes(nodes, hidden), VisibleEdges(edges, hidden);
    VisibleNodesAre(nodes, hidden, v);
    if SeedConnected(edges, Seeds(nodes), v.id) {
      DistanceStays(nodes, edges, ring, orphanRing, maxHops, hidden, v);
      DistanceIsRing(vis, edges', ring', orphanRing', v, ring[v.id]);
    } else {
      if SeedConnected(edges', Seeds(vis), v.id) {
        VisibleConnected(nodes, edges, ring, orphanRing, maxHops, hidden, v.id);
      }
      var n := DeepestRingStays(nodes, edges, ring, orphanRing, maxHops, hidden, v);
      DistanceStays(nodes, edges, ring, orphanRing, maxHops, hidden, n);
      OrphanRingStays(nodes, edges, ring, orphanRing, maxHops, hidden, ring', orphanRing', n);
    }
  }

  lemma VisibleConnected(nodes: seq<Node>, edges: seq<Edge>, ring: map<NodeId, nat>, orphanRing: nat, maxHops: nat,
                         hidden: set<NodeId>, v: NodeId)
    requires HopLimited(nodes, edges, ring, orphanRing, maxHops, hidden) && VisibleNodes(nodes, hidden) != []
    requires SeedConnected(VisibleEdges(edges, hidden), Seeds(VisibleNodes(nodes, hidden)), v)
    ensures SeedConnected(edges, Seeds(nodes), v)
  {
    hide Reaches, HopLimited, VisibleEdges, VisibleNodes, Seeds;
    var edges' := VisibleEdges(edges, hidden);
    var t :| t in Seeds(VisibleNodes(nodes, hidden)) && Connected(edges', t, v);
    var m: nat :| Reaches(edges', t, v, m);
    SeedsStay(nodes, edges, ring, orphanRing, maxHops, hidden, t);
    VisibleWalk(edges, hidden, t, v, m);
    assert Connected(edges, t, v);
  }

  lemma {:induction false} OrphanRingStays(nodes: seq<Node>, edges: seq<Edge>, ring: map<NodeId, nat>, orphanRing: nat,
                                           maxHops: nat, hidden: set<NodeId>, ring': map<NodeId, nat>,
                                           orphanRing': nat, n: Node)
    requires HopLimited(nodes, edges, ring, orphanRing, maxHops, hidden)
    requires IsRingMap(VisibleNodes(nodes, hidden), VisibleEdges(edges, hidden), ring', orphanRing')
    requires n in nodes && n.id !in hidden
    requires IsSeedDistance(VisibleEdges(edges, hidden), Seeds(VisibleNodes(nodes, hidden)), n.id, orphanRing - 1)
    ensures orphanRing' == orphanRing
  {
    hide VisibleEdges, VisibleNodes, Seeds, Reaches, HiddenIds;
    var vis, edges' := VisibleNodes(nodes, hidden), VisibleEdges(edges, hidden);
    var seeds, seeds' := Seeds(nodes), Seeds(vis);
    VisibleNodesAre(nodes, hidden, n);
    var s :| s in seeds' && Reaches(edges', s, n.id, orphanRing - 1);
    var x :| IsSeedDistance(edges', seeds', x, orphanRing' - 1);
    var t :| t in seeds' && Reaches(edges', t, x, orphanRing' - 1);
    SeedsAreNodes(vis);
    VisibleResolved(nodes, edges, hidden);
    ReachedIsNode(vis, edges', t, x, orphanRing' - 1);
    var y :| y in vis && y.id == x;
    VisibleNodesAre(nodes, hidden, y);
    SeedsStay(nodes, edges, ring, orphanRing, maxHops, hidden, t);
    VisibleWalk(edges, hidden, t, x, orphanRing' - 1);
    assert Connected(edges, t, x);
    assert SeedConnected(edges, seeds, x);
    DistanceStays(nodes, edges, ring, orphanRing, maxHops, hidden, y);
    SeedDistanceUnique(edges', seeds', x, ring[x], orphanRing' - 1);
  }

  lemma VisibleResolved(nodes: seq<Node>, edges: seq<Edge>, hidden: set<NodeId>)
    requires Resolved(nodes, edges)
    ensures Resolved(VisibleNodes(nodes, hidden), VisibleEdges(edges, hidden))
  {
    hide VisibleNodes, VisibleEdges;
    forall e | e in VisibleEdges(edges, hidden)
      ensures HasId(VisibleNodes(nodes, hidden), e.a) && HasId(VisibleNodes(nodes, hidden), e.b)
    {
      VisibleEdgesAre(edges, hidden, e);
      var m :| m in nodes && m.id == e.a;
      var n :| n in nodes && n.id == e.b;
      VisibleNodesAre(nodes, hidden, m);
      VisibleNodesAre(nodes, hidden, n);
    }
  }

  /** A visible node that is no seed is an orphan once everything it is linked to is hidden. */
  lemma CutOffIsOrphan(nodes: seq<Node>, edges: seq<Edge>, hidden: set<NodeId>, v: Node)
    requires v.id !in Seeds(VisibleNodes(nodes, hidden))
    requires forall u {:trigger Adjacent(edges, u, v.id)} | Adjacent(edges, u, v.id) :: u in hidden
    ensures !SeedConnected(VisibleEdges(edges, hidden), Seeds(VisibleNodes(nodes, hidden)), v.id)
  {
    hide VisibleEdges, VisibleNodes, Seeds, Reaches;
    var edges', seeds := VisibleEdges(edges, hidden), Seeds(VisibleNodes(nodes, hidden));
    forall s, n: nat | s in seeds
      ensures !Reaches(edges', s, v.id, n)
    {
      if Reaches(edges', s, v.id, n) { CutOffWalk(edges, hidden, s, v.id, n); }
    }
  }

  lemma CutOffWalk(edges: seq<Edge>, hidden: set<NodeId>, s: NodeId, v: NodeId, n: nat)
    requires Reaches(VisibleEdges(edges, hidden), s, v, n)
    ensures s == v || exists u | u !in hidden :: Adjacent(edges, u, v)
  {
    hide VisibleEdges;
    var w :| IsWalkFromTo(VisibleEdges(edges, hidden), w, s, v) && |w| == n + 1;
    if n > 0 {
      StepOf(VisibleEdges(edges, hidden), w, n - 1);
      VisibleEdgesAre(edges, hidden, Edge(w[n - 1], v));
      VisibleEdgesAre(edges, hidden, Edge(v, w[n - 1]));
      assert w[n - 1] !in hidden && Adjacent(edges, w[n - 1], v);
    }
  }
}
