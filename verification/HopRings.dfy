// The hop-ring assignment of the mesh view: a breadth-first search from all gateways at once.
module HopRings {
  import opened Collections
  import opened Graphs

  datatype Node = Node(id: NodeId, isGateway: bool, degree: int, mqttOnly: bool)

  predicate UniqueIds(nodes: seq<Node>) {
    forall i, j | 0 <= i < j < |nodes| :: nodes[i].id != nodes[j].id
  }

  /** A further node keeps ids unique exactly when its own is new. */
  lemma UniqueIdsSnoc(nodes: seq<Node>, n: Node)
    ensures UniqueIds([]) && (UniqueIds(nodes + [n]) <==> UniqueIds(nodes) && !HasId(nodes, n.id))
  {
    var all := nodes + [n];
    assert all[|nodes|] == n && forall i | 0 <= i < |nodes| :: all[i] == nodes[i] && nodes[i] in nodes;
    if m :| m in nodes && m.id == n.id {
      var i :| 0 <= i < |nodes| && nodes[i] == m;
      assert all[i].id == all[|nodes|].id;
    }
  }

  /** Both ends of every link are nodes in view. */
  predicate Resolved(nodes: seq<Node>, edges: seq<Edge>) {
    forall e | e in edges :: HasId(nodes, e.a) && HasId(nodes, e.b)
  }

  predicate HasId(nodes: seq<Node>, id: NodeId) {
    exists n | n in nodes :: n.id == id
  }

  // Seeds: the gateways, else the node with the most links (the earliest one on a tie).

  function Gateways(nodes: seq<Node>): seq<NodeId> {
    if nodes == [] then []
    else (if nodes[0].isGateway then [nodes[0].id] else []) + Gateways(nodes[1..])
  }

  function MostConnected(nodes: seq<Node>): (best: Node)
    requires nodes != []
    ensures best in nodes && forall n | n in nodes :: n.degree <= best.degree
  {
    if |nodes| == 1 then nodes[0]
    else
      var a, b := MostConnected(nodes[..|nodes| - 1]), nodes[|nodes| - 1];
      assert nodes == nodes[..|nodes| - 1] + [b];
      if b.degree > a.degree then b else a
  }

  function Seeds(nodes: seq<Node>): seq<NodeId> {
    if Gateways(nodes) == [] && nodes != [] then [MostConnected(nodes).id] else Gateways(nodes)
  }

  lemma {:induction false} GatewaysAre(nodes: seq<Node>, id: NodeId)
    ensures id in Gateways(nodes) <==> exists n | n in nodes :: n.isGateway && n.id == id
  {
    if nodes != [] {
      GatewaysAre(nodes[1..], id);
      assert forall n :: n in nodes <==> n == nodes[0] || n in nodes[1..];
    }
  }

  lemma {:induction false} MostConnectedIsFirst(nodes: seq<Node>) returns (k: nat)
    requires nodes != []
    ensures k < |nodes| && nodes[k] == MostConnected(nodes)
    ensures forall j | 0 <= j < k :: nodes[j].degree < nodes[k].degree
  {
    var rest, last := nodes[..|nodes| - 1], nodes[|nodes| - 1];
    if |nodes| == 1 {
      k := 0;
    } else {
      k := MostConnectedIsFirst(rest);
      if last.degree > rest[k].degree {
        k := |nodes| - 1;
        assert forall j | 0 <= j < k :: rest[j] in rest;
      }
    }
  }

  /** The search starts from all gateways; without any, from the first of the nodes with the most links. */
  lemma SeedsAre(nodes: seq<Node>, id: NodeId)
    ensures (exists n | n in nodes :: n.isGateway) ==>
              (id in Seeds(nodes) <==> exists n | n in nodes :: n.isGateway && n.id == id)
    ensures nodes != [] && (forall n | n in nodes :: !n.isGateway) ==>
              exists k | 0 <= k < |nodes| ::
                && Seeds(nodes) == [nodes[k].id] && (forall n | n in nodes :: n.degree <= nodes[k].degree)
                && forall j | 0 <= j < k :: nodes[j].degree < nodes[k].degree
  {
    GatewaysAre(nodes, id);
    if n :| n in nodes && n.isGateway {
      GatewaysAre(nodes, n.id);
    } else if nodes != [] {
      FirstIsIn(Gateways(nodes));
      if Gateways(nodes) != [] { GatewaysAre(nodes, Gateways(nodes)[0]); }
      var k := MostConnectedIsFirst(nodes);
    }
  }

  lemma SeedsAreNodes(nodes: seq<Node>)
    ensures forall s | s in Seeds(nodes) :: HasId(nodes, s)
    ensures Seeds(nodes) == [] <==> nodes == []
  {
    forall s | s in Gateways(nodes)
      ensures HasId(nodes, s)
    {
      GatewaysAre(nodes, s);
    }
  }

  // What a ring assignment must be.

  ghost predicate IsMaxDepth(edges: seq<Edge>, seeds: seq<NodeId>, maxDepth: nat) {
    && (seeds != [] ==> exists v :: IsSeedDistance(edges, seeds, v, maxDepth))
    && (forall v, n: nat | IsSeedDistance(edges, seeds, v, n) :: n <= maxDepth)
    && (seeds == [] ==> maxDepth == 0)
  }

  /** The fewest hops to a gateway, and one ring beyond the deepest for what no gateway reaches. */
  ghost predicate IsRing(edges: seq<Edge>, seeds: seq<NodeId>, orphanRing: nat, v: NodeId, ring: nat) {
    if SeedConnected(edges, seeds, v)
    then IsSeedDistance(edges, seeds, v, ring)
    else ring == orphanRing
  }

  // The search. The queue lists the nodes reached so far in the order they were reached;
  // those before `qi` have been expanded.

  ghost predicate Queued(depth: map<NodeId, nat>, queue: seq<NodeId>) {
    && (forall i | 0 <= i < |queue| :: queue[i] in depth)
    && (forall v | v in depth :: v in queue)
  }

  /** The queue is ordered by depth and spans at most two depths from position `qi` on. */
  ghost predicate Layered(depth: map<NodeId, nat>, queue: seq<NodeId>, qi: nat)
    requires Queued(depth, queue)
  {
    && (forall i, j | 0 <= i <= j < |queue| :: depth[queue[i]] <= depth[queue[j]])
    && (forall j | qi < j < |queue| :: depth[queue[j]] <= depth[queue[qi]] + 1)
  }

  ghost predicate FromSeed(edges: seq<Edge>, seeds: seq<NodeId>, v: NodeId, n: nat) {
    exists s | s in seeds :: Reaches(edges, s, v, n)
  }

  ghost predicate Grounded(edges: seq<Edge>, seeds: seq<NodeId>, depth: map<NodeId, nat>) {
    && (forall s | s in seeds :: s in depth && depth[s] == 0)
    && (forall v {:trigger depth[v]} | v in depth :: FromSeed(edges, seeds, v, depth[v]))
  }

  ghost predicate Expanded(edges: seq<Edge>, depth: map<NodeId, nat>, u: NodeId) {
    u in depth && forall v {:trigger Adjacent(edges, u, v)} | Adjacent(edges, u, v) ::
      v in depth && depth[v] <= depth[u] + 1
  }

  lemma AllExpandedIsSettled(edges: seq<Edge>, depth: map<NodeId, nat>, n: nat)
    requires forall u {:trigger Expanded(edges, depth, u)} | u in depth :: Expanded(edges, depth, u)
    ensures Settled(edges, depth, n)
  {
    forall u, x | u in depth && depth[u] < n && Adjacent(edges, u, x)
      ensures x in depth && depth[x] <= depth[u] + 1
    {
      assert Expanded(edges, depth, u);
    }
  }

  /** The depth a finished search gives to a node is its exact seed distance. */
  lemma DepthIsExact(edges: seq<Edge>, seeds: seq<NodeId>, depth: map<NodeId, nat>, v: NodeId)
    requires Grounded(edges, seeds, depth)
    requires forall u {:trigger Expanded(edges, depth, u)} | u in depth :: Expanded(edges, depth, u)
    ensures v in depth <==> SeedConnected(edges, seeds, v)
    ensures v in depth ==> IsSeedDistance(edges, seeds, v, depth[v])
  {
    forall s, n: nat | s in seeds && Reaches(edges, s, v, n)
      ensures v in depth && depth[v] <= n
    {
      AllExpandedIsSettled(edges, depth, n);
      ReachBound(edges, depth, n, s, v, n);
    }
    if v in depth {
      var s :| s in seeds && Reaches(edges, s, v, depth[v]);
      assert Connected(edges, s, v);
    }
  }

  ghost function Ends(edges: seq<Edge>): set<NodeId> {
    (set e | e in edges :: e.a) + (set e | e in edges :: e.b)
  }

  ghost function Unreached(edges: seq<Edge>, depth: map<NodeId, nat>): set<NodeId> {
    Ends(edges) - depth.Keys
  }

  /** Everything before `queue[qi]` has been taken off the queue, nothing after it has. */
  ghost predicate Searching(edges: seq<Edge>, seeds: seq<NodeId>, depth: map<NodeId, nat>, queue: seq<NodeId>,
                            qi: nat) {
    && qi <= |queue|
    && Queued(depth, queue)
    && Layered(depth, queue, qi)
    && Grounded(edges, seeds, depth)
  }

  lemma Started(edges: seq<Edge>, seeds: seq<NodeId>, depth: map<NodeId, nat>, queue: seq<NodeId>)
    requires Queued(depth, queue)
    requires forall s | s in seeds :: s in depth
    requires forall v | v in depth :: v in seeds && depth[v] == 0
    ensures Searching(edges, seeds, depth, queue, 0)
  {
    forall v | v in depth
      ensures FromSeed(edges, seeds, v, depth[v])
    {
      ReachSelf(edges, v);
    }
  }

  lemma Advance(edges: seq<Edge>, seeds: seq<NodeId>, depth: map<NodeId, nat>, queue: seq<NodeId>, qi: nat)
    requires Searching(edges, seeds, depth, queue, qi) && qi < |queue|
    ensures queue[qi] in depth
    ensures Searching(edges, seeds, depth, queue, qi + 1)
  {
  }

  lemma JoinLayers(depth: map<NodeId, nat>, queue: seq<NodeId>, qi: nat, nb: NodeId)
    requires Queued(depth, queue) && Layered(depth, queue, qi) && qi < |queue| && nb !in depth
    ensures queue[qi] in depth
    ensures var depth' := depth[nb := depth[queue[qi]] + 1];
      Queued(depth', queue + [nb]) && Layered(depth', queue + [nb], qi)
  {
    var depth', queue' := depth[nb := depth[queue[qi]] + 1], queue + [nb];
    forall i | 0 <= i < |queue|
      ensures queue'[i] == queue[i] && depth'[queue'[i]] == depth[queue[i]] <= depth[queue[qi]] + 1
    {
      if i > qi { assert depth[queue[i]] <= depth[queue[qi]] + 1; } else { assert depth[queue[i]] <= depth[queue[qi]]; }
    }
  }

  lemma JoinGrounded(edges: seq<Edge>, seeds: seq<NodeId>, depth: map<NodeId, nat>, u: NodeId, nb: NodeId)
    requires Grounded(edges, seeds, depth) && u in depth && nb !in depth && Adjacent(edges, u, nb)
    ensures Grounded(edges, seeds, depth[nb := depth[u] + 1])
  {
    hide Adjacent, Reaches;
    assert FromSeed(edges, seeds, u, depth[u]);
    var s :| s in seeds && Reaches(edges, s, u, depth[u]);
    ReachStep(edges, s, u, nb, depth[u]);
    assert FromSeed(edges, seeds, nb, depth[u] + 1);
  }

  /** A new neighbour of the node being expanded joins the queue one hop deeper. */
  lemma Join(edges: seq<Edge>, seeds: seq<NodeId>, depth: map<NodeId, nat>, queue: seq<NodeId>, qi: nat, nb: NodeId)
    requires Searching(edges, seeds, depth, queue, qi) && qi < |queue|
    requires nb !in depth && Adjacent(edges, queue[qi], nb)
    ensures queue[qi] in depth
    ensures Searching(edges, seeds, depth[nb := depth[queue[qi]] + 1], queue + [nb], qi)
  {
    hide Layered, Grounded, Adjacent;
    JoinLayers(depth, queue, qi, nb);
    JoinGrounded(edges, seeds, depth, queue[qi], nb);
  }

  /** A known neighbour already lies no deeper than that. */
  lemma Known(edges: seq<Edge>, seeds: seq<NodeId>, depth: map<NodeId, nat>, queue: seq<NodeId>, qi: nat, nb: NodeId)
    requires Searching(edges, seeds, depth, queue, qi) && qi < |queue|
    requires nb in depth
    ensures queue[qi] in depth && depth[nb] <= depth[queue[qi]] + 1
  {
    var i :| 0 <= i < |queue| && queue[i] == nb;
  }

  /** What a later, larger search still says about nodes expanded earlier. */
  ghost predicate Grown(before: map<NodeId, nat>, after: map<NodeId, nat>) {
    forall v {:trigger v in before} | v in before :: v in after && after[v] == before[v]
  }

  lemma ExpandedStay(edges: seq<Edge>, before: map<NodeId, nat>, after: map<NodeId, nat>, queue: seq<NodeId>, qi: nat)
    requires qi <= |queue| && Grown(before, after)
    requires forall i | 0 <= i < qi :: Expanded(edges, before, queue[i])
    ensures forall i | 0 <= i < qi :: Expanded(edges, after, queue[i])
  {
  }

  lemma NeighboursReached(edges: seq<Edge>, adj: map<NodeId, seq<NodeId>>, depth: map<NodeId, nat>, u: NodeId)
    requires IsAdjacency(edges, adj) && u in depth
    requires var nbs := Neighbours(adj, u);
      forall k | 0 <= k < |nbs| :: nbs[k] in depth && depth[nbs[k]] <= depth[u] + 1
    ensures Expanded(edges, depth, u)
  {
    forall v | Adjacent(edges, u, v)
      ensures v in depth && depth[v] <= depth[u] + 1
    {
      assert v in Neighbours(adj, u);
    }
  }

  lemma Finished(edges: seq<Edge>, seeds: seq<NodeId>, depth: map<NodeId, nat>, queue: seq<NodeId>)
    requires Searching(edges, seeds, depth, queue, |queue|)
    requires forall i | 0 <= i < |queue| :: Expanded(edges, depth, queue[i])
    ensures forall v :: v in depth <==> SeedConnected(edges, seeds, v)
    ensures forall v | v in depth :: IsSeedDistance(edges, seeds, v, depth[v])
  {
    assert Grounded(edges, seeds, depth);
    forall u | u in depth
      ensures Expanded(edges, depth, u)
    {
      var i :| 0 <= i < |queue| && queue[i] == u;
    }
    forall v
      ensures v in depth <==> SeedConnected(edges, seeds, v)
      ensures v in depth ==> IsSeedDistance(edges, seeds, v, depth[v])
    {
      DepthIsExact(edges, seeds, depth, v);
    }
  }

  method HopDepths(edges: seq<Edge>, seeds: seq<NodeId>) returns (depth: map<NodeId, nat>)
    ensures forall v :: v in depth <==> SeedConnected(edges, seeds, v)
    ensures forall v | v in depth :: IsSeedDistance(edges, seeds, v, depth[v])
  {
    hide Searching, Expanded, SeedConnected, IsSeedDistance;
    var adj := BuildAdjacency(edges);
    depth := map[];
    var queue: seq<NodeId> := [];
    for k := 0 to |seeds|
      invariant Queued(depth, queue)
      invariant forall s | s in seeds[..k] :: s in depth
      invariant forall v | v in depth :: v in seeds && depth[v] == 0
    {
      depth := depth[seeds[k] := 0];
      queue := queue + [seeds[k]];
    }
    Started(edges, seeds, depth, queue);
    var qi := 0;
    while qi < |queue|
      invariant qi <= |queue| && Searching(edges, seeds, depth, queue, qi)
      invariant forall i | 0 <= i < qi :: Expanded(edges, depth, queue[i])
      decreases Unreached(edges, depth), |queue| - qi
    {
      Advance(edges, seeds, depth, queue, qi);
      ghost var before, waiting := depth, queue;
      depth, queue := Expand(edges, adj, seeds, depth, queue, qi);
      ExpandedStay(edges, before, depth, waiting, qi);
      Advance(edges, seeds, depth, queue, qi);
      qi := qi + 1;
    }
    Finished(edges, seeds, depth, queue);
  }

  /** One pass of the queue loop: reach the unreached neighbours of `queue[qi]`. */
  method Expand(edges: seq<Edge>, adj: map<NodeId, seq<NodeId>>, ghost seeds: seq<NodeId>,
                depth0: map<NodeId, nat>, queue0: seq<NodeId>, qi: nat)
    returns (depth: map<NodeId, nat>, queue: seq<NodeId>)
    requires IsAdjacency(edges, adj)
    requires qi < |queue0| && queue0[qi] in depth0 && Searching(edges, seeds, depth0, queue0, qi)
    ensures Searching(edges, seeds, depth, queue, qi)
    ensures queue0 <= queue && Grown(depth0, depth) && Expanded(edges, depth, queue0[qi])
    ensures (depth == depth0 && queue == queue0) || Unreached(edges, depth) < Unreached(edges, depth0)
  {
    hide Searching;
    depth, queue := depth0, queue0;
    var id := queue[qi];
    var nbs := Neighbours(adj, id);
    ghost var newcomer := id;
    for j := 0 to |nbs|
      invariant queue0 <= queue && Grown(depth0, depth) && id in depth
      invariant Searching(edges, seeds, depth, queue, qi)
      invariant forall k | 0 <= k < j :: nbs[k] in depth && depth[nbs[k]] <= depth[id] + 1
      invariant (depth == depth0 && queue == queue0) || newcomer in Unreached(edges, depth0) - Unreached(edges, depth)
    {
      var nb := nbs[j];
      assert Adjacent(edges, id, nb);
      if nb !in depth {
        Join(edges, seeds, depth, queue, qi, nb);
        depth := depth[nb := depth[id] + 1];
        queue := queue + [nb];
        newcomer := nb;
      } else {
        Known(edges, seeds, depth, queue, qi, nb);
      }
    }
    NeighboursReached(edges, adj, depth, id);
  }

  /** The largest depth found, 0 when nothing was reached. */
  method MaxDepth(depth: map<NodeId, nat>) returns (maxDepth: nat)
    ensures forall v | v in depth :: depth[v] <= maxDepth
    ensures if depth.Keys == {} then maxDepth == 0 else exists v | v in depth :: depth[v] == maxDepth
  {
    maxDepth := 0;
    var todo := depth.Keys;
    while todo != {}
      invariant todo <= depth.Keys
      invariant forall v | v in depth && v !in todo :: depth[v] <= maxDepth
      invariant maxDepth == 0 || exists v | v in depth :: depth[v] == maxDepth
      decreases todo
    {
      var v := AnyOf(todo);
      if depth[v] > maxDepth { maxDepth := depth[v]; }
      todo := todo - {v};
    }
    if depth.Keys != {} {
      ghost var v := HasElement(depth.Keys);
      assert depth[v] <= maxDepth;
    }
  }

  // Laws of rings.

  /** The ring of a node is the smallest distance the path search finds from any seed. */
  lemma RingIsLeastDistance(edges: seq<Edge>, seeds: seq<NodeId>, v: NodeId, n: nat)
    ensures IsSeedDistance(edges, seeds, v, n) <==>
            (exists s | s in seeds :: IsDistance(edges, s, v, n))
            && (forall s, m: nat | s in seeds && IsDistance(edges, s, v, m) :: n <= m)
  {
    hide Reaches;
    forall s, m: nat | s in seeds && Reaches(edges, s, v, m)
      ensures exists d: nat | d <= m :: IsDistance(edges, s, v, d)
    {
      var d := DistanceExists(edges, s, v, m);
    }
  }

  /** No ring between the core and the deepest ring is empty. */
  lemma RingsAreFilled(edges: seq<Edge>, seeds: seq<NodeId>, v: NodeId, n: nat, r: nat) returns (u: NodeId)
    requires IsSeedDistance(edges, seeds, v, n) && r <= n
    ensures IsSeedDistance(edges, seeds, u, r)
    ensures u == v || Adjacent(edges, u, u) || exists x :: Adjacent(edges, u, x)
  {
    var s :| s in seeds && Reaches(edges, s, v, n);
    var w :| IsWalkFromTo(edges, w, s, v) && |w| == n + 1;
    u := w[r];
    WalkPrefix(edges, w, r);
    forall t, m: nat | t in seeds && Reaches(edges, t, u, m)
      ensures r <= m
    {
      JoinWalks(edges, t, w, r, m);
    }
    if r < n { assert Adjacent(edges, w[r], w[r + 1]); }
  }

  lemma {:induction false} JoinWalks(edges: seq<Edge>, t: NodeId, w: seq<NodeId>, r: nat, m: nat)
    requires IsWalk(edges, w) && r < |w| && Reaches(edges, t, w[r], m)
    ensures Reaches(edges, t, w[|w| - 1], m + (|w| - 1 - r))
    decreases |w| - r
  {
    if r < |w| - 1 {
      assert Adjacent(edges, w[r], w[r + 1]);
      ReachStep(edges, t, w[r], w[r + 1], m);
      JoinWalks(edges, t, w, r + 1, m + 1);
    }
  }

  /** Linked nodes are reached together and lie at most one ring apart. */
  lemma LinkedRingsAreClose(edges: seq<Edge>, seeds: seq<NodeId>, u: NodeId, v: NodeId, m: nat, n: nat)
    requires Adjacent(edges, u, v)
    ensures SeedConnected(edges, seeds, u) ==> SeedConnected(edges, seeds, v)
    ensures IsSeedDistance(edges, seeds, u, m) && IsSeedDistance(edges, seeds, v, n) ==> -1 <= m - n <= 1
  {
    hide Reaches;
    assert Adjacent(edges, v, u);
    forall s, k: nat | s in seeds && Reaches(edges, s, u, k)
      ensures Reaches(edges, s, v, k + 1) && Connected(edges, s, v)
    {
      ReachStep(edges, s, u, v, k);
    }
    forall s, k: nat | s in seeds && Reaches(edges, s, v, k)
      ensures Reaches(edges, s, u, k + 1)
    {
      ReachStep(edges, s, v, u, k);
    }
  }

  lemma SeedDistanceUnique(edges: seq<Edge>, seeds: seq<NodeId>, v: NodeId, m: nat, n: nat)
    requires IsSeedDistance(edges, seeds, v, m) && IsSeedDistance(edges, seeds, v, n)
    ensures m == n
  {
  }

  lemma ReachedIsNode(nodes: seq<Node>, edges: seq<Edge>, s: NodeId, v: NodeId, n: nat)
    requires Resolved(nodes, edges) && HasId(nodes, s) && Reaches(edges, s, v, n)
    ensures HasId(nodes, v)
  {
    var w :| IsWalkFromTo(edges, w, s, v) && |w| == n + 1;
    if n > 0 { assert Adjacent(edges, w[n - 1], w[n]); }
  }

  // The assignment as a whole: `ring` gives every node its ring, orphans park one past the deepest.

  ghost predicate IsRingMap(nodes: seq<Node>, edges: seq<Edge>, ring: map<NodeId, nat>, orphanRing: nat) {
    && orphanRing > 0 && IsMaxDepth(edges, Seeds(nodes), orphanRing - 1)
    && forall n | n in nodes :: n.id in ring && IsRing(edges, Seeds(nodes), orphanRing, n.id, ring[n.id])
  }

  function RingsFrom(nodes: seq<Node>, depth: map<NodeId, nat>, orphanRing: nat): map<NodeId, nat> {
    map n | n in nodes :: n.id := if n.id in depth then depth[n.id] else orphanRing
  }

  lemma RingOf(nodes: seq<Node>, depth: map<NodeId, nat>, orphanRing: nat)
    ensures forall n | n in nodes :: n.id in RingsFrom(nodes, depth, orphanRing)
    ensures forall n | n in nodes ::
      RingsFrom(nodes, depth, orphanRing)[n.id] == if n.id in depth then depth[n.id] else orphanRing
  {
  }

  lemma SeedIsReached(edges: seq<Edge>, seeds: seq<NodeId>, s: NodeId)
    requires s in seeds
    ensures IsSeedDistance(edges, seeds, s, 0) && SeedConnected(edges, seeds, s)
  {
    ReachSelf(edges, s);
    assert Connected(edges, s, s);
  }

  lemma DeepestRing(edges: seq<Edge>, seeds: seq<NodeId>, depth: map<NodeId, nat>, maxDepth: nat)
    requires forall v :: v in depth <==> SeedConnected(edges, seeds, v)
    requires forall v | v in depth :: IsSeedDistance(edges, seeds, v, depth[v])
    requires forall v | v in depth :: depth[v] <= maxDepth
    requires if depth.Keys == {} then maxDepth == 0 else exists v | v in depth :: depth[v] == maxDepth
    ensures IsMaxDepth(edges, seeds, maxDepth)
  {
    if seeds != [] {
      SeedIsReached(edges, seeds, seeds[0]);
      assert seeds[0] in depth.Keys;
    }
    forall v, n: nat | IsSeedDistance(edges, seeds, v, n)
      ensures n <= maxDepth
    {
      var s :| s in seeds && Reaches(edges, s, v, n);
      assert Connected(edges, s, v);
      assert v in depth && IsSeedDistance(edges, seeds, v, depth[v]);
      var t :| t in seeds && Reaches(edges, t, v, depth[v]);
    }
    if seeds == [] && depth.Keys != {} {
      var v := HasElement(depth.Keys);
      assert false;
    }
  }

  /** Reading the rings off a finished search. */
  lemma RingsFromSearch(nodes: seq<Node>, edges: seq<Edge>, depth: map<NodeId, nat>, maxDepth: nat)
    requires forall v :: v in depth <==> SeedConnected(edges, Seeds(nodes), v)
    requires forall v | v in depth :: IsSeedDistance(edges, Seeds(nodes), v, depth[v])
    requires forall v | v in depth :: depth[v] <= maxDepth
    requires if depth.Keys == {} then maxDepth == 0 else exists v | v in depth :: depth[v] == maxDepth
    ensures IsRingMap(nodes, edges, RingsFrom(nodes, depth, maxDepth + 1), maxDepth + 1)
  {
    DeepestRing(edges, Seeds(nodes), depth, maxDepth);
    hide IsSeedDistance, SeedConnected, IsMaxDepth, Seeds;
  }
}
