// The mutable state of the mesh view and the methods that update it in place. What the results
// mean is stated and proved in Graphs, HopRings, Between, Declutter, ForceGrid and Viewport.
module MeshSim {
  import opened Collections
  import opened Graphs
  import opened HopRings
  import opened Declutter
  import opened Between
  import opened ForceGrid
  import opened Viewport

  const DAMPING := 0.85
  const MAX_SPEED := 30.0
  const RESTING := 0.02
  const COOLING := 0.99

  class SimNode {
    const g: Node
    var x: real
    var y: real
    var vx: real
    var vy: real
    var ring: nat

    constructor (g: Node)
      ensures this.g == g && x == y == vx == vy == 0.0 && ring == 0
    {
      this.g := g;
      x, y, vx, vy, ring := 0.0, 0.0, 0.0, 0.0, 0;
    }
  }

  datatype SimEdge = SimEdge(s: SimNode, t: SimNode)

  function InfosOf(ns: seq<SimNode>): seq<Node> {
    seq(|ns|, i requires 0 <= i < |ns| => ns[i].g)
  }

  function LinksOf(es: seq<SimEdge>): seq<Edge> {
    seq(|es|, i requires 0 <= i < |es| => Edge(es[i].s.g.id, es[i].t.g.id))
  }

  function PositionsOf(ns: seq<SimNode>): seq<Pt>
    reads ns
  {
    seq(|ns|, i requires 0 <= i < |ns| reads ns => Pt(ns[i].x, ns[i].y))
  }

  /** Links whose ends are both in view; the others are dropped on load. */
  function Resolve(nodes: seq<Node>, links: seq<Edge>): seq<Edge> {
    if links == [] then []
    else
      var e := links[|links| - 1];
      Resolve(nodes, links[..|links| - 1]) + if HasId(nodes, e.a) && HasId(nodes, e.b) then [e] else []
  }

  /** Every node carries the ring that the map gives its id. */
  ghost predicate Carry(ns: seq<SimNode>, ring: map<NodeId, nat>)
    reads ns
  {
    forall n | n in ns :: n.g.id in ring && n.ring == ring[n.g.id]
  }

  class Sim {
    var nodes: seq<SimNode>
    var edges: seq<SimEdge>
    var maxRing: nat
    var hidden: set<NodeId>
    var highlight: Option<set<NodeId>>
    var view: View
    var w: real
    var h: real
    var alpha: real

    ghost predicate Valid()
      reads this
    {
      && (forall i, j | 0 <= i < j < |nodes| :: nodes[i] != nodes[j])
      && UniqueIds(InfosOf(nodes))
      && (forall e | e in edges :: e.s in nodes && e.t in nodes)
      && ZoomInRange(view)
    }

    constructor (w: real, h: real)
      ensures Valid() && nodes == [] && view == View(1.0, 0.0, 0.0) && alpha == 0.0
    {
      nodes, edges, maxRing, hidden, highlight := [], [], 0, {}, None;
      view := View(1.0, 0.0, 0.0);
      this.w, this.h, alpha := w, h, 0.0;
    }

    // Loading a graph.

    method Load(data: seq<Node>, links: seq<Edge>)
      requires UniqueIds(data) && Valid()
      modifies this`nodes, this`edges
      ensures Valid() && fresh(nodes)
      ensures InfosOf(nodes) == data && LinksOf(edges) == Resolve(data, links)
    {
      hide Resolve;
      var ns: seq<SimNode> := [];
      var byId: map<NodeId, SimNode> := map[];
      for i := 0 to |data|
        invariant |ns| == i && fresh(ns)
        invariant forall k | 0 <= k < i :: ns[k].g == data[k]
        invariant forall k, l | 0 <= k < l < i :: ns[k] != ns[l]
        invariant forall k | 0 <= k < i :: data[k].id in byId
        invariant forall id | id in byId :: byId[id] in ns && byId[id].g.id == id
      {
        var n := new SimNode(data[i]);
        ns := ns + [n];
        byId := byId[data[i].id := n];
      }
      assert InfosOf(ns) == data;
      var es: seq<SimEdge> := [];
      ResolveNone(data);
      for i := 0 to |links|
        invariant LinksOf(es) == Resolve(data, links[..i])
        invariant forall e | e in es :: e.s in ns && e.t in ns
      {
        var e := links[i];
        ResolveSnoc(data, links, i);
        KnownIds(data, ns, byId, e.a);
        KnownIds(data, ns, byId, e.b);
        if e.a in byId && e.b in byId {
          ghost var before := es;
          es := es + [SimEdge(byId[e.a], byId[e.b])];
          assert LinksOf(es) == LinksOf(before) + [e];
        }
      }
      assert links[..|links|] == links;
      nodes, edges := ns, es;
    }

    /** Search outwards from the seeds and give every node its ring. */
    method AssignRings() returns (ghost ring: map<NodeId, nat>)
      requires Valid()
      modifies this`maxRing, this`alpha, (set n | n in nodes)`ring
      ensures IsRingMap(InfosOf(nodes), LinksOf(edges), ring, maxRing)
      ensures Carry(nodes, ring) && alpha == 1.0
      ensures forall n | n in nodes :: n.g.id in ring && n.ring == ring[n.g.id]
    {
      hide IsSeedDistance, SeedConnected, IsRingMap, Seeds, UniqueIds, LinksOf, RingsFrom;
      var infos := InfosOf(nodes);
      var links := LinksOf(edges);
      var depth := HopDepths(links, Seeds(infos));
      var maxDepth := MaxDepth(depth);
      var orphanRing := maxDepth + 1;
      maxRing := orphanRing;
      ring := RingsFrom(infos, depth, orphanRing);
      RingsFromSearch(infos, links, depth, maxDepth);
      RingOf(infos, depth, orphanRing);
      for i := 0 to |nodes|
        invariant maxRing == orphanRing
        invariant forall k | 0 <= k < i :: nodes[k].g.id in ring && nodes[k].ring == ring[nodes[k].g.id]
      {
        var n := nodes[i];
        assert n.g in infos by { assert infos[i] == n.g; }
        n.ring := if n.g.id in depth then depth[n.g.id] else orphanRing;
      }
      alpha := 1.0;
    }

    // Declutter filters.

    method Declutter(maxHops: int, minLinks: int, hideMqtt: bool, ghost ring: map<NodeId, nat>)
      returns (visibleCount: int)
      requires Valid() && Carry(nodes, ring)
      modifies this`hidden
      ensures forall n | n in InfosOf(nodes) :: n.id in ring
      ensures hidden == HiddenIds(InfosOf(nodes), ring, maxHops, minLinks, hideMqtt)
      ensures forall n | n in InfosOf(nodes) :: n.id in hidden <==>
        !n.isGateway && ((maxHops < 7 && ring[n.id] > maxHops) || n.degree < minLinks || (hideMqtt && n.mqttOnly))
      ensures visibleCount == |VisibleNodes(InfosOf(nodes), hidden)|
    {
      hide HiddenIds;
      ghost var infos := InfosOf(nodes);
      NothingHidden(ring, maxHops, minLinks, hideMqtt);
      assert forall k | 0 <= k < |infos| :: infos[k].id in ring by {
        assert forall k | 0 <= k < |infos| :: nodes[k] in nodes;
      }
      var out := {};
      for i := 0 to |nodes|
        invariant out == HiddenIds(infos[..i], ring, maxHops, minLinks, hideMqtt)
      {
        var n := nodes[i];
        assert infos[..i + 1] == infos[..i] + [n.g];
        HiddenSnoc(infos[..i], n.g, ring, maxHops, minLinks, hideMqtt);
        if !n.g.isGateway {
          var tooFar := maxHops < ALL_HOPS && n.ring > maxHops;
          var tooFewLinks := n.g.degree < minLinks;
          var mqttOnly := hideMqtt && n.g.mqttOnly;
          if tooFar || tooFewLinks || mqttOnly {
            out := out + {n.g.id};
          }
        }
      }
      assert infos[..|infos|] == infos;
      hidden := out;
      HiddenAreNodes(infos, ring, maxHops, minLinks, hideMqtt);
      forall n | n in infos
        ensures n.id in hidden <==>
          !n.isGateway && ((maxHops < 7 && ring[n.id] > maxHops) || n.degree < minLinks || (hideMqtt && n.mqttOnly))
      {
        HiddenIff(infos, ring, maxHops, minLinks, hideMqtt, n);
      }
      CountsAddUp(infos, out);
      visibleCount := |nodes| - |out|;
    }

    // View changes.

    method OnWheel(px: real, py: real, zoomIn: bool)
      requires Valid()
      modifies this`view
      ensures Valid() && view == Wheel(old(view), px, py, zoomIn)
    {
      var factor := if zoomIn then 1.1 else 1.0 / 1.1;
      var nz := Max(MIN_ZOOM, Min(MAX_ZOOM, view.zoom * factor));
      view := view.(panX := AnchorPan(px, view.panX, view.zoom, nz));
      view := view.(panY := AnchorPan(py, view.panY, view.zoom, nz));
      view := view.(zoom := nz);
    }

    method OnPan(dx: real, dy: real)
      requires Valid()
      modifies this`view
      ensures Valid() && view == Pan(old(view), dx, dy)
    {
      view := view.(panX := view.panX + dx, panY := view.panY + dy);
    }

    method FitToNodes(list: seq<SimNode>)
      requires Valid()
      modifies this`view
      ensures Valid() && view == Fit(old(view), w, h, PositionsOf(list))
    {
      hide RawFit, CenterPan;
      if list == [] { return; }
      ghost var pts := PositionsOf(list);
      var minX, minY, maxX, maxY := list[0].x, list[0].y, list[0].x, list[0].y;
      for i := 1 to |list|
        invariant Box(minX, minY, maxX, maxY) == Bounds(pts[..i])
      {
        var n := list[i];
        assert pts[..i + 1][..i] == pts[..i];
        minX, minY, maxX, maxY := Min(minX, n.x), Min(minY, n.y), Max(maxX, n.x), Max(maxY, n.y);
      }
      assert pts[..|list|] == pts;
      var zoom := Min(MAX_ZOOM, Max(MIN_ZOOM, RawFit(Box(minX, minY, maxX, maxY), |list|, w, h)));
      view := View(zoom, CenterPan(w, (minX + maxX) / 2.0, zoom), CenterPan(h, (minY + maxY) / 2.0, zoom));
    }

    method FocusOn(c: SimNode)
      requires Valid()
      modifies this`view
      ensures Valid() && view == Focus(old(view), w, h, Pt(c.x, c.y))
    {
      view := view.(zoom := Max(view.zoom, FOCUS_ZOOM));
      view := view.(panX := CenterPan(w, c.x, view.zoom), panY := CenterPan(h, c.y, view.zoom));
    }

    // Focus and "between".

    method Find(id: NodeId) returns (n: SimNode?)
      ensures n != null ==> n in nodes && n.g.id == id
      ensures n == null ==> !HasId(InfosOf(nodes), id)
    {
      for i := 0 to |nodes|
        invariant forall k | 0 <= k < i :: nodes[k].g.id != id
      {
        if nodes[i].g.id == id { return nodes[i]; }
      }
      return null;
    }

    method Neighbourhood(c: NodeId) returns (near: set<NodeId>)
      ensures forall v :: v in near <==> v == c || Adjacent(LinksOf(edges), c, v)
    {
      var links := LinksOf(edges);
      near := {c};
      for i := 0 to |links|
        invariant forall v :: v in near <==> v == c || Adjacent(links[..i], c, v)
      {
        var e := links[i];
        assert links[..i + 1] == links[..i] + [e];
        if e.a == c { near := near + {e.b}; } else if e.b == c { near := near + {e.a}; }
      }
      assert links[..|links|] == links;
    }

    function NodesIn(ids: set<NodeId>): seq<SimNode>
      reads this
    {
      Picked(nodes, ids)
    }

    /** What the pickers select: nothing, one node, or two (0 stands for an empty picker). */
    method ShowSelection(focusId: NodeId, betweenId: NodeId) returns (note: Option<PathNote>)
      requires Valid()
      modifies this`highlight, this`view
      ensures Valid()
      ensures var infos, links := InfosOf(nodes), LinksOf(edges);
        var a, b := focusId != 0 && HasId(infos, focusId), betweenId != 0 && HasId(infos, betweenId);
        && (note.Some? <==> a && b)
        && (highlight == None <==> !a && !b)
        && (!a && !b ==> view == old(view))
        && (a != b ==> forall v :: v in highlight.value <==>
              var c := if a then focusId else betweenId; v == c || Adjacent(links, c, v))
        && (a && b ==> ShowsPath(links, focusId, betweenId, note.value, highlight.value)
                       && view == Fit(old(view), w, h, PositionsOf(NodesIn(highlight.value))))
      ensures var infos := InfosOf(nodes);
        var a, b := focusId != 0 && HasId(infos, focusId), betweenId != 0 && HasId(infos, betweenId);
        a != b ==> exists n | n in nodes ::
          n.g.id == (if a then focusId else betweenId) && view == Focus(old(view), w, h, Pt(n.x, n.y))
    {
      hide Connected, IsDistance, IsWalkFromTo, IsPathAndNeighbours, Fit, Focus;
      var a: SimNode? := null;
      var b: SimNode? := null;
      if focusId != 0 { a := Find(focusId); }
      if betweenId != 0 { b := Find(betweenId); }
      Listed(nodes, a);
      Listed(nodes, b);
      if a == null && b == null {
        highlight := None;
        return None;
      }
      if a != null && b != null {
        var pathNote, all := ShowBetween(LinksOf(edges), a.g.id, b.g.id);
        highlight := Some(all);
        FitToNodes(NodesIn(all));
        return Some(pathNote);
      }
      var c := if a != null then a else b;
      var near := Neighbourhood(c.g.id);
      highlight := Some(near);
      FocusOn(c);
      return None;
    }

    // The repulsion pass: positions stay put, so the grid stays valid while velocities change.

    method BuildGrid() returns (grid: Grid)
      ensures IsGrid(PositionsOf(nodes), grid, |nodes|)
    {
      hide IsGrid;
      ghost var pos := PositionsOf(nodes);
      grid := map[];
      EmptyGrid(pos);
      for i := 0 to |nodes|
        invariant IsGrid(pos, grid, i)
      {
        var n := nodes[i];
        PushKeepsGrid(pos, grid, i);
        grid := Push(grid, CellAt(n.x, n.y), i);
      }
    }

    method AddBucket(i: nat, bucket: seq<nat>, repel: (nat, nat, Pt) -> Pt, fx0: real, fy0: real, ghost seen: seq<nat>)
      returns (fx: real, fy: real)
      requires i < |nodes| && forall t | 0 <= t < |bucket| :: bucket[t] < |nodes|
      requires Pt(fx0, fy0) == Sum(Pull(PositionsOf(nodes), repel, i), seen)
      ensures Pt(fx, fy) == Sum(Pull(PositionsOf(nodes), repel, i), seen + NearIn(PositionsOf(nodes), i, bucket))
    {
      hide NearIn, Sum, D2;
      ghost var pos := PositionsOf(nodes);
      ghost var f := Pull(pos, repel, i);
      fx, fy := fx0, fy0;
      var n := nodes[i];
      EmptyBucket(pos, i, seen);
      for t := 0 to |bucket|
        invariant Pt(fx, fy) == Sum(f, seen + NearIn(pos, i, bucket[..t]))
      {
        var j := bucket[t];
        var m := nodes[j];
        assert bucket[..t + 1] == bucket[..t] + [j];
        VisitAdds(pos, f, i, seen, bucket[..t], j);
        assert pos[i] == Pt(n.x, n.y) && pos[j] == Pt(m.x, m.y);
        if j != i {
          if !(D2(Pt(n.x, n.y), Pt(m.x, m.y)) > CELL * CELL) {
            var push := repel(i, j, Pt(n.x - m.x, n.y - m.y));
            fx, fy := fx + push.x, fy + push.y;
          }
        }
      }
      assert bucket[..|bucket|] == bucket;
    }

    /** The pull of everything within reach of node `i`, by scanning the nine cells around it. */
    method ForceOn(i: nat, grid: Grid, repel: (nat, nat, Pt) -> Pt) returns (fx: real, fy: real)
      requires i < |nodes| && IsGrid(PositionsOf(nodes), grid, |nodes|)
      ensures Pt(fx, fy) == TotalPull(PositionsOf(nodes), repel, i)
    {
      hide Visits, IsGrid, NearIn, Sum, Around, Members, AllPairs, Pull, UniqueIds;
      ghost var pos := PositionsOf(nodes);
      ghost var f := Pull(pos, repel, i);
      var n := nodes[i];
      var c := CellAt(n.x, n.y);
      assert CellOf(pos[i]) == c;
      fx, fy := 0.0, 0.0;
      ghost var m := 0;
      NoVisitsYet(pos, f, i, c);
      for gx := c.0 - 1 to c.0 + 2
        invariant m == 3 * (gx - c.0 + 1)
        invariant Pt(fx, fy) == Sum(f, Visits(pos, i, Around(c, m), |pos|))
      {
        for gy := c.1 - 1 to c.1 + 2
          invariant m == 3 * (gx - c.0 + 1) + (gy - c.1 + 1)
          invariant Pt(fx, fy) == Sum(f, Visits(pos, i, Around(c, m), |pos|))
        {
          GridBucket(pos, grid, (gx, gy));
          VisitCell(pos, i, c, m, (gx, gy));
          fx, fy := AddBucket(i, BucketOf(grid, (gx, gy)), repel, fx, fy, Visits(pos, i, Around(c, m), |pos|));
          m := m + 1;
        }
      }
      GridScanIsAllPairs(pos, i);
      SumIgnoresOrder(f, Visits(pos, i, Around(c, 9), |pos|), AllPairs(pos, i, |pos|));
    }

    /**
     * New velocities from repulsion and the ring pull; `radial` stands for the pull of a node's
     * ring. Positions do not change, and the result is that of scanning all pairs.
     */
    method RepulsionPass(a: real, repel: (nat, nat, Pt) -> Pt, radial: (nat, Pt) -> Pt)
      requires Valid()
      modifies (set n | n in nodes)`vx, (set n | n in nodes)`vy
      ensures PositionsOf(nodes) == old(PositionsOf(nodes))
      ensures forall i | 0 <= i < |nodes| ::
        VelocityOf(nodes[i]) == Pushed(old(PositionsOf(nodes)), repel, radial, nodes[i].ring, a, i,
          old(VelocityOf(nodes[i])))
    {
      hide Pushed, IsGrid, TotalPull, Damped, UniqueIds;
      ghost var pos := PositionsOf(nodes);
      var grid := BuildGrid();
      for i := 0 to |nodes|
        invariant forall k | 0 <= k < i ::
          VelocityOf(nodes[k]) == Pushed(pos, repel, radial, nodes[k].ring, a, k, old(VelocityOf(nodes[k])))
        invariant forall k | i <= k < |nodes| :: VelocityOf(nodes[k]) == old(VelocityOf(nodes[k]))
      {
        SamePositions(nodes);
        var n := nodes[i];
        var fx, fy := ForceOn(i, grid, repel);
        var r := radial(n.ring, Pt(n.x, n.y));
        fx, fy := fx + r.x, fy + r.y;
        PushedIs(pos, repel, radial, n.ring, a, i, VelocityOf(n), Pt(fx, fy));
        n.vx := Damped(n.vx, fx, a);
        n.vy := Damped(n.vy, fy, a);
      }
      SamePositions(nodes);
    }

    method Nudge(x: SimNode, f: Pt, drag: SimNode?)
      modifies x`vx, x`vy
      ensures forall n: SimNode | n in nodes :: n.vx == old(n.vx) + Felt(x, f.x, drag, n)
      ensures forall n: SimNode | n in nodes :: n.vy == old(n.vy) + Felt(x, f.y, drag, n)
    {
      if x != drag { x.vx, x.vy := x.vx + f.x, x.vy + f.y; }
    }

    method Tug(e: SimEdge, f: Pt, drag: SimNode?)
      modifies e.s`vx, e.s`vy, e.t`vx, e.t`vy
      ensures forall n: SimNode | n in nodes :: n.vx == old(n.vx) + EdgePull(e, f, drag, n).x
      ensures forall n: SimNode | n in nodes :: n.vy == old(n.vy) + EdgePull(e, f, drag, n).y
    {
      hide EdgePull, Felt;
      Nudge(e.s, f, drag);
      Nudge(e.t, Pt(-f.x, -f.y), drag);
      forall n: SimNode | n in nodes
        ensures n.vx == old(n.vx) + EdgePull(e, f, drag, n).x && n.vy == old(n.vy) + EdgePull(e, f, drag, n).y
      {
        BothFelt(e, f, drag, n);
      }
    }

    /**
     * The springs along the links: each pulls its two ends towards or away from one another by the
     * same amount, the dragged node excepted. `spring` stands for the pull, given both positions.
     */
    method SpringPass(spring: (Pt, Pt) -> Pt, drag: SimNode?)
      requires Valid()
      modifies (set n | n in nodes)`vx, (set n | n in nodes)`vy
      ensures PositionsOf(nodes) == old(PositionsOf(nodes))
      ensures forall n | n in nodes ::
        VelocityOf(n) == Add(old(VelocityOf(n)), NetPull(edges, old(PullsOf(edges, spring)), drag, n))
      ensures drag == null ==> Momentum(VelocitiesOf(nodes)) == old(Momentum(VelocitiesOf(nodes)))
    {
      hide NetPull, EdgePull, Momentum;
      ghost var before := VelocitiesOf(nodes);
      ghost var u := PullsOf(edges, spring);
      NoPull(drag);
      for i := 0 to |edges|
        invariant forall n | n in nodes ::
          var f := NetPull(edges[..i], u[..i], drag, n); n.vx == old(n.vx) + f.x && n.vy == old(n.vy) + f.y
      {
        var e := edges[i];
        var f := spring(Pt(e.s.x, e.s.y), Pt(e.t.x, e.t.y));
        assert f == u[i];
        PullSnoc(edges, u, drag, i);
        Tug(e, f, drag);
      }
      assert edges[..|edges|] == edges && u[..|edges|] == u;
      SamePositions(nodes);
      if drag == null { MomentumStays(nodes, edges, u, before, VelocitiesOf(nodes)); }
    }

    /**
     * One step of the layout. Every node's next place and speed are those of an all-pairs simulation
     * in which all forces are taken from the positions before the step.
     */
    method Step(repel: (nat, nat, Pt) -> Pt, radial: (nat, Pt) -> Pt, spring: (Pt, Pt) -> Pt, drag: SimNode?)
      requires Valid()
      modifies this`alpha, (set n | n in nodes)`x, (set n | n in nodes)`y, (set n | n in nodes)`vx,
        (set n | n in nodes)`vy
      ensures old(alpha) < 0.02 ==>
        alpha == old(alpha) && PositionsOf(nodes) == old(PositionsOf(nodes)) && forall n | n in nodes ::
          n.vx == old(n.vx) && n.vy == old(n.vy)
      ensures old(alpha) >= 0.02 ==> alpha == old(alpha) * 0.99
      ensures old(alpha) >= 0.02 ==> forall i | 0 <= i < |nodes| ::
        var n, p := nodes[i], old(PositionsOf(nodes))[i];
        var push := Pushed(old(PositionsOf(nodes)), repel, radial, n.ring, old(alpha), i, old(VelocityOf(n)));
        var v := Add(push, NetPull(edges, old(PullsOf(edges, spring)), drag, n));
        if n == drag then VelocityOf(n) == v && Pt(n.x, n.y) == p
        else
          && n.vx == (if v.x > 30.0 then 30.0 else if v.x < -30.0 then -30.0 else v.x)
          && n.vy == (if v.y > 30.0 then 30.0 else if v.y < -30.0 then -30.0 else v.y)
          && n.x == p.x + n.vx && n.y == p.y + n.vy
    {
      hide Pushed, NetPull, UniqueIds;
      if alpha < RESTING { return; }
      ghost var u := PullsOf(edges, spring);
      RepulsionPass(alpha, repel, radial);
      assert PullsOf(edges, spring) == u;
      SpringPass(spring, drag);
      MovePass(drag);
      alpha := alpha * COOLING;
    }

    /** The last loop of a step: clamp the speed and move every node but the one being dragged. */
    method MovePass(drag: SimNode?)
      requires Valid()
      modifies (set n | n in nodes)`x, (set n | n in nodes)`y, (set n | n in nodes)`vx, (set n | n in nodes)`vy
      ensures forall n | n in nodes ::
        if n == drag then n.x == old(n.x) && n.y == old(n.y) && n.vx == old(n.vx) && n.vy == old(n.vy)
        else
          && n.vx == (if old(n.vx) > 30.0 then 30.0 else if old(n.vx) < -30.0 then -30.0 else old(n.vx))
          && n.vy == (if old(n.vy) > 30.0 then 30.0 else if old(n.vy) < -30.0 then -30.0 else old(n.vy))
          && n.x == old(n.x) + n.vx && n.y == old(n.y) + n.vy
    {
      for i := 0 to |nodes|
        invariant forall k | 0 <= k < i :: var n := nodes[k];
          if n == drag then n.x == old(n.x) && n.y == old(n.y) && n.vx == old(n.vx) && n.vy == old(n.vy)
          else
            && n.vx == Max(-MAX_SPEED, Min(MAX_SPEED, old(n.vx))) && n.vy == Max(-MAX_SPEED, Min(MAX_SPEED, old(n.vy)))
            && n.x == old(n.x) + n.vx && n.y == old(n.y) + n.vy
        invariant forall k | i <= k < |nodes| :: var n := nodes[k];
          n.x == old(n.x) && n.y == old(n.y) && n.vx == old(n.vx) && n.vy == old(n.vy)
      {
        var n := nodes[i];
        if n != drag {
          n.vx := Max(-MAX_SPEED, Min(MAX_SPEED, n.vx));
          n.vy := Max(-MAX_SPEED, Min(MAX_SPEED, n.vy));
          n.x := n.x + n.vx;
          n.y := n.y + n.vy;
        }
      }
    }
  }

  twostate lemma SamePositions(ns: seq<SimNode>)
    requires forall n | n in ns :: n.x == old(n.x) && n.y == old(n.y)
    ensures PositionsOf(ns) == old(PositionsOf(ns))
  {
  }

  function PullsOf(es: seq<SimEdge>, spring: (Pt, Pt) -> Pt): seq<Pt>
    reads set e | e in es :: e.s, set e | e in es :: e.t
  {
    seq(|es|, i requires 0 <= i < |es| reads set e | e in es :: e.s, set e | e in es :: e.t =>
      spring(Pt(es[i].s.x, es[i].s.y), Pt(es[i].t.x, es[i].t.y)))
  }

  function Felt(x: SimNode, d: real, drag: SimNode?, n: SimNode): real { if n == x && n != drag then d else 0.0 }

  /** What a link's pull does to a node. */
  function EdgePull(e: SimEdge, u: Pt, drag: SimNode?, n: SimNode): Pt {
    if n == drag then Pt(0.0, 0.0) else Add(Share(e.s, u, n), Share(e.t, Pt(-u.x, -u.y), n))
  }

  function Share(x: SimNode, u: Pt, n: SimNode): Pt { if n == x then u else Pt(0.0, 0.0) }

  lemma BothFelt(e: SimEdge, u: Pt, drag: SimNode?, n: SimNode)
    ensures EdgePull(e, u, drag, n).x == Felt(e.s, u.x, drag, n) + Felt(e.t, -u.x, drag, n)
    ensures EdgePull(e, u, drag, n).y == Felt(e.s, u.y, drag, n) + Felt(e.t, -u.y, drag, n)
  {
  }

  /** A link pulls its one end by `u` and its other by the opposite, and leaves the dragged node and all others be. */
  lemma LinkPulls(e: SimEdge, u: Pt, drag: SimNode?, n: SimNode)
    ensures EdgePull(e, u, drag, n) ==
            if n == drag || (n != e.s && n != e.t) || e.s == e.t then Pt(0.0, 0.0)
            else if n == e.s then u else Pt(-u.x, -u.y)
  {
  }

  /** What a node feels of all links: nothing of none, and of one more what that link gives it on top. */
  lemma NetPullAdds(es: seq<SimEdge>, us: seq<Pt>, e: SimEdge, u: Pt, drag: SimNode?, n: SimNode)
    requires |es| == |us|
    ensures NetPull([], [], drag, n) == Pt(0.0, 0.0)
    ensures var before, more := NetPull(es, us, drag, n), EdgePull(e, u, drag, n);
      NetPull(es + [e], us + [u], drag, n) == Pt(before.x + more.x, before.y + more.y)
  {
    hide EdgePull, NetPull;
    NoPull(drag);
    var k, ds, vs := |es|, es + [e], us + [u];
    assert ds[..k] == es && vs[..k] == us && ds[..k + 1] == ds && vs[..k + 1] == vs;
    PullSnoc(ds, vs, drag, k);
  }

  function NetPull(es: seq<SimEdge>, u: seq<Pt>, drag: SimNode?, n: SimNode): Pt
    requires |es| == |u|
  {
    if es == [] then Pt(0.0, 0.0)
    else Add(NetPull(es[..|es| - 1], u[..|es| - 1], drag, n), EdgePull(es[|es| - 1], u[|es| - 1], drag, n))
  }

  lemma NoPull(drag: SimNode?)
    ensures forall n :: NetPull([], [], drag, n) == Pt(0.0, 0.0)
  {
  }

  lemma {:induction false} PullSnoc(es: seq<SimEdge>, u: seq<Pt>, drag: SimNode?, i: nat)
    requires |es| == |u| && i < |es|
    ensures forall n :: NetPull(es[..i + 1], u[..i + 1], drag, n)
                        == Add(NetPull(es[..i], u[..i], drag, n), EdgePull(es[i], u[i], drag, n))
  {
    assert es[..i + 1][..i] == es[..i] && u[..i + 1][..i] == u[..i];
  }

  function Total(ns: seq<SimNode>, f: SimNode -> Pt): Pt {
    if ns == [] then Pt(0.0, 0.0) else Add(Total(ns[..|ns| - 1], f), f(ns[|ns| - 1]))
  }

  lemma {:induction false} TotalAdds(ns: seq<SimNode>, f: SimNode -> Pt, g: SimNode -> Pt, h: SimNode -> Pt)
    requires forall n :: h(n) == Add(f(n), g(n))
    ensures Total(ns, h) == Add(Total(ns, f), Total(ns, g))
  {
    if ns != [] { TotalAdds(ns[..|ns| - 1], f, g, h); }
  }

  function Shares(x: SimNode, u: Pt): SimNode -> Pt { (n: SimNode) => Share(x, u, n) }

  function Pulls(es: seq<SimEdge>, u: seq<Pt>): SimNode -> Pt
    requires |es| == |u|
  {
    (n: SimNode) => NetPull(es, u, null, n)
  }

  lemma {:induction false} TotalOfShare(ns: seq<SimNode>, x: SimNode, u: Pt)
    requires forall i, j | 0 <= i < j < |ns| :: ns[i] != ns[j]
    ensures Total(ns, Shares(x, u)) == if x in ns then u else Pt(0.0, 0.0)
  {
    if ns != [] {
      var rest, last := ns[..|ns| - 1], ns[|ns| - 1];
      assert last !in rest;
      assert x in ns <==> x in rest || x == last by { assert ns == rest + [last]; }
      TotalOfShare(rest, x, u);
    }
  }

  lemma {:induction false} TotalOfNothing(ns: seq<SimNode>)
    ensures Total(ns, Pulls([], [])) == Pt(0.0, 0.0)
  {
    if ns != [] { TotalOfNothing(ns[..|ns| - 1]); }
  }

  /** With nothing dragged the pulls of the springs cancel out: what they give to some nodes they take from others. */
  lemma {:induction false} SpringsConserveMomentum(ns: seq<SimNode>, es: seq<SimEdge>, u: seq<Pt>)
    requires |es| == |u| && (forall e | e in es :: e.s in ns && e.t in ns)
    requires forall i, j | 0 <= i < j < |ns| :: ns[i] != ns[j]
    ensures Total(ns, Pulls(es, u)) == Pt(0.0, 0.0)
  {
    hide Total, NetPull;
    if es == [] {
      TotalOfNothing(ns);
    } else {
      var k := |es| - 1;
      var e, v := es[k], u[k];
      assert e in es && forall d | d in es[..k] :: d in es;
      SpringsConserveMomentum(ns, es[..k], u[..k]);
      PullSnoc(es, u, null, k);
      assert es[..k + 1] == es && u[..k + 1] == u;
      var one := (n: SimNode) => EdgePull(e, v, null, n);
      TotalOfShare(ns, e.s, v);
      TotalOfShare(ns, e.t, Pt(-v.x, -v.y));
      TotalAdds(ns, Shares(e.s, v), Shares(e.t, Pt(-v.x, -v.y)), one);
      TotalAdds(ns, Pulls(es[..k], u[..k]), one, Pulls(es, u));
    }
  }

  function VelocityOf(n: SimNode): Pt
    reads n
  {
    Pt(n.vx, n.vy)
  }

  /** The speed of node `i` after the push of everything near it and the pull of its ring. */
  function Pushed(pos: seq<Pt>, repel: (nat, nat, Pt) -> Pt, radial: (nat, Pt) -> Pt, ring: nat, a: real, i: nat,
                  v: Pt): Pt
    requires i < |pos|
  {
    var f := Add(TotalPull(pos, repel, i), radial(ring, pos[i]));
    Pt(Damped(v.x, f.x, a), Damped(v.y, f.y, a))
  }

  lemma PushedIs(pos: seq<Pt>, repel: (nat, nat, Pt) -> Pt, radial: (nat, Pt) -> Pt, ring: nat, a: real, i: nat, v: Pt,
                 f: Pt)
    requires i < |pos| && f == Add(TotalPull(pos, repel, i), radial(ring, pos[i]))
    ensures Pushed(pos, repel, radial, ring, a, i, v) == Pt(Damped(v.x, f.x, a), Damped(v.y, f.y, a))
  {
  }

  function VelocitiesOf(ns: seq<SimNode>): seq<Pt>
    reads ns
  {
    seq(|ns|, i requires 0 <= i < |ns| reads ns => VelocityOf(ns[i]))
  }

  /** The sum of all velocities. */
  function Momentum(vs: seq<Pt>): Pt {
    if vs == [] then Pt(0.0, 0.0) else Add(Momentum(vs[..|vs| - 1]), vs[|vs| - 1])
  }

  lemma AddAdds(a: Pt, b: Pt, c: Pt, d: Pt)
    ensures Add(Add(a, b), Add(c, d)) == Add(Add(a, c), Add(b, d))
  {
  }

  lemma {:induction false} MomentumChanges(ns: seq<SimNode>, f: SimNode -> Pt, before: seq<Pt>, after: seq<Pt>)
    requires |ns| == |before| == |after| && forall i | 0 <= i < |ns| :: after[i] == Add(before[i], f(ns[i]))
    ensures Momentum(after) == Add(Momentum(before), Total(ns, f))
  {
    if ns != [] {
      hide Add;
      var k := |ns| - 1;
      assert forall i | 0 <= i < k :: after[..k][i] == after[i] && before[..k][i] == before[i] && ns[..k][i] == ns[i];
      MomentumChanges(ns[..k], f, before[..k], after[..k]);
      AddAdds(Momentum(before[..k]), Total(ns[..k], f), before[k], f(ns[k]));
    }
  }

  /** With nothing dragged the springs leave the sum of all velocities as it was. */
  lemma {:induction false} MomentumStays(ns: seq<SimNode>, es: seq<SimEdge>, u: seq<Pt>, before: seq<Pt>,
                                         after: seq<Pt>)
    requires |es| == |u| && (forall e | e in es :: e.s in ns && e.t in ns)
    requires forall i, j | 0 <= i < j < |ns| :: ns[i] != ns[j]
    requires |ns| == |before| == |after|
    requires forall i | 0 <= i < |ns| :: after[i] == Add(before[i], NetPull(es, u, null, ns[i]))
    ensures Momentum(after) == Momentum(before)
  {
    hide NetPull, Total, Momentum;
    SpringsConserveMomentum(ns, es, u);
    MomentumChanges(ns, Pulls(es, u), before, after);
  }

  function Damped(v: real, force: real, a: real): real { (v + force * a) * DAMPING }

  /** A node's speed gains the push of the others and the pull of its ring, scaled by alpha, and loses 15 percent. */
  lemma PushedSpeed(pos: seq<Pt>, repel: (nat, nat, Pt) -> Pt, radial: (nat, Pt) -> Pt, ring: nat, a: real, i: nat,
                    v: Pt)
    requires i < |pos|
    ensures var r, p := TotalPull(pos, repel, i), radial(ring, pos[i]);
      Pushed(pos, repel, radial, ring, a, i, v) == Pt((v.x + (r.x + p.x) * a) * 0.85, (v.y + (r.y + p.y) * a) * 0.85)
  {
  }

  function Picked(ns: seq<SimNode>, ids: set<NodeId>): seq<SimNode> {
    if ns == [] then []
    else
      var rest := Picked(ns[..|ns| - 1], ids);
      if ns[|ns| - 1].g.id in ids then rest + [ns[|ns| - 1]] else rest
  }

  ghost predicate ShowsPath(links: seq<Edge>, a: NodeId, b: NodeId, note: PathNote, highlight: set<NodeId>) {
    match note
    case NoPath => !Connected(links, a, b) && highlight == {a, b}
    case Hops(n) =>
      && IsDistance(links, a, b, n)
      && exists w :: IsWalkFromTo(links, w, a, b) && |w| == n + 1 && IsPathAndNeighbours(links, w, highlight)
  }

  lemma Listed(ns: seq<SimNode>, n: SimNode?)
    ensures n != null && n in ns ==> HasId(InfosOf(ns), n.g.id)
  {
    if n != null && n in ns {
      var k :| 0 <= k < |ns| && ns[k] == n;
      assert InfosOf(ns)[k] == n.g;
    }
  }

  lemma ResolveNone(nodes: seq<Node>)
    ensures Resolve(nodes, []) == []
  {
  }

  lemma ResolveSnoc(nodes: seq<Node>, links: seq<Edge>, i: nat)
    requires i < |links|
    ensures Resolve(nodes, links[..i + 1]) ==
            Resolve(nodes, links[..i]) + if HasId(nodes, links[i].a) && HasId(nodes, links[i].b) then [links[i]] else []
  {
    assert links[..i + 1][..i] == links[..i];
  }

  lemma KnownIds(data: seq<Node>, ns: seq<SimNode>, byId: map<NodeId, SimNode>, id: NodeId)
    requires |ns| == |data| && forall k | 0 <= k < |data| :: ns[k].g == data[k] && data[k].id in byId
    requires forall i | i in byId :: byId[i] in ns && byId[i].g.id == i
    ensures id in byId <==> HasId(data, id)
  {
    if id in byId {
      var k :| 0 <= k < |ns| && ns[k] == byId[id];
      assert data[k] in data;
    }
  }
}
