// The "between" search of the mesh view: a breadth-first search from A that stops at B, the walk
// back along the predecessor links, and the highlighted neighbourhood of the path.
module Between {
  import opened Collections
  import opened Graphs
  import opened HopRings

  /** The nodes on a walk together with everything linked to one of them. */
  ghost predicate IsPathAndNeighbours(edges: seq<Edge>, w: seq<NodeId>, highlight: set<NodeId>) {
    forall v :: v in highlight <==> v in w || exists p | p in w :: Adjacent(edges, p, v)
  }

  /** Predecessors lead one hop closer to A, and only A has none. */
  ghost predicate IsBackTrail(edges: seq<Edge>, a: NodeId, depth: map<NodeId, nat>, prev: map<NodeId, Option<NodeId>>) {
    && prev.Keys == depth.Keys
    && forall v {:trigger prev[v]} | v in prev ::
         match prev[v]
         case None => v == a && depth[v] == 0
         case Some(u) => u in depth && Adjacent(edges, u, v) && depth[v] == depth[u] + 1
  }

  lemma TrailGrows(edges: seq<Edge>, a: NodeId, depth: map<NodeId, nat>, prev: map<NodeId, Option<NodeId>>, u: NodeId,
                   v: NodeId)
    requires IsBackTrail(edges, a, depth, prev) && u in depth
    ensures v in prev <==> v in depth
    ensures v !in prev && Adjacent(edges, u, v) ==>
              IsBackTrail(edges, a, depth[v := depth[u] + 1], prev[v := Some(u)])
  {
    assert v in prev.Keys <==> v in depth.Keys;
  }

  lemma BeforeHeadIsSettled(edges: seq<Edge>, depth: map<NodeId, nat>, order: seq<NodeId>, qi: nat)
    requires Queued(depth, order) && Layered(depth, order, qi) && qi < |order|
    requires forall i | 0 <= i < qi :: Expanded(edges, depth, order[i])
    ensures order[qi] in depth && Settled(edges, depth, depth[order[qi]])
  {
    hide Adjacent;
    var d := depth[order[qi]];
    forall u, v | u in depth && depth[u] < d && Adjacent(edges, u, v)
      ensures v in depth && depth[v] <= depth[u] + 1
    {
      var i :| 0 <= i < |order| && order[i] == u;
      assert i < qi;
      assert Expanded(edges, depth, order[i]);
    }
  }

  /** Reaching B at the head of the queue settles its distance. */
  lemma HitIsDistance(edges: seq<Edge>, a: NodeId, depth: map<NodeId, nat>, order: seq<NodeId>, qi: nat)
    requires Searching(edges, [a], depth, order, qi) && qi < |order|
    requires forall i | 0 <= i < qi :: Expanded(edges, depth, order[i])
    ensures order[qi] in depth && IsDistance(edges, a, order[qi], depth[order[qi]])
  {
    hide Reaches, Adjacent, Settled, Layered, Queued;
    BeforeHeadIsSettled(edges, depth, order, qi);
    var b := order[qi];
    var d := depth[b];
    assert FromSeed(edges, [a], b, d);
    forall m: nat | m < d
      ensures !Reaches(edges, a, b, m)
    {
      if Reaches(edges, a, b, m) {
        assert a in [a];
        ReachBound(edges, depth, d, a, b, m);
      }
    }
  }

  /** A search that runs dry has found everything connected to A. */
  lemma DryIsDisconnected(edges: seq<Edge>, a: NodeId, depth: map<NodeId, nat>, order: seq<NodeId>, b: NodeId)
    requires Searching(edges, [a], depth, order, |order|)
    requires forall i | 0 <= i < |order| :: Expanded(edges, depth, order[i])
    requires b !in order
    ensures !Connected(edges, a, b)
  {
    hide Searching, Connected;
    Finished(edges, [a], depth, order);
    if Connected(edges, a, b) {
      assert a in [a];
      assert b in depth;
      Reached(edges, [a], depth, order, b);
    }
  }

  lemma Reached(edges: seq<Edge>, seeds: seq<NodeId>, depth: map<NodeId, nat>, order: seq<NodeId>, v: NodeId)
    requires Searching(edges, seeds, depth, order, |order|) && v in depth
    ensures v in order
  {
  }

  /**
   * The search proper. `order` is every node ever queued; the source's queue is what of it is left.
   */
  method FindPath(edges: seq<Edge>, a: NodeId, b: NodeId)
    returns (hit: bool, prev: map<NodeId, Option<NodeId>>, ghost depth: map<NodeId, nat>, adj: map<NodeId, seq<NodeId>>)
    ensures IsAdjacency(edges, adj)
    ensures IsBackTrail(edges, a, depth, prev)
    ensures hit ==> b in prev && IsDistance(edges, a, b, depth[b])
    ensures !hit ==> !Connected(edges, a, b)
  {
    hide Searching, Connected, IsDistance, Expanded;
    adj := BuildAdjacency(edges);
    prev := map[a := None];
    var q := [a];
    hit := false;
    depth := map[a := 0];
    ghost var order, qi := [a], 0;
    Started(edges, [a], depth, order);
    while q != []
      invariant qi <= |order| && q == order[qi..]
      invariant Searching(edges, [a], depth, order, qi)
      invariant forall i | 0 <= i < qi :: Expanded(edges, depth, order[i])
      invariant b !in order[..qi]
      invariant IsBackTrail(edges, a, depth, prev)
      decreases Unreached(edges, depth), |q|
    {
      var u := q[0];
      q := q[1..];
      Advance(edges, [a], depth, order, qi);
      if u == b {
        HitIsDistance(edges, a, depth, order, qi);
        return true, prev, depth, adj;
      }
      ghost var before, waiting := depth, order;
      prev, q, depth, order := Spread(edges, adj, a, u, prev, q, depth, order, qi);
      ExpandedStay(edges, before, depth, waiting, qi);
      Advance(edges, [a], depth, order, qi);
      qi := qi + 1;
    }
    DryIsDisconnected(edges, a, depth, order, b);
  }

  /** Queue the neighbours of `u` that have no predecessor yet. */
  method Spread(edges: seq<Edge>, adj: map<NodeId, seq<NodeId>>, ghost a: NodeId, u: NodeId,
                prev0: map<NodeId, Option<NodeId>>, q0: seq<NodeId>,
                ghost depth0: map<NodeId, nat>, ghost order0: seq<NodeId>, ghost qi: nat)
    returns (prev: map<NodeId, Option<NodeId>>, q: seq<NodeId>, ghost depth: map<NodeId, nat>, ghost order: seq<NodeId>)
    requires IsAdjacency(edges, adj)
    requires qi < |order0| && order0[qi] == u && q0 == order0[qi + 1..] && u in depth0
    requires Searching(edges, [a], depth0, order0, qi)
    requires IsBackTrail(edges, a, depth0, prev0)
    ensures Searching(edges, [a], depth, order, qi)
    ensures order0 <= order && q == order[qi + 1..]
    ensures Grown(depth0, depth) && Expanded(edges, depth, u)
    ensures IsBackTrail(edges, a, depth, prev)
    ensures (depth == depth0 && q == q0) || Unreached(edges, depth) < Unreached(edges, depth0)
  {
    hide Searching, IsBackTrail;
    prev, q, depth, order := prev0, q0, depth0, order0;
    var nbs := Neighbours(adj, u);
    ghost var newcomer := u;
    for j := 0 to |nbs|
      invariant order0 <= order && q == order[qi + 1..]
      invariant Grown(depth0, depth) && u in depth
      invariant Searching(edges, [a], depth, order, qi)
      invariant IsBackTrail(edges, a, depth, prev)
      invariant forall k | 0 <= k < j :: nbs[k] in depth && depth[nbs[k]] <= depth[u] + 1
      invariant (depth == depth0 && q == q0) || newcomer in Unreached(edges, depth0) - Unreached(edges, depth)
    {
      var v := nbs[j];
      assert Adjacent(edges, u, v);
      TrailGrows(edges, a, depth, prev, u, v);
      if v !in prev {
        Join(edges, [a], depth, order, qi, v);
        prev := prev[v := Some(u)];
        q := q + [v];
        depth := depth[v := depth[u] + 1];
        order := order + [v];
        newcomer := v;
      } else {
        Known(edges, [a], depth, order, qi, v);
      }
    }
    NeighboursReached(edges, adj, depth, u);
  }

  /** Follow the predecessors from B back to A, then add everything linked to the path. */
  method WalkBack(edges: seq<Edge>, adj: map<NodeId, seq<NodeId>>, ghost a: NodeId, b: NodeId,
                  prev: map<NodeId, Option<NodeId>>, ghost depth: map<NodeId, nat>)
    returns (hops: nat, highlight: set<NodeId>, ghost path: seq<NodeId>)
    requires IsAdjacency(edges, adj)
    requires IsBackTrail(edges, a, depth, prev) && b in prev
    ensures IsWalkFromTo(edges, path, a, b) && |path| == hops + 1 && hops == depth[b]
    ensures IsPathAndNeighbours(edges, path, highlight)
  {
    var cur := Some(b);
    var count := 0;
    highlight, path := {}, [];
    while cur.Some?
      invariant cur.Some? ==> cur.value in prev && count + depth[cur.value] == depth[b]
      invariant cur.Some? && path != [] ==> Adjacent(edges, cur.value, path[0])
      invariant path == [] ==> cur == Some(b)
      invariant path != [] ==> IsWalk(edges, path) && path[|path| - 1] == b
      invariant cur == None ==> path != [] && path[0] == a && count == depth[b] + 1
      invariant |path| == count
      invariant forall v :: v in highlight <==> v in path
      decreases if cur.Some? then depth[cur.value] + 1 else 0
    {
      var c := cur.value;
      highlight := highlight + {c};
      PrependWalk(edges, c, path);
      path := [c] + path;
      cur := prev[c];
      count := count + 1;
    }
    hops := count - 1;
    highlight := Spider(edges, adj, highlight);
  }

  lemma PrependWalk(edges: seq<Edge>, u: NodeId, w: seq<NodeId>)
    requires w != [] ==> IsWalk(edges, w) && Adjacent(edges, u, w[0])
    ensures IsWalk(edges, [u] + w)
  {
    var x := [u] + w;
    forall i, j | 0 <= i < |x| && 0 <= j < |x| && j == i + 1
      ensures Adjacent(edges, x[i], x[j])
    {
      if i > 0 { assert x[i] == w[i - 1] && x[j] == w[j - 1]; }
    }
  }

  method Spider(edges: seq<Edge>, adj: map<NodeId, seq<NodeId>>, path: set<NodeId>) returns (all: set<NodeId>)
    requires IsAdjacency(edges, adj)
    ensures forall v :: v in all <==> v in path || exists p | p in path :: Adjacent(edges, p, v)
  {
    all := path;
    var todo := path;
    while todo != {}
      invariant todo <= path
      invariant forall v :: v in all <==> v in path || exists p | p in path - todo :: Adjacent(edges, p, v)
      decreases todo
    {
      var p := AnyOf(todo);
      var nbs := Neighbours(adj, p);
      assert forall v :: v in nbs <==> Adjacent(edges, p, v);
      all := all + set v | v in nbs;
      todo := todo - {p};
    }
  }

  datatype PathNote = NoPath | Hops(n: nat)

  /** What the two pickers show when both ends are chosen. */
  method ShowBetween(edges: seq<Edge>, a: NodeId, b: NodeId) returns (note: PathNote, highlight: set<NodeId>)
    ensures note.NoPath? <==> !Connected(edges, a, b)
    ensures note.Hops? ==> IsDistance(edges, a, b, note.n)
    ensures note.Hops? ==> exists w ::
      IsWalkFromTo(edges, w, a, b) && |w| == note.n + 1 && IsPathAndNeighbours(edges, w, highlight)
    ensures note.NoPath? ==> highlight == {a, b}
  {
    var hit, prev, depth, adj := FindPath(edges, a, b);
    if hit {
      var hops, all, path := WalkBack(edges, adj, a, b, prev, depth);
      assert Connected(edges, a, b);
      return Hops(hops), all;
    }
    return NoPath, {a, b};
  }
}
