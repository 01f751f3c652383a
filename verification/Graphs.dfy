// Undirected graphs as the browser receives them: a list of links between node ids.
// Distance is defined by walks alone, so it serves as the yardstick for both searches of the
// mesh view (hop rings and the "between" path).
module Graphs {
  type NodeId = int

  datatype Edge = Edge(a: NodeId, b: NodeId)

  predicate Adjacent(edges: seq<Edge>, u: NodeId, v: NodeId) {
    Edge(u, v) in edges || Edge(v, u) in edges
  }

  ghost predicate IsWalk(edges: seq<Edge>, w: seq<NodeId>) {
    && |w| > 0
    && forall i, j | 0 <= i < |w| && 0 <= j < |w| && j == i + 1 :: Adjacent(edges, w[i], w[j])
  }

  ghost predicate IsWalkFromTo(edges: seq<Edge>, w: seq<NodeId>, a: NodeId, b: NodeId) {
    IsWalk(edges, w) && w[0] == a && w[|w| - 1] == b
  }

  /** Some walk of exactly `n` hops leads from `a` to `b`. */
  ghost predicate Reaches(edges: seq<Edge>, a: NodeId, b: NodeId, n: nat) {
    exists w :: IsWalkFromTo(edges, w, a, b) && |w| == n + 1
  }

  ghost predicate Connected(edges: seq<Edge>, a: NodeId, b: NodeId) {
    exists n: nat :: Reaches(edges, a, b, n)
  }

  ghost predicate IsDistance(edges: seq<Edge>, a: NodeId, b: NodeId, n: nat) {
    Reaches(edges, a, b, n) && forall m: nat | m < n :: !Reaches(edges, a, b, m)
  }

  /** `n` is the fewest hops from any of the seeds to `v`. */
  ghost predicate IsSeedDistance(edges: seq<Edge>, seeds: seq<NodeId>, v: NodeId, n: nat) {
    && (exists s | s in seeds :: Reaches(edges, s, v, n))
    && forall s, m: nat | s in seeds && Reaches(edges, s, v, m) :: n <= m
  }

  ghost predicate SeedConnected(edges: seq<Edge>, seeds: seq<NodeId>, v: NodeId) {
    exists s | s in seeds :: Connected(edges, s, v)
  }

  // Walks: one more step, shorter prefixes, fewer links.

  lemma ExtendWalk(edges: seq<Edge>, w: seq<NodeId>, v: NodeId)
    requires IsWalk(edges, w) && Adjacent(edges, w[|w| - 1], v)
    ensures IsWalk(edges, w + [v])
  {
  }

  lemma ReachStep(edges: seq<Edge>, a: NodeId, u: NodeId, v: NodeId, n: nat)
    requires Reaches(edges, a, u, n) && Adjacent(edges, u, v)
    ensures Reaches(edges, a, v, n + 1)
  {
    var w :| IsWalkFromTo(edges, w, a, u) && |w| == n + 1;
    ExtendWalk(edges, w, v);
    assert IsWalkFromTo(edges, w + [v], a, v);
  }

  lemma ReachSelf(edges: seq<Edge>, a: NodeId)
    ensures Reaches(edges, a, a, 0)
  {
    assert IsWalkFromTo(edges, [a], a, a);
  }

  lemma WalkPrefix(edges: seq<Edge>, w: seq<NodeId>, k: nat)
    requires IsWalk(edges, w) && k < |w|
    ensures IsWalkFromTo(edges, w[..k + 1], w[0], w[k])
    ensures Reaches(edges, w[0], w[k], k)
  {
  }

  lemma WalkInLargerGraph(small: seq<Edge>, large: seq<Edge>, w: seq<NodeId>)
    requires IsWalk(small, w)
    requires forall e | e in small :: e in large
    ensures IsWalk(large, w)
  {
  }

  /** A pair joined by some walk has a distance, no longer than that walk. */
  lemma DistanceExists(edges: seq<Edge>, a: NodeId, b: NodeId, n: nat) returns (d: nat)
    requires Reaches(edges, a, b, n)
    ensures d <= n && IsDistance(edges, a, b, d)
  {
    if m: nat :| m < n && Reaches(edges, a, b, m) {
      d := DistanceExists(edges, a, b, m);
    } else {
      d := n;
    }
  }

  // Breadth-first labellings. `Settled(d)` is what a search has established once every node with
  // a depth below `d` has been expanded.

  ghost predicate Settled(edges: seq<Edge>, depth: map<NodeId, nat>, d: nat) {
    forall u, v | u in depth && depth[u] < d && Adjacent(edges, u, v) ::
      v in depth && depth[v] <= depth[u] + 1
  }

  lemma {:induction false} WalkBound(edges: seq<Edge>, depth: map<NodeId, nat>, d: nat, w: seq<NodeId>)
    requires IsWalk(edges, w) && |w| <= d + 1
    requires w[0] in depth && depth[w[0]] == 0
    requires Settled(edges, depth, d)
    ensures w[|w| - 1] in depth && depth[w[|w| - 1]] < |w|
    decreases |w|
  {
    if |w| > 1 {
      var p := w[..|w| - 1];
      WalkPrefix(edges, w, |w| - 2);
      assert p == w[..|w| - 2 + 1];
      WalkBound(edges, depth, d, p);
      assert Adjacent(edges, w[|w| - 2], w[|w| - 1]);
    }
  }

  /** Every walk of at most `d` hops from a depth-zero node ends on a node no deeper. */
  lemma ReachBound(edges: seq<Edge>, depth: map<NodeId, nat>, d: nat, s: NodeId, v: NodeId, n: nat)
    requires s in depth && depth[s] == 0
    requires Settled(edges, depth, d) && n <= d
    requires Reaches(edges, s, v, n)
    ensures v in depth && depth[v] <= n
  {
    var w :| IsWalkFromTo(edges, w, s, v) && |w| == n + 1;
    WalkBound(edges, depth, d, w);
  }

  // The adjacency lists both searches build first.

  ghost predicate IsAdjacency(edges: seq<Edge>, adj: map<NodeId, seq<NodeId>>) {
    forall u, v :: Adjacent(edges, u, v) <==> u in adj && v in adj[u]
  }

  function Neighbours(adj: map<NodeId, seq<NodeId>>, u: NodeId): seq<NodeId> {
    if u in adj then adj[u] else []
  }

  function Link(adj: map<NodeId, seq<NodeId>>, a: NodeId, b: NodeId): map<NodeId, seq<NodeId>> {
    adj[a := Neighbours(adj, a) + [b]]
  }

  lemma LinkAdds(adj: map<NodeId, seq<NodeId>>, a: NodeId, b: NodeId, u: NodeId, v: NodeId)
    ensures v in Neighbours(Link(adj, a, b), u) <==> v in Neighbours(adj, u) || (u == a && v == b)
  {
  }

  method BuildAdjacency(edges: seq<Edge>) returns (adj: map<NodeId, seq<NodeId>>)
    ensures IsAdjacency(edges, adj)
  {
    adj := map[];
    for i := 0 to |edges|
      invariant forall u, v :: Adjacent(edges[..i], u, v) <==> v in Neighbours(adj, u)
    {
      ghost var before := adj;
      var e := edges[i];
      adj := Link(adj, e.a, e.b);
      ghost var half := adj;
      adj := Link(adj, e.b, e.a);
      assert edges[..i + 1] == edges[..i] + [e];
      forall u, v
        ensures Adjacent(edges[..i + 1], u, v) <==> v in Neighbours(adj, u)
      {
        LinkAdds(before, e.a, e.b, u, v);
        LinkAdds(half, e.b, e.a, u, v);
        assert Adjacent(edges[..i + 1], u, v) <==> Adjacent(edges[..i], u, v) || e == Edge(u, v) || e == Edge(v, u);
      }
    }
    assert edges[..|edges|] == edges;
  }
}
