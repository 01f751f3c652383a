// The spatial grid behind the repulsion pass: scanning the 3x3 cells around a node visits exactly
// the nodes an all-pairs scan with the same cutoff would, once each.
module ForceGrid {
  import opened Viewport

  const CELL := 120.0

  type Cell = (int, int)
  type Grid = map<Cell, seq<nat>>

  function CellAt(x: real, y: real): Cell {
    ((x / CELL).Floor, (y / CELL).Floor)
  }

  function CellOf(p: Pt): Cell { CellAt(p.x, p.y) }

  function D2(p: Pt, q: Pt): real {
    (p.x - q.x) * (p.x - q.x) + (p.y - q.y) * (p.y - q.y)
  }

  /** Close enough to repel: the cutoff both scans apply. */
  predicate Near(pos: seq<Pt>, i: nat, j: nat)
    requires i < |pos| && j < |pos|
  {
    i != j && !(D2(pos[i], pos[j]) > CELL * CELL)
  }

  // The all-pairs scan.

  function AllPairs(pos: seq<Pt>, i: nat, n: nat): seq<nat>
    requires i < |pos| && n <= |pos|
  {
    if n == 0 then []
    else if Near(pos, i, n - 1) then AllPairs(pos, i, n - 1) + [n - 1]
    else AllPairs(pos, i, n - 1)
  }

  // The grid scan.

  function BucketOf(grid: Grid, k: Cell): seq<nat> {
    if k in grid then grid[k] else []
  }

  /** The first `n` nodes, those of them that lie in cell `k`, in order. */
  function Members(pos: seq<Pt>, k: Cell, n: nat): (r: seq<nat>)
    requires n <= |pos|
    ensures forall t | 0 <= t < |r| :: r[t] < n
  {
    if n == 0 then []
    else if CellOf(pos[n - 1]) == k then Members(pos, k, n - 1) + [n - 1]
    else Members(pos, k, n - 1)
  }

  ghost predicate IsGrid(pos: seq<Pt>, grid: Grid, n: nat)
    requires n <= |pos|
  {
    forall k :: BucketOf(grid, k) == Members(pos, k, n)
  }

  function NearIn(pos: seq<Pt>, i: nat, bucket: seq<nat>): seq<nat>
    requires i < |pos| && forall t | 0 <= t < |bucket| :: bucket[t] < |pos|
  {
    if bucket == [] then []
    else
      var rest, last := bucket[..|bucket| - 1], bucket[|bucket| - 1];
      if Near(pos, i, last) then NearIn(pos, i, rest) + [last] else NearIn(pos, i, rest)
  }

  /** The first `m` of the nine cells around `c`, in scan order. */
  function Around(c: Cell, m: nat): seq<Cell> {
    seq(m, t => (c.0 - 1 + t / 3, c.1 - 1 + t % 3))
  }

  function Visits(pos: seq<Pt>, i: nat, cells: seq<Cell>, n: nat): seq<nat>
    requires i < |pos| && n <= |pos|
  {
    if cells == [] then []
    else Visits(pos, i, cells[..|cells| - 1], n) + NearIn(pos, i, Members(pos, cells[|cells| - 1], n))
  }

  // They agree.

  lemma NearInSnoc(pos: seq<Pt>, i: nat, bucket: seq<nat>, j: nat)
    requires i < |pos| && j < |pos| && forall t | 0 <= t < |bucket| :: bucket[t] < |pos|
    ensures NearIn(pos, i, bucket + [j]) ==
            if Near(pos, i, j) then NearIn(pos, i, bucket) + [j] else NearIn(pos, i, bucket)
  {
    assert (bucket + [j])[..|bucket|] == bucket;
  }

  predicate Distinct(cells: seq<Cell>) {
    forall s, t | 0 <= s < t < |cells| :: cells[s] != cells[t]
  }

  function Once(b: bool, n: nat): multiset<nat> {
    if b then multiset{n} else multiset{}
  }

  /** One more node is visited exactly once, provided it is near and its cell is scanned. */
  lemma {:induction false} OneMoreNode(pos: seq<Pt>, i: nat, cells: seq<Cell>, n: nat)
    requires i < |pos| && n < |pos| && Distinct(cells)
    ensures multiset(Visits(pos, i, cells, n + 1)) == multiset(Visits(pos, i, cells, n))
            + Once(Near(pos, i, n) && CellOf(pos[n]) in cells, n)
  {
    hide Near, CellAt, NearIn;
    if cells != [] {
      var k, rest := cells[|cells| - 1], cells[..|cells| - 1];
      assert cells == rest + [k];
      OneMoreNode(pos, i, rest, n);
      OneMoreMember(pos, i, k, n);
      if CellOf(pos[n]) == k { assert k !in rest; }
    }
  }

  lemma OneMoreMember(pos: seq<Pt>, i: nat, k: Cell, n: nat)
    requires i < |pos| && n < |pos|
    ensures multiset(NearIn(pos, i, Members(pos, k, n + 1))) == multiset(NearIn(pos, i, Members(pos, k, n)))
            + Once(Near(pos, i, n) && CellOf(pos[n]) == k, n)
  {
    hide Near, NearIn, CellAt;
    NearInSnoc(pos, i, Members(pos, k, n), n);
  }

  lemma FloorClose(a: real, b: real)
    requires -CELL <= a - b <= CELL
    ensures -1 <= (a / CELL).Floor - (b / CELL).Floor <= 1
  {
    assert a / CELL - b / CELL == (a - b) / CELL;
  }

  lemma SquareBound(d: real, e: real)
    requires d * d + e * e <= CELL * CELL
    ensures -CELL <= d <= CELL
  {
    Monotone(0.0, if e >= 0.0 then e else -e, if e >= 0.0 then e else -e);
    if d > CELL {
      Monotone(CELL, d, d);
      Monotone(CELL, d, CELL);
    } else if d < -CELL {
      Monotone(CELL, -d, -d);
      Monotone(CELL, -d, CELL);
    }
  }

  /** A near node lies in one of the nine cells. */
  lemma NearIsAround(pos: seq<Pt>, i: nat, j: nat)
    requires i < |pos| && j < |pos| && Near(pos, i, j)
    ensures CellOf(pos[j]) in Around(CellOf(pos[i]), 9)
  {
    var p, q := pos[i], pos[j];
    SquareBound(p.x - q.x, p.y - q.y);
    SquareBound(p.y - q.y, p.x - q.x);
    FloorClose(p.x, q.x);
    FloorClose(p.y, q.y);
    IsAround(CellOf(p), CellOf(q));
  }

  lemma IsAround(c: Cell, k: Cell)
    requires -1 <= k.0 - c.0 <= 1 && -1 <= k.1 - c.1 <= 1
    ensures k in Around(c, 9)
  {
    var t := 3 * (k.0 - c.0 + 1) + (k.1 - c.1 + 1);
    assert Around(c, 9)[t] == k;
  }

  lemma AroundDistinct(c: Cell, m: nat)
    ensures Distinct(Around(c, m))
  {
    forall s, t | 0 <= s < t < m
      ensures Around(c, m)[s] != Around(c, m)[t]
    {
      if s / 3 == t / 3 { assert s % 3 != t % 3; }
    }
  }

  lemma OneMorePair(pos: seq<Pt>, i: nat, n: nat)
    requires i < |pos| && n < |pos|
    ensures multiset(AllPairs(pos, i, n + 1)) == multiset(AllPairs(pos, i, n)) + Once(Near(pos, i, n), n)
  {
    hide Near;
  }

  lemma {:induction false} GridScanPrefix(pos: seq<Pt>, i: nat, n: nat)
    requires i < |pos| && n <= |pos|
    ensures multiset(Visits(pos, i, Around(CellOf(pos[i]), 9), n)) == multiset(AllPairs(pos, i, n))
  {
    hide Near, CellOf, Visits, Around, Distinct, Once, AllPairs;
    var c := CellOf(pos[i]);
    if n == 0 {
      NothingToVisit(pos, i, Around(c, 9));
    } else {
      GridScanPrefix(pos, i, n - 1);
      AroundDistinct(c, 9);
      OneMoreNode(pos, i, Around(c, 9), n - 1);
      OneMorePair(pos, i, n - 1);
      if Near(pos, i, n - 1) { NearIsAround(pos, i, n - 1); }
    }
  }

  lemma {:induction false} NothingToVisit(pos: seq<Pt>, i: nat, cells: seq<Cell>)
    requires i < |pos|
    ensures Visits(pos, i, cells, 0) == AllPairs(pos, i, 0) == []
  {
    if cells != [] { NothingToVisit(pos, i, cells[..|cells| - 1]); }
  }

  /** The 3x3 scan visits the same nodes as the all-pairs scan, each exactly once. */
  lemma {:induction false} GridScanIsAllPairs(pos: seq<Pt>, i: nat)
    requires i < |pos|
    ensures multiset(Visits(pos, i, Around(CellOf(pos[i]), 9), |pos|)) == multiset(AllPairs(pos, i, |pos|))
  {
    GridScanPrefix(pos, i, |pos|);
  }

  /** The all-pairs scan lists exactly the other nodes no farther off than 120, each once. */
  lemma {:induction false} AllPairsAre(pos: seq<Pt>, i: nat, n: nat, j: nat)
    requires i < |pos| && n <= |pos| && j < |pos|
    ensures var dx, dy := pos[i].x - pos[j].x, pos[i].y - pos[j].y;
      multiset(AllPairs(pos, i, n))[j] == if j < n && j != i && dx * dx + dy * dy <= 120.0 * 120.0 then 1 else 0
  {
    NearIs(pos, i, j);
    hide Near;
    if n > 0 {
      AllPairsAre(pos, i, n - 1, j);
      OneMorePair(pos, i, n - 1);
    }
  }

  lemma NearIs(pos: seq<Pt>, i: nat, j: nat)
    requires i < |pos| && j < |pos|
    ensures var dx, dy := pos[i].x - pos[j].x, pos[i].y - pos[j].y;
      Near(pos, i, j) <==> j != i && dx * dx + dy * dy <= 120.0 * 120.0
  {
  }

  // Forces: the order of the visits does not matter to the sum.

  function Add(p: Pt, q: Pt): Pt { Pt(p.x + q.x, p.y + q.y) }

  function Sum(f: nat -> Pt, s: seq<nat>): Pt {
    if s == [] then Pt(0.0, 0.0) else Add(Sum(f, s[..|s| - 1]), f(s[|s| - 1]))
  }

  lemma {:induction false} SumWithout(f: nat -> Pt, s: seq<nat>, k: nat)
    requires k < |s|
    ensures Sum(f, s) == Add(Sum(f, s[..k] + s[k + 1..]), f(s[k]))
  {
    if k < |s| - 1 {
      SumWithout(f, s[..|s| - 1], k);
      assert (s[..k] + s[k + 1..])[..|s| - 2] == s[..|s| - 1][..k] + s[..|s| - 1][k + 1..];
    } else {
      assert s[..k] + s[k + 1..] == s[..|s| - 1];
    }
  }

  lemma Cancel<T>(a: multiset<T>, b: multiset<T>, x: T)
    requires a + multiset{x} == b + multiset{x}
    ensures a == b
  {
    forall y
      ensures a[y] == b[y]
    {
      assert (a + multiset{x})[y] == (b + multiset{x})[y];
    }
  }

  lemma {:induction false} SumIgnoresOrder(f: nat -> Pt, s: seq<nat>, t: seq<nat>)
    requires multiset(s) == multiset(t)
    ensures Sum(f, s) == Sum(f, t)
  {
    if s == [] {
      assert |multiset(t)| == 0;
    } else {
      var last, rest := s[|s| - 1], s[..|s| - 1];
      assert s == rest + [last];
      assert last in multiset(t);
      var k :| 0 <= k < |t| && t[k] == last;
      assert t == t[..k] + [last] + t[k + 1..];
      Cancel(multiset(rest), multiset(t[..k] + t[k + 1..]), last);
      SumIgnoresOrder(f, rest, t[..k] + t[k + 1..]);
      SumWithout(f, t, k);
    }
  }

  lemma SumSnoc(f: nat -> Pt, s: seq<nat>, j: nat)
    ensures Sum(f, s + [j]) == Add(Sum(f, s), f(j))
  {
    assert (s + [j])[..|s|] == s;
  }

  /** The push of node `j` on node `i`: the physics is a parameter, the randomness in it included. */
  function Pull(pos: seq<Pt>, repel: (nat, nat, Pt) -> Pt, i: nat): nat -> Pt {
    (j: nat) => if i < |pos| && j < |pos| then repel(i, j, Pt(pos[i].x - pos[j].x, pos[i].y - pos[j].y))
      else Pt(0.0, 0.0)
  }

  function Push(grid: Grid, k: Cell, j: nat): Grid {
    grid[k := BucketOf(grid, k) + [j]]
  }

  lemma EmptyGrid(pos: seq<Pt>)
    ensures IsGrid(pos, map[], 0)
  {
  }

  lemma PushKeepsGrid(pos: seq<Pt>, grid: Grid, n: nat)
    requires n < |pos| && IsGrid(pos, grid, n)
    ensures IsGrid(pos, Push(grid, CellOf(pos[n]), n), n + 1)
  {
    forall k
      ensures BucketOf(Push(grid, CellOf(pos[n]), n), k) == Members(pos, k, n + 1)
    {
      assert BucketOf(grid, k) == Members(pos, k, n);
    }
  }

  lemma EmptyBucket(pos: seq<Pt>, i: nat, seen: seq<nat>)
    requires i < |pos|
    ensures seen + NearIn(pos, i, []) == seen
  {
  }

  /** Visiting one more member of a bucket adds its push, if it is near. */
  lemma VisitAdds(pos: seq<Pt>, f: nat -> Pt, i: nat, seen: seq<nat>, bucket: seq<nat>, j: nat)
    requires i < |pos| && j < |pos| && forall t | 0 <= t < |bucket| :: bucket[t] < |pos|
    ensures var before := Sum(f, seen + NearIn(pos, i, bucket));
      Sum(f, seen + NearIn(pos, i, bucket + [j])) == if Near(pos, i, j) then Add(before, f(j)) else before
  {
    NearInSnoc(pos, i, bucket, j);
    SumSnoc(f, seen + NearIn(pos, i, bucket), j);
    assert seen + (NearIn(pos, i, bucket) + [j]) == seen + NearIn(pos, i, bucket) + [j];
  }

  // The scan, cell by cell.

  lemma NoVisitsYet(pos: seq<Pt>, f: nat -> Pt, i: nat, c: Cell)
    requires i < |pos|
    ensures Sum(f, Visits(pos, i, Around(c, 0), |pos|)) == Pt(0.0, 0.0)
  {
  }

  lemma GridBucket(pos: seq<Pt>, grid: Grid, k: Cell)
    requires IsGrid(pos, grid, |pos|)
    ensures BucketOf(grid, k) == Members(pos, k, |pos|)
  {
  }

  lemma {:induction false} VisitCell(pos: seq<Pt>, i: nat, c: Cell, m: nat, k: Cell)
    requires i < |pos| && m < 9 && k == (c.0 - 1 + m / 3, c.1 - 1 + m % 3)
    ensures Visits(pos, i, Around(c, m + 1), |pos|) ==
            Visits(pos, i, Around(c, m), |pos|) + NearIn(pos, i, Members(pos, k, |pos|))
  {
    hide Near, D2, Visits, NearIn, Members;
    var cells := Around(c, m + 1);
    assert cells[..m] == Around(c, m) && cells[m] == k;
    VisitLast(pos, i, cells);
  }

  lemma VisitLast(pos: seq<Pt>, i: nat, cells: seq<Cell>)
    requires i < |pos| && cells != []
    ensures var m := |cells| - 1;
      Visits(pos, i, cells, |pos|) == Visits(pos, i, cells[..m], |pos|) + NearIn(pos, i, Members(pos, cells[m], |pos|))
  {
  }

  /** What the all-pairs scan adds up to. */
  function TotalPull(pos: seq<Pt>, repel: (nat, nat, Pt) -> Pt, i: nat): Pt
    requires i < |pos|
  {
    Sum(Pull(pos, repel, i), AllPairs(pos, i, |pos|))
  }

  lemma {:induction false} SamePairs(pos: seq<Pt>, q: Pt, i: nat, n: nat)
    requires i < |pos| && n <= |pos|
    ensures AllPairs(pos + [q], i, n) == AllPairs(pos, i, n)
    ensures forall t | 0 <= t < |AllPairs(pos, i, n)| :: AllPairs(pos, i, n)[t] < n
  {
    if n > 0 { SamePairs(pos, q, i, n - 1); }
  }

  lemma {:induction false} SameSum(f: nat -> Pt, g: nat -> Pt, s: seq<nat>)
    requires forall t | 0 <= t < |s| :: f(s[t]) == g(s[t])
    ensures Sum(f, s) == Sum(g, s)
  {
    if s != [] { SameSum(f, g, s[..|s| - 1]); }
  }

  /** A node alone feels nothing. */
  lemma AloneFeelsNothing(p: Pt, repel: (nat, nat, Pt) -> Pt)
    ensures TotalPull([p], repel, 0) == Pt(0.0, 0.0)
  {
    assert AllPairs([p], 0, 1) == AllPairs([p], 0, 0) == [];
  }

  lemma OneMorePushed(pos: seq<Pt>, q: Pt, repel: (nat, nat, Pt) -> Pt, i: nat)
    requires i < |pos|
    ensures var before, push := TotalPull(pos, repel, i), repel(i, |pos|, Pt(pos[i].x - q.x, pos[i].y - q.y));
      TotalPull(pos + [q], repel, i) == if Near(pos + [q], i, |pos|) then Add(before, push) else before
  {
    hide Sum, Near, AllPairs, Add;
    var all, n := pos + [q], |pos|;
    var f, g := Pull(pos, repel, i), Pull(all, repel, i);
    SamePairs(pos, q, i, n);
    OneMoreListed(all, i, n);
    var s := AllPairs(pos, i, n);
    SameSum(f, g, s);
    if Near(all, i, n) { SumSnoc(g, s, n); }
  }

  /** One more node adds its push, given the way from it to the other, if it is no farther off than 120. */
  lemma OneMorePush(pos: seq<Pt>, q: Pt, repel: (nat, nat, Pt) -> Pt, i: nat)
    requires i < |pos|
    ensures var dx, dy := pos[i].x - q.x, pos[i].y - q.y;
      var before, push := TotalPull(pos, repel, i), repel(i, |pos|, Pt(dx, dy));
      TotalPull(pos + [q], repel, i) ==
      if dx * dx + dy * dy <= 120.0 * 120.0 then Pt(before.x + push.x, before.y + push.y) else before
  {
    hide TotalPull, Near;
    OneMorePushed(pos, q, repel, i);
    NearIs(pos + [q], i, |pos|);
  }

  lemma OneMoreListed(pos: seq<Pt>, i: nat, n: nat)
    requires i < |pos| && n < |pos|
    ensures AllPairs(pos, i, n + 1) == if Near(pos, i, n) then AllPairs(pos, i, n) + [n] else AllPairs(pos, i, n)
  {
    hide Near;
  }
}
