// The traffic spectrum chart: per-bucket and per-port totals, the stacked columns, and the hover.
module Spectrum {
  import opened Collections

  datatype Row = Row(bucket: string, port: int, direct: nat, relayed: nat)

  datatype Counts = Counts(direct: nat, relayed: nat)

  datatype Side = Direct | Relayed

  function Of(c: Counts, side: Side): nat {
    match side case Direct => c.direct case Relayed => c.relayed
  }

  function InRow(r: Row, side: Side): nat { Of(Counts(r.direct, r.relayed), side) }

  type Buckets = map<string, map<int, Counts>>
  type Ports = map<int, Counts>

  // What the aggregation loop must have built after a list of rows.

  function SumRows(rows: seq<Row>, side: Side): nat {
    if rows == [] then 0 else SumRows(rows[..|rows| - 1], side) + InRow(rows[|rows| - 1], side)
  }

  /** Each side adds up its own column of the rows. */
  lemma SumRowsAdds(rows: seq<Row>, r: Row)
    ensures SumRows(rows + [r], Direct) == SumRows(rows, Direct) + r.direct
    ensures SumRows(rows + [r], Relayed) == SumRows(rows, Relayed) + r.relayed
  {
    assert (rows + [r])[..|rows|] == rows;
  }

  /** The last row of the pair decides: an earlier one is overwritten. */
  function CountAt(rows: seq<Row>, bucket: string, port: int): Option<Counts> {
    if rows == [] then None
    else
      var r := rows[|rows| - 1];
      if r.bucket == bucket && r.port == port then Some(Counts(r.direct, r.relayed))
      else CountAt(rows[..|rows| - 1], bucket, port)
  }

  function PortTotal(rows: seq<Row>, port: int): Counts {
    if rows == [] then Counts(0, 0)
    else
      var t, r := PortTotal(rows[..|rows| - 1], port), rows[|rows| - 1];
      if r.port == port then Counts(t.direct + r.direct, t.relayed + r.relayed) else t
  }

  function BucketsOf(rows: seq<Row>): set<string> { set r | r in rows :: r.bucket }

  function PortsOf(rows: seq<Row>): set<int> { set r | r in rows :: r.port }

  function Lookup(m: Buckets, bucket: string, port: int): Option<Counts> {
    if bucket in m && port in m[bucket] then Some(m[bucket][port]) else None
  }

  function Enter(m: Buckets, r: Row): Buckets {
    m[r.bucket := (if r.bucket in m then m[r.bucket] else map[])[r.port := Counts(r.direct, r.relayed)]]
  }

  lemma EnterCounts(m: Buckets, rows: seq<Row>, r: Row)
    requires forall b, p :: Lookup(m, b, p) == CountAt(rows, b, p)
    ensures forall b, p :: Lookup(Enter(m, r), b, p) == CountAt(rows + [r], b, p)
  {
    assert (rows + [r])[..|rows|] == rows;
    forall b, p
      ensures Lookup(Enter(m, r), b, p) == CountAt(rows + [r], b, p)
    {
      assert Lookup(m, b, p) == CountAt(rows, b, p);
    }
  }

  function Credit(m: Ports, r: Row): Ports {
    var t := if r.port in m then m[r.port] else Counts(0, 0);
    m[r.port := Counts(t.direct + r.direct, t.relayed + r.relayed)]
  }

  lemma CreditTotals(m: Ports, rows: seq<Row>, r: Row)
    requires m.Keys == PortsOf(rows) && forall p | p in m :: m[p] == PortTotal(rows, p)
    ensures Credit(m, r).Keys == PortsOf(rows + [r])
    ensures forall p | p in Credit(m, r) :: Credit(m, r)[p] == PortTotal(rows + [r], p)
  {
    assert (rows + [r])[..|rows|] == rows;
    FreshPort(rows, r.port);
  }

  method Aggregate(rows: seq<Row>) returns (bucketList: seq<string>, byBucket: Buckets, portTotals: Ports)
    ensures Elements(bucketList) == byBucket.Keys == BucketsOf(rows)
    ensures forall i, j | 0 <= i < j < |bucketList| :: bucketList[i] != bucketList[j]
    ensures forall b, p :: Lookup(byBucket, b, p) == CountAt(rows, b, p)
    ensures portTotals.Keys == PortsOf(rows) && forall p | p in portTotals :: portTotals[p] == PortTotal(rows, p)
  {
    hide Lookup, CountAt, PortTotal, PortsOf;
    bucketList, byBucket, portTotals := [], map[], map[];
    NoRows();
    for i := 0 to |rows|
      invariant Elements(bucketList) == byBucket.Keys == BucketsOf(rows[..i])
      invariant forall k, l | 0 <= k < l < |bucketList| :: bucketList[k] != bucketList[l]
      invariant forall b, p :: Lookup(byBucket, b, p) == CountAt(rows[..i], b, p)
      invariant portTotals.Keys == PortsOf(rows[..i])
      invariant forall p | p in portTotals :: portTotals[p] == PortTotal(rows[..i], p)
    {
      var r := rows[i];
      assert rows[..i + 1] == rows[..i] + [r];
      EnterCounts(byBucket, rows[..i], r);
      CreditTotals(portTotals, rows[..i], r);
      ghost var before := byBucket;
      if r.bucket !in byBucket {
        assert r.bucket !in Elements(bucketList);
        bucketList := bucketList + [r.bucket];
        byBucket := byBucket[r.bucket := map[]];
      }
      byBucket := byBucket[r.bucket := byBucket[r.bucket][r.port := Counts(r.direct, r.relayed)]];
      assert byBucket == Enter(before, r);
      var t := if r.port in portTotals then portTotals[r.port] else Counts(0, 0);
      portTotals := portTotals[r.port := Counts(t.direct + r.direct, t.relayed + r.relayed)];
    }
    assert rows[..|rows|] == rows;
  }

  lemma NoRows()
    ensures PortsOf([]) == {} && forall b, p :: Lookup(map[], b, p) == CountAt([], b, p)
  {
  }

  lemma {:induction false} FreshPort(rows: seq<Row>, port: int)
    ensures port !in PortsOf(rows) ==> PortTotal(rows, port) == Counts(0, 0)
  {
    if rows != [] {
      assert rows == rows[..|rows| - 1] + [rows[|rows| - 1]];
      FreshPort(rows[..|rows| - 1], port);
    }
  }

  // Conservation.

  function Shown(rows: seq<Row>, bucket: string, port: int, side: Side): nat {
    match CountAt(rows, bucket, port) case None => 0 case Some(c) => Of(c, side)
  }

  ghost function BucketSum(rows: seq<Row>, ports: set<int>, bucket: string, side: Side): nat {
    SumSet((p: int) => Shown(rows, bucket, p, side), ports)
  }

  ghost function SumBuckets(rows: seq<Row>, buckets: set<string>, ports: set<int>, side: Side): nat {
    SumSet((b: string) => BucketSum(rows, ports, b, side), buckets)
  }

  ghost function SumPorts(rows: seq<Row>, ports: set<int>, side: Side): nat {
    SumSet((p: int) => Of(PortTotal(rows, p), side), ports)
  }

  /** What rows for an already seen (bucket, port) overwrite. */
  function Lost(rows: seq<Row>, side: Side): nat {
    if rows == [] then 0
    else
      var rest, r := rows[..|rows| - 1], rows[|rows| - 1];
      Lost(rest, side) + Shown(rest, r.bucket, r.port, side)
  }

  lemma {:induction false} SumZero<T>(f: T -> nat, s: set<T>)
    requires forall x | x in s :: f(x) == 0
    ensures SumSet(f, s) == 0
    decreases s
  {
    if s != {} {
      var x := HasElement(s);
      Collections.SumWithout(f, s, x);
      SumZero(f, s - {x});
    }
  }

  lemma {:induction false} PortsConserve(rows: seq<Row>, ports: set<int>, side: Side)
    requires PortsOf(rows) <= ports
    ensures SumPorts(rows, ports, side) == SumRows(rows, side)
  {
    if rows == [] {
      SumZero((p: int) => Of(PortTotal(rows, p), side), ports);
    } else {
      var rest, r := rows[..|rows| - 1], rows[|rows| - 1];
      assert rows == rest + [r];
      PortsConserve(rest, ports, side);
      SumChanged((p: int) => Of(PortTotal(rest, p), side), (p: int) => Of(PortTotal(rows, p), side), ports, r.port);
    }
  }

  lemma BucketChange(rest: seq<Row>, r: Row, ports: set<int>, b: string, side: Side)
    requires r.port in ports
    ensures b != r.bucket ==> BucketSum(rest + [r], ports, b, side) == BucketSum(rest, ports, b, side)
    ensures BucketSum(rest + [r], ports, r.bucket, side) + Shown(rest, r.bucket, r.port, side)
            == BucketSum(rest, ports, r.bucket, side) + InRow(r, side)
  {
    var rows := rest + [r];
    assert rows[..|rest|] == rest;
    SumChanged((p: int) => Shown(rest, r.bucket, p, side), (p: int) => Shown(rows, r.bucket, p, side), ports, r.port);
    if b != r.bucket {
      SumChanged((p: int) => Shown(rest, b, p, side), (p: int) => Shown(rows, b, p, side), ports, r.port);
    }
  }

  /** Summed by bucket, the chart shows every row except what later rows of the same pair overwrote. */
  lemma {:induction false} BucketsConserve(rows: seq<Row>, buckets: set<string>, ports: set<int>, side: Side)
    requires PortsOf(rows) <= ports && BucketsOf(rows) <= buckets
    ensures SumBuckets(rows, buckets, ports, side) + Lost(rows, side) == SumRows(rows, side)
  {
    if rows == [] {
      forall b ensures BucketSum(rows, ports, b, side) == 0 {
        SumZero((p: int) => Shown(rows, b, p, side), ports);
      }
      SumZero((b: string) => BucketSum(rows, ports, b, side), buckets);
    } else {
      var rest, r := rows[..|rows| - 1], rows[|rows| - 1];
      assert rows == rest + [r];
      BucketsConserve(rest, buckets, ports, side);
      forall b ensures b != r.bucket ==> BucketSum(rows, ports, b, side) == BucketSum(rest, ports, b, side) {
        BucketChange(rest, r, ports, b, side);
      }
      BucketChange(rest, r, ports, r.bucket, side);
      SumChanged((b: string) => BucketSum(rest, ports, b, side),
                 (b: string) => BucketSum(rows, ports, b, side), buckets, r.bucket);
    }
  }

  predicate DistinctPairs(rows: seq<Row>) {
    forall i, j | 0 <= i < j < |rows| :: rows[i].bucket != rows[j].bucket || rows[i].port != rows[j].port
  }

  lemma {:induction false} NoCountBefore(rows: seq<Row>, bucket: string, port: int)
    requires forall i | 0 <= i < |rows| :: rows[i].bucket != bucket || rows[i].port != port
    ensures CountAt(rows, bucket, port) == None
  {
    if rows != [] { NoCountBefore(rows[..|rows| - 1], bucket, port); }
  }

  lemma {:induction false} DistinctLosesNothing(rows: seq<Row>, side: Side)
    requires DistinctPairs(rows)
    ensures Lost(rows, side) == 0
  {
    if rows != [] {
      var rest, r := rows[..|rows| - 1], rows[|rows| - 1];
      DistinctLosesNothing(rest, side);
      NoCountBefore(rest, r.bucket, r.port);
    }
  }

  /** With one row per pair, rows, ports and buckets add up to the same totals. */
  lemma TotalsAgree(rows: seq<Row>, side: Side)
    requires forall i, j | 0 <= i < j < |rows| :: rows[i].bucket != rows[j].bucket || rows[i].port != rows[j].port
    ensures SumRows(rows, side) == SumPorts(rows, PortsOf(rows), side)
            == SumBuckets(rows, BucketsOf(rows), PortsOf(rows), side)
  {
    PortsConserve(rows, PortsOf(rows), side);
    BucketsConserve(rows, BucketsOf(rows), PortsOf(rows), side);
    DistinctLosesNothing(rows, side);
  }

  // The chart: columns of stacked segments around a centre line.

  const CENTRE := 170.0
  const HALF := 150.0

  function Larger(a: nat, b: nat): nat { if b > a then b else a }

  type Column = map<int, Counts>

  function InColumn(m: Column, side: Side): int -> nat {
    (p: int) => if p in m then Of(m[p], side) else 0
  }

  ghost function ColumnSum(m: Column, side: Side): nat { SumSet(InColumn(m, side), m.Keys) }

  lemma {:induction false} SumSupport<T>(f: T -> nat, s: set<T>, t: set<T>)
    requires s <= t && forall x | x in t && x !in s :: f(x) == 0
    ensures SumSet(f, t) == SumSet(f, s)
    decreases t
  {
    if t - s != {} {
      var x := HasElement(t - s);
      Collections.SumWithout(f, t, x);
      SumSupport(f, s, t - {x});
    } else {
      assert t == s + (t - s) == s;
    }
  }

  lemma {:induction false} SumSame<T>(f: T -> nat, g: T -> nat, s: set<T>)
    requires forall x | x in s :: f(x) == g(x)
    ensures SumSet(f, s) == SumSet(g, s)
    decreases s
  {
    if s != {} {
      var x := HasElement(s);
      Collections.SumWithout(f, s, x);
      Collections.SumWithout(g, s, x);
      SumSame(f, g, s - {x});
    }
  }

  /** A column of the aggregated chart adds up to its bucket. */
  lemma ColumnIsBucket(rows: seq<Row>, byBucket: Buckets, b: string, side: Side)
    requires b in byBucket && forall p :: Lookup(byBucket, b, p) == CountAt(rows, b, p)
    ensures byBucket[b].Keys <= PortsOf(rows)
    ensures ColumnSum(byBucket[b], side) == BucketSum(rows, PortsOf(rows), b, side)
  {
    var m := byBucket[b];
    forall p | p in m.Keys
      ensures p in PortsOf(rows)
    {
      assert Lookup(byBucket, b, p).Some?;
      CountedPort(rows, b, p);
    }
    forall p
      ensures InColumn(m, side)(p) == Shown(rows, b, p, side)
    {
      assert Lookup(byBucket, b, p) == CountAt(rows, b, p);
    }
    SumSupport(InColumn(m, side), m.Keys, PortsOf(rows));
    SumSame(InColumn(m, side), (p: int) => Shown(rows, b, p, side), PortsOf(rows));
  }

  lemma {:induction false} CountedPort(rows: seq<Row>, b: string, p: int)
    requires CountAt(rows, b, p).Some?
    ensures p in PortsOf(rows)
  {
    var rest, r := rows[..|rows| - 1], rows[|rows| - 1];
    assert rows == rest + [r];
    if !(r.bucket == b && r.port == p) { CountedPort(rest, b, p); }
  }

  /** The largest one-sided column total, and at least 1: what the full half height stands for. */
  method MaxHalf(byBucket: Buckets) returns (maxHalf: nat)
    ensures maxHalf >= 1
    ensures forall b, side: Side | b in byBucket :: ColumnSum(byBucket[b], side) <= maxHalf
    ensures maxHalf == 1 || exists b, side: Side | b in byBucket :: ColumnSum(byBucket[b], side) == maxHalf
  {
    hide ColumnSum;
    maxHalf := 1;
    var todo := byBucket.Keys;
    while todo != {}
      invariant maxHalf >= 1 && todo <= byBucket.Keys
      invariant forall b, side: Side | b in byBucket && b !in todo :: ColumnSum(byBucket[b], side) <= maxHalf
      invariant maxHalf == 1 || exists b, side: Side | b in byBucket :: ColumnSum(byBucket[b], side) == maxHalf
      decreases todo
    {
      var b := AnyOf(todo);
      todo := todo - {b};
      var up, dn := SumColumn(byBucket[b]);
      assert forall side: Side :: ColumnSum(byBucket[b], side) == if side.Direct? then up else dn;
      maxHalf := Larger(Larger(maxHalf, up), dn);
    }
  }

  method SumColumn(m: Column) returns (up: nat, dn: nat)
    ensures up == ColumnSum(m, Direct) && dn == ColumnSum(m, Relayed)
  {
    up, dn := 0, 0;
    var todo := m.Keys;
    ghost var f, g := InColumn(m, Direct), InColumn(m, Relayed);
    while todo != {}
      invariant todo <= m.Keys
      invariant up + SumSet(f, todo) == SumSet(f, m.Keys) && dn + SumSet(g, todo) == SumSet(g, m.Keys)
      decreases todo
    {
      var p := AnyOf(todo);
      Collections.SumWithout(f, todo, p);
      Collections.SumWithout(g, todo, p);
      todo := todo - {p};
      up, dn := up + m[p].direct, dn + m[p].relayed;
    }
  }

  /** A rectangle from `y` down to `y + h`. */
  datatype Segment = Segment(port: int, y: real, h: real)

  function Height(n: nat, maxHalf: nat): real
    requires maxHalf >= 1
  {
    n as real / maxHalf as real * HALF
  }

  lemma HeightAdds(a: nat, b: nat, maxHalf: nat)
    requires maxHalf >= 1
    ensures Height(a, maxHalf) + Height(b, maxHalf) == Height(a + b, maxHalf)
    ensures Height(a, maxHalf) >= 0.0 && (a > 0 ==> Height(a, maxHalf) > 0.0)
    ensures a <= maxHalf ==> Height(a, maxHalf) <= HALF
  {
    var x, y, m := a as real, b as real, maxHalf as real;
    assert x / m + y / m == (x + y) / m;
    assert x / m * m == x;
    if a <= maxHalf { assert x / m <= 1.0; }
  }

  /** Heights are proportional to counts, and the largest one-sided total fills the half. */
  lemma HeightIsShare(n: nat, maxHalf: nat)
    requires maxHalf >= 1
    ensures Height(n, maxHalf) * maxHalf as real == n as real * 150.0
    ensures Height(maxHalf, maxHalf) == 150.0
  {
    var x, m := n as real, maxHalf as real;
    assert x / m * m == x;
    assert m / m == 1.0;
  }

  /** Stacked upwards from the centre: each segment ends where the one before it begins. */
  predicate StackedUp(segs: seq<Segment>, top: real) {
    if segs == [] then top == CENTRE
    else
      var last := segs[|segs| - 1];
      last.h > 0.0 && last.y == top && StackedUp(segs[..|segs| - 1], top + last.h)
  }

  predicate StackedDown(segs: seq<Segment>, bottom: real) {
    if segs == [] then bottom == CENTRE
    else
      var last := segs[|segs| - 1];
      last.h > 0.0 && last.y == bottom - last.h && StackedDown(segs[..|segs| - 1], last.y)
  }

  /** The stack is contiguous, its segments do not overlap, and all lie between the centre and its end. */
  lemma {:induction false} UpStackLies(segs: seq<Segment>, top: real)
    requires StackedUp(segs, top)
    ensures top <= CENTRE
    ensures forall i | 0 <= i < |segs| :: top <= segs[i].y < segs[i].y + segs[i].h <= CENTRE
    ensures forall i, j | 0 <= i < j < |segs| ::
      segs[j].y + segs[j].h <= segs[i].y && (j == i + 1 ==> segs[j].y + segs[j].h == segs[i].y)
    ensures segs != [] ==> segs[0].y + segs[0].h == CENTRE
  {
    if segs != [] {
      UpStackLies(segs[..|segs| - 1], top + segs[|segs| - 1].h);
    }
  }

  lemma {:induction false} DownStackLies(segs: seq<Segment>, bottom: real)
    requires StackedDown(segs, bottom)
    ensures bottom >= CENTRE
    ensures forall i | 0 <= i < |segs| :: CENTRE <= segs[i].y < segs[i].y + segs[i].h <= bottom
    ensures forall i, j | 0 <= i < j < |segs| ::
      segs[i].y + segs[i].h <= segs[j].y && (j == i + 1 ==> segs[i].y + segs[i].h == segs[j].y)
    ensures segs != [] ==> segs[0].y == CENTRE
  {
    if segs != [] {
      DownStackLies(segs[..|segs| - 1], segs[|segs| - 1].y);
    }
  }

  function DrawnPorts(segs: seq<Segment>): seq<int> {
    seq(|segs|, i requires 0 <= i < |segs| => segs[i].port)
  }

  /** The ports with something to draw, in drawing order. */
  function Positive(f: int -> nat, ports: seq<int>): seq<int> {
    if ports == [] then []
    else
      var rest, p := Positive(f, ports[..|ports| - 1]), ports[|ports| - 1];
      if f(p) > 0 then rest + [p] else rest
  }

  /** Every segment is as high as its own port's count. */
  ghost predicate ToScale(segs: seq<Segment>, f: int -> nat, maxHalf: nat)
    requires maxHalf >= 1
  {
    forall i | 0 <= i < |segs| :: segs[i].h == Height(f(segs[i].port), maxHalf)
  }

  /** The upward stack of the first ports: which ports, and how high each and all. */
  ghost predicate UpStack(segs: seq<Segment>, up: real, f: int -> nat, ports: seq<int>, maxHalf: nat)
    requires maxHalf >= 1
  {
    && StackedUp(segs, up) && DrawnPorts(segs) == Positive(f, ports) && ToScale(segs, f, maxHalf)
    && up == CENTRE - Height(SumSeq(f, ports), maxHalf)
  }

  ghost predicate DownStack(segs: seq<Segment>, dn: real, f: int -> nat, ports: seq<int>, maxHalf: nat)
    requires maxHalf >= 1
  {
    && StackedDown(segs, dn) && DrawnPorts(segs) == Positive(f, ports) && ToScale(segs, f, maxHalf)
    && dn == CENTRE + Height(SumSeq(f, ports), maxHalf)
  }

  lemma ScaleGrows(segs: seq<Segment>, s: Segment, f: int -> nat, ports: seq<int>, maxHalf: nat)
    requires maxHalf >= 1 && ToScale(segs, f, maxHalf) && DrawnPorts(segs) == Positive(f, ports)
    ensures s.h == Height(f(s.port), maxHalf) ==> ToScale(segs + [s], f, maxHalf)
    ensures f(s.port) > 0 ==> DrawnPorts(segs + [s]) == Positive(f, ports + [s.port])
    ensures f(s.port) == 0 ==> DrawnPorts(segs) == Positive(f, ports + [s.port])
    ensures SumSeq(f, ports + [s.port]) == SumSeq(f, ports) + f(s.port)
  {
    hide Height;
    assert (ports + [s.port])[..|ports|] == ports;
    assert DrawnPorts(segs + [s]) == DrawnPorts(segs) + [s.port];
  }

  lemma UpStackGrows(ups: seq<Segment>, up: real, f: int -> nat, ports: seq<int>, p: int, maxHalf: nat)
    requires maxHalf >= 1 && UpStack(ups, up, f, ports, maxHalf)
    ensures var h := Height(f(p), maxHalf);
      if f(p) > 0 then UpStack(ups + [Segment(p, up - h, h)], up - h, f, ports + [p], maxHalf)
      else UpStack(ups, up, f, ports + [p], maxHalf)
  {
    hide Height, Positive, DrawnPorts, SumSeq, ToScale;
    var h := Height(f(p), maxHalf);
    HeightAdds(SumSeq(f, ports), f(p), maxHalf);
    HeightAdds(f(p), 0, maxHalf);
    ScaleGrows(ups, Segment(p, up - h, h), f, ports, maxHalf);
    assert (ups + [Segment(p, up - h, h)])[..|ups|] == ups;
  }

  lemma DownStackGrows(dns: seq<Segment>, dn: real, g: int -> nat, ports: seq<int>, p: int, maxHalf: nat)
    requires maxHalf >= 1 && DownStack(dns, dn, g, ports, maxHalf)
    ensures var h := Height(g(p), maxHalf);
      if g(p) > 0 then DownStack(dns + [Segment(p, dn, h)], dn + h, g, ports + [p], maxHalf)
      else DownStack(dns, dn, g, ports + [p], maxHalf)
  {
    hide Height, Positive, DrawnPorts, SumSeq, ToScale;
    var h := Height(g(p), maxHalf);
    HeightAdds(SumSeq(g, ports), g(p), maxHalf);
    HeightAdds(g(p), 0, maxHalf);
    ScaleGrows(dns, Segment(p, dn, h), g, ports, maxHalf);
    assert (dns + [Segment(p, dn, h)])[..|dns|] == dns;
  }

  lemma StackGrows(ups: seq<Segment>, up: real, dns: seq<Segment>, dn: real, f: int -> nat, g: int -> nat,
                   ports: seq<int>, p: int, maxHalf: nat)
    requires maxHalf >= 1 && UpStack(ups, up, f, ports, maxHalf) && DownStack(dns, dn, g, ports, maxHalf)
    ensures var h := Height(f(p), maxHalf);
      if f(p) > 0 then UpStack(ups + [Segment(p, up - h, h)], up - h, f, ports + [p], maxHalf)
      else UpStack(ups, up, f, ports + [p], maxHalf)
    ensures var h := Height(g(p), maxHalf);
      if g(p) > 0 then DownStack(dns + [Segment(p, dn, h)], dn + h, g, ports + [p], maxHalf)
      else DownStack(dns, dn, g, ports + [p], maxHalf)
  {
    hide UpStack, DownStack, Height;
    UpStackGrows(ups, up, f, ports, p, maxHalf);
    DownStackGrows(dns, dn, g, ports, p, maxHalf);
  }

  method DrawColumn(m: Column, ports: seq<int>, maxHalf: nat) returns (ups: seq<Segment>, dns: seq<Segment>)
    requires maxHalf >= 1
    ensures UpStack(ups, CENTRE - Height(SumSeq(InColumn(m, Direct), ports), maxHalf), InColumn(m, Direct), ports,
      maxHalf)
    ensures DownStack(dns, CENTRE + Height(SumSeq(InColumn(m, Relayed), ports), maxHalf), InColumn(m, Relayed), ports,
      maxHalf)
  {
    hide Height, StackedUp, StackedDown, Positive, DrawnPorts;
    ghost var f, g := InColumn(m, Direct), InColumn(m, Relayed);
    var up, dn := CENTRE, CENTRE;
    ups, dns := [], [];
    EmptyStacks(f, g, maxHalf);
    for i := 0 to |ports|
      invariant UpStack(ups, up, f, ports[..i], maxHalf) && DownStack(dns, dn, g, ports[..i], maxHalf)
    {
      var port := ports[i];
      assert ports[..i + 1] == ports[..i] + [port];
      StackGrows(ups, up, dns, dn, f, g, ports[..i], port, maxHalf);
      if port in m {
        var v := m[port];
        if v.direct > 0 {
          var h := Height(v.direct, maxHalf);
          ups := ups + [Segment(port, up - h, h)];
          up := up - h;
        }
        if v.relayed > 0 {
          var h := Height(v.relayed, maxHalf);
          dns := dns + [Segment(port, dn, h)];
          dn := dn + h;
        }
      }
    }
    assert ports[..|ports|] == ports;
  }

  lemma EmptyStacks(f: int -> nat, g: int -> nat, maxHalf: nat)
    requires maxHalf >= 1
    ensures UpStack([], CENTRE, f, [], maxHalf) && DownStack([], CENTRE, g, [], maxHalf)
  {
  }

  /** With every port listed once, no column reaches beyond the half height on either side. */
  lemma ColumnStaysWithin(byBucket: Buckets, b: string, ports: seq<int>, maxHalf: nat, side: Side)
    requires b in byBucket && maxHalf >= 1 && ColumnSum(byBucket[b], side) <= maxHalf
    requires byBucket[b].Keys <= Elements(ports) && forall i, j | 0 <= i < j < |ports| :: ports[i] != ports[j]
    ensures SumSeq(InColumn(byBucket[b], side), ports) == ColumnSum(byBucket[b], side)
    ensures 0.0 <= Height(SumSeq(InColumn(byBucket[b], side), ports), maxHalf) <= HALF
  {
    var f := InColumn(byBucket[b], side);
    SumSeqIsSumSet(f, ports);
    SumSupport(f, byBucket[b].Keys, Elements(ports));
    HeightAdds(SumSeq(f, ports), 0, maxHalf);
  }

  // The whole chart.

  datatype Bar = Bar(bucket: string, ups: seq<Segment>, dns: seq<Segment>)

  /** The segments are those of the ports with a count on that side, to scale and between two heights. */
  ghost predicate Shows(rows: seq<Row>, b: string, side: Side, segs: seq<Segment>, maxHalf: nat, lo: real, hi: real)
    requires maxHalf >= 1
  {
    && (forall s | s in segs :: lo <= s.y < s.y + s.h <= hi && s.h == Height(Shown(rows, b, s.port, side), maxHalf))
    && (forall p :: Shown(rows, b, p, side) > 0 <==> exists s | s in segs :: s.port == p)
  }

  /** From the centre line upwards, each segment resting on the one before it. */
  predicate PiledUp(segs: seq<Segment>) {
    && (segs != [] ==> segs[0].y + segs[0].h == CENTRE)
    && (forall i | 0 < i < |segs| :: segs[i].y + segs[i].h == segs[i - 1].y)
    && forall i, j | 0 <= i < j < |segs| :: segs[j].y + segs[j].h <= segs[i].y
  }

  /** From the centre line downwards, each segment hanging from the one before it. */
  predicate PiledDown(segs: seq<Segment>) {
    && (segs != [] ==> segs[0].y == CENTRE)
    && (forall i | 0 < i < |segs| :: segs[i - 1].y + segs[i - 1].h == segs[i].y)
    && forall i, j | 0 <= i < j < |segs| :: segs[i].y + segs[i].h <= segs[j].y
  }

  /**
   * A bar shows direct counts above the centre line and relayed ones below, within the chart, piled up
   * from the centre line without gaps or overlaps.
   */
  ghost predicate BarOf(rows: seq<Row>, bar: Bar, maxHalf: nat)
    requires maxHalf >= 1
  {
    && Shows(rows, bar.bucket, Direct, bar.ups, maxHalf, 20.0, 170.0)
    && Shows(rows, bar.bucket, Relayed, bar.dns, maxHalf, 170.0, 320.0)
    && PiledUp(bar.ups) && PiledDown(bar.dns)
  }

  lemma {:induction false} PositiveIs(f: int -> nat, ports: seq<int>)
    ensures forall p :: p in Positive(f, ports) <==> p in ports && f(p) > 0
  {
    if ports != [] {
      assert ports == ports[..|ports| - 1] + [ports[|ports| - 1]];
      PositiveIs(f, ports[..|ports| - 1]);
    }
  }

  lemma ColumnShows(rows: seq<Row>, m: Column, b: string, side: Side)
    requires forall p :: (if p in m then Some(m[p]) else None) == CountAt(rows, b, p)
    ensures forall p :: InColumn(m, side)(p) == Shown(rows, b, p, side)
  {
  }

  lemma DrawnIs(segs: seq<Segment>, f: int -> nat, ports: seq<int>)
    requires DrawnPorts(segs) == Positive(f, ports)
    ensures forall p :: p in ports && f(p) > 0 <==> exists s | s in segs :: s.port == p
  {
    PositiveIs(f, ports);
    forall p
      ensures p in DrawnPorts(segs) <==> exists s | s in segs :: s.port == p
    {
      if s :| s in segs && s.port == p {
        var i :| 0 <= i < |segs| && segs[i] == s;
        assert DrawnPorts(segs)[i] == p;
      }
      if p in DrawnPorts(segs) {
        var i :| 0 <= i < |segs| && DrawnPorts(segs)[i] == p;
        assert segs[i] in segs;
      }
    }
  }

  lemma SideShows(rows: seq<Row>, m: Column, b: string, side: Side, segs: seq<Segment>, ports: seq<int>, maxHalf: nat,
                  lo: real, hi: real)
    requires maxHalf >= 1 && forall p :: (if p in m then Some(m[p]) else None) == CountAt(rows, b, p)
    requires m.Keys <= Elements(ports)
    requires DrawnPorts(segs) == Positive(InColumn(m, side), ports) && ToScale(segs, InColumn(m, side), maxHalf)
    requires forall i | 0 <= i < |segs| :: lo <= segs[i].y < segs[i].y + segs[i].h <= hi
    ensures Shows(rows, b, side, segs, maxHalf, lo, hi)
  {
    hide Height, Positive, DrawnPorts, CountAt, Shown, InColumn;
    ColumnShows(rows, m, b, side);
    OffColumnIsZero(m, side);
    DrawnIs(segs, InColumn(m, side), ports);
  }

  lemma OffColumnIsZero(m: Column, side: Side)
    ensures forall p :: InColumn(m, side)(p) > 0 ==> p in m
  {
  }

  lemma UpStackPiles(segs: seq<Segment>, top: real)
    requires StackedUp(segs, top)
    ensures PiledUp(segs)
  {
    UpStackLies(segs, top);
  }

  lemma DownStackPiles(segs: seq<Segment>, bottom: real)
    requires StackedDown(segs, bottom)
    ensures PiledDown(segs)
  {
    DownStackLies(segs, bottom);
  }

  lemma BarIsRight(rows: seq<Row>, byBucket: Buckets, b: string, ports: seq<int>, maxHalf: nat, bar: Bar)
    requires b in byBucket && maxHalf >= 1 && bar.bucket == b && forall p ::
      Lookup(byBucket, b, p) == CountAt(rows, b, p)
    requires forall side: Side :: ColumnSum(byBucket[b], side) <= maxHalf
    requires Elements(ports) == PortsOf(rows) && forall i, j | 0 <= i < j < |ports| :: ports[i] != ports[j]
    requires var f := InColumn(byBucket[b], Direct);
      UpStack(bar.ups, CENTRE - Height(SumSeq(f, ports), maxHalf), f, ports, maxHalf)
    requires var g := InColumn(byBucket[b], Relayed);
      DownStack(bar.dns, CENTRE + Height(SumSeq(g, ports), maxHalf), g, ports, maxHalf)
    ensures BarOf(rows, bar, maxHalf)
  {
    hide Height, StackedUp, StackedDown, Positive, DrawnPorts, SumSeq, CountAt, ColumnSum, InColumn, Shows, ToScale;
    hide PiledUp, PiledDown;
    var m := byBucket[b];
    ColumnIsBucket(rows, byBucket, b, Direct);
    assert forall p :: (if p in m then Some(m[p]) else None) == Lookup(byBucket, b, p);
    ColumnStaysWithin(byBucket, b, ports, maxHalf, Direct);
    ColumnStaysWithin(byBucket, b, ports, maxHalf, Relayed);
    UpStackLies(bar.ups, CENTRE - Height(SumSeq(InColumn(m, Direct), ports), maxHalf));
    DownStackLies(bar.dns, CENTRE + Height(SumSeq(InColumn(m, Relayed), ports), maxHalf));
    UpStackPiles(bar.ups, CENTRE - Height(SumSeq(InColumn(m, Direct), ports), maxHalf));
    DownStackPiles(bar.dns, CENTRE + Height(SumSeq(InColumn(m, Relayed), ports), maxHalf));
    SideShows(rows, m, b, Direct, bar.ups, ports, maxHalf, CENTRE - HALF, CENTRE);
    SideShows(rows, m, b, Relayed, bar.dns, ports, maxHalf, CENTRE, CENTRE + HALF);
  }

  /** All bars, one per bucket, to one scale; `ports` is any listing of the ports. */
  method DrawChart(rows: seq<Row>, ports: seq<int>) returns (bars: seq<Bar>, maxHalf: nat)
    requires Elements(ports) == PortsOf(rows) && forall i, j | 0 <= i < j < |ports| :: ports[i] != ports[j]
    ensures maxHalf >= 1 && forall bar | bar in bars :: BarOf(rows, bar, maxHalf)
    ensures forall b, side: Side | b in BucketsOf(rows) :: BucketSum(rows, PortsOf(rows), b, side) <= maxHalf
    ensures maxHalf == 1 || exists b, side: Side | b in BucketsOf(rows) ::
      BucketSum(rows, PortsOf(rows), b, side) == maxHalf
    ensures (set bar | bar in bars :: bar.bucket) == BucketsOf(rows)
    ensures forall i, j | 0 <= i < j < |bars| :: bars[i].bucket != bars[j].bucket
  {
    hide BarOf, UpStack, DownStack, CountAt, PortTotal, ColumnSum, BucketSum, SumSeq, Height;
    var bucketList, byBucket, portTotals := Aggregate(rows);
    maxHalf := MaxHalf(byBucket);
    forall b, side: Side | b in byBucket
      ensures ColumnSum(byBucket[b], side) == BucketSum(rows, PortsOf(rows), b, side)
    {
      ColumnIsBucket(rows, byBucket, b, side);
    }
    bars := [];
    for i := 0 to |bucketList|
      invariant |bars| == i && forall k | 0 <= k < i :: bars[k].bucket == bucketList[k] && BarOf(rows, bars[k], maxHalf)
    {
      var b := bucketList[i];
      assert b in Elements(bucketList);
      var ups, dns := DrawColumn(byBucket[b], ports, maxHalf);
      BarIsRight(rows, byBucket, b, ports, maxHalf, Bar(b, ups, dns));
      bars := bars + [Bar(b, ups, dns)];
    }
    BarBuckets(bars, bucketList);
  }

  lemma BarBuckets(bars: seq<Bar>, bucketList: seq<string>)
    requires |bars| == |bucketList| && forall k | 0 <= k < |bars| :: bars[k].bucket == bucketList[k]
    ensures (set bar | bar in bars :: bar.bucket) == Elements(bucketList)
  {
    forall b | b in bucketList
      ensures b in (set bar | bar in bars :: bar.bucket)
    {
      var k :| 0 <= k < |bucketList| && bucketList[k] == b;
      assert bars[k] in bars;
    }
  }

  // The hover.

  function HoverIndex(rel: real, n: nat): int
    requires n >= 1
  {
    var idx := (rel * n as real).Floor;
    var low := if idx > 0 then idx else 0;
    if low < n - 1 then low else n - 1
  }

  /** The hover index is a column, and the one under the cursor when the cursor is over the chart. */
  lemma HoverIsColumn(rel: real, buckets: nat)
    ensures var n := Larger(buckets, 1); var i := HoverIndex(rel, n);
      && 0 <= i < n && (buckets > 0 ==> i < buckets)
      && (0.0 <= rel < 1.0 ==> i as real <= rel * n as real < i as real + 1.0)
  {
    var n := Larger(buckets, 1);
    if 0.0 <= rel < 1.0 {
      HoverScale(rel, n as real);
    }
  }

  lemma HoverScale(rel: real, n: real)
    requires 0.0 <= rel < 1.0 && n > 0.0
    ensures 0.0 <= rel * n < n
  {
  }
}
