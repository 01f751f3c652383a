// Zoom and pan of the mesh canvas, over exact reals.
module Viewport {
  datatype Pt = Pt(x: real, y: real)

  /** A world point (x, y) is drawn at (x * zoom + panX, y * zoom + panY). */
  datatype View = View(zoom: real, panX: real, panY: real)

  const MIN_ZOOM := 0.1
  const MAX_ZOOM := 6.0
  const FOCUS_ZOOM := 1.2

  function Min(a: real, b: real): real { if b < a then b else a }
  function Max(a: real, b: real): real { if b > a then b else a }

  predicate ZoomInRange(v: View) { MIN_ZOOM <= v.zoom <= MAX_ZOOM }

  function Drawn(x: real, zoom: real, pan: real): real { x * zoom + pan }

  function Screen(v: View, p: Pt): Pt {
    Pt(Drawn(p.x, v.zoom, v.panX), Drawn(p.y, v.zoom, v.panY))
  }

  function WorldAt(v: View, px: real, py: real): Pt
    requires v.zoom > 0.0
  {
    Pt((px - v.panX) / v.zoom, (py - v.panY) / v.zoom)
  }

  /** Drawing a point and asking what lies there are inverse to one another. */
  lemma ScreenWorldRoundTrip(v: View, p: Pt, px: real, py: real)
    requires v.zoom > 0.0
    ensures WorldAt(v, Screen(v, p).x, Screen(v, p).y) == p
    ensures Screen(v, WorldAt(v, px, py)) == Pt(px, py)
  {
    assert p.x * v.zoom / v.zoom == p.x && p.y * v.zoom / v.zoom == p.y;
  }

  // The four view changes.

  /** The pan that keeps screen coordinate `p` over the same world coordinate at the new zoom. */
  function AnchorPan(p: real, pan: real, zoom: real, nz: real): real
    requires zoom > 0.0
  {
    p - (p - pan) / zoom * nz
  }

  function Wheel(v: View, px: real, py: real, zoomIn: bool): View
    requires v.zoom > 0.0
  {
    var factor := if zoomIn then 1.1 else 1.0 / 1.1;
    var nz := Max(MIN_ZOOM, Min(MAX_ZOOM, v.zoom * factor));
    View(nz, AnchorPan(px, v.panX, v.zoom, nz), AnchorPan(py, v.panY, v.zoom, nz))
  }

  function Pan(v: View, dx: real, dy: real): View {
    v.(panX := v.panX + dx, panY := v.panY + dy)
  }

  function CenterPan(w: real, c: real, zoom: real): real {
    w / 2.0 - c * zoom
  }

  function Recenter(v: View, w: real, h: real, c: Pt): View {
    v.(panX := CenterPan(w, c.x, v.zoom), panY := CenterPan(h, c.y, v.zoom))
  }

  function Focus(v: View, w: real, h: real, c: Pt): View {
    Recenter(v.(zoom := Max(v.zoom, FOCUS_ZOOM)), w, h, c)
  }

  datatype Box = Box(minX: real, minY: real, maxX: real, maxY: real)

  function Grow(b: Box, p: Pt): Box {
    Box(Min(b.minX, p.x), Min(b.minY, p.y), Max(b.maxX, p.x), Max(b.maxY, p.y))
  }

  function Bounds(pts: seq<Pt>): Box
    requires pts != []
  {
    if |pts| == 1 then Box(pts[0].x, pts[0].y, pts[0].x, pts[0].y)
    else Grow(Bounds(pts[..|pts| - 1]), pts[|pts| - 1])
  }

  /** The zoom that would show the box, before clamping. */
  function RawFit(b: Box, count: nat, w: real, h: real): real {
    var spanX, spanY := Max(1.0, b.maxX - b.minX), Max(1.0, b.maxY - b.minY);
    Min(w / spanX, h / spanY) * if count <= 2 then 0.35 else 0.75
  }

  function FitBox(b: Box, count: nat, w: real, h: real): View {
    var zoom := Min(MAX_ZOOM, Max(MIN_ZOOM, RawFit(b, count, w, h)));
    View(zoom, CenterPan(w, (b.minX + b.maxX) / 2.0, zoom), CenterPan(h, (b.minY + b.maxY) / 2.0, zoom))
  }

  function Fit(v: View, w: real, h: real, pts: seq<Pt>): View {
    if pts == [] then v else FitBox(Bounds(pts), |pts|, w, h)
  }

  // Runs.

  datatype Event =
    | Wheeled(px: real, py: real, zoomIn: bool)
    | Panned(dx: real, dy: real)
    | Fitted(w: real, h: real, pts: seq<Pt>)
    | Focused(w: real, h: real, c: Pt)
    | Recentered(w: real, h: real, c: Pt)

  function Apply(v: View, e: Event): View
    requires v.zoom > 0.0
  {
    match e
    case Wheeled(px, py, zoomIn) => Wheel(v, px, py, zoomIn)
    case Panned(dx, dy) => Pan(v, dx, dy)
    case Fitted(w, h, pts) => Fit(v, w, h, pts)
    case Focused(w, h, c) => Focus(v, w, h, c)
    case Recentered(w, h, c) => Recenter(v, w, h, c)
  }

  /** The zoom stays within its limits over every run, so no step divides by a zero zoom. */
  function Run(v: View, events: seq<Event>): (r: View)
    requires ZoomInRange(v)
    ensures ZoomInRange(r)
  {
    if events == [] then v else Apply(Run(v, events[..|events| - 1]), events[|events| - 1])
  }

  lemma Scale(a: real, z: real, nz: real)
    requires z > 0.0 && nz > 0.0
    ensures (a / z * nz) / nz == a / z
  {
  }

  /** A wheel step keeps the world point under the cursor where it is. */
  lemma WheelKeepsCursor(v: View, px: real, py: real, zoomIn: bool)
    requires v.zoom > 0.0
    ensures WorldAt(Wheel(v, px, py, zoomIn), px, py) == WorldAt(v, px, py)
  {
    var nz := Wheel(v, px, py, zoomIn).zoom;
    Scale(px - v.panX, v.zoom, nz);
    Scale(py - v.panY, v.zoom, nz);
  }

  /** Any burst of wheel steps at one cursor position does, clamped or not. */
  lemma {:induction false} WheelBurstKeepsCursor(v: View, events: seq<Event>, px: real, py: real)
    requires ZoomInRange(v)
    requires forall e | e in events :: e.Wheeled? && e.px == px && e.py == py
    ensures WorldAt(Run(v, events), px, py) == WorldAt(v, px, py)
  {
    if events != [] {
      var last := events[|events| - 1];
      assert last in events;
      WheelBurstKeepsCursor(v, events[..|events| - 1], px, py);
      WheelKeepsCursor(Run(v, events[..|events| - 1]), px, py, last.zoomIn);
    }
  }

  /** Zooming in and back out returns to the same view exactly when the ceiling was not hit. */
  lemma WheelInOut(v: View, px: real, py: real)
    requires ZoomInRange(v)
    ensures Wheel(Wheel(v, px, py, true), px, py, false) == v <==> v.zoom * 1.1 <= MAX_ZOOM
  {
    var v1 := Wheel(v, px, py, true);
    var v2 := Wheel(v1, px, py, false);
    WheelKeepsCursor(v, px, py, true);
    WheelKeepsCursor(v1, px, py, false);
    if v.zoom * 1.1 <= MAX_ZOOM {
      assert v1.zoom == v.zoom * 1.1;
      assert v2.zoom == v.zoom;
      SamePan(px, v2.panX, v.panX, v.zoom);
      SamePan(py, v2.panY, v.panY, v.zoom);
    } else {
      assert v1.zoom == MAX_ZOOM;
      assert v2.zoom < v.zoom;
    }
  }

  lemma SamePan(p: real, a: real, b: real, z: real)
    requires z > 0.0 && (p - a) / z == (p - b) / z
    ensures a == b
  {
    assert (p - a) / z * z == (p - b) / z * z;
  }

  // What a fit shows.

  predicate Within(x: real, w: real) { 0.0 <= x <= w }

  predicate OnAxis(x: real, zoom: real, pan: real, w: real) {
    Within(Drawn(x, zoom, pan), w)
  }

  /** The point is drawn on the canvas. */
  predicate Inside(v: View, w: real, h: real, p: Pt) {
    var s := Screen(v, p);
    Within(s.x, w) && Within(s.y, h)
  }

  lemma InsideIs(v: View, w: real, h: real, p: Pt)
    ensures Inside(v, w, h, p) <==> OnAxis(p.x, v.zoom, v.panX, w) && OnAxis(p.y, v.zoom, v.panY, h)
  {
    hide Drawn;
  }

  /** A stretch of the world is no longer than the canvas once zoomed. */
  predicate Spans(lo: real, hi: real, zoom: real, w: real) {
    (hi - lo) * zoom <= w
  }

  lemma {:induction false} BoundsAreTight(pts: seq<Pt>)
    requires pts != []
    ensures forall p | p in pts ::
      Bounds(pts).minX <= p.x <= Bounds(pts).maxX && Bounds(pts).minY <= p.y <= Bounds(pts).maxY
    ensures (exists p | p in pts :: p.x == Bounds(pts).minX) && (exists p | p in pts :: p.x == Bounds(pts).maxX)
    ensures (exists p | p in pts :: p.y == Bounds(pts).minY) && (exists p | p in pts :: p.y == Bounds(pts).maxY)
  {
    if |pts| > 1 {
      var rest, last := pts[..|pts| - 1], pts[|pts| - 1];
      assert pts == rest + [last];
      BoundsAreTight(rest);
      forall p | p in rest ensures p in pts {}
    } else {
      assert pts[0] in pts;
    }
  }

  lemma Monotone(a: real, b: real, z: real)
    requires a <= b && z >= 0.0
    ensures a * z <= b * z
  {
  }

  /** Along one axis: a centred interval is on the canvas exactly when its zoomed length fits. */
  lemma CentredPoint(lo: real, hi: real, w: real, z: real, x: real)
    requires lo <= x <= hi && z > 0.0 && Spans(lo, hi, z, w)
    ensures OnAxis(x, z, CenterPan(w, (lo + hi) / 2.0, z), w)
  {
    var d, half := x - (lo + hi) / 2.0, (hi - lo) / 2.0;
    assert x * z + CenterPan(w, (lo + hi) / 2.0, z) == w / 2.0 + d * z;
    Monotone(d, half, z);
    Monotone(-half, d, z);
  }

  lemma CentredEnd(lo: real, hi: real, w: real, z: real)
    requires OnAxis(hi, z, CenterPan(w, (lo + hi) / 2.0, z), w)
    ensures Spans(lo, hi, z, w)
  {
    assert hi * z + CenterPan(w, (lo + hi) / 2.0, z) == w / 2.0 + (hi - lo) * z / 2.0;
  }

  /** After a fit every fitted node is on the canvas exactly when the zoomed extent is no larger. */
  lemma FitSpans(v: View, w: real, h: real, pts: seq<Pt>)
    requires pts != []
    ensures var f, b := Fit(v, w, h, pts), Bounds(pts);
      (forall p | p in pts :: Inside(f, w, h, p)) <==>
        Spans(b.minX, b.maxX, f.zoom, w) && Spans(b.minY, b.maxY, f.zoom, h)
  {
    hide Bounds, RawFit, Inside, OnAxis, Spans, CenterPan;
    var f, b := Fit(v, w, h, pts), Bounds(pts);
    BoundsAreTight(pts);
    if Spans(b.minX, b.maxX, f.zoom, w) && Spans(b.minY, b.maxY, f.zoom, h) {
      forall p | p in pts
        ensures Inside(f, w, h, p)
      {
        CentredPoint(b.minX, b.maxX, w, f.zoom, p.x);
        CentredPoint(b.minY, b.maxY, h, f.zoom, p.y);
        InsideIs(f, w, h, p);
      }
    }
    if forall p | p in pts :: Inside(f, w, h, p) {
      forall p | p in pts
        ensures OnAxis(p.x, f.zoom, f.panX, w) && OnAxis(p.y, f.zoom, f.panY, h)
      {
        InsideIs(f, w, h, p);
      }
      CentredEnd(b.minX, b.maxX, w, f.zoom);
      CentredEnd(b.minY, b.maxY, h, f.zoom);
    }
  }

  lemma PositiveFactor(a: real, k: real)
    requires a * k > 0.0 && k > 0.0
    ensures a > 0.0
  {
    if a <= 0.0 { Monotone(a, 0.0, k); }
  }

  lemma RawBelow(q: real, other: real, k: real, zoom: real)
    requires 0.0 < k <= 1.0 && 0.0 < zoom <= Min(q, other) * k
    ensures zoom <= q
  {
    var m := Min(q, other);
    PositiveFactor(m, k);
    Monotone(k, 1.0, m);
    assert m * k == k * m;
  }

  lemma RawFitSpans(lo: real, hi: real, w: real, other: real, k: real, zoom: real)
    requires lo <= hi && 0.0 < k <= 1.0
    requires 0.0 < zoom <= Min(w / Max(1.0, hi - lo), other) * k
    ensures Spans(lo, hi, zoom, w)
  {
    var span := Max(1.0, hi - lo);
    RawBelow(w / span, other, k, zoom);
    Monotone(hi - lo, span, zoom);
    Monotone(zoom, w / span, span);
    assert w / span * span == w;
  }

  /** A fit that the 0.1 floor does not cut off shows every node. */
  lemma UnflooredFitShowsAll(v: View, w: real, h: real, pts: seq<Pt>)
    requires pts != [] && RawFit(Bounds(pts), |pts|, w, h) >= MIN_ZOOM
    ensures forall p | p in pts :: Inside(Fit(v, w, h, pts), w, h, p)
  {
    hide Bounds, Inside, Spans, CenterPan;
    var b, f := Bounds(pts), Fit(v, w, h, pts);
    var qX, qY := w / Max(1.0, b.maxX - b.minX), h / Max(1.0, b.maxY - b.minY);
    var k := if |pts| <= 2 then 0.35 else 0.75;
    BoundsAreTight(pts);
    assert pts[0] in pts;
    assert Min(qX, qY) == Min(qY, qX);
    RawFitSpans(b.minX, b.maxX, w, qY, k, f.zoom);
    RawFitSpans(b.minY, b.maxY, h, qX, k, f.zoom);
    FitSpans(v, w, h, pts);
  }

  /**
   * After a fit every fitted node is on the canvas if and only if the floor of 0.1 did not cut the fit
   * off, or the nodes fit on the canvas at that zoom all the same.
   */
  lemma FitShowsAll(v: View, w: real, h: real, pts: seq<Pt>)
    requires pts != []
    ensures var b := Bounds(pts);
      (forall p | p in pts :: Inside(Fit(v, w, h, pts), w, h, p)) <==>
      RawFit(b, |pts|, w, h) >= MIN_ZOOM || ((b.maxX - b.minX) * MIN_ZOOM <= w && (b.maxY - b.minY) * MIN_ZOOM <= h)
  {
    hide Bounds, Inside, RawFit, CenterPan;
    FitSpans(v, w, h, pts);
    if RawFit(Bounds(pts), |pts|, w, h) >= MIN_ZOOM { UnflooredFitShowsAll(v, w, h, pts); }
  }

  // What each view change does to what is drawn.

  /** The world's origin is drawn at the pan, and distances are drawn zoomed. */
  lemma ScreenScales(v: View, p: Pt, q: Pt)
    ensures Screen(v, Pt(0.0, 0.0)) == Pt(v.panX, v.panY)
    ensures Screen(v, p).x - Screen(v, q).x == v.zoom * (p.x - q.x)
    ensures Screen(v, p).y - Screen(v, q).y == v.zoom * (p.y - q.y)
  {
  }

  /** A pan moves everything drawn by the same amount. */
  lemma PanMoves(v: View, dx: real, dy: real, p: Pt)
    ensures Screen(Pan(v, dx, dy), p) == Pt(Screen(v, p).x + dx, Screen(v, p).y + dy)
  {
  }

  /** Re-centring draws the point in the middle of the canvas without zooming; focusing zooms in to at least 1.2. */
  lemma FocusLands(v: View, w: real, h: real, c: Pt)
    ensures Screen(Recenter(v, w, h, c), c) == Pt(w / 2.0, h / 2.0) && Recenter(v, w, h, c).zoom == v.zoom
    ensures Screen(Focus(v, w, h, c), c) == Pt(w / 2.0, h / 2.0)
    ensures Focus(v, w, h, c).zoom == if v.zoom < 1.2 then 1.2 else v.zoom
  {
  }

  /** A wheel step zooms by a tenth, in or out, within the limits. */
  lemma WheelZooms(v: View, px: real, py: real, zoomIn: bool)
    requires v.zoom > 0.0
    ensures var z, nz := if zoomIn then v.zoom * 1.1 else v.zoom / 1.1, Wheel(v, px, py, zoomIn).zoom;
      nz == if z > 6.0 then 6.0 else if z < 0.1 then 0.1 else z
  {
    assert v.zoom * (1.0 / 1.1) == v.zoom / 1.1;
  }

  lemma FitsBox(zoom: real, w: real, h: real, x: real, y: real, k: real)
    requires x > 0.0 && y > 0.0 && k > 0.0
    ensures zoom <= Min(w / x, h / y) * k <==> zoom * x <= k * w && zoom * y <= k * h
  {
    FitsSide(zoom, w, x, k);
    FitsSide(zoom, h, y, k);
    SmallerTimes(w / x, h / y, k);
  }

  lemma SmallerTimes(a: real, b: real, k: real)
    requires k > 0.0
    ensures Min(a, b) * k == Min(a * k, b * k)
  {
    if a <= b { Monotone(a, b, k); } else { Monotone(b, a, k); }
  }

  lemma FitsSide(zoom: real, w: real, x: real, k: real)
    requires x > 0.0
    ensures zoom <= w / x * k <==> zoom * x <= k * w
  {
    assert w / x * k * x == k * w;
    if zoom <= w / x * k { Monotone(zoom, w / x * k, x); }
    if zoom > w / x * k {
      assert (zoom - w / x * k) * x > 0.0;
    }
  }

  /**
   * How large a fit is: unless a zoom limit stops it, the nodes take up three quarters of the canvas in the
   * direction that is tighter for them, or 35 percent for one or two nodes; a direction counts at least 1.
   */
  lemma FitFills(v: View, w: real, h: real, pts: seq<Pt>, z: real)
    requires pts != [] && 0.1 <= z <= 6.0
    ensures var b := Bounds(pts);
      var spanX := if b.maxX - b.minX > 1.0 then b.maxX - b.minX else 1.0;
      var spanY := if b.maxY - b.minY > 1.0 then b.maxY - b.minY else 1.0;
      var share := if |pts| <= 2 then 0.35 else 0.75;
      z <= Fit(v, w, h, pts).zoom <==> z == 0.1 || (z * spanX <= share * w && z * spanY <= share * h)
    ensures 0.1 <= Fit(v, w, h, pts).zoom <= 6.0
  {
    hide Bounds, RawFit, Min, Max;
    RawFits(Bounds(pts), |pts|, w, h, z);
    ClampAdmits(RawFit(Bounds(pts), |pts|, w, h), z);
  }

  lemma RawFits(b: Box, count: nat, w: real, h: real, z: real)
    ensures var spanX := if b.maxX - b.minX > 1.0 then b.maxX - b.minX else 1.0;
      var spanY := if b.maxY - b.minY > 1.0 then b.maxY - b.minY else 1.0;
      var share := if count <= 2 then 0.35 else 0.75;
      z <= RawFit(b, count, w, h) <==> z * spanX <= share * w && z * spanY <= share * h
  {
    hide Min;
    var spanX, spanY := Max(1.0, b.maxX - b.minX), Max(1.0, b.maxY - b.minY);
    FitsBox(z, w, h, spanX, spanY, if count <= 2 then 0.35 else 0.75);
  }

  lemma ClampAdmits(raw: real, z: real)
    requires 0.1 <= z <= 6.0
    ensures z <= Min(MAX_ZOOM, Max(MIN_ZOOM, raw)) <==> z == 0.1 || z <= raw
    ensures 0.1 <= Min(MAX_ZOOM, Max(MIN_ZOOM, raw)) <= 6.0
  {
  }

  /** After a fit the middle of the nodes' extent is drawn in the middle of the canvas. */
  lemma FitCentres(v: View, w: real, h: real, pts: seq<Pt>)
    requires pts != []
    ensures var b := Bounds(pts);
      Screen(Fit(v, w, h, pts), Pt((b.minX + b.maxX) / 2.0, (b.minY + b.maxY) / 2.0)) == Pt(w / 2.0, h / 2.0)
  {
    hide Bounds, RawFit, Drawn, CenterPan;
    var b, z := Bounds(pts), Fit(v, w, h, pts).zoom;
    CentreDrawn(w, (b.minX + b.maxX) / 2.0, z);
    CentreDrawn(h, (b.minY + b.maxY) / 2.0, z);
  }

  lemma CentreDrawn(w: real, c: real, z: real)
    ensures Drawn(c, z, CenterPan(w, c, z)) == w / 2.0
  {
  }
}
