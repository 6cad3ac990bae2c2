/**
 Flattening of glyph contours into edges and even-odd filling (drivers/font_ttf.c).
 Coordinates are mathematical integers.
 */
module Raster {

  const MAX_RASTER_EDGES: nat := 768
  const STEPS: int := 8

  datatype Point = Point(x: int, y: int, on: bool)
  datatype Edge = Edge(x0: int, y0: int, x1: int, y1: int)

  /** Points, and for each contour the index of its last point. */
  datatype Outline = Outline(points: seq<Point>, ends: seq<nat>)

  /** Division that truncates toward zero. */
  function Trunc(a: int, b: int): (q: int)
    requires b > 0
  {
    if a >= 0 then a / b else -(-a / b)
  }

  function Midpoint(a: Point, b: Point): (m: Point) {
    Point(Trunc(a.x + b.x, 2), Trunc(a.y + b.y, 2), true)
  }

  /** The point at parameter t/8 of a quadratic curve. */
  function CurvePoint(p0: Point, p1: Point, p2: Point, t: int): (p: Point) {
    var mt := STEPS - t;
    Point(Trunc(mt * mt * p0.x + 2 * mt * t * p1.x + t * t * p2.x, STEPS * STEPS),
          Trunc(mt * mt * p0.y + 2 * mt * t * p1.y + t * t * p2.y, STEPS * STEPS), true)
  }

  // ----- the edges a contour produces -----

  /** Horizontal edges are dropped; false means that the buffer was full. */
  function AddEdge(es: seq<Edge>, p: Point, q: Point): (r: (seq<Edge>, bool)) {
    if p.y == q.y then (es, true)
    else if |es| >= MAX_RASTER_EDGES then (es, false)
    else (es + [Edge(p.x, p.y, q.x, q.y)], true)
  }

  /** Steps t to 8 of a curve, coming from `previous`. */
  function AddCurve(es: seq<Edge>, p0: Point, p1: Point, p2: Point, previous: Point, t: int): (r: (seq<Edge>, bool))
    decreases STEPS + 1 - t
  {
    if t > STEPS then (es, true)
    else
      var next := CurvePoint(p0, p1, p2, t);
      var (es1, ok) := AddEdge(es, previous, next);
      if ok then AddCurve(es1, p0, p1, p2, next, t + 1) else (es1, false)
  }

  /** Where a contour begins: its first point, or a point on the curve before it. */
  function ContourStart(points: seq<Point>, start: nat, end: nat): (p: Point)
    requires start <= end < |points|
  {
    if points[start].on then points[start]
    else if points[end].on then points[end]
    else Midpoint(points[end], points[start])
  }

  /** The index after `index` on the contour, which wraps around. */
  function NextIndex(start: nat, end: nat, index: nat): (r: nat)
    requires start <= index <= end
    ensures start <= r <= end
  {
    start + (index - start + 1) % (end - start + 1)
  }

  /** The rest of a contour from point `index` on. */
  function AddFrom(es: seq<Edge>, points: seq<Point>, start: nat, end: nat, index: nat, current: Point, first: Point)
    : (r: (seq<Edge>, bool))
    requires start <= end < |points| && start <= index
    decreases end + 1 - index
  {
    if index > end then AddEdge(es, current, first)
    else
      var control := points[index];
      var next := points[NextIndex(start, end, index)];
      if control.on then
        var (es1, ok) := AddEdge(es, current, control);
        if ok then AddFrom(es1, points, start, end, index + 1, control, first) else (es1, false)
      else
        var target := if next.on then next else Midpoint(control, next);
        var (es1, ok) := AddCurve(es, current, control, target, current, 1);
        if ok then AddFrom(es1, points, start, end, index + (if next.on then 2 else 1), target, first) else (es1, false)
  }

  function AddContour(es: seq<Edge>, points: seq<Point>, start: nat, end: nat): (r: (seq<Edge>, bool)) {
    if start > end || end >= |points| then (es, false)
    else
      var first := ContourStart(points, start, end);
      AddFrom(es, points, start, end, start, first, first)
  }

  /** Contours i and up, the first of them beginning at point `start`. */
  function AddContours(es: seq<Edge>, o: Outline, i: nat, start: nat): (r: (seq<Edge>, bool))
    requires i <= |o.ends|
    decreases |o.ends| - i
  {
    if i == |o.ends| then (es, true)
    else
      var (es1, ok) := AddContour(es, o.points, start, o.ends[i]);
      if ok then AddContours(es1, o, i + 1, o.ends[i] + 1) else (es1, false)
  }

  function OutlineEdges(o: Outline): (r: (seq<Edge>, bool)) {
    AddContours([], o, 0, 0)
  }

  // ----- even-odd filling -----

  function Low(e: Edge): (r: Edge) { if e.y0 > e.y1 then Edge(e.x1, e.y1, e.x0, e.y0) else e }

  /** The horizontal line through y crosses the edge (closed below, open above). */
  predicate Crosses(e: Edge, y: int) {
    Low(e).y0 <= y < Low(e).y1
  }

  /** Where it does. */
  function Intersection(e: Edge, y: int): (x: int)
    requires Crosses(e, y)
  {
    var l := Low(e);
    l.x0 + Trunc((y - l.y0) * (l.x1 - l.x0), l.y1 - l.y0)
  }

  predicate Toggles(e: Edge, x: int, y: int) {
    Crosses(e, y) && x >= Intersection(e, y)
  }

  function CountToggles(es: seq<Edge>, x: int, y: int): (n: nat) {
    if es == [] then 0
    else CountToggles(es[..|es| - 1], x, y) + (if Toggles(es[|es| - 1], x, y) then 1 else 0)
  }

  function CountCrossings(es: seq<Edge>, y: int): (n: nat) {
    if es == [] then 0
    else CountCrossings(es[..|es| - 1], y) + (if Crosses(es[|es| - 1], y) then 1 else 0)
  }

  /** The even-odd rule. */
  predicate Inside(es: seq<Edge>, x: int, y: int) {
    CountToggles(es, x, y) % 2 == 1
  }

  // ----- parity -----

  function Side(p: Point, y: int): (b: nat) { if p.y <= y then 1 else 0 }

  /** Going from p to q changes the number of crossings by whether they lie on different sides. */
  ghost predicate PathParity(es: seq<Edge>, es': seq<Edge>, p: Point, q: Point, y: int) {
    CountCrossings(es', y) % 2 == (CountCrossings(es, y) + Side(p, y) + Side(q, y)) % 2
  }

  lemma EdgeParity(es: seq<Edge>, p: Point, q: Point, y: int)
    requires AddEdge(es, p, q).1
    ensures PathParity(es, AddEdge(es, p, q).0, p, q, y)
  {
    var e := Edge(p.x, p.y, q.x, q.y);
    assert (es + [e])[..|es|] == es;
  }

  lemma PathTrans(es0: seq<Edge>, es1: seq<Edge>, es2: seq<Edge>, p: Point, q: Point, r: Point, y: int)
    requires PathParity(es0, es1, p, q, y) && PathParity(es1, es2, q, r, y)
    ensures PathParity(es0, es2, p, r, y)
  {
    var a, b, c := CountCrossings(es0, y), CountCrossings(es1, y), CountCrossings(es2, y);
    var s, t, u := Side(p, y), Side(q, y), Side(r, y);
    assert (b + t + u) % 2 == (a + s + 2 * t + u) % 2;
  }

  lemma CurveEnds(p0: Point, p1: Point, p2: Point)
    ensures CurvePoint(p0, p1, p2, STEPS).x == p2.x && CurvePoint(p0, p1, p2, STEPS).y == p2.y
  {
    var c := CurvePoint(p0, p1, p2, STEPS);
    assert c.x == Trunc(64 * p2.x, 64) && c.y == Trunc(64 * p2.y, 64);
  }

  lemma SameHeight(es: seq<Edge>, es': seq<Edge>, p: Point, q: Point, r: Point, y: int)
    requires PathParity(es, es', p, q, y) && q.y == r.y
    ensures PathParity(es, es', p, r, y)
  {
  }

  lemma {:induction false} CurveParity(es: seq<Edge>, p0: Point, p1: Point, p2: Point, previous: Point, t: int, y: int)
    requires t <= STEPS && AddCurve(es, p0, p1, p2, previous, t).1
    ensures PathParity(es, AddCurve(es, p0, p1, p2, previous, t).0, previous, p2, y)
    decreases STEPS - t
  {
    hide CurvePoint, PathParity, AddEdge;
    var next := CurvePoint(p0, p1, p2, t);
    var es1 := AddEdge(es, previous, next).0;
    EdgeParity(es, previous, next, y);
    if t < STEPS {
      CurveParity(es1, p0, p1, p2, next, t + 1, y);
      PathTrans(es, es1, AddCurve(es1, p0, p1, p2, next, t + 1).0, previous, next, p2, y);
    } else {
      CurveEnds(p0, p1, p2);
      SameHeight(es, es1, previous, next, p2, y);
    }
  }

  lemma {:induction false} FromParity(es: seq<Edge>, points: seq<Point>, start: nat, end: nat, index: nat, current: Point, first: Point, y: int)
    requires start <= end < |points| && start <= index
    requires AddFrom(es, points, start, end, index, current, first).1
    ensures PathParity(es, AddFrom(es, points, start, end, index, current, first).0, current, first, y)
    decreases end + 1 - index
  {
    hide CurvePoint, AddCurve, AddEdge, Midpoint, PathParity, NextIndex;
    var result := AddFrom(es, points, start, end, index, current, first).0;
    if index > end {
      EdgeParity(es, current, first, y);
    } else {
      var control := points[index];
      var next := points[NextIndex(start, end, index)];
      if control.on {
        EdgeParity(es, current, control, y);
        var es1 := AddEdge(es, current, control).0;
        FromParity(es1, points, start, end, index + 1, control, first, y);
        PathTrans(es, es1, result, current, control, first, y);
      } else {
        var target := if next.on then next else Midpoint(control, next);
        CurveParity(es, current, control, target, current, 1, y);
        var es1 := AddCurve(es, current, control, target, current, 1).0;
        FromParity(es1, points, start, end, index + (if next.on then 2 else 1), target, first, y);
        PathTrans(es, es1, result, current, target, first, y);
      }
    }
  }

  lemma {:induction false} ContoursParity(es: seq<Edge>, o: Outline, i: nat, start: nat, y: int)
    requires i <= |o.ends| && AddContours(es, o, i, start).1
    ensures CountCrossings(AddContours(es, o, i, start).0, y) % 2 == CountCrossings(es, y) % 2
    decreases |o.ends| - i
  {
    hide AddFrom;
    if i < |o.ends| {
      var es1 := AddContour(es, o.points, start, o.ends[i]).0;
      var first := ContourStart(o.points, start, o.ends[i]);
      FromParity(es, o.points, start, o.ends[i], start, first, first, y);
      ContoursParity(es1, o, i + 1, o.ends[i] + 1, y);
    }
  }

  /** Each contour is closed, so every horizontal line crosses an even number of edges. */
  lemma EvenCrossings(o: Outline, y: int)
    requires OutlineEdges(o).1
    ensures CountCrossings(OutlineEdges(o).0, y) % 2 == 0
  {
    ContoursParity([], o, 0, 0, y);
  }

  // ----- outside stays outside -----

  lemma TruncBetween(a: int, d: int, w: int)
    requires 0 <= a < d
    ensures if w >= 0 then 0 <= Trunc(a * w, d) <= w else w <= Trunc(a * w, d) <= 0
  {
    if w >= 0 {
      ScaleDown(a, d, w);
    } else {
      assert a * w == -(a * -w);
      ScaleDown(a, d, -w);
    }
  }

  lemma ScaleDown(a: int, d: int, w: int)
    requires 0 <= a < d && w >= 0
    ensures 0 <= a * w && 0 <= a * w / d <= w
  {
    assert a * w >= 0;
    assert d * w - a * w == (d - a) * w >= 0;
    QuotientBound(a * w, d, w);
  }

  lemma QuotientBound(x: int, d: int, w: int)
    requires d > 0 && 0 <= x <= d * w
    ensures 0 <= x / d <= w
  {
    var q := x / d;
    assert x == d * q + x % d;
    assert q > w ==> d * (q - w) >= d;
  }

  /** The crossing lies between the ends of the edge. */
  lemma IntersectionBetween(e: Edge, y: int)
    requires Crosses(e, y)
    ensures (e.x0 <= Intersection(e, y) <= e.x1) || (e.x1 <= Intersection(e, y) <= e.x0)
  {
    var l := Low(e);
    TruncBetween(y - l.y0, l.y1 - l.y0, l.x1 - l.x0);
  }

  lemma {:induction false} TogglesLeft(es: seq<Edge>, x: int, y: int)
    requires forall e <- es :: x < e.x0 && x < e.x1
    ensures CountToggles(es, x, y) == 0
  {
    hide Intersection;
    if es != [] {
      var e := es[|es| - 1];
      assert e in es;
      if Crosses(e, y) {
        IntersectionBetween(e, y);
      }
      TogglesLeft(es[..|es| - 1], x, y);
    }
  }

  lemma {:induction false} TogglesRight(es: seq<Edge>, x: int, y: int)
    requires forall e <- es :: x >= e.x0 && x >= e.x1
    ensures CountToggles(es, x, y) == CountCrossings(es, y)
  {
    hide Intersection;
    if es != [] {
      var e := es[|es| - 1];
      assert e in es;
      if Crosses(e, y) {
        IntersectionBetween(e, y);
      }
      TogglesRight(es[..|es| - 1], x, y);
    }
  }

  /** A sample to the left of all edges, or at or to the right of all of them, is never inside. */
  lemma OutsideIsOutside(o: Outline, x: int, y: int)
    requires OutlineEdges(o).1
    requires (forall e <- OutlineEdges(o).0 :: x < e.x0 && x < e.x1) || (forall e <- OutlineEdges(o).0 :: x >= e.x0 && x >= e.x1)
    ensures !Inside(OutlineEdges(o).0, x, y)
  {
    var es := OutlineEdges(o).0;
    if forall e <- es :: x < e.x0 && x < e.x1 {
      TogglesLeft(es, x, y);
    } else {
      TogglesRight(es, x, y);
      EvenCrossings(o, y);
    }
  }

  // ----- when flattening fails -----

  /** What every decoded outline satisfies: the contour ends increase strictly up to the last point. */
  predicate WellFormed(o: Outline) {
    && (forall i :: 0 < i < |o.ends| ==> o.ends[i - 1] < o.ends[i])
    && (if o.ends == [] then o.points == [] else o.ends[|o.ends| - 1] + 1 == |o.points|)
  }

  lemma {:induction false} CurveFull(es: seq<Edge>, p0: Point, p1: Point, p2: Point, previous: Point, t: int)
    requires |es| <= MAX_RASTER_EDGES
    ensures var (es', ok) := AddCurve(es, p0, p1, p2, previous, t);
            |es'| <= MAX_RASTER_EDGES && (ok || |es'| == MAX_RASTER_EDGES)
    decreases STEPS + 1 - t
  {
    hide CurvePoint;
    if t <= STEPS {
      var next := CurvePoint(p0, p1, p2, t);
      CurveFull(AddEdge(es, previous, next).0, p0, p1, p2, next, t + 1);
    }
  }

  lemma {:induction false} FromFull(es: seq<Edge>, points: seq<Point>, start: nat, end: nat, index: nat, current: Point, first: Point)
    requires start <= end < |points| && start <= index && |es| <= MAX_RASTER_EDGES
    ensures var (es', ok) := AddFrom(es, points, start, end, index, current, first);
            |es'| <= MAX_RASTER_EDGES && (ok || |es'| == MAX_RASTER_EDGES)
    decreases end + 1 - index
  {
    hide CurvePoint, AddCurve, Midpoint;
    if index <= end {
      var control := points[index];
      var next := points[NextIndex(start, end, index)];
      if control.on {
        FromFull(AddEdge(es, current, control).0, points, start, end, index + 1, control, first);
      } else {
        var target := if next.on then next else Midpoint(control, next);
        CurveFull(es, current, control, target, current, 1);
        FromFull(AddCurve(es, current, control, target, current, 1).0, points, start, end,
                 index + (if next.on then 2 else 1), target, first);
      }
    }
  }

  lemma {:induction false} ContoursFull(es: seq<Edge>, o: Outline, i: nat, start: nat)
    requires WellFormed(o) && i <= |o.ends| && |es| <= MAX_RASTER_EDGES
    requires start == if i == 0 then 0 else o.ends[i - 1] + 1
    ensures var (es', ok) := AddContours(es, o, i, start);
            |es'| <= MAX_RASTER_EDGES && (ok || |es'| == MAX_RASTER_EDGES)
    decreases |o.ends| - i
  {
    hide AddFrom, ContourStart;
    if i < |o.ends| {
      EndsBelow(o, i);
      var first := ContourStart(o.points, start, o.ends[i]);
      FromFull(es, o.points, start, o.ends[i], start, first, first);
      ContoursFull(AddContour(es, o.points, start, o.ends[i]).0, o, i + 1, o.ends[i] + 1);
    }
  }

  lemma {:induction false} EndsBelow(o: Outline, i: nat)
    requires WellFormed(o) && i < |o.ends|
    ensures o.ends[i] < |o.points|
    decreases |o.ends| - i
  {
    if i + 1 < |o.ends| {
      EndsBelow(o, i + 1);
      assert o.ends[i + 1 - 1] < o.ends[i + 1];
    }
  }

  /** Flattening a well-formed outline fails only when the edge buffer is full. */
  lemma FailsOnlyWhenFull(o: Outline)
    requires WellFormed(o) && !OutlineEdges(o).1
    ensures |OutlineEdges(o).0| == MAX_RASTER_EDGES
  {
    ContoursFull([], o, 0, 0);
  }
}
