/**
 Flattening stays inside the box of the outline's points, curves and rounding included, so
 nothing outside that box is ever filled (drivers/font_ttf.c).
 */
module RasterBounds {
  import opened Raster

  datatype Box = Box(left: int, bottom: int, right: int, top: int)

  predicate Within(b: Box, p: Point) { b.left <= p.x <= b.right && b.bottom <= p.y <= b.top }

  predicate AllWithin(b: Box, points: seq<Point>) { forall i :: 0 <= i < |points| ==> Within(b, points[i]) }

  predicate EdgeWithin(b: Box, e: Edge) {
    b.left <= e.x0 <= b.right && b.left <= e.x1 <= b.right && b.bottom <= e.y0 <= b.top && b.bottom <= e.y1 <= b.top
  }

  predicate EdgesWithin(b: Box, es: seq<Edge>) { forall e <- es :: EdgeWithin(b, e) }

  lemma TruncWithin(v: int, n: int, low: int, high: int)
    requires n > 0 && n * low <= v <= n * high
    ensures low <= Trunc(v, n) <= high
  {
    if v >= 0 {
      FloorWithin(v, n, low, high);
    } else {
      assert n * -high == -(n * high) && n * -low == -(n * low);
      FloorWithin(-v, n, -high, -low);
    }
  }

  lemma FloorWithin(v: nat, n: int, low: int, high: int)
    requires n > 0 && n * low <= v <= n * high
    ensures low <= v / n <= high
  {
    assert v == n * (v / n) + v % n;
    Between(n, v / n, low, v);
    Between(n, high, v / n, v);
  }

  /** n * low <= v and v is less than n above n * q, so low cannot exceed q. */
  lemma Between(n: int, q: int, low: int, v: int)
    requires n > 0 && n * low <= v < n * q + n
    ensures low <= q
  {
    assert low > q ==> n * (low - q - 1) >= 0;
  }

  /** A weighted sum with weights mt*mt, 2*mt*t and t*t lies between 64 times the bounds. */
  lemma WeightedWithin(t: int, a: int, b: int, c: int, low: int, high: int)
    requires 0 <= t <= 8 && low <= a <= high && low <= b <= high && low <= c <= high
    ensures var mt := 8 - t;
            64 * low <= mt * mt * a + 2 * mt * t * b + t * t * c <= 64 * high
  {
    var mt := 8 - t;
    SquareOfSum(mt, t);
    Mean(mt * mt, 2 * mt * t, t * t, a, b, c, low, high);
  }

  lemma Mean(u: int, v: int, w: int, a: int, b: int, c: int, low: int, high: int)
    requires u >= 0 && v >= 0 && w >= 0 && u + v + w == 64 && low <= a <= high && low <= b <= high && low <= c <= high
    ensures 64 * low <= u * a + v * b + w * c <= 64 * high
  {
    Scaled(u, low, a, high);
    Scaled(v, low, b, high);
    Scaled(w, low, c, high);
    Shared(u, v, w, low);
    Shared(u, v, w, high);
  }

  lemma Shared(u: int, v: int, w: int, z: int)
    ensures u * z + v * z + w * z == (u + v + w) * z
  {
  }

  lemma SquareOfSum(s: int, t: int)
    requires 0 <= s && 0 <= t && s + t == 8
    ensures s * s + 2 * s * t + t * t == 64 && s * s >= 0 && 2 * s * t >= 0 && t * t >= 0
  {
    assert (s + t) * 8 == 64;
    assert (s + t) * (s + t) == s * s + 2 * s * t + t * t;
  }

  lemma Scaled(u: int, low: int, a: int, high: int)
    requires u >= 0 && low <= a <= high
    ensures u * low <= u * a <= u * high
  {
    assert u * (a - low) >= 0 && u * (high - a) >= 0;
  }

  lemma CurveWithin(b: Box, p0: Point, p1: Point, p2: Point, t: int)
    requires 0 <= t <= STEPS && Within(b, p0) && Within(b, p1) && Within(b, p2)
    ensures Within(b, CurvePoint(p0, p1, p2, t))
  {
    var mt := STEPS - t;
    WeightedWithin(t, p0.x, p1.x, p2.x, b.left, b.right);
    WeightedWithin(t, p0.y, p1.y, p2.y, b.bottom, b.top);
    TruncWithin(mt * mt * p0.x + 2 * mt * t * p1.x + t * t * p2.x, 64, b.left, b.right);
    TruncWithin(mt * mt * p0.y + 2 * mt * t * p1.y + t * t * p2.y, 64, b.bottom, b.top);
  }

  lemma MidpointWithin(b: Box, p: Point, q: Point)
    requires Within(b, p) && Within(b, q)
    ensures Within(b, Midpoint(p, q))
  {
    TruncWithin(p.x + q.x, 2, b.left, b.right);
    TruncWithin(p.y + q.y, 2, b.bottom, b.top);
  }

  lemma {:induction false} AddCurveWithin(b: Box, es: seq<Edge>, p0: Point, p1: Point, p2: Point, previous: Point, t: int)
    requires EdgesWithin(b, es) && Within(b, p0) && Within(b, p1) && Within(b, p2) && Within(b, previous) && 0 <= t
    ensures EdgesWithin(b, AddCurve(es, p0, p1, p2, previous, t).0)
    decreases STEPS + 1 - t
  {
    hide CurvePoint;
    if t <= STEPS {
      CurveWithin(b, p0, p1, p2, t);
      var next := CurvePoint(p0, p1, p2, t);
      AddCurveWithin(b, AddEdge(es, previous, next).0, p0, p1, p2, next, t + 1);
    }
  }

  lemma {:induction false} AddFromWithin(b: Box, es: seq<Edge>, points: seq<Point>, start: nat, end: nat, index: nat, current: Point, first: Point)
    requires start <= end < |points| && start <= index
    requires AllWithin(b, points) && EdgesWithin(b, es) && Within(b, current) && Within(b, first)
    ensures EdgesWithin(b, AddFrom(es, points, start, end, index, current, first).0)
    decreases end + 1 - index
  {
    hide AddCurve, Midpoint;
    if index <= end {
      var control := points[index];
      var next := points[NextIndex(start, end, index)];
      if control.on {
        AddFromWithin(b, AddEdge(es, current, control).0, points, start, end, index + 1, control, first);
      } else {
        MidpointWithin(b, control, next);
        var target := if next.on then next else Midpoint(control, next);
        AddCurveWithin(b, es, current, control, target, current, 1);
        AddFromWithin(b, AddCurve(es, current, control, target, current, 1).0, points, start, end,
                      index + (if next.on then 2 else 1), target, first);
      }
    }
  }

  lemma {:induction false} ContoursWithin(b: Box, es: seq<Edge>, o: Outline, i: nat, start: nat)
    requires i <= |o.ends| && AllWithin(b, o.points) && EdgesWithin(b, es)
    ensures EdgesWithin(b, AddContours(es, o, i, start).0)
    decreases |o.ends| - i
  {
    hide AddFrom, Midpoint;
    if i < |o.ends| {
      var end := o.ends[i];
      if start <= end < |o.points| {
        MidpointWithin(b, o.points[end], o.points[start]);
        var first := ContourStart(o.points, start, end);
        AddFromWithin(b, es, o.points, start, end, start, first, first);
      }
      ContoursWithin(b, AddContour(es, o.points, start, end).0, o, i + 1, end + 1);
    }
  }

  lemma {:induction false} NoCrossing(es: seq<Edge>, x: int, y: int)
    requires forall e <- es :: !Crosses(e, y)
    ensures CountToggles(es, x, y) == 0
  {
    if es != [] {
      assert es[|es| - 1] in es;
      NoCrossing(es[..|es| - 1], x, y);
    }
  }

  /** Only samples inside the box of the outline's points are filled; its right and top sides are open. */
  lemma FilledWithinBox(b: Box, o: Outline, x: int, y: int)
    requires AllWithin(b, o.points) && OutlineEdges(o).1 && Inside(OutlineEdges(o).0, x, y)
    ensures b.left <= x < b.right && b.bottom <= y < b.top
  {
    hide AddContours, CountToggles, Intersection;
    var es := OutlineEdges(o).0;
    ContoursWithin(b, [], o, 0, 0);
    assert forall e <- es :: EdgeWithin(b, e);
    if y < b.bottom || y >= b.top {
      NoCrossing(es, x, y);
    } else if x < b.left || x >= b.right {
      OutsideIsOutside(o, x, y);
    }
  }
}
