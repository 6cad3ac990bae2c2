/**
 What even-odd filling means for the shapes themselves: point_inside_outline of drivers/font_ttf.c against
 inequalities without division, for every polygon, rectangle and triangle.
 */
module Filling {
  import opened Raster
  import opened Wrappers

  // ----- one side -----

  /** The sample is on or above the lower end and below the upper end (x0, y0)-(x1, y1), and at or to the right of
      the crossing rounded toward x0. */
  predicate AtOrRight(x0: int, y0: int, x1: int, y1: int, x: int, y: int) {
    && y0 <= y < y1
    && (if x1 >= x0 then (x - x0 + 1) * (y1 - y0) > (y - y0) * (x1 - x0) else (x - x0) * (y1 - y0) >= (y - y0) * (x1 - x0))
  }

  lemma Scale(a: int, b: int, d: int)
    requires d > 0
    ensures a <= b <==> a * d <= b * d
  {
    if a <= b {
      assert (b - a) * d >= 0;
    } else {
      assert (a - b) * d > 0;
    }
  }

  lemma Quotient(n: int, d: int)
    requires d > 0
    ensures n / d * d <= n < (n / d + 1) * d
  {
  }

  lemma AtLeastQuotient(n: int, d: int, v: int)
    requires d > 0
    ensures v >= n / d <==> (v + 1) * d > n
  {
    var q := n / d;
    Quotient(n, d);
    Scale(q + 1, v + 1, d);
    Scale(v + 1, q, d);
  }

  lemma AtLeastNegated(n: int, d: int, v: int)
    requires d > 0
    ensures v >= -(n / d) <==> v * d >= -n
  {
    var q := n / d;
    Quotient(n, d);
    Scale(-v, q, d);
    Scale(q + 1, -v, d);
    assert (-v) * d == -(v * d);
  }

  lemma TruncCompare(n: int, d: int, v: int)
    requires d > 0
    ensures v >= Trunc(n, d) <==> if n >= 0 then (v + 1) * d > n else v * d >= n
  {
    if n >= 0 {
      AtLeastQuotient(n, d, v);
    } else {
      AtLeastNegated(-n, d, v);
    }
  }

  /** A sample toggles at an edge, whichever way the edge is stored, exactly when it is at or right of it. */
  lemma TogglesExactly(x0: int, y0: int, x1: int, y1: int, x: int, y: int)
    requires y0 < y1
    ensures Toggles(Edge(x0, y0, x1, y1), x, y) <==> AtOrRight(x0, y0, x1, y1, x, y)
    ensures Toggles(Edge(x1, y1, x0, y0), x, y) <==> AtOrRight(x0, y0, x1, y1, x, y)
  {
    if y0 <= y < y1 {
      var n, d := (y - y0) * (x1 - x0), y1 - y0;
      TruncCompare(n, d, x - x0);
      SignOfProduct(y - y0, x1 - x0);
      if n == 0 && x1 < x0 {
        assert y == y0;
        ZeroBound(x - x0, d);
      }
    }
  }

  lemma SignOfProduct(t: int, w: int)
    requires t >= 0
    ensures w >= 0 ==> t * w >= 0
    ensures w < 0 ==> t * w <= 0 && (t * w == 0 ==> t == 0)
  {
  }

  lemma ZeroBound(v: int, d: int)
    requires d > 0
    ensures (v + 1) * d > 0 <==> v * d >= 0
  {
    Scale(v + 1, 0, d);
    Scale(0, v, d);
  }

  // ----- curves -----

  /** The point at t/8 of the quadratic curve, 64 times enlarged: between the points at t/8 of the two control
      lines. */
  function Between3(a: int, b: int, c: int, t: int): (n: int) {
    (8 - t) * ((8 - t) * a + t * b) + t * ((8 - t) * b + t * c)
  }

  /** v is n / d, rounded toward zero. */
  predicate Rounded(v: int, n: int, d: int) {
    (n >= 0 ==> d * v <= n < d * v + d) && (n <= 0 ==> d * v - d < n <= d * v)
  }

  /** The flattened points are those of the curve, and implied points are midpoints, both rounded toward zero. */
  lemma CurveIsQuadratic(p0: Point, p1: Point, p2: Point, t: int)
    ensures Rounded(CurvePoint(p0, p1, p2, t).x, Between3(p0.x, p1.x, p2.x, t), 64)
    ensures Rounded(CurvePoint(p0, p1, p2, t).y, Between3(p0.y, p1.y, p2.y, t), 64)
    ensures Rounded(Midpoint(p0, p1).x, p0.x + p1.x, 2) && Rounded(Midpoint(p0, p1).y, p0.y + p1.y, 2)
  {
    hide Rounded, Between3;
    Expanded(p0.x, p1.x, p2.x, t);
    Expanded(p0.y, p1.y, p2.y, t);
    TruncRounds(Between3(p0.x, p1.x, p2.x, t), 64);
    TruncRounds(Between3(p0.y, p1.y, p2.y, t), 64);
    TruncRounds(p0.x + p1.x, 2);
    TruncRounds(p0.y + p1.y, 2);
  }

  lemma TruncRounds(n: int, d: int)
    requires d > 0
    ensures Rounded(Trunc(n, d), n, d)
  {
    if n >= 0 {
      Remainder(n, d);
      if n == 0 {
        assert n / d == 0;
      }
    } else {
      Remainder(-n, d);
      Negated(d, -n / d);
    }
  }

  lemma Negated(d: int, q: int)
    ensures d * -q == -(d * q)
  {
  }

  lemma Expanded(a: int, b: int, c: int, t: int)
    ensures Between3(a, b, c, t) == (STEPS - t) * (STEPS - t) * a + 2 * (STEPS - t) * t * b + t * t * c
  {
    var s := 8 - t;
    assert s * (s * a + t * b) == s * s * a + s * t * b;
    assert t * (s * b + t * c) == t * s * b + t * t * c;
    assert 2 * s * t * b == s * t * b + t * s * b;
  }

  // ----- polygons -----

  predicate RightOf(p: Point, q: Point, x: int, y: int) {
    if p.y < q.y then AtOrRight(p.x, p.y, q.x, q.y, x, y)
    else if q.y < p.y then AtOrRight(q.x, q.y, p.x, p.y, x, y)
    else false
  }

  /** How many sides of an open path the sample is at or right of. */
  function SidesRight(path: seq<Point>, x: int, y: int): (n: nat) {
    if |path| < 2 then 0 else (if RightOf(path[0], path[1], x, y) then 1 else 0) + SidesRight(path[1..], x, y)
  }

  lemma EdgeCounted(es: seq<Edge>, p: Point, q: Point, x: int, y: int)
    requires |es| < MAX_RASTER_EDGES
    ensures var (es', ok) := AddEdge(es, p, q);
            && ok && |es'| <= |es| + 1
            && CountToggles(es', x, y) == CountToggles(es, x, y) + (if RightOf(p, q, x, y) then 1 else 0)
  {
    hide Toggles, AtOrRight;
    var e := Edge(p.x, p.y, q.x, q.y);
    assert (es + [e])[..|es|] == es;
    if p.y < q.y {
      TogglesExactly(p.x, p.y, q.x, q.y, x, y);
    } else if q.y < p.y {
      TogglesExactly(q.x, q.y, p.x, p.y, x, y);
    }
  }

  ghost predicate AllOn(points: seq<Point>) {
    forall i :: 0 <= i < |points| ==> points[i].on
  }

  lemma {:induction false} PathCounted(es: seq<Edge>, points: seq<Point>, end: nat, index: nat, current: Point, first: Point, x: int, y: int)
    requires end < |points| && index <= end + 1 && AllOn(points)
    requires |es| + (end + 2 - index) <= MAX_RASTER_EDGES
    ensures var (es', ok) := AddFrom(es, points, 0, end, index, current, first);
            && ok
            && CountToggles(es', x, y) == CountToggles(es, x, y) + SidesRight([current] + points[index..end + 1] + [first], x, y)
    decreases end + 1 - index
  {
    hide AddEdge, CountToggles, RightOf, AddCurve, NextIndex;
    var path := [current] + points[index..end + 1] + [first];
    if index > end {
      EdgeCounted(es, current, first, x, y);
      assert path == [current, first];
      assert path[1..] == [first];
    } else {
      EdgeCounted(es, current, points[index], x, y);
      PathCounted(AddEdge(es, current, points[index]).0, points, end, index + 1, points[index], first, x, y);
      assert path[1..] == [points[index]] + points[index + 1..end + 1] + [first];
    }
  }

  /** A polygon is filled by the even-odd rule: at the samples that are at or right of an odd number of sides. */
  lemma PolygonFilled(points: seq<Point>, x: int, y: int)
    requires 0 < |points| < 768 && AllOn(points)
    ensures var (es, ok) := OutlineEdges(Outline(points, [|points| - 1]));
            ok && (Inside(es, x, y) <==> SidesRight(points + [points[0]], x, y) % 2 == 1)
  {
    hide AddFrom, RightOf;
    var end := |points| - 1;
    PathCounted([], points, end, 0, points[0], points[0], x, y);
    var path := [points[0]] + points[0..end + 1] + [points[0]];
    assert path[1..] == points + [points[0]];
    assert !RightOf(points[0], points[0], x, y) by { NotOwnSide(points[0], x, y); }
    OneContour(points);
  }

  lemma NotOwnSide(p: Point, x: int, y: int)
    ensures !RightOf(p, p, x, y)
  {
  }

  lemma OneContour(points: seq<Point>)
    requires 0 < |points| && AllOn(points)
    ensures OutlineEdges(Outline(points, [|points| - 1])) == AddFrom([], points, 0, |points| - 1, 0, points[0], points[0])
  {
    hide AddFrom;
    var o := Outline(points, [|points| - 1]);
    var (es, ok) := AddContour([], points, 0, |points| - 1);
    assert AddContours([], o, 0, 0) == if ok then AddContours(es, o, 1, |points|) else (es, false);
    assert AddContours(es, o, 1, |points|) == (es, true);
  }

  // ----- rectangles -----

  /** A rectangle is filled at the samples in it, with its left and lower sides and without the others; so it is
      when drawn the other way round. */
  lemma RectangleFilled(left: int, bottom: int, right: int, top: int, x: int, y: int)
    requires left <= right && bottom <= top
    ensures var a, b, c, d := Point(left, bottom, true), Point(right, bottom, true), Point(right, top, true), Point(left, top, true);
            && (Inside(OutlineEdges(Outline([a, b, c, d], [3])).0, x, y) <==> left <= x < right && bottom <= y < top)
            && (Inside(OutlineEdges(Outline([d, c, b, a], [3])).0, x, y) <==> left <= x < right && bottom <= y < top)
  {
    hide OutlineEdges, Inside, RightOf;
    var a, b, c, d := Point(left, bottom, true), Point(right, bottom, true), Point(right, top, true), Point(left, top, true);
    PolygonFilled([a, b, c, d], x, y);
    PolygonFilled([d, c, b, a], x, y);
    FourSides(a, b, c, d, x, y);
    FourSides(d, c, b, a, x, y);
    assert [a, b, c, d] + [a] == [a, b, c, d, a] && [d, c, b, a] + [d] == [d, c, b, a, d];
    VerticalSide(left, bottom, top, x, y);
    VerticalSide(right, bottom, top, x, y);
    Flat(a, b, x, y);
    Flat(c, d, x, y);
  }

  lemma Flat(p: Point, q: Point, x: int, y: int)
    requires p.y == q.y
    ensures !RightOf(p, q, x, y) && !RightOf(q, p, x, y)
  {
  }

  lemma VerticalSide(at: int, bottom: int, top: int, x: int, y: int)
    requires bottom <= top
    ensures RightOf(Point(at, bottom, true), Point(at, top, true), x, y) <==> bottom <= y < top && at <= x
    ensures RightOf(Point(at, top, true), Point(at, bottom, true), x, y) <==> bottom <= y < top && at <= x
  {
    if bottom <= y < top {
      assert (y - bottom) * (at - at) == 0;
      ZeroBound(x - at, top - bottom);
      if x >= at {
        assert (x - at) * (top - bottom) >= 0;
      } else {
        assert (x - at) * (top - bottom) < 0;
      }
    }
  }

  function One(b: bool): (n: nat) { if b then 1 else 0 }

  lemma FourSides(a: Point, b: Point, c: Point, d: Point, x: int, y: int)
    ensures SidesRight([a, b, c, d, a], x, y) ==
            One(RightOf(a, b, x, y)) + One(RightOf(b, c, x, y)) + One(RightOf(c, d, x, y)) + One(RightOf(d, a, x, y))
  {
    hide RightOf;
    assert [a, b, c, d, a][1..] == [b, c, d, a];
    ThreeSides(b, c, d, a, x, y);
  }

  lemma ThreeSides(a: Point, b: Point, c: Point, d: Point, x: int, y: int)
    ensures SidesRight([a, b, c, d], x, y) == One(RightOf(a, b, x, y)) + One(RightOf(b, c, x, y)) + One(RightOf(c, d, x, y))
  {
    hide RightOf;
    assert [a, b, c, d][1..] == [b, c, d] && [b, c, d][1..] == [c, d] && [c, d][1..] == [d];
    assert SidesRight([d], x, y) == 0;
    assert SidesRight([c, d], x, y) == One(RightOf(c, d, x, y));
  }

  // ----- triangles -----

  /** Twice the signed area of p, q and the sample: positive to the left of the line from p to q. */
  function Turn(p: Point, q: Point, x: int, y: int): (r: int) {
    (q.x - p.x) * (y - p.y) - (q.y - p.y) * (x - p.x)
  }

  /** The sample is on the inner side of pq, or on pq and pq runs down or, level, to the right. */
  predicate InHalf(p: Point, q: Point, x: int, y: int) {
    Turn(p, q, x, y) > 0 || (Turn(p, q, x, y) == 0 && (q.y < p.y || (q.y == p.y && q.x > p.x)))
  }

  predicate Up(p: Point, q: Point, y: int) { p.y <= y < q.y }

  /** The sample's line crosses pq, and the sample is on it or on its right: no rounding. */
  predicate ExactlyRight(p: Point, q: Point, x: int, y: int) {
    (Up(p, q, y) && Turn(p, q, x, y) <= 0) || (Up(q, p, y) && Turn(p, q, x, y) >= 0)
  }

  /** The side leans right and the exact crossing is to the right of the sample by less than one unit. */
  predicate RoundsPast(p: Point, q: Point, x: int, y: int) {
    var l, h := if p.y <= q.y then p else q, if p.y <= q.y then q else p;
    l.y <= y < h.y && h.x > l.x && 0 < (y - l.y) * (h.x - l.x) - (x - l.x) * (h.y - l.y) < h.y - l.y
  }

  /** A side counts exactly when the sample is on it or right of it, or the crossing is rounded past the sample. */
  lemma RightByTurn(p: Point, q: Point, x: int, y: int)
    ensures RightOf(p, q, x, y) <==> ExactlyRight(p, q, x, y) || RoundsPast(p, q, x, y)
    ensures !(ExactlyRight(p, q, x, y) && RoundsPast(p, q, x, y))
  {
    if p.y < q.y {
      RisingByTurn(p, q, x, y);
    } else if q.y < p.y {
      RisingByTurn(q, p, x, y);
      TurnBack(p, q, x, y);
    }
  }

  lemma TurnBack(p: Point, q: Point, x: int, y: int)
    ensures Turn(q, p, x, y) == -Turn(p, q, x, y)
  {
    var w, d := q.x - p.x, q.y - p.y;
    var u, v := x - p.x, y - p.y;
    assert Turn(p, q, x, y) == w * v - d * u;
    assert Turn(q, p, x, y) == -w * (v - d) + d * (u - w);
    assert -w * (v - d) == -(w * v) + w * d;
    assert d * (u - w) == d * u - d * w;
  }

  lemma RisingByTurn(p: Point, q: Point, x: int, y: int)
    requires p.y < q.y
    ensures RightOf(p, q, x, y) <==> (Up(p, q, y) && Turn(p, q, x, y) <= 0) || RoundsPast(p, q, x, y)
    ensures RoundsPast(p, q, x, y) ==> Turn(p, q, x, y) > 0
  {
    hide Turn;
    TurnParts(p, q, x, y);
    NextProduct(x - p.x, q.y - p.y);
    ZeroBound(x - p.x, q.y - p.y);
    if q.x == p.x {
      assert (y - p.y) * (q.x - p.x) == 0;
    }
  }

  lemma TurnParts(p: Point, q: Point, x: int, y: int)
    ensures Turn(p, q, x, y) == (y - p.y) * (q.x - p.x) - (x - p.x) * (q.y - p.y)
  {
  }

  lemma NextProduct(u: int, d: int)
    ensures (u + 1) * d == u * d + d
  {
  }

  lemma TurnsAddUp(a: Point, b: Point, c: Point, x: int, y: int)
    ensures Turn(a, b, x, y) + Turn(b, c, x, y) + Turn(c, a, x, y) == Turn(a, b, c.x, c.y)
  {
    hide Turn;
    TurnFrom(a, b, x, y);
    TurnFrom(b, c, x, y);
    TurnFrom(c, a, x, y);
    TurnFrom(a, b, c.x, c.y);
    Differences(a.x - x, c.x - x, b.y - y, c.y - y);
    Differences(b.x - x, c.x - x, a.y - y, c.y - y);
  }

  lemma Differences(a: int, b: int, c: int, d: int)
    ensures (a - b) * (c - d) == a * c - a * d - b * c + b * d
  {
  }

  /** The sample's height is the mean of the corners', weighted by the opposite turns. */
  lemma WeightedHeights(a: Point, b: Point, c: Point, x: int, y: int)
    ensures Turn(b, c, x, y) * (a.y - y) + Turn(c, a, x, y) * (b.y - y) + Turn(a, b, x, y) * (c.y - y) == 0
  {
    var a0, a1, b0, b1, c0, c1 := a.x - x, a.y - y, b.x - x, b.y - y, c.x - x, c.y - y;
    TurnFrom(a, b, x, y);
    TurnFrom(b, c, x, y);
    TurnFrom(c, a, x, y);
    Cyclic(a0, a1, b0, b1, c0, c1);
  }

  lemma TurnFrom(p: Point, q: Point, x: int, y: int)
    ensures Turn(p, q, x, y) == (p.x - x) * (q.y - y) - (q.x - x) * (p.y - y)
  {
    var p0, p1, q0, q1 := p.x - x, p.y - y, q.x - x, q.y - y;
    assert Turn(p, q, x, y) == (q0 - p0) * -p1 - (q1 - p1) * -p0;
    assert (q0 - p0) * -p1 == -(q0 * p1) + p0 * p1;
    assert (q1 - p1) * -p0 == -(q1 * p0) + p1 * p0;
  }

  lemma Cyclic(a0: int, a1: int, b0: int, b1: int, c0: int, c1: int)
    ensures (b0 * c1 - c0 * b1) * a1 + (c0 * a1 - a0 * c1) * b1 + (a0 * b1 - b0 * a1) * c1 == 0
  {
    assert (b0 * c1 - c0 * b1) * a1 == b0 * c1 * a1 - c0 * b1 * a1;
    assert (c0 * a1 - a0 * c1) * b1 == c0 * a1 * b1 - a0 * c1 * b1;
    assert (a0 * b1 - b0 * a1) * c1 == a0 * b1 * c1 - b0 * a1 * c1;
  }

  /** Whether the sample is exactly right of an odd number of the three sides. */
  predicate Odd3(a: Point, b: Point, c: Point, x: int, y: int) {
    (One(ExactlyRight(a, b, x, y)) + One(ExactlyRight(b, c, x, y)) + One(ExactlyRight(c, a, x, y))) % 2 == 1
  }

  predicate InAll(a: Point, b: Point, c: Point, x: int, y: int) {
    InHalf(a, b, x, y) && InHalf(b, c, x, y) && InHalf(c, a, x, y)
  }

  ghost predicate Oriented(a: Point, b: Point, c: Point, x: int, y: int) {
    && Turn(a, b, x, y) + Turn(b, c, x, y) + Turn(c, a, x, y) == Turn(a, b, c.x, c.y) > 0
    && Turn(b, c, x, y) * (a.y - y) + Turn(c, a, x, y) * (b.y - y) + Turn(a, b, x, y) * (c.y - y) == 0
  }

  /** One corner at or below the sample's line, two above it. */
  lemma OneBelow(a: Point, b: Point, c: Point, x: int, y: int)
    requires Oriented(a, b, c, x, y)
    requires a.y <= y < b.y && y < c.y
    ensures Odd3(a, b, c, x, y) <==> InAll(a, b, c, x, y)
  {
    hide Turn;
    SignsBelow(Turn(a, b, x, y), Turn(b, c, x, y), Turn(c, a, x, y), a.y - y, b.y - y, c.y - y);
  }

  lemma SignsBelow(o1: int, o2: int, o3: int, a: int, b: int, c: int)
    requires o1 + o2 + o3 > 0 && o2 * a + o3 * b + o1 * c == 0 && a <= 0 && b > 0 && c > 0
    ensures o1 > 0 && o3 >= 0 ==> o2 > 0
    ensures !(o1 <= 0 && o3 < 0)
  {
    Signs(o2, a);
    Signs(o3, b);
    Signs(o1, c);
  }

  lemma Signs(u: int, v: int)
    ensures (u > 0 && v > 0) || (u < 0 && v < 0) <==> u * v > 0
    ensures (u > 0 && v < 0) || (u < 0 && v > 0) <==> u * v < 0
  {
    if u > 0 && v > 0 {
      assert u * v > 0;
    } else if u < 0 && v < 0 {
      assert -u * -v > 0;
    } else if u > 0 && v < 0 {
      assert u * -v > 0;
    } else if u < 0 && v > 0 {
      assert -u * v > 0;
    }
  }

  /** One corner above the sample's line, two at or below it. */
  lemma OneAbove(a: Point, b: Point, c: Point, x: int, y: int)
    requires Oriented(a, b, c, x, y)
    requires y < a.y && b.y <= y && c.y <= y
    ensures Odd3(a, b, c, x, y) <==> InAll(a, b, c, x, y)
  {
    BaseRuns(a, b, c);
    hide Turn;
    SignsAbove(Turn(a, b, x, y), Turn(b, c, x, y), Turn(c, a, x, y), a.y - y, b.y - y, c.y - y);
  }

  lemma SignsAbove(o1: int, o2: int, o3: int, a: int, b: int, c: int)
    requires o1 + o2 + o3 > 0 && o2 * a + o3 * b + o1 * c == 0 && a > 0 && b <= 0 && c <= 0
    ensures o1 >= 0 && o3 > 0 ==> o2 >= 0 && (o2 == 0 ==> b == 0 >= c)
    ensures !(o1 < 0 && o3 <= 0)
  {
    Signs(o2, a);
    Signs(o3, b);
    Signs(o1, c);
  }

  /** A level side below the third corner runs to the right, one above it to the left. */
  lemma BaseRuns(a: Point, b: Point, c: Point)
    requires Turn(a, b, c.x, c.y) > 0
    ensures b.y == c.y < a.y ==> c.x > b.x
    ensures b.y == c.y > a.y ==> c.x < b.x
    ensures !(a.y == b.y == c.y)
  {
    var h, w := b.y - a.y, c.x - b.x;
    if b.y == c.y {
      TurnParts(a, b, c.x, c.y);
      assert h * (b.x - a.x) - (c.x - a.x) * h == -(h * w);
      Signs(h, w);
    }
  }

  lemma Rotate(a: Point, b: Point, c: Point)
    ensures Turn(a, b, c.x, c.y) == Turn(b, c, a.x, a.y)
  {
    TurnsAddUp(a, b, c, a.x, a.y);
    assert Turn(a, b, a.x, a.y) == 0 && Turn(c, a, a.x, a.y) == 0 by { OwnTurn(a, b); OwnTurn(c, a); }
  }

  lemma OwnTurn(p: Point, q: Point)
    ensures Turn(p, q, p.x, p.y) == 0 && Turn(p, q, q.x, q.y) == 0
  {
  }

  /** All corners at or below the sample's line: the topmost corner or side excludes it. */
  lemma AllBelow(a: Point, b: Point, c: Point, x: int, y: int)
    requires Oriented(a, b, c, x, y) && a.y <= y && b.y <= y && c.y <= y
    ensures !InAll(a, b, c, x, y)
  {
    Rotate(a, b, c);
    Rotate(b, c, a);
    BaseRuns(a, b, c);
    BaseRuns(b, c, a);
    BaseRuns(c, a, b);
    hide Turn;
    Signs(Turn(b, c, x, y), a.y - y);
    Signs(Turn(c, a, x, y), b.y - y);
    Signs(Turn(a, b, x, y), c.y - y);
  }

  lemma AllAbove(a: Point, b: Point, c: Point, x: int, y: int)
    requires Oriented(a, b, c, x, y) && a.y > y && b.y > y && c.y > y
    ensures !InAll(a, b, c, x, y)
  {
    hide Turn;
    Signs(Turn(b, c, x, y), a.y - y);
    Signs(Turn(c, a, x, y), b.y - y);
    Signs(Turn(a, b, x, y), c.y - y);
  }

  lemma IsOriented(a: Point, b: Point, c: Point, x: int, y: int)
    requires Turn(a, b, c.x, c.y) > 0
    ensures Oriented(a, b, c, x, y) && Oriented(b, c, a, x, y) && Oriented(c, a, b, x, y)
  {
    hide Turn;
    Rotate(a, b, c);
    Rotate(b, c, a);
    TurnsAddUp(a, b, c, x, y);
    WeightedHeights(a, b, c, x, y);
  }

  predicate RoundedSides(a: Point, b: Point, c: Point, x: int, y: int) {
    (One(RoundsPast(a, b, x, y)) + One(RoundsPast(b, c, x, y)) + One(RoundsPast(c, a, x, y))) % 2 == 1
  }

  /** A triangle drawn counterclockwise is filled at the samples inside all three half-planes, its left and lower
      sides included, and nowhere else: exactly so at a sample past which an even number of sides are
      rounded, and exactly the other way at any other. */
  lemma TriangleFilled(a: Point, b: Point, c: Point, x: int, y: int)
    requires a.on && b.on && c.on && Turn(a, b, c.x, c.y) > 0
    ensures (Inside(OutlineEdges(Outline([a, b, c], [2])).0, x, y) <==>
               InHalf(a, b, x, y) && InHalf(b, c, x, y) && InHalf(c, a, x, y))
            <==> !RoundedSides(a, b, c, x, y)
  {
    hide OutlineEdges, Inside, RightOf, InHalf, Turn, ExactlyRight, RoundsPast;
    PolygonFilled([a, b, c], x, y);
    assert [a, b, c] + [a] == [a, b, c, a];
    ThreeSides(a, b, c, a, x, y);
    RightByTurn(a, b, x, y);
    RightByTurn(b, c, x, y);
    RightByTurn(c, a, x, y);
    assert Odd3(a, b, c, x, y) <==> InAll(a, b, c, x, y) by {
      IsOriented(a, b, c, x, y);
      TriangleSides(a, b, c, x, y);
    }
  }

  /** The line y = 8 enters the triangle (0,0), (10,9), (2,9) at x = 16/9; the sample at 1 is filled all the same. */
  lemma RoundingExample()
    ensures var a, b, c := Point(0, 0, true), Point(10, 9, true), Point(2, 9, true);
            && Turn(a, b, c.x, c.y) > 0 && !InHalf(c, a, 1, 8)
            && Inside(OutlineEdges(Outline([a, b, c], [2])).0, 1, 8)
  {
    var a, b, c := Point(0, 0, true), Point(10, 9, true), Point(2, 9, true);
    TriangleFilled(a, b, c, 1, 8);
  }

  lemma TriangleSides(a: Point, b: Point, c: Point, x: int, y: int)
    requires Oriented(a, b, c, x, y) && Oriented(b, c, a, x, y) && Oriented(c, a, b, x, y)
    ensures Odd3(a, b, c, x, y) <==> InAll(a, b, c, x, y)
  {
    hide ExactlyRight, InHalf, Turn, Oriented;
    if a.y <= y && b.y <= y && c.y <= y {
      AllBelow(a, b, c, x, y);
      NoSide(a, b, c, x, y);
    } else if a.y > y && b.y > y && c.y > y {
      AllAbove(a, b, c, x, y);
      NoSide(a, b, c, x, y);
    } else if a.y <= y && b.y > y && c.y > y {
      OneBelow(a, b, c, x, y);
    } else if b.y <= y && c.y > y && a.y > y {
      OneBelow(b, c, a, x, y);
    } else if c.y <= y && a.y > y && b.y > y {
      OneBelow(c, a, b, x, y);
    } else if a.y > y {
      OneAbove(a, b, c, x, y);
    } else if b.y > y {
      OneAbove(b, c, a, x, y);
    } else {
      OneAbove(c, a, b, x, y);
    }
  }

  lemma NoSide(a: Point, b: Point, c: Point, x: int, y: int)
    requires (a.y <= y && b.y <= y && c.y <= y) || (a.y > y && b.y > y && c.y > y)
    ensures !Odd3(a, b, c, x, y)
  {
  }
}
