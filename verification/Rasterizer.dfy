/**
 The edge buffer of drivers/font_ttf.c as it is written: a fixed array filled in place.
 */
module Rasterizer {
  import R = Raster

  class EdgeBuffer {
    const edges: array<R.Edge>
    var count: nat

    ghost predicate Valid()
      reads this
    {
      edges.Length == R.MAX_RASTER_EDGES && count <= edges.Length
    }

    function Contents(): (es: seq<R.Edge>)
      requires count <= edges.Length
      reads this, edges
    {
      edges[..count]
    }

    constructor ()
      ensures Valid() && Contents() == [] && fresh(edges)
    {
      edges := new R.Edge[R.MAX_RASTER_EDGES](_ => R.Edge(0, 0, 0, 0));
      count := 0;
    }

    method AddEdge(p: R.Point, q: R.Point) returns (ok: bool)
      requires Valid()
      modifies this, edges
      ensures Valid() && (Contents(), ok) == R.AddEdge(old(Contents()), p, q)
    {
      if p.y == q.y {
        return true;
      }
      if count >= R.MAX_RASTER_EDGES {
        return false;
      }
      edges[count] := R.Edge(p.x, p.y, q.x, q.y);
      count := count + 1;
      ok := true;
      assert Contents() == old(Contents()) + [R.Edge(p.x, p.y, q.x, q.y)];
    }

    method AddQuadratic(p0: R.Point, p1: R.Point, p2: R.Point) returns (ok: bool)
      requires Valid()
      modifies this, edges
      ensures Valid() && (Contents(), ok) == R.AddCurve(old(Contents()), p0, p1, p2, p0, 1)
    {
      hide R.CurvePoint, R.AddEdge;
      var previous, t := p0, 1;
      while t <= R.STEPS
        invariant Valid() && t <= R.STEPS + 1
        invariant R.AddCurve(Contents(), p0, p1, p2, previous, t) == R.AddCurve(old(Contents()), p0, p1, p2, p0, 1)
      {
        var next := R.CurvePoint(p0, p1, p2, t);
        ok := AddEdge(previous, next);
        if !ok {
          return;
        }
        previous, t := next, t + 1;
      }
      ok := true;
    }

    method ContourToEdges(points: seq<R.Point>, start: nat, end: nat) returns (ok: bool)
      requires Valid()
      modifies this, edges
      ensures Valid() && (Contents(), ok) == R.AddContour(old(Contents()), points, start, end)
    {
      hide R.AddEdge, R.AddCurve, R.NextIndex, R.Midpoint;
      if start > end || end >= |points| {
        return false;
      }
      var first := points[start];
      var last := points[end];
      if !first.on {
        first := if last.on then last else R.Midpoint(last, first);
      }
      var current, index := first, start;
      while index <= end
        invariant Valid() && start <= index
        invariant R.AddFrom(Contents(), points, start, end, index, current, first) == R.AddContour(old(Contents()), points, start, end)
      {
        var control := points[index];
        var next := points[R.NextIndex(start, end, index)];
        if control.on {
          ok := AddEdge(current, control);
          if !ok {
            return;
          }
          current := control;
          index := index + 1;
        } else {
          var step := 1;
          if !next.on {
            next := R.Midpoint(control, next);
          } else {
            step := 2;
          }
          ok := AddQuadratic(current, control, next);
          if !ok {
            return;
          }
          current := next;
          index := index + step;
        }
      }
      ok := AddEdge(current, first);
    }

    method OutlineEdges(o: R.Outline) returns (ok: bool)
      requires Valid()
      modifies this, edges
      ensures Valid() && (Contents(), ok) == R.OutlineEdges(o)
    {
      hide R.AddContour;
      var start, i := 0, 0;
      count := 0;
      while i < |o.ends|
        invariant Valid() && i <= |o.ends|
        invariant R.AddContours(Contents(), o, i, start) == R.OutlineEdges(o)
      {
        var end := o.ends[i];
        ok := ContourToEdges(o.points, start, end);
        if !ok {
          return;
        }
        start, i := end + 1, i + 1;
      }
      ok := true;
    }

    /** The flag is toggled once for each edge at or to the left of which the sample lies. */
    method PointInside(x: int, y: int) returns (inside: bool)
      requires Valid()
      ensures inside == R.Inside(Contents(), x, y)
    {
      hide R.Trunc;
      inside := false;
      ghost var es := Contents();
      var i := 0;
      assert es[..0] == [];
      while i < count
        invariant i <= count
        invariant inside == R.Inside(es[..i], x, y)
      {
        var e := edges[i];
        var y0, y1, x0, x1 := e.y0, e.y1, e.x0, e.x1;
        if y0 > y1 {
          y0, y1, x0, x1 := y1, y0, x1, x0;
        }
        if y0 <= y < y1 {
          var intersection := x0 + R.Trunc((y - y0) * (x1 - x0), y1 - y0);
          if x >= intersection {
            inside := !inside;
          }
        }
        assert es[..i + 1][..i] == es[..i] && es[..i + 1][i] == e;
        i := i + 1;
      }
      assert es[..count] == es;
    }
  }
}
