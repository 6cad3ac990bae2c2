/**
 What contour_to_edges of drivers/font_ttf.c draws, against the rule of the OpenType 'glyf' chapter: between two
 consecutive off-curve points lies an implied on-curve point, and the contour closes.
 */
module Strokes {
  import opened Wrappers
  import opened Raster

  /** The path with its implied points. */
  function WithImplied(ps: seq<Point>): (r: seq<Point>) {
    if |ps| < 2 then ps
    else if !ps[0].on && !ps[1].on then [ps[0], Midpoint(ps[0], ps[1])] + WithImplied(ps[1..])
    else [ps[0]] + WithImplied(ps[1..])
  }

  /** Every other point of a complete path at least is on the curve; it starts and ends there. */
  ghost predicate Complete(path: seq<Point>) {
    && path != [] && path[0].on && path[|path| - 1].on
    && forall i :: 0 < i < |path| ==> path[i - 1].on || path[i].on
  }

  lemma {:induction false} ImpliedEnds(ps: seq<Point>)
    requires ps != []
    ensures var r := WithImplied(ps);
            r != [] && r[0] == ps[0] && r[|r| - 1] == ps[|ps| - 1] && forall i :: 0 < i < |r| ==> r[i - 1].on || r[i].on
  {
    if |ps| >= 2 {
      ImpliedEnds(ps[1..]);
      var rest, r := WithImplied(ps[1..]), WithImplied(ps);
      var k := |r| - |rest|;
      forall i | 0 < i < |r| ensures r[i - 1].on || r[i].on {
        if i > k {
          assert r[i - 1] == rest[i - 1 - k] && r[i] == rest[i - k];
          assert rest[i - k - 1].on || rest[i - k].on;
        }
      }
    }
  }

  /** The lines and curves of a complete path, one after the other. */
  function Draw(es: seq<Edge>, path: seq<Point>): (r: (seq<Edge>, bool))
    decreases |path|
  {
    if |path| < 2 then (es, true)
    else if path[1].on then
      var (es1, ok) := AddEdge(es, path[0], path[1]);
      if ok then Draw(es1, path[1..]) else (es1, false)
    else if |path| < 3 then (es, true)
    else
      var (es1, ok) := AddCurve(es, path[0], path[1], path[2], path[0], 1);
      if ok then Draw(es1, path[2..]) else (es1, false)
  }

  /** The closed path of a contour: from its starting point through all its points and back. */
  function Path(points: seq<Point>, start: nat, end: nat): (path: seq<Point>)
    requires start <= end < |points|
  {
    var first := ContourStart(points, start, end);
    WithImplied([first] + points[start..end + 1] + [first])
  }

  lemma PathComplete(points: seq<Point>, start: nat, end: nat)
    requires start <= end < |points|
    ensures Complete(Path(points, start, end))
  {
    hide WithImplied;
    var first := ContourStart(points, start, end);
    ImpliedEnds([first] + points[start..end + 1] + [first]);
  }

  lemma NothingToDraw(es: seq<Edge>, p: Point)
    ensures AddEdge(es, p, p) == (es, true) && Draw(es, [p]) == (es, true)
  {
  }

  lemma NextInside(start: nat, end: nat, index: nat)
    requires start <= index <= end
    ensures NextIndex(start, end, index) == if index < end then index + 1 else start
  {
    var n, d := index - start + 1, end - start + 1;
    if index < end {
      RemainderIs(n, d, 0, n);
    } else {
      RemainderIs(n, d, 1, 0);
    }
  }

  /** The part of a path from `index` on. */
  lemma {:induction false} DrawsFrom(es: seq<Edge>, points: seq<Point>, start: nat, end: nat, index: nat, current: Point)
    requires start <= end < |points| && start <= index <= end + 1 && current.on
    ensures var first := ContourStart(points, start, end);
            AddFrom(es, points, start, end, index, current, first) == Draw(es, WithImplied([current] + points[index..end + 1] + [first]))
    decreases end + 1 - index, 2
  {
    hide AddEdge, AddCurve, Midpoint, NextIndex;
    var first := ContourStart(points, start, end);
    var path := [current] + points[index..end + 1] + [first];
    if index > end {
      IsOn(points[end], points[start]);
      assert path == [current, first] && path[1..] == [first];
      assert WithImplied([first]) == [first];
      assert WithImplied(path) == [current] + [first] == [current, first];
      var (es1, ok) := AddEdge(es, current, first);
      assert [current, first][1..] == [first];
      assert Draw(es1, [first]) == (es1, true);
    } else if points[index].on {
      var control := points[index];
      var tail := [control] + points[index + 1..end + 1] + [first];
      assert path[1..] == tail;
      assert WithImplied(path) == [current] + WithImplied(tail);
      ImpliedEnds(tail);
      var (es1, ok) := AddEdge(es, current, control);
      assert ([current] + WithImplied(tail))[1..] == WithImplied(tail);
      DrawsFrom(es1, points, start, end, index + 1, control);
    } else {
      NextInside(start, end, index);
      DrawsCurve(es, points, start, end, index, current);
    }
  }

  lemma {:induction false} DrawsCurve(es: seq<Edge>, points: seq<Point>, start: nat, end: nat, index: nat, current: Point)
    requires start <= index <= end < |points| && current.on && !points[index].on
    ensures var first := ContourStart(points, start, end);
            AddFrom(es, points, start, end, index, current, first) == Draw(es, WithImplied([current] + points[index..end + 1] + [first]))
    decreases end + 1 - index, 1
  {
    NextInside(start, end, index);
    if index == end {
      DrawsLast(es, points, start, end, current);
    } else if points[index + 1].on {
      DrawsToNext(es, points, start, end, index, current);
    } else {
      DrawsToImplied(es, points, start, end, index, current);
    }
  }

  lemma DrawsLast(es: seq<Edge>, points: seq<Point>, start: nat, end: nat, current: Point)
    requires start <= end < |points| && current.on && !points[end].on
    ensures var first := ContourStart(points, start, end);
            AddFrom(es, points, start, end, end, current, first) == Draw(es, WithImplied([current] + points[end..end + 1] + [first]))
  {
    hide AddEdge, AddCurve, NextIndex;
    NextInside(start, end, end);
    var first, control := ContourStart(points, start, end), points[end];
    assert [current] + points[end..end + 1] + [first] == [current, control, first];
    Three(current, control, first);
    var (es1, ok) := AddCurve(es, current, control, first, current, 1);
    NothingToDraw(es1, first);
    assert [current, control, first][2..] == [first];
  }

  lemma Unfold(p: Point, tail: seq<Point>)
    requires tail != []
    ensures WithImplied([p] + tail) == (if !p.on && !tail[0].on then [p, Midpoint(p, tail[0])] else [p]) + WithImplied(tail)
  {
    hide Midpoint;
    assert ([p] + tail)[1..] == tail;
  }

  lemma Three(a: Point, b: Point, c: Point)
    requires a.on && c.on
    ensures WithImplied([a, b, c]) == [a, b, c]
  {
    assert WithImplied([c]) == [c];
    hide WithImplied;
    Unfold(b, [c]);
    Unfold(a, [b, c]);
    assert [b, c] == [b] + [c] && [a, b, c] == [a] + [b, c];
  }

  lemma {:induction false} DrawsToNext(es: seq<Edge>, points: seq<Point>, start: nat, end: nat, index: nat, current: Point)
    requires start <= index < end < |points| && current.on && !points[index].on && points[index + 1].on
    ensures var first := ContourStart(points, start, end);
            AddFrom(es, points, start, end, index, current, first) == Draw(es, WithImplied([current] + points[index..end + 1] + [first]))
    decreases end + 1 - index, 0
  {
    hide AddEdge, AddCurve, NextIndex, Midpoint;
    NextInside(start, end, index);
    var first, control, next := ContourStart(points, start, end), points[index], points[index + 1];
    var tail := [next] + points[index + 2..end + 1] + [first];
    assert [current] + points[index..end + 1] + [first] == [current, control] + tail;
    Peel(current, control, tail);
    ImpliedEnds(tail);
    var (es1, ok) := AddCurve(es, current, control, next, current, 1);
    assert ([current, control] + WithImplied(tail))[2..] == WithImplied(tail);
    DrawsFrom(es1, points, start, end, index + 2, next);
  }

  lemma Peel(a: Point, b: Point, tail: seq<Point>)
    requires a.on && tail != [] && tail[0].on
    ensures WithImplied([a, b] + tail) == [a, b] + WithImplied(tail)
  {
    hide WithImplied;
    Unfold(b, tail);
    Unfold(a, [b] + tail);
    assert [a, b] + tail == [a] + ([b] + tail);
  }

  lemma {:induction false} DrawsToImplied(es: seq<Edge>, points: seq<Point>, start: nat, end: nat, index: nat, current: Point)
    requires start <= index < end < |points| && current.on && !points[index].on && !points[index + 1].on
    ensures var first := ContourStart(points, start, end);
            AddFrom(es, points, start, end, index, current, first) == Draw(es, WithImplied([current] + points[index..end + 1] + [first]))
    decreases end + 1 - index, 0
  {
    hide AddEdge, AddCurve, NextIndex, Midpoint;
    NextInside(start, end, index);
    var first, control, next := ContourStart(points, start, end), points[index], points[index + 1];
    var middle := Midpoint(control, next);
    IsOn(control, next);
    var tail := [next] + points[index + 2..end + 1] + [first];
    assert [current] + points[index..end + 1] + [first] == [current, control] + tail;
    PeelOff(current, control, tail);
    ImpliedEnds(tail);
    assert [middle] + points[index + 1..end + 1] + [first] == [middle] + tail;
    assert ([middle] + tail)[1..] == tail;
    var (es1, ok) := AddCurve(es, current, control, middle, current, 1);
    assert ([current, control, middle] + WithImplied(tail))[2..] == [middle] + WithImplied(tail);
    DrawsFrom(es1, points, start, end, index + 1, middle);
  }

  lemma IsOn(p: Point, q: Point)
    ensures Midpoint(p, q).on
  {
  }

  lemma PeelOff(a: Point, b: Point, tail: seq<Point>)
    requires a.on && !b.on && tail != [] && !tail[0].on
    ensures WithImplied([a, b] + tail) == [a, b, Midpoint(b, tail[0])] + WithImplied(tail)
  {
    hide Midpoint, WithImplied;
    Unfold(b, tail);
    Unfold(a, [b] + tail);
    assert [a, b] + tail == [a] + ([b] + tail);
  }

  /** A contour is drawn as the lines and curves of its closed path with the implied points put in. */
  lemma ContourDrawn(es: seq<Edge>, points: seq<Point>, start: nat, end: nat)
    requires start <= end < |points|
    ensures AddContour(es, points, start, end) == Draw(es, Path(points, start, end)) && Complete(Path(points, start, end))
  {
    hide AddFrom, Draw, WithImplied, Complete;
    PathComplete(points, start, end);
    assert ContourStart(points, start, end).on by { IsOn(points[end], points[start]); }
    DrawsFrom(es, points, start, end, start, ContourStart(points, start, end));
  }
}
