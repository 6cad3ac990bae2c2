/**
 The glyph loaders of drivers/font_ttf.c as they are written: cursors that advance over the
 bytes of a glyph and fixed arrays filled in place, proved against the functions of Glyphs.
 */
module OutlineLoader {
  import opened VirtualMemory
  import opened Wrappers
  import opened Sfnt
  import opened Glyphs
  import R = Raster

  /** Glyphs past the last metric record share its advance. */
  function GlyphAdvance(f: Font, g: nat): (a: int)
    requires ValidFont(f)
    ensures -0x8000 <= a < 0x8000
    ensures g >= f.metrics ==> a == GlyphAdvance(f, f.metrics - 1)
  {
    S16(f.hmtx, 4 * (if g < f.metrics then g else f.metrics - 1))
  }

  class GlyphOutline {
    const points: array<R.Point>
    const contours: array<nat>
    var pointCount: nat
    var contourCount: nat
    var advance: int

    ghost predicate Valid()
      reads this
    {
      && points.Length == MAX_GLYPH_POINTS && contours.Length == MAX_GLYPH_CONTOURS
      && pointCount <= points.Length && contourCount <= contours.Length
    }

    ghost function Contents(): (o: R.Outline)
      requires Valid()
      reads this, points, contours
    {
      R.Outline(points[..pointCount], contours[..contourCount])
    }

    constructor ()
      ensures Valid() && fresh(points) && fresh(contours) && Contents() == Empty
    {
      points := new R.Point[MAX_GLYPH_POINTS](_ => R.Point(0, 0, false));
      contours := new nat[MAX_GLYPH_CONTOURS](_ => 0);
      pointCount, contourCount, advance := 0, 0, 0;
    }

    method AppendPoint(p: R.Point) returns (ok: bool)
      requires Valid()
      modifies this, points
      ensures Valid() && contourCount == old(contourCount) && advance == old(advance)
      ensures ok == (old(pointCount) < MAX_GLYPH_POINTS)
      ensures points[..pointCount] == old(points[..pointCount]) + if ok then [p] else []
    {
      if pointCount >= MAX_GLYPH_POINTS {
        return false;
      }
      points[pointCount] := p;
      pointCount := pointCount + 1;
      return true;
    }

    method AppendOutline(src: GlyphOutline, dx: int, dy: int) returns (ok: bool)
      requires Valid() && src.Valid() && src != this && src.points != points && src.contours != contours
      modifies this, points, contours
      ensures Valid() && advance == old(advance)
      ensures ok == Append(old(Contents()), old(src.Contents()), dx, dy).Some?
      ensures Contents() == if ok then Append(old(Contents()), old(src.Contents()), dx, dy).value else old(Contents())
    {
      var base := pointCount;
      if pointCount + src.pointCount > MAX_GLYPH_POINTS || contourCount + src.contourCount > MAX_GLYPH_CONTOURS {
        return false;
      }
      var i: nat := 0;
      ghost var moved := MoveAll(src.points[..src.pointCount], dx, dy);
      while i < src.pointCount
        invariant i <= src.pointCount && Valid() && contourCount == old(contourCount) && advance == old(advance)
        invariant pointCount == base + i && contours[..] == old(contours[..])
        invariant points[..pointCount] == old(points[..pointCount]) + moved[..i]
      {
        assert moved[i] == Move(src.points[i], dx, dy);
        var done := AppendPoint(Move(src.points[i], dx, dy));
        if !done {
          assert false;
        }
        i := i + 1;
      }
      i := 0;
      ghost var rebased := Rebase(src.contours[..src.contourCount], base);
      while i < src.contourCount
        invariant i <= src.contourCount && Valid() && advance == old(advance)
        invariant pointCount == base + src.pointCount && points[..pointCount] == old(points[..pointCount]) + moved
        invariant contourCount == old(contourCount) + i
        invariant contours[..contourCount] == old(contours[..contourCount]) + rebased[..i]
      {
        assert rebased[i] == base + src.contours[i];
        contours[contourCount] := base + src.contours[i];
        contourCount := contourCount + 1;
        i := i + 1;
      }
      return true;
    }
  }

  // ----- simple glyphs -----

  method ReadEndPoints(data: seq<Byte>, n: nat, ends: array<nat>) returns (ok: bool)
    requires 10 + 2 * n <= |data| && 0 < n <= ends.Length
    modifies ends
    ensures ok == Increasing(Ends(data[10..], n))
    ensures ok ==> ends[..n] == Ends(data[10..], n)
  {
    var i: nat := 0;
    ghost var all := Ends(data[10..], n);
    while i < n
      invariant i <= n && ends[..i] == all[..i] && Increasing(all[..i])
    {
      ends[i] := U16(data, 10 + i * 2);
      assert ends[i] == all[i] && ends[..i] == all[..i];
      if i != 0 && ends[i] <= ends[i - 1] {
        assert all[i] <= all[i - 1];
        return false;
      }
      i := i + 1;
    }
    assert all[..n] == all;
    return true;
  }

  ghost function After<T>(done: seq<T>, r: Option<(seq<T>, seq<Byte>)>): (o: Option<(seq<T>, seq<Byte>)>) {
    match r
    case None => None
    case Some((later, rest)) => Some((done + later, rest))
  }

  lemma AfterNothing<T>(r: Option<(seq<T>, seq<Byte>)>)
    ensures After([], r) == r
  {
    assert r.Some? ==> [] + r.value.0 == r.value.0;
  }

  lemma FlagsStep(s: seq<Byte>, n: nat, done: seq<Byte>)
    requires n > 0 && |s| >= 1
    ensures !Has(s[0], REPEAT) ==> After(done, Flags(s, n)) == After(done + [s[0]], Flags(s[1..], n - 1))
    ensures Has(s[0], REPEAT) && |s| >= 2 && s[1] <= n - 1
      ==> After(done, Flags(s, n)) == After(done + [s[0]] + Copies(s[0], s[1]), Flags(s[2..], n - 1 - s[1]))
  {
    if Has(s[0], REPEAT) && |s| >= 2 && s[1] <= n - 1 {
      var extra: nat := s[1];
      assert Copies(s[0], extra + 1) == [s[0]] + Copies(s[0], extra);
      var r := Flags(s[2..], n - 1 - extra);
      if r.Some? {
        assert done + (Copies(s[0], extra + 1) + r.value.0) == done + [s[0]] + Copies(s[0], extra) + r.value.0;
      }
    } else if !Has(s[0], REPEAT) {
      assert Copies(s[0], 1) == [s[0]];
      var r := Flags(s[1..], n - 1);
      if r.Some? {
        assert done + ([s[0]] + r.value.0) == done + [s[0]] + r.value.0;
      }
    }
  }

  method ReadFlags(data: seq<Byte>, from: nat, n: nat, flags: array<Byte>) returns (ok: bool, cursor: nat)
    requires from <= |data| && n <= flags.Length
    modifies flags
    ensures ok == Flags(data[from..], n).Some?
    ensures ok ==> cursor <= |data| && (flags[..n], data[cursor..]) == Flags(data[from..], n).value
  {
    hide Flags, Has;
    cursor := from;
    var i: nat := 0;
    while i < n
      invariant i <= n && cursor <= |data|
      invariant After(flags[..i], Flags(data[cursor..], n - i)) == After([], Flags(data[from..], n))
    {
      var s := data[cursor..];
      ghost var done := flags[..i];
      FlagsNone(s, n - i);
      if !RangeIsValid(|data|, cursor, 1) {
        return false, cursor;
      }
      FlagsStep(s, n - i, done);
      var flag := data[cursor];
      cursor := cursor + 1;
      flags[i] := flag;
      i := i + 1;
      assert flags[..i] == done + [flag];
      if Has(flag, REPEAT) {
        if !RangeIsValid(|data|, cursor, 1) {
          return false, cursor;
        }
        var repeat: nat := data[cursor];
        ghost var extra := repeat;
        cursor := cursor + 1;
        ghost var head := flags[..i];
        ghost var first := i;
        while repeat != 0 && i < n
          invariant first <= i <= n && repeat + (i - first) == extra
          invariant flags[..i] == head + Copies(flag, i - first)
        {
          flags[i] := flag;
          i := i + 1;
          repeat := repeat - 1;
          assert flags[..i] == head + Copies(flag, i - first);
        }
        if repeat != 0 {
          return false, cursor;
        }
        assert s[2..] == data[cursor..];
      } else {
        assert s[1..] == data[cursor..];
      }
    }
    FlagsDone(data[cursor..]);
    AfterNothing(Flags(data[from..], n));
    assert flags[..n] + [] == flags[..n];
    ok := true;
  }

  lemma FlagsDone(s: seq<Byte>)
    ensures Flags(s, 0) == Some(([], s))
  {
  }

  lemma FlagsNone(s: seq<Byte>, n: nat)
    requires n > 0
    ensures s == [] ==> Flags(s, n) == None
    ensures |s| > 0 && Has(s[0], REPEAT) && (|s| < 2 || s[1] > n - 1) ==> Flags(s, n) == None
  {
  }

  ghost function On(p: R.Point, axis: Axis): (v: int) { if axis.X? then p.x else p.y }

  lemma CoordinatesStep(s: seq<Byte>, flags: seq<Byte>, axis: Axis, from: int, done: seq<int>)
    requires flags != []
    ensures |s| < Width(flags[0], axis) ==> Coordinates(s, flags, axis, from) == None
    ensures |s| >= Width(flags[0], axis) ==>
              var v := from + Delta(s, flags[0], axis);
              After(done, Coordinates(s, flags, axis, from))
              == After(done + [v], Coordinates(s[Width(flags[0], axis)..], flags[1..], axis, v))
  {
    if |s| >= Width(flags[0], axis) {
      var v := from + Delta(s, flags[0], axis);
      var r := Coordinates(s[Width(flags[0], axis)..], flags[1..], axis, v);
      if r.Some? {
        assert done + ([v] + r.value.0) == done + [v] + r.value.0;
      }
    }
  }

  /** Both coordinate loops: the first fills in x, the second y and the on-curve mark. */
  method ReadCoordinates(data: seq<Byte>, from: nat, flags: seq<Byte>, axis: Axis, points: array<R.Point>) returns (ok: bool, cursor: nat)
    requires from <= |data| && |flags| <= points.Length
    modifies points
    ensures ok == Coordinates(data[from..], flags, axis, 0).Some?
    ensures ok ==> cursor <= |data| && data[cursor..] == Coordinates(data[from..], flags, axis, 0).value.1
    ensures ok ==> forall k :: 0 <= k < |flags| ==> On(points[k], axis) == Coordinates(data[from..], flags, axis, 0).value.0[k]
    ensures ok && axis.Y? ==> forall k :: 0 <= k < |flags| ==> points[k].x == old(points[k].x) && points[k].on == Has(flags[k], ON_CURVE)
  {
    hide Coordinates, Has;
    cursor := from;
    var v, i: nat := 0, 0;
    ghost var done: seq<int> := [];
    while i < |flags|
      invariant i <= |flags| && cursor <= |data| && |done| == i
      invariant forall k :: 0 <= k < i ==> On(points[k], axis) == done[k]
      invariant axis.Y? ==> forall k :: 0 <= k < |flags| ==> points[k].x == old(points[k].x)
      invariant axis.Y? ==> forall k :: 0 <= k < i ==> points[k].on == Has(flags[k], ON_CURVE)
      invariant After(done, Coordinates(data[cursor..], flags[i..], axis, v)) == After([], Coordinates(data[from..], flags, axis, 0))
    {
      var flag := flags[i];
      ghost var s := data[cursor..];
      assert flags[i..][1..] == flags[i + 1..];
      CoordinatesStep(s, flags[i..], axis, v, done);
      if Has(flag, axis.short) {
        if !RangeIsValid(|data|, cursor, 1) {
          return false, cursor;
        }
        var delta: int := data[cursor];
        cursor := cursor + 1;
        v := v + if Has(flag, axis.same) then delta else -delta;
      } else if !Has(flag, axis.same) {
        if !RangeIsValid(|data|, cursor, 2) {
          return false, cursor;
        }
        v := v + S16(data, cursor);
        assert S16(data, cursor) == S16(s, 0);
        cursor := cursor + 2;
      }
      assert s[Width(flag, axis)..] == data[cursor..];
      points[i] := if axis.X? then points[i].(x := v) else points[i].(y := v, on := Has(flag, ON_CURVE));
      done := done + [v];
      i := i + 1;
    }
    CoordinatesDone(data[cursor..], flags[i..], axis, v);
    AfterNothing(Coordinates(data[from..], flags, axis, 0));
    assert done + [] == done;
    ok := true;
  }

  lemma CoordinatesDone(s: seq<Byte>, flags: seq<Byte>, axis: Axis, from: int)
    requires flags == []
    ensures Coordinates(s, flags, axis, from) == Some(([], s))
  {
  }

  method LoadSimpleOutline(f: Font, g: nat, data: seq<Byte>, outline: GlyphOutline) returns (ok: bool)
    requires ValidFont(f) && outline.Valid() && outline.Contents() == Empty
    modifies outline, outline.points, outline.contours
    ensures outline.Valid() && ok == Simple(data).Some?
    ensures ok ==> outline.Contents() == Simple(data).value && outline.advance == GlyphAdvance(f, g)
  {
    if |data| < 10 {
      return false;
    }
    var count := S16(data, 0);
    if count < 0 || count > MAX_GLYPH_CONTOURS {
      return false;
    }
    outline.advance := GlyphAdvance(f, g);
    if count == 0 {
      return true;
    }
    var cursor := 10;
    if !RangeIsValid(|data|, cursor, count * 2) {
      return false;
    }
    var endPoints := new nat[MAX_GLYPH_CONTOURS](_ => 0);
    ok := ReadEndPoints(data, count, endPoints);
    if !ok {
      return;
    }
    var last := endPoints[count - 1];
    assert endPoints[..count][count - 1] == last;
    cursor := cursor + count * 2;
    var pointCount := last + 1;
    if pointCount > MAX_GLYPH_POINTS {
      return false;
    }
    ok := ReadBody(data, cursor, endPoints, count, outline);
  }

  /** The rest of a simple glyph, from its instructions on. */
  method ReadBody(data: seq<Byte>, from: nat, ends: array<nat>, count: nat, outline: GlyphOutline) returns (ok: bool)
    requires from <= |data| && 0 < count <= MAX_GLYPH_CONTOURS <= ends.Length && outline.Valid() && ends != outline.contours
    requires ends[count - 1] < MAX_GLYPH_POINTS
    modifies outline`pointCount, outline`contourCount, outline.points, outline.contours
    ensures outline.Valid() && ok == Body(data[from..], old(ends[..count])).Some?
    ensures ok ==> outline.Contents() == Body(data[from..], old(ends[..count])).value
  {
    hide Flags, Coordinates, Has;
    var cursor := from;
    var pointCount := ends[count - 1] + 1;
    ghost var s := data[from..];
    if !RangeIsValid(|data|, cursor, 2) {
      return false;
    }
    var length := U16(data, cursor);
    assert length == U16(s, 0);
    cursor := cursor + 2;
    if !RangeIsValid(|data|, cursor, length) {
      return false;
    }
    cursor := cursor + length;
    assert s[2 + length..] == data[cursor..];
    var flags := new Byte[MAX_GLYPH_POINTS](_ => 0);
    ok, cursor := ReadFlags(data, cursor, pointCount, flags);
    if !ok {
      return;
    }
    var fs := flags[..pointCount];
    ok, cursor := ReadCoordinates(data, cursor, fs, X, outline.points);
    if !ok {
      return;
    }
    ok, cursor := ReadCoordinates(data, cursor, fs, Y, outline.points);
    if !ok {
      return;
    }
    ghost var o := Body(s, old(ends[..count])).value;
    assert outline.points[..pointCount] == o.points;
    outline.pointCount, outline.contourCount := pointCount, count;
    var i: nat := 0;
    while i < count
      invariant i <= count && outline.contours[..i] == ends[..i] && ends[..] == old(ends[..])
      invariant outline.pointCount == pointCount && outline.contourCount == count && outline.points[..pointCount] == o.points
    {
      outline.contours[i] := ends[i];
      i := i + 1;
    }
    ok := true;
  }

  // ----- composite glyphs -----

  method ReadArguments(data: seq<Byte>, from: nat) returns (ok: bool, record: Record, cursor: nat)
    requires from <= |data|
    ensures ok == ReadComponent(data[from..]).Some?
    ensures ok ==> from < cursor <= |data| && record == ReadComponent(data[from..]).value && data[cursor..] == record.rest
  {
    hide Has;
    ghost var s := data[from..];
    cursor := from;
    record := Record(Component(0, 0, 0), 0, []);
    if !RangeIsValid(|data|, cursor, 4) {
      return false, record, cursor;
    }
    var flags := U16(data, cursor);
    var component := U16(data, cursor + 2);
    assert flags == U16(s, 0) && component == U16(s, 2);
    cursor := cursor + 4;
    var arg1, arg2 := 0, 0;
    if Has(flags, ARGS_ARE_WORDS) {
      if !RangeIsValid(|data|, cursor, 4) {
        return false, record, cursor;
      }
      arg1, arg2 := S16(data, cursor), S16(data, cursor + 2);
      assert arg1 == S16(s, 4) && arg2 == S16(s, 6);
      cursor := cursor + 4;
    } else {
      if !RangeIsValid(|data|, cursor, 2) {
        return false, record, cursor;
      }
      arg1, arg2 := S8(data[cursor]), S8(data[cursor + 1]);
      cursor := cursor + 2;
    }
    var dx, dy := 0, 0;
    if Has(flags, ARGS_ARE_XY) {
      dx, dy := arg1, arg2;
    }
    if Has(flags, HAVE_SCALE) {
      if !RangeIsValid(|data|, cursor, 2) {
        return false, record, cursor;
      }
      cursor := cursor + 2;
    } else if Has(flags, HAVE_XY_SCALE) {
      if !RangeIsValid(|data|, cursor, 4) {
        return false, record, cursor;
      }
      cursor := cursor + 4;
    } else if Has(flags, HAVE_TWO_BY_TWO) {
      if !RangeIsValid(|data|, cursor, 8) {
        return false, record, cursor;
      }
      cursor := cursor + 8;
    }
    record := Record(Component(component, dx, dy), flags, data[cursor..]);
    assert s[cursor - from..] == data[cursor..];
    ok := true;
  }

  method LoadCompositeOutline(f: Font, g: nat, data: seq<Byte>, outline: GlyphOutline, depth: nat) returns (ok: bool)
    requires ValidFont(f) && outline.Valid() && outline.Contents() == Empty && |data| >= 10 && depth <= MAX_COMPONENT_DEPTH
    modifies outline, outline.points, outline.contours
    ensures outline.Valid() && ok == Composite(f, data[10..], Empty, depth).Some?
    ensures ok ==> outline.Contents() == Composite(f, data[10..], Empty, depth).value && outline.advance == GlyphAdvance(f, g)
    decreases MAX_COMPONENT_DEPTH + 1 - depth, 0
  {
    hide LoadGlyph, ReadComponent, Append, Has, GlyphAdvance;
    outline.advance := GlyphAdvance(f, g);
    var cursor, more, flags: nat := 10, true, 0;
    while more
      invariant outline.Valid() && 10 <= cursor <= |data| && outline.advance == GlyphAdvance(f, g)
      invariant Composite(f, data[10..], Empty, depth) ==
                if more then Composite(f, data[cursor..], outline.Contents(), depth)
                else if Has(flags, HAVE_INSTRUCTIONS) && !InstructionsFit(data[cursor..]) then None
                else Some(outline.Contents())
      decreases more, |data| - cursor
    {
      var record: Record;
      ok, record, cursor := ReadArguments(data, cursor);
      if !ok {
        return;
      }
      flags := record.flags;
      var component := new GlyphOutline();
      ok := LoadGlyphOutline(f, record.component.glyph, component, depth + 1);
      if !ok {
        return;
      }
      ok := outline.AppendOutline(component, record.component.dx, record.component.dy);
      if !ok {
        return;
      }
      more := Has(flags, MORE_COMPONENTS);
    }
    if Has(flags, HAVE_INSTRUCTIONS) {
      ghost var s := data[cursor..];
      if !RangeIsValid(|data|, cursor, 2) {
        return false;
      }
      var length := U16(data, cursor);
      assert length == U16(s, 0);
      if !RangeIsValid(|data|, cursor + 2, length) {
        return false;
      }
    }
    ok := true;
  }

  method LoadGlyphOutline(f: Font, g: nat, outline: GlyphOutline, depth: nat) returns (ok: bool)
    requires ValidFont(f) && outline.Valid()
    modifies outline, outline.points, outline.contours
    ensures outline.Valid() && ok == LoadGlyph(f, g, depth).Some?
    ensures ok ==> outline.Contents() == LoadGlyph(f, g, depth).value && outline.advance == GlyphAdvance(f, g)
    decreases MAX_COMPONENT_DEPTH + 1 - depth, 1
  {
    hide Simple, Composite, GlyphAdvance;
    if depth > MAX_COMPONENT_DEPTH {
      return false;
    }
    outline.pointCount, outline.contourCount := 0, 0;
    outline.advance := GlyphAdvance(f, g);
    var found, data := GlyphBounds(f, g);
    if !found {
      return false;
    }
    if |data| == 0 {
      return true;
    }
    if |data| < 10 {
      return false;
    }
    if S16(data, 0) >= 0 {
      ok := LoadSimpleOutline(f, g, data, outline);
    } else {
      ok := LoadCompositeOutline(f, g, data, outline, depth);
    }
  }

  method GlyphBounds(f: Font, g: nat) returns (found: bool, data: seq<Byte>)
    requires ValidFont(f)
    ensures GlyphData(f, g) == if found then Some(data) else None
  {
    if g >= f.glyphs {
      return false, [];
    }
    var start: nat, end: nat := 0, 0;
    if !f.longLoca {
      start, end := U16(f.loca, g * 2) * 2, U16(f.loca, g * 2 + 2) * 2;
    } else {
      start, end := U32(f.loca, g * 4), U32(f.loca, g * 4 + 4);
    }
    if end < start || !RangeIsValid(|f.glyf|, start, end - start) {
      return false, [];
    }
    return true, f.glyf[start..end];
  }
}
