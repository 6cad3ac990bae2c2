/**
 Glyph descriptions (drivers/font_ttf.c, the OpenType 'glyf' chapter): what decoding a simple
 or composite glyph yields, as functions over the bytes of the glyph.
 */
module Glyphs {
  import opened VirtualMemory
  import opened Wrappers
  import opened Sfnt
  import R = Raster

  const MAX_GLYPH_POINTS: nat := 384
  const MAX_GLYPH_CONTOURS: nat := 64
  const MAX_COMPONENT_DEPTH: nat := 8

  const ON_CURVE: nat := 1
  const REPEAT: nat := 8
  const ARGS_ARE_WORDS: nat := 1
  const ARGS_ARE_XY: nat := 2
  const HAVE_SCALE: nat := 8
  const MORE_COMPONENTS: nat := 32
  const HAVE_XY_SCALE: nat := 64
  const HAVE_TWO_BY_TWO: nat := 128
  const HAVE_INSTRUCTIONS: nat := 256

  /** The flag bits of one coordinate axis. */
  datatype Axis = X | Y {
    const short: nat := if X? then 2 else 4
    const same: nat := if X? then 16 else 32
  }

  predicate Has(flags: nat, mask: nat) requires mask > 0 { flags / mask % 2 == 1 }

  const Empty: R.Outline := R.Outline([], [])

  /** The bytes of a glyph: none for an unknown glyph or one whose range leaves the table. */
  function GlyphData(f: Font, g: nat): (r: Option<seq<Byte>>)
    requires ValidFont(f)
  {
    if g >= f.glyphs then None
    else
      var start := if f.longLoca then U32(f.loca, 4 * g) else 2 * U16(f.loca, 2 * g);
      var end := if f.longLoca then U32(f.loca, 4 * g + 4) else 2 * U16(f.loca, 2 * g + 2);
      if end < start then None else Cut(f.glyf, start, end - start)
  }

  // ----- simple glyphs -----

  function Copies(flag: Byte, n: nat): (r: seq<Byte>) ensures |r| == n { seq(n, _ => flag) }

  /** The flags of the next n points and the bytes after them. */
  function Flags(s: seq<Byte>, n: nat): (r: Option<(seq<Byte>, seq<Byte>)>)
    ensures r.Some? ==> |r.value.0| == n
    decreases n
  {
    if n == 0 then Some(([], s))
    else if |s| < 1 then None
    else
      var repeated := Has(s[0], REPEAT);
      if repeated && (|s| < 2 || s[1] > n - 1) then None
      else
        var extra: nat := if repeated then s[1] else 0;
        var count := extra + 1;
        var rest := if repeated then s[2..] else s[1..];
        match Flags(rest, n - count)
        case None => None
        case Some((flags, after)) => Some((Copies(s[0], count) + flags, after))
  }

  /** How many bytes a coordinate takes. */
  function Width(flag: Byte, axis: Axis): (n: nat) {
    if Has(flag, axis.short) then 1 else if Has(flag, axis.same) then 0 else 2
  }

  function Delta(s: seq<Byte>, flag: Byte, axis: Axis): (d: int)
    requires |s| >= Width(flag, axis)
  {
    if Has(flag, axis.short) then (if Has(flag, axis.same) then s[0] else -s[0])
    else if Has(flag, axis.same) then 0
    else S16(s, 0)
  }

  /** The coordinates of the points with the given flags, the one before them being `from`. */
  function Coordinates(s: seq<Byte>, flags: seq<Byte>, axis: Axis, from: int): (r: Option<(seq<int>, seq<Byte>)>)
    ensures r.Some? ==> |r.value.0| == |flags|
  {
    if flags == [] then Some(([], s))
    else if |s| < Width(flags[0], axis) then None
    else
      var v := from + Delta(s, flags[0], axis);
      match Coordinates(s[Width(flags[0], axis)..], flags[1..], axis, v)
      case None => None
      case Some((vs, after)) => Some(([v] + vs, after))
  }

  function Ends(s: seq<Byte>, n: nat): (r: seq<nat>)
    requires 2 * n <= |s|
    ensures |r| == n && forall i :: 0 <= i < n ==> r[i] == U16(s, 2 * i)
  {
    seq(n, i requires 0 <= i < n => U16(s, 2 * i))
  }

  predicate Increasing(ends: seq<nat>) { forall i :: 0 < i < |ends| ==> ends[i - 1] < ends[i] }

  function Points(flags: seq<Byte>, xs: seq<int>, ys: seq<int>): (r: seq<R.Point>)
    requires |xs| == |flags| && |ys| == |flags|
    ensures |r| == |flags|
  {
    seq(|flags|, i requires 0 <= i < |flags| => R.Point(xs[i], ys[i], Has(flags[i], ON_CURVE)))
  }

  /** The length word and the instructions themselves lie in s. */
  predicate InstructionsFit(s: seq<Byte>) { |s| >= 2 && 2 + U16(s, 0) <= |s| }

  /** What follows the contour ends. */
  function Body(s: seq<Byte>, ends: seq<nat>): (r: Option<R.Outline>)
    requires ends != []
  {
    if !InstructionsFit(s) then None
    else
      match Flags(s[2 + U16(s, 0)..], ends[|ends| - 1] + 1)
      case None => None
      case Some((flags, s1)) =>
        match Coordinates(s1, flags, X, 0)
        case None => None
        case Some((xs, s2)) =>
          match Coordinates(s2, flags, Y, 0)
          case None => None
          case Some((ys, _)) => Some(R.Outline(Points(flags, xs, ys), ends))
  }

  function Simple(data: seq<Byte>): (r: Option<R.Outline>) {
    if |data| < 10 || S16(data, 0) < 0 || S16(data, 0) > MAX_GLYPH_CONTOURS then None
    else if S16(data, 0) == 0 then Some(Empty)
    else
      var n := S16(data, 0);
      if |data| < 10 + 2 * n then None
      else
        var ends := Ends(data[10..], n);
        if !Increasing(ends) || ends[n - 1] + 1 > MAX_GLYPH_POINTS then None
        else Body(data[10 + 2 * n..], ends)
  }

  // ----- composite glyphs -----

  datatype Component = Component(glyph: nat, dx: int, dy: int)
  datatype Record = Record(component: Component, flags: nat, rest: seq<Byte>)

  function S8(b: Byte): (v: int) { if b < 128 then b else b - 256 }

  function ArgBytes(flags: nat): (n: nat) { if Has(flags, ARGS_ARE_WORDS) then 4 else 2 }

  /** The transformation that follows the arguments; it is skipped. */
  function ScaleBytes(flags: nat): (n: nat) {
    if Has(flags, HAVE_SCALE) then 2 else if Has(flags, HAVE_XY_SCALE) then 4 else if Has(flags, HAVE_TWO_BY_TWO) then 8 else 0
  }

  function Offset(s: seq<Byte>, flags: nat): (d: (int, int))
    requires |s| >= 4 + ArgBytes(flags)
  {
    if !Has(flags, ARGS_ARE_XY) then (0, 0)
    else if Has(flags, ARGS_ARE_WORDS) then (S16(s, 4), S16(s, 6))
    else (S8(s[4]), S8(s[5]))
  }

  function ReadComponent(s: seq<Byte>): (r: Option<Record>)
    ensures r.Some? ==> |r.value.rest| < |s|
  {
    if |s| < 4 then None
    else
      var flags := U16(s, 0);
      var size := 4 + ArgBytes(flags) + ScaleBytes(flags);
      if |s| < size then None
      else Some(Record(Component(U16(s, 2), Offset(s, flags).0, Offset(s, flags).1), flags, s[size..]))
  }

  function Move(p: R.Point, dx: int, dy: int): (r: R.Point) { R.Point(p.x + dx, p.y + dy, p.on) }

  function MoveAll(ps: seq<R.Point>, dx: int, dy: int): (r: seq<R.Point>)
    ensures |r| == |ps| && forall i :: 0 <= i < |ps| ==> r[i] == Move(ps[i], dx, dy)
  {
    seq(|ps|, i requires 0 <= i < |ps| => Move(ps[i], dx, dy))
  }

  function Rebase(ends: seq<nat>, base: nat): (r: seq<nat>)
    ensures |r| == |ends| && forall i :: 0 <= i < |ends| ==> r[i] == base + ends[i]
  {
    seq(|ends|, i requires 0 <= i < |ends| => base + ends[i])
  }

  predicate Fits(o: R.Outline) { |o.points| <= MAX_GLYPH_POINTS && |o.ends| <= MAX_GLYPH_CONTOURS }

  function Join(dest: R.Outline, src: R.Outline, dx: int, dy: int): (r: R.Outline) {
    R.Outline(dest.points + MoveAll(src.points, dx, dy), dest.ends + Rebase(src.ends, |dest.points|))
  }

  function Append(dest: R.Outline, src: R.Outline, dx: int, dy: int): (r: Option<R.Outline>) {
    if Fits(Join(dest, src, dx, dy)) then Some(Join(dest, src, dx, dy)) else None
  }

  /** The components described by s, added to dest one by one as they are read. */
  function Composite(f: Font, s: seq<Byte>, dest: R.Outline, depth: nat): (r: Option<R.Outline>)
    requires ValidFont(f) && depth <= MAX_COMPONENT_DEPTH
    decreases MAX_COMPONENT_DEPTH + 1 - depth, 0, |s|
  {
    match ReadComponent(s)
    case None => None
    case Some(Record(c, flags, rest)) =>
      match LoadGlyph(f, c.glyph, depth + 1)
      case None => None
      case Some(src) =>
        match Append(dest, src, c.dx, c.dy)
        case None => None
        case Some(o) =>
          if Has(flags, MORE_COMPONENTS) then Composite(f, rest, o, depth)
          else if Has(flags, HAVE_INSTRUCTIONS) && !InstructionsFit(rest) then None
          else Some(o)
  }

  function LoadGlyph(f: Font, g: nat, depth: nat): (r: Option<R.Outline>)
    requires ValidFont(f)
    decreases MAX_COMPONENT_DEPTH + 1 - depth, 1, 0
  {
    if depth > MAX_COMPONENT_DEPTH then None
    else
      match GlyphData(f, g)
      case None => None
      case Some(data) =>
        if data == [] then Some(Empty)
        else if |data| < 10 then None
        else if S16(data, 0) >= 0 then Simple(data)
        else Composite(f, data[10..], Empty, depth)
  }

  // ----- every decoded outline is well-formed -----

  predicate Decoded(o: R.Outline) { R.WellFormed(o) && Fits(o) }

  lemma SimpleDecoded(data: seq<Byte>)
    requires Simple(data).Some?
    ensures Decoded(Simple(data).value)
  {
    hide Flags, Coordinates;
  }

  /** Joining well-formed outlines gives a well-formed one. */
  lemma JoinWellFormed(dest: R.Outline, src: R.Outline, dx: int, dy: int)
    requires R.WellFormed(dest) && R.WellFormed(src)
    ensures R.WellFormed(Join(dest, src, dx, dy))
  {
    var o := Join(dest, src, dx, dy);
    forall i | 0 < i < |o.ends| ensures o.ends[i - 1] < o.ends[i] {
      if i > |dest.ends| {
        assert src.ends[i - |dest.ends| - 1] < src.ends[i - |dest.ends|];
      }
    }
  }

  lemma {:induction false} CompositeDecoded(f: Font, s: seq<Byte>, dest: R.Outline, depth: nat)
    requires ValidFont(f) && depth <= MAX_COMPONENT_DEPTH && Decoded(dest) && Composite(f, s, dest, depth).Some?
    ensures Decoded(Composite(f, s, dest, depth).value)
    decreases MAX_COMPONENT_DEPTH + 1 - depth, 0, |s|
  {
    hide Join, ReadComponent, InstructionsFit;
    var Record(c, flags, rest) := ReadComponent(s).value;
    LoadDecoded(f, c.glyph, depth + 1);
    JoinWellFormed(dest, LoadGlyph(f, c.glyph, depth + 1).value, c.dx, c.dy);
    if Has(flags, MORE_COMPONENTS) {
      CompositeDecoded(f, rest, Join(dest, LoadGlyph(f, c.glyph, depth + 1).value, c.dx, c.dy), depth);
    }
  }

  /** Whatever the bytes, an outline that loads has contour ends that increase up to its last point. */
  lemma {:induction false} LoadDecoded(f: Font, g: nat, depth: nat)
    requires ValidFont(f) && LoadGlyph(f, g, depth).Some?
    ensures Decoded(LoadGlyph(f, g, depth).value)
    decreases MAX_COMPONENT_DEPTH + 1 - depth, 1, 0
  {
    hide Simple, Composite, GlyphData;
    var data := GlyphData(f, g).value;
    if data != [] && S16(data, 0) >= 0 {
      SimpleDecoded(data);
    } else if data != [] {
      CompositeDecoded(f, data[10..], Empty, depth);
    }
  }

  /** So flattening it can fail only for lack of room in the edge buffer. */
  lemma LoadedFlattens(f: Font, g: nat, depth: nat)
    requires ValidFont(f) && LoadGlyph(f, g, depth).Some?
    ensures var (es, ok) := R.OutlineEdges(LoadGlyph(f, g, depth).value); ok || |es| == R.MAX_RASTER_EDGES
  {
    hide LoadGlyph;
    LoadDecoded(f, g, depth);
    var o := LoadGlyph(f, g, depth).value;
    if !R.OutlineEdges(o).1 {
      R.FailsOnlyWhenFull(o);
    }
  }

  // ----- nesting -----

  /** All components a composite description lists, without loading any. */
  function Listed(s: seq<Byte>): (r: Option<seq<Component>>)
    decreases |s|
  {
    match ReadComponent(s)
    case None => None
    case Some(Record(c, flags, rest)) =>
      if Has(flags, MORE_COMPONENTS) then
        match Listed(rest)
        case None => None
        case Some(cs) => Some([c] + cs)
      else if Has(flags, HAVE_INSTRUCTIONS) && !InstructionsFit(rest) then None
      else Some([c])
  }

  /** The outline as the list of its contours. */
  function Contour(o: R.Outline, i: nat): (ps: seq<R.Point>)
    requires R.WellFormed(o) && i < |o.ends|
  {
    R.EndsBelow(o, i);
    o.points[if i == 0 then 0 else o.ends[i - 1] + 1..o.ends[i] + 1]
  }

  function Contours(o: R.Outline): (cs: seq<seq<R.Point>>)
    requires R.WellFormed(o)
    ensures |cs| == |o.ends|
  {
    seq(|o.ends|, i requires 0 <= i < |o.ends| => Contour(o, i))
  }

  function MoveContours(cs: seq<seq<R.Point>>, dx: int, dy: int): (r: seq<seq<R.Point>>)
    ensures |r| == |cs| && forall i :: 0 <= i < |cs| ==> r[i] == MoveAll(cs[i], dx, dy)
  {
    seq(|cs|, i requires 0 <= i < |cs| => MoveAll(cs[i], dx, dy))
  }

  /** Every point of every contour is moved right by dx and up by dy. */
  lemma MovedPoints(cs: seq<seq<R.Point>>, dx: int, dy: int, i: nat, j: nat)
    requires i < |cs| && j < |cs[i]|
    ensures var p, q := cs[i][j], MoveContours(cs, dx, dy)[i][j]; q.x - p.x == dx && q.y - p.y == dy && q.on == p.on
  {
  }

  lemma JoinContour(dest: R.Outline, src: R.Outline, dx: int, dy: int, k: nat)
    requires R.WellFormed(dest) && R.WellFormed(src) && R.WellFormed(Join(dest, src, dx, dy)) && k < |src.ends|
    ensures Contour(Join(dest, src, dx, dy), |dest.ends| + k) == MoveAll(Contour(src, k), dx, dy)
  {
    R.EndsBelow(src, k);
    R.EndsBelow(Join(dest, src, dx, dy), |dest.ends| + k);
  }

  /** Appending an outline appends its contours, moved. */
  lemma JoinContours(dest: R.Outline, src: R.Outline, dx: int, dy: int)
    requires R.WellFormed(dest) && R.WellFormed(src) && R.WellFormed(Join(dest, src, dx, dy))
    ensures Contours(Join(dest, src, dx, dy)) == Contours(dest) + MoveContours(Contours(src), dx, dy)
  {
    var o := Join(dest, src, dx, dy);
    forall i | 0 <= i < |o.ends| ensures Contour(o, i) == (Contours(dest) + MoveContours(Contours(src), dx, dy))[i] {
      if i < |dest.ends| {
        R.EndsBelow(dest, i);
      } else {
        JoinContour(dest, src, dx, dy, i - |dest.ends|);
      }
    }
  }

  /** The contours of the listed components, each moved by its offset. */
  function AllContours(f: Font, cs: seq<Component>, depth: nat): (r: seq<seq<R.Point>>)
    requires ValidFont(f) && Loadable(f, cs, depth)
  {
    if cs == [] then []
    else
      LoadDecoded(f, cs[0].glyph, depth);
      MoveContours(Contours(LoadGlyph(f, cs[0].glyph, depth).value), cs[0].dx, cs[0].dy) + AllContours(f, cs[1..], depth)
  }

  predicate Loadable(f: Font, cs: seq<Component>, depth: nat)
    requires ValidFont(f)
  {
    forall i :: 0 <= i < |cs| ==> LoadGlyph(f, cs[i].glyph, depth).Some?
  }

  function TotalPoints(cs: seq<seq<R.Point>>): (n: nat) { if cs == [] then 0 else |cs[0]| + TotalPoints(cs[1..]) }

  predicate WithinLimits(cs: seq<seq<R.Point>>) { TotalPoints(cs) <= MAX_GLYPH_POINTS && |cs| <= MAX_GLYPH_CONTOURS }

  lemma {:induction false} TotalConcat(a: seq<seq<R.Point>>, b: seq<seq<R.Point>>)
    ensures TotalPoints(a + b) == TotalPoints(a) + TotalPoints(b)
  {
    if a == [] {
      assert a + b == b;
    } else {
      assert (a + b)[1..] == a[1..] + b;
      TotalConcat(a[1..], b);
    }
  }

  lemma {:induction false} ContoursTotal(o: R.Outline, i: nat)
    requires R.WellFormed(o) && i <= |o.ends|
    ensures TotalPoints(Contours(o)[i..]) == |o.points| - (if i == 0 then 0 else o.ends[i - 1] + 1)
    decreases |o.ends| - i
  {
    if i < |o.ends| {
      R.EndsBelow(o, i);
      assert Contours(o)[i..] == [Contour(o, i)] + Contours(o)[i + 1..];
      ContoursTotal(o, i + 1);
    }
  }

  /** The room an outline needs is that of its contours. */
  lemma FitsByContours(o: R.Outline)
    requires R.WellFormed(o)
    ensures Fits(o) == WithinLimits(Contours(o))
  {
    ContoursTotal(o, 0);
    assert Contours(o)[0..] == Contours(o);
  }

  /** Reading and loading components together is listing them first and joining what they load. */
  ghost predicate Union(f: Font, s: seq<Byte>, dest: R.Outline, depth: nat)
    requires ValidFont(f) && R.WellFormed(dest)
  {
    && Listed(s).Some? && Loadable(f, Listed(s).value, depth)
    && WithinLimits(Contours(dest) + AllContours(f, Listed(s).value, depth))
  }

  lemma LoadableCons(f: Font, c: Component, cs: seq<Component>, depth: nat)
    requires ValidFont(f)
    ensures Loadable(f, [c] + cs, depth) <==> LoadGlyph(f, c.glyph, depth).Some? && Loadable(f, cs, depth)
  {
    hide LoadGlyph;
    var all := [c] + cs;
    if Loadable(f, all, depth) {
      assert all[0] == c;
      assert forall i :: 0 <= i < |cs| ==> cs[i] == all[i + 1];
    }
  }

  lemma AllContoursCons(f: Font, c: Component, cs: seq<Component>, depth: nat)
    requires ValidFont(f) && Loadable(f, [c] + cs, depth)
    ensures Loadable(f, cs, depth) && LoadGlyph(f, c.glyph, depth).Some? && Decoded(LoadGlyph(f, c.glyph, depth).value)
    ensures AllContours(f, [c] + cs, depth)
         == MoveContours(Contours(LoadGlyph(f, c.glyph, depth).value), c.dx, c.dy) + AllContours(f, cs, depth)
  {
    hide LoadGlyph;
    LoadableCons(f, c, cs, depth);
    LoadDecoded(f, c.glyph, depth);
    assert ([c] + cs)[0] == c && ([c] + cs)[1..] == cs;
  }

  /** How the components listed by s relate to those after the first, which has been joined to dest. */
  lemma UnionStep(f: Font, s: seq<Byte>, dest: R.Outline, c: Component, flags: nat, rest: seq<Byte>, o: R.Outline, depth: nat)
    requires ValidFont(f) && R.WellFormed(dest) && R.WellFormed(o)
    requires ReadComponent(s) == Some(Record(c, flags, rest)) && Has(flags, MORE_COMPONENTS)
    requires LoadGlyph(f, c.glyph, depth).Some? && R.WellFormed(LoadGlyph(f, c.glyph, depth).value)
    requires Contours(o) == Contours(dest) + MoveContours(Contours(LoadGlyph(f, c.glyph, depth).value), c.dx, c.dy)
    ensures Union(f, s, dest, depth) <==> Union(f, rest, o, depth)
    ensures Union(f, s, dest, depth) ==> WithinLimits(Contours(o))
    ensures Union(f, s, dest, depth) ==>
              Contours(dest) + AllContours(f, Listed(s).value, depth) == Contours(o) + AllContours(f, Listed(rest).value, depth)
  {
    hide LoadGlyph, ReadComponent, Contours, TotalPoints, MoveContours, InstructionsFit, AllContours, Loadable, Has;
    if Listed(rest).Some? {
      var cs := Listed(rest).value;
      LoadableCons(f, c, cs, depth);
      if Loadable(f, [c] + cs, depth) {
        AllContoursCons(f, c, cs, depth);
        TotalConcat(Contours(o), AllContours(f, cs, depth));
        assert Contours(dest) + AllContours(f, [c] + cs, depth) == Contours(o) + AllContours(f, cs, depth);
      }
    }
  }

  lemma UnionLast(f: Font, s: seq<Byte>, dest: R.Outline, c: Component, flags: nat, rest: seq<Byte>, depth: nat)
    requires ValidFont(f) && R.WellFormed(dest)
    requires ReadComponent(s) == Some(Record(c, flags, rest)) && !Has(flags, MORE_COMPONENTS)
    requires LoadGlyph(f, c.glyph, depth).Some? && R.WellFormed(LoadGlyph(f, c.glyph, depth).value)
    ensures Listed(s) == if Has(flags, HAVE_INSTRUCTIONS) && !InstructionsFit(rest) then None else Some([c])
    ensures Loadable(f, [c], depth)
    ensures AllContours(f, [c], depth) == MoveContours(Contours(LoadGlyph(f, c.glyph, depth).value), c.dx, c.dy)
  {
    hide LoadGlyph, Contours;
    LoadableCons(f, c, [], depth);
    assert [c] + [] == [c];
    AllContoursCons(f, c, [], depth);
  }

  lemma {:induction false} CompositeIsUnion(f: Font, s: seq<Byte>, dest: R.Outline, depth: nat)
    requires ValidFont(f) && depth <= MAX_COMPONENT_DEPTH && Decoded(dest)
    ensures Composite(f, s, dest, depth).Some? <==> Union(f, s, dest, depth + 1)
    ensures Composite(f, s, dest, depth).Some? ==>
              var o := Composite(f, s, dest, depth).value;
              Decoded(o) && Contours(o) == Contours(dest) + AllContours(f, Listed(s).value, depth + 1)
    decreases |s|
  {
    hide LoadGlyph, ReadComponent, Join, Contours, InstructionsFit, TotalPoints, MoveContours, Has, AllContours, R.WellFormed, Fits, WithinLimits;
    if ReadComponent(s).Some? {
      var Record(c, flags, rest) := ReadComponent(s).value;
      if LoadGlyph(f, c.glyph, depth + 1).Some? {
        LoadDecoded(f, c.glyph, depth + 1);
        var src := LoadGlyph(f, c.glyph, depth + 1).value;
        var o := Join(dest, src, c.dx, c.dy);
        JoinWellFormed(dest, src, c.dx, c.dy);
        JoinContours(dest, src, c.dx, c.dy);
        FitsByContours(o);
        if Has(flags, MORE_COMPONENTS) {
          UnionStep(f, s, dest, c, flags, rest, o, depth + 1);
          if Fits(o) {
            CompositeIsUnion(f, rest, o, depth);
          }
        } else {
          UnionLast(f, s, dest, c, flags, rest, depth + 1);
        }
      } else if Listed(s).Some? {
        assert Listed(s).value[0] == c;
      }
    }
  }

  /** A composite glyph is exactly the union of its components, each moved, or nothing if one fails or there is no room. */
  lemma CompositeGlyph(f: Font, g: nat, depth: nat)
    requires ValidFont(f) && depth <= MAX_COMPONENT_DEPTH && GlyphData(f, g).Some?
    requires var data := GlyphData(f, g).value; |data| >= 10 && S16(data, 0) < 0
    ensures var s, r := GlyphData(f, g).value[10..], LoadGlyph(f, g, depth);
            && (r.Some? <==> Listed(s).Some? && Loadable(f, Listed(s).value, depth + 1) && WithinLimits(AllContours(f, Listed(s).value, depth + 1)))
            && (r.Some? ==> R.WellFormed(r.value) && Contours(r.value) == AllContours(f, Listed(s).value, depth + 1))
  {
    hide Composite, AllContours, Listed, GlyphData, WithinLimits, Loadable;
    var s := GlyphData(f, g).value[10..];
    CompositeIsUnion(f, s, Empty, depth);
    assert Contours(Empty) == [];
    if Listed(s).Some? && Loadable(f, Listed(s).value, depth + 1) {
      assert Contours(Empty) + AllContours(f, Listed(s).value, depth + 1) == AllContours(f, Listed(s).value, depth + 1);
    }
  }

  // ----- the depth limit -----

  lemma {:induction false} CompositeShallower(f: Font, s: seq<Byte>, dest: R.Outline, depth: nat)
    requires ValidFont(f) && depth + 1 <= MAX_COMPONENT_DEPTH && Composite(f, s, dest, depth + 1).Some?
    ensures Composite(f, s, dest, depth) == Composite(f, s, dest, depth + 1)
    decreases MAX_COMPONENT_DEPTH + 1 - depth, 0, |s|
  {
    hide ReadComponent, InstructionsFit, Append, Has;
    var Record(c, flags, rest) := ReadComponent(s).value;
    DepthIrrelevant(f, c.glyph, depth + 1);
    if Has(flags, MORE_COMPONENTS) {
      CompositeShallower(f, rest, Append(dest, LoadGlyph(f, c.glyph, depth + 2).value, c.dx, c.dy).value, depth);
    }
  }

  /** The depth decides only whether a glyph loads, never what it loads as. */
  lemma {:induction false} DepthIrrelevant(f: Font, g: nat, depth: nat)
    requires ValidFont(f) && LoadGlyph(f, g, depth + 1).Some?
    ensures LoadGlyph(f, g, depth) == LoadGlyph(f, g, depth + 1)
    decreases MAX_COMPONENT_DEPTH + 1 - depth, 1, 0
  {
    hide Simple, GlyphData;
    var data := GlyphData(f, g).value;
    if |data| >= 10 && S16(data, 0) < 0 {
      CompositeShallower(f, data[10..], Empty, depth);
    }
  }

  /** Glyph g lists h among its components. */
  ghost predicate Uses(f: Font, g: nat, h: nat)
    requires ValidFont(f)
  {
    && GlyphData(f, g).Some? && |GlyphData(f, g).value| >= 10 && S16(GlyphData(f, g).value, 0) < 0
    && Listed(GlyphData(f, g).value[10..]).Some?
    && exists i :: 0 <= i < |Listed(GlyphData(f, g).value[10..]).value| && Listed(GlyphData(f, g).value[10..]).value[i].glyph == h
  }

  lemma UsedLoads(f: Font, g: nat, h: nat, depth: nat)
    requires ValidFont(f) && Uses(f, g, h) && LoadGlyph(f, g, depth).Some?
    ensures depth < MAX_COMPONENT_DEPTH && LoadGlyph(f, h, depth + 1).Some?
  {
    hide Composite, AllContours, Listed, GlyphData, WithinLimits, R.WellFormed, Contours;
    CompositeGlyph(f, g, depth);
    assert Loadable(f, Listed(GlyphData(f, g).value[10..]).value, depth + 1);
  }

  lemma {:induction false} ChainLoads(f: Font, chain: seq<nat>, depth: nat)
    requires ValidFont(f) && chain != [] && LoadGlyph(f, chain[0], depth).Some?
    requires forall i :: 0 < i < |chain| ==> Uses(f, chain[i - 1], chain[i])
    ensures depth + |chain| - 1 <= 8
    ensures LoadGlyph(f, chain[|chain| - 1], depth + |chain| - 1).Some?
    decreases |chain|
  {
    hide GlyphData, Composite, Simple, Uses;
    if |chain| > 1 {
      assert Uses(f, chain[1 - 1], chain[1]);
      UsedLoads(f, chain[0], chain[1], depth);
      forall i | 0 < i < |chain[1..]| ensures Uses(f, chain[1..][i - 1], chain[1..][i]) {
        assert Uses(f, chain[i + 1 - 1], chain[i + 1]);
      }
      ChainLoads(f, chain[1..], depth + 1);
    }
  }

  /** A glyph that reaches itself through its components never loads. */
  lemma {:induction false} CyclicFails(f: Font, chain: seq<nat>, depth: nat)
    requires ValidFont(f) && |chain| >= 2 && chain[0] == chain[|chain| - 1]
    requires forall i :: 0 < i < |chain| ==> Uses(f, chain[i - 1], chain[i])
    ensures LoadGlyph(f, chain[0], depth) == None
    decreases MAX_COMPONENT_DEPTH + 1 - depth
  {
    hide GlyphData, Composite, Simple, Uses;
    if LoadGlyph(f, chain[0], depth).Some? {
      ChainLoads(f, chain, depth);
      CyclicFails(f, chain, depth + |chain| - 1);
    }
  }
}
