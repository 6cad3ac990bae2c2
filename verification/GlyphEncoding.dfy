/**
 Simple glyph descriptions as the OpenType 'glyf' chapter lays them out, and the proof that the
 decoder accepts exactly those, giving back the outline that was encoded.
 */
module GlyphEncoding {
  import opened VirtualMemory
  import opened Wrappers
  import opened Sfnt
  import opened Glyphs
  import R = Raster

  /** One flag byte with the number of further points that share it. */
  datatype Run = Run(flag: Byte, repeat: Byte)

  /** A flag is repeated only if its repeat bit says so; a repeat count of 0 is allowed. */
  predicate LegalRun(r: Run) { Has(r.flag, 8) || r.repeat == 0 }

  predicate LegalRuns(runs: seq<Run>) { forall i :: 0 <= i < |runs| ==> LegalRun(runs[i]) }

  function RunBytes(r: Run): (s: seq<Byte>) { if Has(r.flag, 8) then [r.flag, r.repeat] else [r.flag] }

  function EncodeRuns(runs: seq<Run>): (s: seq<Byte>) {
    if runs == [] then [] else RunBytes(runs[0]) + EncodeRuns(runs[1..])
  }

  /** The flag of every point. */
  function Expand(runs: seq<Run>): (flags: seq<Byte>) {
    if runs == [] then [] else Copies(runs[0].flag, Count(runs[0])) + Expand(runs[1..])
  }

  function Count(r: Run): (n: nat) { var n: nat := r.repeat; n + 1 }

  /** Bit 1 or 2: the step is one byte.  Bit 4 or 5: its sign then, else that there is no step. */
  function ShortBit(axis: Axis): (m: nat) ensures m > 0 { if axis.X? then 2 else 4 }
  function SameBit(axis: Axis): (m: nat) ensures m > 0 { if axis.X? then 16 else 32 }

  /** The flag has a form for a step of d along the axis. */
  predicate Encodable(flag: Byte, axis: Axis, d: int) {
    if Has(flag, ShortBit(axis)) then (if Has(flag, SameBit(axis)) then 0 <= d < 256 else -256 < d <= 0)
    else if Has(flag, SameBit(axis)) then d == 0
    else -0x8000 <= d < 0x8000
  }

  function Big16(v: int): (s: seq<Byte>)
    requires -0x8000 <= v < 0x1_0000
    ensures |s| == 2
  {
    [v % 0x1_0000 / 256, v % 256]
  }

  function Magnitude(d: int): (b: Byte) requires -256 < d < 256 { if d < 0 then -d else d }

  function EncodeStep(flag: Byte, axis: Axis, d: int): (s: seq<Byte>)
    requires Encodable(flag, axis, d)
    ensures |s| == Width(flag, axis)
  {
    if Has(flag, ShortBit(axis)) then [Magnitude(d)] else if Has(flag, SameBit(axis)) then [] else Big16(d)
  }

  predicate LegalSteps(flags: seq<Byte>, vs: seq<int>, axis: Axis, from: int) {
    && |vs| == |flags|
    && (flags == [] || (Encodable(flags[0], axis, vs[0] - from) && LegalSteps(flags[1..], vs[1..], axis, vs[0])))
  }

  function EncodeSteps(flags: seq<Byte>, vs: seq<int>, axis: Axis, from: int): (s: seq<Byte>)
    requires LegalSteps(flags, vs, axis, from)
  {
    if flags == [] then [] else EncodeStep(flags[0], axis, vs[0] - from) + EncodeSteps(flags[1..], vs[1..], axis, vs[0])
  }

  function EncodeEnds(ends: seq<nat>): (s: seq<Byte>)
    requires forall i :: 0 <= i < |ends| ==> ends[i] < 0x1_0000
    ensures |s| == 2 * |ends|
  {
    if ends == [] then [] else Big16(ends[0]) + EncodeEnds(ends[1..])
  }

  /** A glyph with at least one contour, its encoding choices and the bytes the decoder does not look at. */
  datatype Description = Description(outline: R.Outline, bounds: seq<Byte>, instructions: seq<Byte>, runs: seq<Run>, padding: seq<Byte>) {
    function Flags(): (r: seq<Byte>) { Expand(runs) }
    function Xs(): (r: seq<int>) { seq(|outline.points|, i requires 0 <= i < |outline.points| => outline.points[i].x) }
    function Ys(): (r: seq<int>) { seq(|outline.points|, i requires 0 <= i < |outline.points| => outline.points[i].y) }
  }

  predicate Legal(d: Description) {
    && d.outline.ends != [] && R.WellFormed(d.outline) && |d.outline.points| <= 384 && |d.outline.ends| <= 64
    && |d.bounds| == 8 && |d.instructions| < 0x1_0000 && LegalRuns(d.runs)
    && |d.Flags()| == |d.outline.points|
    && (forall i :: 0 <= i < |d.outline.points| ==> d.outline.points[i].on == Has(d.Flags()[i], 1))
    && LegalSteps(d.Flags(), d.Xs(), X, 0) && LegalSteps(d.Flags(), d.Ys(), Y, 0)
  }

  lemma EndsSmall(o: R.Outline)
    requires Decoded(o)
    ensures forall i :: 0 <= i < |o.ends| ==> o.ends[i] < 0x1_0000
  {
    forall i | 0 <= i < |o.ends| ensures o.ends[i] < 0x1_0000 {
      R.EndsBelow(o, i);
    }
  }

  function EncodeTail(d: Description): (s: seq<Byte>)
    requires Legal(d)
  {
    EncodeRuns(d.runs) + (EncodeSteps(d.Flags(), d.Xs(), X, 0) + (EncodeSteps(d.Flags(), d.Ys(), Y, 0) + d.padding))
  }

  function Encode(d: Description): (s: seq<Byte>)
    requires Legal(d)
  {
    EndsSmall(d.outline);
    Big16(|d.outline.ends|) + d.bounds + EncodeEnds(d.outline.ends) + (Big16(|d.instructions|) + d.instructions + EncodeTail(d))
  }

  // ----- decoding what was encoded -----

  lemma Regrouped(first: seq<Byte>, middle: seq<Byte>, after: seq<Byte>)
    ensures (first + middle) + after == first + (middle + after)
    ensures ((first + middle) + after)[|first|..] == middle + after
  {
  }

  lemma {:induction false} RunsRoundTrip(runs: seq<Run>, after: seq<Byte>)
    requires LegalRuns(runs)
    ensures Flags(EncodeRuns(runs) + after, |Expand(runs)|) == Some((Expand(runs), after))
  {
    if runs == [] {
      assert EncodeRuns(runs) + after == after;
    } else {
      hide Copies, Has, Flags, RunBytes;
      var rest := runs[1..];
      RunsRoundTrip(rest, after);
      assert LegalRun(runs[0]);
      Regrouped(RunBytes(runs[0]), EncodeRuns(rest), after);
      OneRun(runs[0], EncodeRuns(rest) + after, Expand(rest), after);
    }
  }

  lemma OneRun(r: Run, s: seq<Byte>, flags: seq<Byte>, after: seq<Byte>)
    requires LegalRun(r) && Flags(s, |flags|) == Some((flags, after))
    ensures Flags(RunBytes(r) + s, |Copies(r.flag, Count(r)) + flags|) == Some((Copies(r.flag, Count(r)) + flags, after))
  {
    hide Copies, Has;
    var t := RunBytes(r) + s;
    assert t[|RunBytes(r)|..] == s;
  }

  lemma StepRoundTrip(flag: Byte, axis: Axis, d: int, after: seq<Byte>)
    requires Encodable(flag, axis, d)
    ensures Delta(EncodeStep(flag, axis, d) + after, flag, axis) == d
  {
    hide Has, Big16, S16;
    if -0x8000 <= d < 0x8000 {
      SignedWord(d, after);
    }
  }

  lemma SignedWord(d: int, after: seq<Byte>)
    requires -0x8000 <= d < 0x8000
    ensures S16(Big16(d) + after, 0) == d
  {
    var u := if d < 0 then d + 0x1_0000 else d;
    assert d % 0x1_0000 == u && d % 256 == u % 256;
    assert U16(Big16(d) + after, 0) == u;
  }

  lemma StepsCons(flags: seq<Byte>, v: int, later: seq<int>, axis: Axis, from: int)
    requires flags != [] && Encodable(flags[0], axis, v - from) && LegalSteps(flags[1..], later, axis, v)
    ensures LegalSteps(flags, [v] + later, axis, from)
    ensures EncodeSteps(flags, [v] + later, axis, from) == EncodeStep(flags[0], axis, v - from) + EncodeSteps(flags[1..], later, axis, v)
  {
    assert ([v] + later)[1..] == later;
  }

  lemma {:induction false} StepsRoundTrip(flags: seq<Byte>, vs: seq<int>, axis: Axis, from: int, after: seq<Byte>)
    requires LegalSteps(flags, vs, axis, from)
    ensures Coordinates(EncodeSteps(flags, vs, axis, from) + after, flags, axis, from) == Some((vs, after))
    decreases |flags|
  {
    hide EncodeStep, Delta, Encodable, Width;
    if flags == [] {
      assert EncodeSteps(flags, vs, axis, from) + after == after;
    } else {
      var d := vs[0] - from;
      var later := EncodeSteps(flags[1..], vs[1..], axis, vs[0]) + after;
      StepsRoundTrip(flags[1..], vs[1..], axis, vs[0], after);
      StepRoundTrip(flags[0], axis, d, later);
      Regrouped(EncodeStep(flags[0], axis, d), EncodeSteps(flags[1..], vs[1..], axis, vs[0]), after);
      assert [vs[0]] + vs[1..] == vs;
    }
  }

  lemma Later16(head: seq<Byte>, t: seq<Byte>, at: nat)
    requires |head| == 2 && at + 2 <= |t|
    ensures U16(head + t, at + 2) == U16(t, at)
  {
  }

  lemma First16(v: nat, t: seq<Byte>)
    requires v < 0x1_0000
    ensures U16(Big16(v) + t, 0) == v
  {
  }

  lemma {:induction false} EndsRoundTrip(ends: seq<nat>, after: seq<Byte>)
    requires forall i :: 0 <= i < |ends| ==> ends[i] < 0x1_0000
    ensures Ends(EncodeEnds(ends) + after, |ends|) == ends
  {
    hide Ends, U16, Big16;
    if ends != [] {
      EndsRoundTrip(ends[1..], after);
      var s, t := EncodeEnds(ends) + after, EncodeEnds(ends[1..]) + after;
      assert s == Big16(ends[0]) + t;
      forall i | 0 <= i < |ends| ensures U16(s, 2 * i) == ends[i] {
        if i > 0 {
          Later16(Big16(ends[0]), t, 2 * (i - 1));
          assert Ends(t, |ends| - 1)[i - 1] == ends[1..][i - 1];
        } else {
          First16(ends[0], t);
        }
      }
    }
  }

  lemma BodyRoundTrip(d: Description)
    requires Legal(d)
    ensures Body(Big16(|d.instructions|) + d.instructions + EncodeTail(d), d.outline.ends) == Some(d.outline)
  {
    hide EncodeRuns, EncodeSteps, Coordinates, Glyphs.Flags, Expand, LegalSteps;
    var s := Big16(|d.instructions|) + d.instructions + EncodeTail(d);
    assert U16(s, 0) == |d.instructions|;
    assert s[2 + |d.instructions|..] == EncodeTail(d);
    var ys := EncodeSteps(d.Flags(), d.Ys(), Y, 0) + d.padding;
    RunsRoundTrip(d.runs, EncodeSteps(d.Flags(), d.Xs(), X, 0) + ys);
    StepsRoundTrip(d.Flags(), d.Xs(), X, 0, ys);
    StepsRoundTrip(d.Flags(), d.Ys(), Y, 0, d.padding);
    assert Points(d.Flags(), d.Xs(), d.Ys()) == d.outline.points;
  }

  /** Every legal description decodes to its outline. */
  lemma DecodeEncode(d: Description)
    requires Legal(d)
    ensures Simple(Encode(d)) == Some(d.outline)
  {
    hide EncodeTail, Body, LegalSteps, EncodeEnds, Has, Expand, LegalRuns, Ends;
    EndsSmall(d.outline);
    var s, n := Encode(d), |d.outline.ends|;
    var body := Big16(|d.instructions|) + d.instructions + EncodeTail(d);
    assert S16(s, 0) == n;
    assert s[10..] == EncodeEnds(d.outline.ends) + body;
    EndsRoundTrip(d.outline.ends, body);
    assert s[10 + 2 * n..] == body;
    BodyRoundTrip(d);
  }

  // ----- encoding what was decoded -----

  lemma RunsCons(run: Run, later: seq<Run>)
    ensures EncodeRuns([run] + later) == RunBytes(run) + EncodeRuns(later)
    ensures Expand([run] + later) == Copies(run.flag, Count(run)) + Expand(later)
  {
    assert ([run] + later)[1..] == later;
  }

  lemma Regroup(s: seq<Byte>, first: seq<Byte>, middle: seq<Byte>, after: seq<Byte>)
    requires |first| <= |s| && s[..|first|] == first && s[|first|..] == middle + after
    ensures s == (first + middle) + after
  {
    assert s == s[..|first|] + s[|first|..];
  }

  lemma {:induction false} FlagsAreRuns(s: seq<Byte>, n: nat) returns (runs: seq<Run>)
    requires Flags(s, n).Some?
    ensures LegalRuns(runs) && Expand(runs) == Flags(s, n).value.0 && s == EncodeRuns(runs) + Flags(s, n).value.1
    decreases n
  {
    hide Expand, EncodeRuns, Copies, Has;
    if n == 0 {
      runs := [];
      EmptyRuns();
    } else {
      var run := if Has(s[0], REPEAT) then Run(s[0], s[1]) else Run(s[0], 0);
      var rest := s[|RunBytes(run)|..];
      var later := FlagsAreRuns(rest, n - Count(run));
      runs := [run] + later;
      RunsCons(run, later);
      Regroup(s, RunBytes(run), EncodeRuns(later), Flags(s, n).value.1);
    }
  }

  lemma EmptyRuns()
    ensures EncodeRuns([]) == [] && Expand([]) == []
  {
  }

  lemma StepIsEncoding(s: seq<Byte>, flag: Byte, axis: Axis)
    requires |s| >= Width(flag, axis)
    ensures Encodable(flag, axis, Delta(s, flag, axis))
    ensures EncodeStep(flag, axis, Delta(s, flag, axis)) == s[..Width(flag, axis)]
  {
  }

  lemma {:induction false} CoordinatesAreSteps(s: seq<Byte>, flags: seq<Byte>, axis: Axis, from: int)
    requires Coordinates(s, flags, axis, from).Some?
    ensures var (vs, after) := Coordinates(s, flags, axis, from).value;
            LegalSteps(flags, vs, axis, from) && s == EncodeSteps(flags, vs, axis, from) + after
    decreases |flags|
  {
    hide EncodeStep, Delta, Encodable, Width;
    if flags != [] {
      var w := Width(flags[0], axis);
      var d := Delta(s, flags[0], axis);
      CoordinatesAreSteps(s[w..], flags[1..], axis, from + d);
      StepIsEncoding(s, flags[0], axis);
      var (later, after) := Coordinates(s[w..], flags[1..], axis, from + d).value;
      StepsCons(flags, from + d, later, axis, from);
      Regroup(s, s[..w], EncodeSteps(flags[1..], later, axis, from + d), after);
    }
  }

  lemma {:induction false} EndsAreEncoded(s: seq<Byte>, n: nat)
    requires 2 * n <= |s|
    ensures EncodeEnds(Ends(s, n)) == s[..2 * n]
    decreases n
  {
    if n > 0 {
      EndsAreEncoded(s[2..], n - 1);
      assert Ends(s, n)[1..] == Ends(s[2..], n - 1);
      assert Big16(U16(s, 0)) == s[..2];
      assert s[..2 * n] == s[..2] + s[2..][..2 * (n - 1)];
    }
  }

  lemma BodyIsEncoding(body: seq<Byte>, ends: seq<nat>, bounds: seq<Byte>) returns (d: Description)
    requires ends != [] && |bounds| == 8 && Body(body, ends).Some? && Decoded(Body(body, ends).value)
    ensures Legal(d) && d.outline == Body(body, ends).value && d.bounds == bounds
    ensures body == Big16(|d.instructions|) + d.instructions + EncodeTail(d)
  {
    hide EncodeRuns, EncodeSteps, Coordinates, Flags, Expand, LegalSteps, LegalRuns, Big16, Has, R.WellFormed;
    var n := U16(body, 0);
    var tail := body[2 + n..];
    var count := ends[|ends| - 1] + 1;
    var (flags, s1) := Flags(tail, count).value;
    var (xs, s2) := Coordinates(s1, flags, X, 0).value;
    var (ys, s3) := Coordinates(s2, flags, Y, 0).value;
    var runs := FlagsAreRuns(tail, count);
    CoordinatesAreSteps(s1, flags, X, 0);
    CoordinatesAreSteps(s2, flags, Y, 0);
    d := Description(R.Outline(Points(flags, xs, ys), ends), bounds, body[2..2 + n], runs, s3);
    assert d.Xs() == xs && d.Ys() == ys;
    HeaderWord(body);
    assert body == body[..2] + body[2..2 + n] + tail;
  }

  /** Whatever decodes to an outline with contours is a legal description of it. */
  lemma EncodeDecode(s: seq<Byte>) returns (d: Description)
    requires Simple(s).Some? && Simple(s).value.ends != []
    ensures Legal(d) && d.outline == Simple(s).value && Encode(d) == s
  {
    hide Body, Legal, EncodeEnds, Big16, Decoded, EncodeTail;
    SimpleDecoded(s);
    var n := S16(s, 0);
    var ends := Ends(s[10..], n);
    d := BodyIsEncoding(s[10 + 2 * n..], ends, s[2..10]);
    BodyEnds(s[10 + 2 * n..], ends);
    EndsSmall(d.outline);
    EndsAreEncoded(s[10..], n);
    HeaderWord(s);
    assert s == s[..2] + s[2..10] + s[10..][..2 * n] + s[10 + 2 * n..];
  }

  lemma BodyEnds(body: seq<Byte>, ends: seq<nat>)
    requires ends != [] && Body(body, ends).Some?
    ensures Body(body, ends).value.ends == ends
  {
    hide Flags, Coordinates;
  }

  lemma HeaderWord(s: seq<Byte>)
    requires |s| >= 2
    ensures Big16(S16(s, 0)) == s[..2] == Big16(U16(s, 0))
  {
  }

  /** The decoder accepts an outline with contours exactly from its legal descriptions. */
  lemma AcceptsExactlyLegal(s: seq<Byte>, o: R.Outline)
    requires o.ends != []
    ensures Simple(s) == Some(o) <==> exists d :: Legal(d) && d.outline == o && Encode(d) == s
  {
    hide Encode, Simple, Legal;
    if Simple(s) == Some(o) {
      var d := EncodeDecode(s);
    }
    forall d | Legal(d) && d.outline == o && Encode(d) == s ensures Simple(s) == Some(o) {
      DecodeEncode(d);
    }
  }

  /** A glyph whose bytes are a legal description loads as its outline; one without bytes, or without contours, is
      empty. */
  lemma SimpleGlyphLoads(f: Font, g: nat, depth: nat, d: Description, bounds: seq<Byte>)
    requires ValidFont(f) && depth <= 8 && GlyphData(f, g).Some? && Legal(d) && |bounds| >= 8
    ensures GlyphData(f, g).value == Encode(d) ==> LoadGlyph(f, g, depth) == Some(d.outline)
    ensures GlyphData(f, g).value in {[], [0, 0] + bounds} ==> LoadGlyph(f, g, depth) == Some(R.Outline([], []))
  {
    hide Encode, Legal, Body, GlyphData, Composite;
    DecodeEncode(d);
    var data := GlyphData(f, g).value;
    assert data == [0, 0] + bounds ==> |data| >= 10 && S16(data, 0) == 0;
  }
}
