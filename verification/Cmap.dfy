/**
 Character to glyph mapping (drivers/font_ttf.c): the early-exit scans of Formats 4 and 12
 of the OpenType 'cmap' chapter, against the meaning the chapter gives to a subtable.
 */
module Cmap {
  import opened VirtualMemory
  import opened Sfnt

  // ----- scanning ranges -----

  datatype Range = Range(start: nat, end: nat)

  predicate Contains(r: Range, c: nat) { r.start <= c <= r.end }

  /** Ascending and disjoint, as both formats demand. */
  ghost predicate Sorted(rs: seq<Range>) {
    && (forall i :: 0 <= i < |rs| ==> rs[i].start <= rs[i].end)
    && (forall i, j :: 0 <= i < j < |rs| ==> rs[i].end < rs[j].start)
  }

  /** Where the kernel's scan stops: at the first range that begins after c or ends at or after it. */
  function Stop(rs: seq<Range>, c: nat, i: nat): (k: nat)
    requires i <= |rs|
    ensures i <= k <= |rs|
    ensures forall j :: i <= j < k ==> rs[j].end < c && rs[j].start <= c
    ensures k < |rs| ==> c < rs[k].start || c <= rs[k].end
    decreases |rs| - i
  {
    if i == |rs| || c < rs[i].start || c <= rs[i].end then i else Stop(rs, c, i + 1)
  }

  /** Where the chapter's search stops: at the first range that ends at or after c. */
  function FirstEnd(rs: seq<Range>, c: nat, i: nat): (k: nat)
    requires i <= |rs|
    ensures i <= k <= |rs|
    ensures forall j :: i <= j < k ==> rs[j].end < c
    ensures k < |rs| ==> c <= rs[k].end
    decreases |rs| - i
  {
    if i == |rs| || c <= rs[i].end then i else FirstEnd(rs, c, i + 1)
  }

  /** A range whose start lies after its end, with c between the two. */
  predicate Inverted(r: Range, c: nat) { r.end < c < r.start }

  /**
   Even on unsorted input the scan stops where the chapter's search does, except exactly when a
   range written backwards comes first.
   */
  lemma ScanIsSearch(rs: seq<Range>, c: nat)
    ensures Stop(rs, c, 0) == FirstEnd(rs, c, 0)
       <==> forall j :: 0 <= j < FirstEnd(rs, c, 0) ==> !Inverted(rs[j], c)
  {
    var s, f := Stop(rs, c, 0), FirstEnd(rs, c, 0);
    assert s < f ==> Inverted(rs[s], c);
  }

  /** On sorted ranges the scan stops at the one range containing c, if there is one. */
  lemma ScanFinds(rs: seq<Range>, c: nat, i: nat)
    requires Sorted(rs) && i < |rs| && Contains(rs[i], c)
    ensures Stop(rs, c, 0) == i
    ensures forall j :: 0 <= j < |rs| && Contains(rs[j], c) ==> j == i
  {
    var s := Stop(rs, c, 0);
    forall j | 0 <= j < |rs| && j != i ensures !Contains(rs[j], c) {
      assert rs[i].end < rs[j].start || rs[j].end < rs[i].start;
    }
  }

  // ----- Format 4 -----

  function SegCount(s: seq<Byte>): (n: nat) requires |s| >= 16 { U16(s, 6) / 2 }

  /** All four parallel arrays lie inside the subtable. */
  predicate Complete4(s: seq<Byte>) { |s| >= 16 && 16 + 8 * SegCount(s) <= |s| }

  function Segments(s: seq<Byte>): (rs: seq<Range>)
    requires Complete4(s)
    ensures |rs| == SegCount(s)
    ensures forall i :: 0 <= i < |rs| ==> rs[i] == Range(U16(s, 16 + 2 * SegCount(s) + 2 * i), U16(s, 14 + 2 * i))
  {
    seq(SegCount(s), i requires 0 <= i < SegCount(s) => Range(U16(s, 16 + 2 * SegCount(s) + 2 * i), U16(s, 14 + 2 * i)))
  }

  /** The glyph segment i gives to a character it contains; 0 when its glyph array entry is not in the subtable. */
  function SegmentGlyph(s: seq<Byte>, i: nat, c: nat): (g: nat)
    requires Complete4(s) && i < SegCount(s) && Contains(Segments(s)[i], c)
    ensures g < 0x1_0000
  {
    var n := SegCount(s);
    var delta := U16(s, 16 + 4 * n + 2 * i);
    var slot := 16 + 6 * n + 2 * i;
    if U16(s, slot) == 0 then (c + delta) % 0x1_0000
    else
      var at := slot + U16(s, slot) + 2 * (c - Segments(s)[i].start);
      if at + 2 > |s| || U16(s, at) == 0 then 0 else (U16(s, at) + delta) % 0x1_0000
  }

  /** What the kernel returns for any subtable, sorted or not. */
  function Scan4(s: seq<Byte>, c: nat): (g: nat) {
    if c > 0xffff || !Complete4(s) then 0
    else
      var k := Stop(Segments(s), c, 0);
      if k < SegCount(s) && Contains(Segments(s)[k], c) then SegmentGlyph(s, k, c) else 0
  }

  /** A signed delta and its unsigned form agree modulo 65536. */
  lemma SameDelta(s: seq<Byte>, at: nat, v: nat)
    requires at + 2 <= |s|
    ensures (v + S16(s, at)) % 0x1_0000 == (v + U16(s, at)) % 0x1_0000
  {
  }

  /** What the loop below does with the segment it stops at. */
  method SegmentLookup(s: seq<Byte>, c: nat, i: nat, startCode: nat, idDeltas: nat, idRangeOffsets: nat) returns (g: nat)
    requires Complete4(s) && i < SegCount(s) && Contains(Segments(s)[i], c) && startCode == Segments(s)[i].start
    requires idDeltas == 16 + 4 * SegCount(s) && idRangeOffsets == 16 + 6 * SegCount(s)
    ensures g == SegmentGlyph(s, i, c)
  {
    hide U16, S16, Segments;
    var delta := S16(s, idDeltas + i * 2);
    var rangeOffset := U16(s, idRangeOffsets + i * 2);
    SameDelta(s, idDeltas + i * 2, c);
    if rangeOffset == 0 {
      return (c + delta) % 0x1_0000;
    }
    var glyphOffset := idRangeOffsets + i * 2 + rangeOffset + (c - startCode) * 2;
    if !RangeIsValid(|s|, glyphOffset, 2) {
      return 0;
    }
    var glyph := U16(s, glyphOffset);
    if glyph == 0 {
      return 0;
    }
    SameDelta(s, idDeltas + i * 2, glyph);
    return (glyph + delta) % 0x1_0000;
  }

  method CmapFormat4Glyph(s: seq<Byte>, c: nat) returns (g: nat)
    ensures g == Scan4(s, c)
  {
    hide U16, Segments, SegmentGlyph;
    if c > 0xffff || |s| < 16 {
      return 0;
    }
    var count := U16(s, 6) / 2;
    var endCodes := 14;
    var startCodes := endCodes + count * 2 + 2;
    var idDeltas := startCodes + count * 2;
    var idRangeOffsets := idDeltas + count * 2;
    if !RangeIsValid(|s|, idRangeOffsets, count * 2) {
      return 0;
    }
    var i: nat := 0;
    while i < count
      invariant i <= count
      invariant Stop(Segments(s), c, i) == Stop(Segments(s), c, 0)
    {
      var endCode := U16(s, endCodes + i * 2);
      var startCode := U16(s, startCodes + i * 2);
      assert Segments(s)[i] == Range(startCode, endCode);
      if c < startCode {
        return 0;
      }
      if c <= endCode {
        assert Stop(Segments(s), c, 0) == i && Contains(Segments(s)[i], c);
        g := SegmentLookup(s, c, i, startCode, idDeltas, idRangeOffsets);
        return;
      }
      i := i + 1;
    }
    return 0;
  }

  /** Format 4 as the chapter defines it: the glyph of the segment containing c, else 0. */
  ghost predicate Means4(s: seq<Byte>, c: nat, g: nat) requires Complete4(s) {
    && (forall i :: 0 <= i < SegCount(s) && Contains(Segments(s)[i], c) ==> g == SegmentGlyph(s, i, c))
    && ((forall i :: 0 <= i < SegCount(s) ==> !Contains(Segments(s)[i], c)) ==> g == 0)
  }

  lemma Format4Refines(s: seq<Byte>, c: nat)
    requires Complete4(s) && Sorted(Segments(s)) && c <= 0xffff
    ensures forall g :: g == Scan4(s, c) <==> Means4(s, c, g)
  {
    hide SegmentGlyph;
    var rs := Segments(s);
    forall i | 0 <= i < |rs| && Contains(rs[i], c) ensures Stop(rs, c, 0) == i {
      ScanFinds(rs, c, i);
    }
  }

  // ----- Format 12 -----

  predicate Complete12(s: seq<Byte>) { |s| >= 16 && 16 + 12 * U32(s, 12) <= |s| }

  function Groups(s: seq<Byte>): (rs: seq<Range>)
    requires Complete12(s)
    ensures |rs| == U32(s, 12)
    ensures forall i :: 0 <= i < |rs| ==> rs[i] == Range(U32(s, 16 + 12 * i), U32(s, 20 + 12 * i))
  {
    seq(U32(s, 12), i requires 0 <= i < U32(s, 12) => Range(U32(s, 16 + 12 * i), U32(s, 20 + 12 * i)))
  }

  /** The glyph number group i assigns to c, as an unbounded sum. */
  function GroupSum(s: seq<Byte>, i: nat, c: nat): (g: nat)
    requires Complete12(s) && i < U32(s, 12) && Contains(Groups(s)[i], c)
  {
    U32(s, 24 + 12 * i) + (c - Groups(s)[i].start)
  }

  /** A glyph number that does not fit 16 bits names no glyph. */
  function Glyph16(v: nat): (g: nat) ensures g <= 0xffff { if v <= 0xffff then v else 0 }

  function Scan12(s: seq<Byte>, c: nat): (g: nat) {
    if !Complete12(s) then 0
    else
      var k := Stop(Groups(s), c, 0);
      if k < U32(s, 12) && Contains(Groups(s)[k], c) then Glyph16(GroupSum(s, k, c) % 0x1_0000_0000) else 0
  }

  /** The order of the additions in 32-bit arithmetic does not matter. */
  lemma Wraps(a: nat, c: nat, start: nat)
    requires start <= c
    ensures ((a + c) % 0x1_0000_0000 - start) % 0x1_0000_0000 == (a + (c - start)) % 0x1_0000_0000
  {
  }

  method CmapFormat12Glyph(s: seq<Byte>, c: nat) returns (g: nat)
    ensures g == Scan12(s, c)
  {
    hide U32;
    if |s| < 16 {
      return 0;
    }
    var count := U32(s, 12);
    if !RangeIsValid(|s|, 16, count * 12) {
      return 0;
    }
    var i: nat := 0;
    while i < count
      invariant i <= count
      invariant Stop(Groups(s), c, i) == Stop(Groups(s), c, 0)
    {
      var group := 16 + i * 12;
      var startChar, endChar := U32(s, group), U32(s, group + 4);
      assert Groups(s)[i] == Range(startChar, endChar);
      if c < startChar {
        return 0;
      }
      if c <= endChar {
        assert Stop(Groups(s), c, 0) == i && Contains(Groups(s)[i], c);
        var startGlyph := U32(s, group + 8);
        Wraps(startGlyph, c, startChar);
        var glyph := ((startGlyph + c) % 0x1_0000_0000 - startChar) % 0x1_0000_0000;
        return if glyph <= 0xffff then glyph else 0;
      }
      i := i + 1;
    }
    return 0;
  }

  /** Format 12 as the chapter defines it, without wrap-around. */
  ghost predicate Means12(s: seq<Byte>, c: nat, g: nat) requires Complete12(s) {
    && (forall i :: 0 <= i < U32(s, 12) && Contains(Groups(s)[i], c) ==> g == Glyph16(GroupSum(s, i, c)))
    && ((forall i :: 0 <= i < U32(s, 12) ==> !Contains(Groups(s)[i], c)) ==> g == 0)
  }

  /** The sum leaves 32 bits and comes back as another glyph's number. */
  predicate Aliases(s: seq<Byte>, i: nat, c: nat)
    requires Complete12(s) && i < U32(s, 12) && Contains(Groups(s)[i], c)
  {
    0x1_0000_0000 < GroupSum(s, i, c) <= 0x1_0000_ffff
  }

  lemma WrappedGlyph(v: nat)
    requires v < 0x2_0000_0000
    ensures Glyph16(v % 0x1_0000_0000) == Glyph16(v) <==> !(0x1_0000_0000 < v <= 0x1_0000_ffff)
  {
  }

  /** On sorted groups the scan is the standard mapping, except exactly where the 32-bit sum aliases. */
  lemma Format12Refines(s: seq<Byte>, c: nat)
    requires Complete12(s) && Sorted(Groups(s)) && c <= 0xffff_ffff
    ensures Means12(s, c, Scan12(s, c))
       <==> forall i :: 0 <= i < U32(s, 12) && Contains(Groups(s)[i], c) ==> !Aliases(s, i, c)
  {
    hide U32, Glyph16;
    var rs := Groups(s);
    forall i | 0 <= i < |rs| && Contains(rs[i], c)
      ensures Stop(rs, c, 0) == i && (Scan12(s, c) == Glyph16(GroupSum(s, i, c)) <==> !Aliases(s, i, c))
    {
      ScanFinds(rs, c, i);
      WrappedGlyph(GroupSum(s, i, c));
    }
  }

  /** A group that does alias: the standard mapping has no glyph for 2, the kernel returns glyph 1. */
  lemma AliasExample()
    ensures exists s :: Complete12(s) && Sorted(Groups(s)) && Scan12(s, 2) == 1 && Means12(s, 2, 0)
  {
    var s: seq<Byte> := [0, 12, 0, 0, 0, 0, 0, 28, 0, 0, 0, 0, 0, 0, 0, 1] + [0, 0, 0, 0, 0, 0, 0, 2, 255, 255, 255, 255];
    assert U32(s, 12) == 1 && U32(s, 16) == 0 && U32(s, 20) == 2 && U32(s, 24) == 0xffff_ffff;
    assert Groups(s)[0] == Range(0, 2);
    assert Stop(Groups(s), 2, 0) == 0;
    assert GroupSum(s, 0, 2) == 0x1_0000_0001;
  }

  // ----- dispatch -----

  /** No glyph for an unknown format. */
  method GlyphForCodepoint(s: seq<Byte>, c: nat) returns (g: nat)
    ensures g == if |s| >= 2 && U16(s, 0) == 4 then Scan4(s, c) else if |s| >= 2 && U16(s, 0) == 12 then Scan12(s, c) else 0
    ensures g <= 0xffff
  {
    if |s| < 2 {
      return 0;
    }
    match U16(s, 0)
    case 4 => g := CmapFormat4Glyph(s, c);
    case 12 => g := CmapFormat12Glyph(s, c);
    case _ => g := 0;
  }
}
