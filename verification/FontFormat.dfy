/**
 TrueType fonts written out as the OpenType chapters lay them out, and read back by drivers/font_ttf.c: the table
 directory, the character map, the fixed tables, glyph locations and advances.
 */
module FontFormat {
  import opened VirtualMemory
  import opened Wrappers
  import opened Sfnt
  import opened Cmap
  import G = Glyphs
  import L = OutlineLoader

  // ----- big-endian fields -----

  function Big16(v: nat): (s: seq<Byte>)
    ensures |s| == 2
  {
    [v / 256 % 256, v % 256]
  }

  function Big32(v: nat): (s: seq<Byte>)
    ensures |s| == 4
  {
    Big16(v / 0x1_0000) + Big16(v % 0x1_0000)
  }

  /** Two's complement. */
  function Unsigned16(v: int): (u: nat) ensures u < 0x1_0000 { v % 0x1_0000 }

  lemma Reads16(s: seq<Byte>, at: nat, v: nat)
    requires at + 2 <= |s| && s[at..at + 2] == Big16(v) && v < 0x1_0000
    ensures U16(s, at) == v
  {
    assert s[at] == s[at..at + 2][0] && s[at + 1] == s[at..at + 2][1];
  }

  lemma ReadsSigned(s: seq<Byte>, at: nat, v: int)
    requires at + 2 <= |s| && s[at..at + 2] == Big16(Unsigned16(v)) && -0x8000 <= v < 0x8000
    ensures S16(s, at) == v
  {
    Reads16(s, at, Unsigned16(v));
  }

  lemma Reads32(s: seq<Byte>, at: nat, v: nat)
    requires at + 4 <= |s| && s[at..at + 4] == Big32(v) && v < 0x1_0000_0000
    ensures U32(s, at) == v
  {
    SliceInside(s, at, Big32(v), 0, 2);
    SliceInside(s, at, Big32(v), 2, 2);
    assert Big32(v)[0..2] == Big16(v / 0x1_0000) && Big32(v)[2..4] == Big16(v % 0x1_0000);
    Reads16(s, at, v / 0x1_0000);
    Reads16(s, at + 2, v % 0x1_0000);
  }

  /** An array of words. */
  function Words(vs: seq<nat>): (s: seq<Byte>)
    ensures |s| == 2 * |vs|
  {
    if vs == [] then [] else Big16(vs[0]) + Words(vs[1..])
  }

  lemma {:induction false} WordsAt(vs: seq<nat>, i: nat)
    requires i < |vs|
    ensures Words(vs)[2 * i..2 * i + 2] == Big16(vs[i])
  {
    hide Big16;
    if i > 0 {
      WordsAt(vs[1..], i - 1);
      assert Words(vs)[2 * i..2 * i + 2] == Words(vs[1..])[2 * (i - 1)..2 * (i - 1) + 2];
    }
  }

  lemma ReadsWord(s: seq<Byte>, at: nat, vs: seq<nat>, i: nat)
    requires at + 2 * |vs| <= |s| && s[at..at + 2 * |vs|] == Words(vs) && i < |vs| && vs[i] < 0x1_0000
    ensures U16(s, at + 2 * i) == vs[i]
  {
    hide Big16, U16;
    WordsAt(vs, i);
    SliceInside(s, at, Words(vs), 2 * i, 2);
    Reads16(s, at + 2 * i, vs[i]);
  }

  // ----- Format 4 -----

  /** Characters start to end: delta added to the character, or to the entry of the glyph array from `ids` on. */
  datatype Segment = Segment(start: nat, end: nat, delta: int, ids: Option<nat>)

  /** A subtable; language, search fields and padding are not looked at. */
  datatype Map4 = Map4(segments: seq<Segment>, glyphs: seq<nat>, language: seq<Byte>, search: seq<Byte>, padding: seq<Byte>)

  function Length4(m: Map4): (n: nat) { 16 + 8 * |m.segments| + 2 * |m.glyphs| }

  /** From the place of an offset to the glyph array entry it means. */
  function RangeOffset(m: Map4, i: nat): (o: nat)
    requires i < |m.segments|
  {
    match m.segments[i].ids
    case None => 0
    case Some(k) => 2 * (|m.segments| - i) + 2 * k
  }

  ghost predicate Legal4(m: Map4) {
    && |m.language| == 2 && |m.search| == 6 && |m.padding| == 2 && Length4(m) < 0x1_0000
    && (forall i :: 0 <= i < |m.segments| ==> LegalSegment(m, i))
    && (forall i :: 0 <= i < |m.glyphs| ==> m.glyphs[i] < 0x1_0000)
  }

  ghost predicate LegalSegment(m: Map4, i: nat)
    requires i < |m.segments|
  {
    var g := m.segments[i];
    g.start <= g.end < 0x1_0000 && -0x8000 <= g.delta < 0x8000 && RangeOffset(m, i) < 0x1_0000
  }

  function Ends(m: Map4): (r: seq<nat>) ensures |r| == |m.segments| { seq(|m.segments|, i requires 0 <= i < |m.segments| => m.segments[i].end) }
  function Starts(m: Map4): (r: seq<nat>) ensures |r| == |m.segments| { seq(|m.segments|, i requires 0 <= i < |m.segments| => m.segments[i].start) }
  function Deltas(m: Map4): (r: seq<nat>) ensures |r| == |m.segments| { seq(|m.segments|, i requires 0 <= i < |m.segments| => Unsigned16(m.segments[i].delta)) }
  function Offsets(m: Map4): (r: seq<nat>) ensures |r| == |m.segments| { seq(|m.segments|, i requires 0 <= i < |m.segments| => RangeOffset(m, i)) }

  function Encode4(m: Map4): (s: seq<Byte>) {
    Big16(4) + Big16(Length4(m)) + m.language + Big16(2 * |m.segments|) + m.search
    + Words(Ends(m)) + m.padding + Words(Starts(m)) + Words(Deltas(m)) + Words(Offsets(m)) + Words(m.glyphs)
  }

  /** The glyph the segment gives to a character in it. */
  function GlyphIn(m: Map4, g: Segment, c: nat): (r: nat)
    requires g.start <= c
  {
    match g.ids
    case None => (c + g.delta) % 0x1_0000
    case Some(k) =>
      var at := k + (c - g.start);
      if at >= |m.glyphs| || m.glyphs[at] == 0 then 0 else (m.glyphs[at] + g.delta) % 0x1_0000
  }

  lemma Layout4(m: Map4)
    requires Legal4(m)
    ensures var s, n := Encode4(m), |m.segments|;
            && |s| == Length4(m) && s[0..2] == Big16(4) && s[2..4] == Big16(Length4(m)) && s[6..8] == Big16(2 * n)
            && s[14..14 + 2 * n] == Words(Ends(m)) && s[16 + 2 * n..16 + 2 * n + 2 * n] == Words(Starts(m))
            && s[16 + 4 * n..16 + 4 * n + 2 * n] == Words(Deltas(m)) && s[16 + 6 * n..16 + 6 * n + 2 * n] == Words(Offsets(m))
            && s[16 + 8 * n..16 + 8 * n + 2 * |m.glyphs|] == Words(m.glyphs)
  {
    hide Big16, Words, Ends, Starts, Deltas, Offsets, LegalSegment;
  }

  lemma Head4(m: Map4)
    requires Legal4(m)
    ensures var s := Encode4(m);
            |s| == Length4(m) && U16(s, 0) == 4 && U16(s, 2) == Length4(m) && Complete4(s) && SegCount(s) == |m.segments|
  {
    hide Big16, Encode4, U16;
    Layout4(m);
    var s := Encode4(m);
    Reads16(s, 0, 4);
    Reads16(s, 2, Length4(m));
    Reads16(s, 6, 2 * |m.segments|);
  }

  lemma Segment4(m: Map4, i: nat)
    requires Legal4(m) && i < |m.segments|
    ensures var s, n := Encode4(m), |m.segments|;
            && |s| == Length4(m)
            && U16(s, 14 + 2 * i) == m.segments[i].end && U16(s, 16 + 2 * n + 2 * i) == m.segments[i].start
            && U16(s, 16 + 4 * n + 2 * i) == Unsigned16(m.segments[i].delta) && U16(s, 16 + 6 * n + 2 * i) == RangeOffset(m, i)
  {
    hide Big16, Encode4, U16, Words, RangeOffset;
    Layout4(m);
    assert LegalSegment(m, i);
    var s, n := Encode4(m), |m.segments|;
    ReadsWord(s, 14, Ends(m), i);
    ReadsWord(s, 16 + 2 * n, Starts(m), i);
    ReadsWord(s, 16 + 4 * n, Deltas(m), i);
    ReadsWord(s, 16 + 6 * n, Offsets(m), i);
  }

  lemma Array4(m: Map4, j: nat)
    requires Legal4(m) && j < |m.glyphs|
    ensures |Encode4(m)| == Length4(m) && U16(Encode4(m), 16 + 8 * |m.segments| + 2 * j) == m.glyphs[j]
  {
    hide Big16, Encode4, U16, Words, LegalSegment;
    Layout4(m);
    ReadsWord(Encode4(m), 16 + 8 * |m.segments|, m.glyphs, j);
  }

  lemma DeltaAdds(v: nat, d: int)
    ensures (v + Unsigned16(d)) % 0x1_0000 == (v + d) % 0x1_0000
  {
  }

  lemma Glyph4(m: Map4, i: nat, c: nat)
    requires Legal4(m) && i < |m.segments| && m.segments[i].start <= c <= m.segments[i].end
    ensures Complete4(Encode4(m)) && i < SegCount(Encode4(m)) && Contains(Segments(Encode4(m))[i], c)
    ensures SegmentGlyph(Encode4(m), i, c) == GlyphIn(m, m.segments[i], c)
  {
    hide Encode4, U16;
    var s, n, g := Encode4(m), |m.segments|, m.segments[i];
    Head4(m);
    Segment4(m, i);
    assert Segments(s)[i] == Range(g.start, g.end);
    DeltaAdds(c, g.delta);
    if g.ids.Some? {
      var j := g.ids.value + (c - g.start);
      assert 16 + 6 * n + 2 * i + RangeOffset(m, i) + 2 * (c - g.start) == 16 + 8 * n + 2 * j;
      if j < |m.glyphs| {
        Array4(m, j);
        DeltaAdds(m.glyphs[j], g.delta);
      }
    }
  }

  ghost predicate Ascending4(m: Map4) {
    forall i, j :: 0 <= i < j < |m.segments| ==> m.segments[i].end < m.segments[j].start
  }

  /** A written Format 4 map gives every character the glyph of the segment it is in, and no other character one. */
  lemma Format4Written(m: Map4, c: nat)
    requires Legal4(m) && Ascending4(m)
    ensures forall i :: 0 <= i < |m.segments| && m.segments[i].start <= c <= m.segments[i].end ==>
              Scan4(Encode4(m), c) == GlyphIn(m, m.segments[i], c)
    ensures (forall i :: 0 <= i < |m.segments| ==> !(m.segments[i].start <= c <= m.segments[i].end)) ==> Scan4(Encode4(m), c) == 0
  {
    hide Encode4, SegmentGlyph, GlyphIn;
    var s := Encode4(m);
    Head4(m);
    forall i | 0 <= i < |m.segments| ensures Segments(s)[i] == Range(m.segments[i].start, m.segments[i].end) {
      Segment4(m, i);
    }
    forall i | 0 <= i < |m.segments| ensures Segments(s)[i].start <= Segments(s)[i].end < 0x1_0000 {
      assert LegalSegment(m, i);
    }
    assert Sorted(Segments(s));
    forall i | 0 <= i < |m.segments| && m.segments[i].start <= c <= m.segments[i].end
      ensures Scan4(s, c) == GlyphIn(m, m.segments[i], c)
    {
      ScanFinds(Segments(s), c, i);
      Glyph4(m, i, c);
    }
  }

  // ----- Format 12 -----

  /** Characters start to end, the first of them with this glyph. */
  datatype Group = Group(start: nat, end: nat, glyph: nat)

  datatype Map12 = Map12(groups: seq<Group>, reserved: seq<Byte>, language: seq<Byte>)

  function Length12(m: Map12): (n: nat) { 16 + 12 * |m.groups| }

  ghost predicate Legal12(m: Map12) {
    && |m.reserved| == 2 && |m.language| == 4 && Length12(m) < 0x1_0000_0000
    && (forall i :: 0 <= i < |m.groups| ==> LegalGroup(m.groups[i]))
    && (forall i, j :: 0 <= i < j < |m.groups| ==> m.groups[i].end < m.groups[j].start)
  }

  /** No glyph number of the group leaves 32 bits. */
  predicate LegalGroup(g: Group) { g.start <= g.end < 0x1_0000_0000 && g.glyph + (g.end - g.start) < 0x1_0000_0000 }

  function GroupBytes(g: Group): (s: seq<Byte>)
    ensures |s| == 12
  {
    Big32(g.start) + Big32(g.end) + Big32(g.glyph)
  }

  function AllGroups(gs: seq<Group>): (s: seq<Byte>)
    ensures |s| == 12 * |gs|
  {
    if gs == [] then [] else GroupBytes(gs[0]) + AllGroups(gs[1..])
  }

  function Encode12(m: Map12): (s: seq<Byte>) {
    Big16(12) + m.reserved + Big32(Length12(m)) + m.language + Big32(|m.groups|) + AllGroups(m.groups)
  }

  lemma {:induction false} GroupsAt(gs: seq<Group>, i: nat)
    requires i < |gs|
    ensures AllGroups(gs)[12 * i..12 * i + 12] == GroupBytes(gs[i])
  {
    hide GroupBytes;
    if i > 0 {
      GroupsAt(gs[1..], i - 1);
      assert AllGroups(gs)[12 * i..12 * i + 12] == AllGroups(gs[1..])[12 * (i - 1)..12 * (i - 1) + 12];
    }
  }

  lemma Layout12(m: Map12)
    requires Legal12(m)
    ensures var s := Encode12(m);
            && |s| == Length12(m) && s[0..2] == Big16(12) && s[4..8] == Big32(Length12(m)) && s[12..16] == Big32(|m.groups|)
            && s[16..16 + 12 * |m.groups|] == AllGroups(m.groups)
  {
    hide Big16, Big32, AllGroups;
  }

  lemma Head12(m: Map12)
    requires Legal12(m)
    ensures var s := Encode12(m);
            |s| == Length12(m) && U16(s, 0) == 12 && U32(s, 4) == Length12(m) && U32(s, 12) == |m.groups| && Complete12(s)
  {
    hide Big16, Big32, Encode12, U16, U32;
    Layout12(m);
    var s := Encode12(m);
    Reads16(s, 0, 12);
    Reads32(s, 4, Length12(m));
    Reads32(s, 12, |m.groups|);
  }

  lemma GroupFields(g: Group)
    ensures var b := GroupBytes(g); b[0..4] == Big32(g.start) && b[4..8] == Big32(g.end) && b[8..12] == Big32(g.glyph)
  {
    hide Big32;
  }

  lemma Group12(m: Map12, i: nat)
    requires Legal12(m) && i < |m.groups|
    ensures var s := Encode12(m);
            && |s| == Length12(m)
            && U32(s, 16 + 12 * i) == m.groups[i].start && U32(s, 20 + 12 * i) == m.groups[i].end && U32(s, 24 + 12 * i) == m.groups[i].glyph
  {
    hide Big32, Encode12, U32, GroupBytes, AllGroups;
    Layout12(m);
    GroupsAt(m.groups, i);
    var s, g := Encode12(m), m.groups[i];
    assert LegalGroup(g);
    var b, at := GroupBytes(g), 16 + 12 * i;
    SliceInside(s, 16, AllGroups(m.groups), 12 * i, 12);
    assert s[at..at + 12] == b;
    GroupFields(g);
    SliceInside(s, at, b, 0, 4);
    SliceInside(s, at, b, 4, 4);
    SliceInside(s, at, b, 8, 4);
    Reads32(s, at, g.start);
    Reads32(s, at + 4, g.end);
    Reads32(s, at + 8, g.glyph);
  }

  /** A written Format 12 map gives every character the glyph its group counts up to, if it fits sixteen bits. */
  lemma Format12Written(m: Map12, c: nat)
    requires Legal12(m)
    ensures forall i :: 0 <= i < |m.groups| && m.groups[i].start <= c <= m.groups[i].end ==>
              var g := m.groups[i].glyph + (c - m.groups[i].start);
              Scan12(Encode12(m), c) == if g <= 0xffff then g else 0
    ensures (forall i :: 0 <= i < |m.groups| ==> !(m.groups[i].start <= c <= m.groups[i].end)) ==> Scan12(Encode12(m), c) == 0
  {
    hide Encode12, U32;
    var s := Encode12(m);
    Head12(m);
    forall i | 0 <= i < |m.groups| ensures Groups(s)[i] == Range(m.groups[i].start, m.groups[i].end) {
      Group12(m, i);
    }
    forall i | 0 <= i < |m.groups| ensures Groups(s)[i].start <= Groups(s)[i].end {
      assert LegalGroup(m.groups[i]);
    }
    assert Sorted(Groups(s));
    forall i | 0 <= i < |m.groups| && m.groups[i].start <= c <= m.groups[i].end
      ensures var g := m.groups[i].glyph + (c - m.groups[i].start); Scan12(s, c) == if g <= 0xffff then g else 0
    {
      assert LegalGroup(m.groups[i]);
      ScanFinds(Groups(s), c, i);
      Group12(m, i);
    }
  }

  // ----- the character map table -----

  datatype Subtable = Four(m4: Map4) | Twelve(m12: Map12)

  ghost predicate LegalSubtable(t: Subtable) {
    match t
    case Four(m) => Legal4(m)
    case Twelve(m) => Legal12(m)
  }

  function SubtableBytes(t: Subtable): (s: seq<Byte>) {
    match t
    case Four(m) => Encode4(m)
    case Twelve(m) => Encode12(m)
  }

  datatype Encoding = Encoding(platform: nat, encoding: nat, offset: nat, subtable: Subtable)

  function EncodingBytes(e: Encoding): (s: seq<Byte>)
    ensures |s| == 8
  {
    Big16(e.platform) + Big16(e.encoding) + Big32(e.offset)
  }

  /** The table starts with these encoding records, and each subtable stands where its record says. */
  ghost predicate IsCmap(t: seq<Byte>, es: seq<Encoding>) {
    && |es| < 0x1_0000 && 4 + 8 * |es| <= |t| && t[2..4] == Big16(|es|)
    && forall i :: 0 <= i < |es| ==> EncodingAt(t, i, es[i])
  }

  ghost predicate EncodingAt(t: seq<Byte>, i: nat, e: Encoding) {
    && e.platform < 0x1_0000 && e.encoding < 0x1_0000 && e.offset < 0x1_0000_0000 && LegalSubtable(e.subtable)
    && 12 + 8 * i <= |t| && t[4 + 8 * i..4 + 8 * i + 8] == EncodingBytes(e)
    && e.offset + |SubtableBytes(e.subtable)| <= |t|
    && t[e.offset..e.offset + |SubtableBytes(e.subtable)|] == SubtableBytes(e.subtable)
  }

  predicate ForUnicode(e: Encoding) { e.platform == 0 || (e.platform == 3 && e.encoding in {1, 10}) }

  lemma EncodingFields(e: Encoding)
    ensures var b := EncodingBytes(e); b[0..2] == Big16(e.platform) && b[2..4] == Big16(e.encoding) && b[4..8] == Big32(e.offset)
  {
    hide Big16, Big32;
  }

  lemma ReadsEncoding(t: seq<Byte>, i: nat, e: Encoding)
    requires EncodingAt(t, i, e)
    ensures U16(t, 4 + 8 * i) == e.platform && U16(t, 4 + 8 * i + 2) == e.encoding && U32(t, 4 + 8 * i + 4) == e.offset
  {
    hide Big16, Big32, U16, U32, SubtableBytes, EncodingBytes, LegalSubtable;
    EncodingFields(e);
    var at, b := 4 + 8 * i, EncodingBytes(e);
    SliceInside(t, at, b, 0, 2);
    SliceInside(t, at, b, 2, 2);
    SliceInside(t, at, b, 4, 4);
    Reads16(t, at, e.platform);
    Reads16(t, at + 2, e.encoding);
    Reads32(t, at + 4, e.offset);
  }

  lemma Inside16(t: seq<Byte>, at: nat, b: seq<Byte>, o: nat)
    requires at + |b| <= |t| && t[at..at + |b|] == b && o + 2 <= |b|
    ensures U16(t, at + o) == U16(b, o)
  {
    SliceInside(t, at, b, o, 2);
    assert t[at + o] == t[at + o..at + o + 2][0] == b[o] && t[at + o + 1] == t[at + o..at + o + 2][1] == b[o + 1];
  }

  lemma SubtableRead(t: seq<Byte>, i: nat, e: Encoding)
    requires EncodingAt(t, i, e)
    ensures SubtableAt(t, i) == Some(SubtableBytes(e.subtable)) && (Unicode(t, i) <==> ForUnicode(e))
  {
    hide Encode4, Encode12, EncodingBytes, U16, Legal4, Legal12, Length4, Length12;
    ReadsEncoding(t, i, e);
    var b, at := SubtableBytes(e.subtable), e.offset;
    match e.subtable {
      case Four(m) =>
        Head4(m);
        LeastLength(e.subtable);
        Inside16(t, at, b, 0);
        Inside16(t, at, b, 2);
      case Twelve(m) =>
        Head12(m);
        LeastLength(e.subtable);
        Inside16(t, at, b, 0);
        Inside16(t, at, b, 4);
        Inside16(t, at, b, 6);
    }
  }

  lemma LeastLength(t: Subtable)
    requires LegalSubtable(t)
    ensures |SubtableBytes(t)| >= 16
  {
    hide Encode4, Encode12;
    match t {
      case Four(m) => Layout4(m);
      case Twelve(m) => Layout12(m);
    }
  }

  /** The subtable used is that of the first record for Unicode, or of the first record when there is none. */
  lemma CmapWritten(t: seq<Byte>, es: seq<Encoding>, i: nat)
    requires IsCmap(t, es) && i < |es|
    requires if ForUnicode(es[i]) then forall j :: 0 <= j < i ==> !ForUnicode(es[j])
             else i == 0 && forall j :: 0 <= j < |es| ==> !ForUnicode(es[j])
    ensures IsSubtable(t, Some(SubtableBytes(es[i].subtable)))
  {
    hide EncodingAt, SubtableBytes, Unicode, SubtableAt, Big16, U16, ForUnicode;
    Reads16(t, 2, |es|);
    assert SubtableCount(t) == Some(|es|);
    forall j | 0 <= j < |es| ensures SubtableAt(t, j) == Some(SubtableBytes(es[j].subtable)) && (Unicode(t, j) <==> ForUnicode(es[j])) {
      assert EncodingAt(t, j, es[j]);
      SubtableRead(t, j, es[j]);
    }
    forall j | 0 <= j < |es| ensures Sfnt.Usable(t, j) {
    }
    forall k | i < k <= |es| && Unicode(t, i) ensures !NoUnicodeBefore(t, k) {
      assert Sfnt.Usable(t, i);
    }
    forall k | 0 < k <= |es| ensures !NoneBefore(t, k) {
      assert Sfnt.Usable(t, 0);
    }
  }

  // ----- the table directory -----

  /** A table, its tag as four characters, and where it stands in the file. */
  datatype Table = Table(tag: string, checksum: seq<Byte>, offset: nat, content: seq<Byte>)

  function Code(c: char): (b: Byte) requires c < 128 as char { c as int }

  predicate LegalTag(tag: string) { |tag| == 4 && forall i :: 0 <= i < 4 ==> tag[i] < 128 as char }

  function TagBytes(tag: string): (s: seq<Byte>)
    requires LegalTag(tag)
    ensures |s| == 4
  {
    [Code(tag[0]), Code(tag[1]), Code(tag[2]), Code(tag[3])]
  }

  function TagNumber(tag: string): (n: nat)
    requires LegalTag(tag)
  {
    0x100_0000 * Code(tag[0]) + 0x1_0000 * Code(tag[1]) + 0x100 * Code(tag[2]) + Code(tag[3])
  }

  predicate LegalTable(t: Table) {
    LegalTag(t.tag) && |t.checksum| == 4 && t.offset < 0x1_0000_0000 && |t.content| < 0x1_0000_0000
  }

  function RecordBytes(t: Table): (s: seq<Byte>)
    requires LegalTable(t)
    ensures |s| == 16
  {
    TagBytes(t.tag) + t.checksum + Big32(t.offset) + Big32(|t.content|)
  }

  ghost predicate RecordAt(data: seq<Byte>, i: nat, t: Table) {
    && LegalTable(t) && 28 + 16 * i <= |data| && data[12 + 16 * i..12 + 16 * i + 16] == RecordBytes(t)
    && t.offset + |t.content| <= |data| && data[t.offset..t.offset + |t.content|] == t.content
  }

  /** The file starts with a TrueType directory of these tables, and each stands where its record says. */
  ghost predicate IsFont(data: seq<Byte>, ts: seq<Table>) {
    && |ts| < 0x1_0000 && 12 + 16 * |ts| <= |data|
    && (data[0..4] == [0, 1, 0, 0] || data[0..4] == TagBytes("true")) && data[4..6] == Big16(|ts|)
    && forall i :: 0 <= i < |ts| ==> RecordAt(data, i, ts[i])
  }

  lemma RecordFields(t: Table)
    requires LegalTable(t)
    ensures var b := RecordBytes(t); b[0..4] == TagBytes(t.tag) && b[8..12] == Big32(t.offset) && b[12..16] == Big32(|t.content|)
  {
    hide Big32, TagBytes;
  }

  lemma ReadsTag(s: seq<Byte>, at: nat, tag: string)
    requires LegalTag(tag) && at + 4 <= |s| && s[at..at + 4] == TagBytes(tag)
    ensures U32(s, at) == TagNumber(tag)
  {
    forall k | at <= k < at + 4 ensures s[k] == TagBytes(tag)[k - at] {
      assert s[k] == s[at..at + 4][k - at];
    }
  }

  lemma TagsDiffer(a: string, b: string)
    requires LegalTag(a) && LegalTag(b) && TagNumber(a) == TagNumber(b)
    ensures a == b
  {
    var a0: nat, a1: nat, a2: nat, a3: nat := Code(a[0]), Code(a[1]), Code(a[2]), Code(a[3]);
    var b0: nat, b1: nat, b2: nat, b3: nat := Code(b[0]), Code(b[1]), Code(b[2]), Code(b[3]);
    SamePair(256 * (256 * a0 + a1) + a2, a3, 256 * (256 * b0 + b1) + b2, b3);
    SamePair(256 * a0 + a1, a2, 256 * b0 + b1, b2);
    SamePair(a0, a1, b0, b1);
    assert a[0] == b[0] && a[1] == b[1] && a[2] == b[2] && a[3] == b[3];
    assert a == [a[0], a[1], a[2], a[3]] && b == [b[0], b[1], b[2], b[3]];
  }

  lemma SamePair(x: nat, y: nat, u: nat, v: nat)
    requires y < 256 && v < 256 && 256 * x + y == 256 * u + v
    ensures x == u && y == v
  {
  }

  lemma ReadsRecord(data: seq<Byte>, i: nat, t: Table)
    requires RecordAt(data, i, t)
    ensures U32(data, 12 + 16 * i) == TagNumber(t.tag) && TableAt(data, i) == Some(t.content)
  {
    hide Big32, U32, TagBytes, TagNumber, RecordBytes;
    RecordFields(t);
    var at, b := 12 + 16 * i, RecordBytes(t);
    SliceInside(data, at, b, 0, 4);
    SliceInside(data, at, b, 8, 4);
    SliceInside(data, at, b, 12, 4);
    ReadsTag(data, at, t.tag);
    Reads32(data, at + 8, t.offset);
    Reads32(data, at + 12, |t.content|);
  }

  /** Table i is the first with this tag. */
  ghost predicate First(ts: seq<Table>, i: nat, tag: string) {
    i < |ts| && ts[i].tag == tag && forall j :: 0 <= j < i ==> ts[j].tag != tag
  }

  /** A table is found under its tag. */
  lemma TableFound(data: seq<Byte>, ts: seq<Table>, i: nat, tag: string)
    requires IsFont(data, ts) && LegalTag(tag) && First(ts, i, tag)
    ensures IsTable(data, TagNumber(tag), Some(ts[i].content))
  {
    hide RecordAt, U32, Big16, U16, TagNumber, TableAt;
    Reads16(data, 4, |ts|);
    assert TableCount(data) == Some(|ts|);
    forall j | 0 <= j < |ts|
      ensures TableAt(data, j) == Some(ts[j].content) && (HasTag(data, j, TagNumber(tag)) <==> ts[j].tag == tag)
    {
      assert RecordAt(data, j, ts[j]);
      ReadsRecord(data, j, ts[j]);
      RecordTag(data, j, ts[j]);
      if TagNumber(ts[j].tag) == TagNumber(tag) {
        TagsDiffer(ts[j].tag, tag);
      }
    }
    assert HasTag(data, i, TagNumber(tag));
  }

  lemma RecordTag(data: seq<Byte>, i: nat, t: Table)
    requires RecordAt(data, i, t)
    ensures LegalTag(t.tag)
  {
  }

  // ----- the fixed tables -----

  /** head: units per em after eighteen bytes, the loca format as the last but one of its words. */
  predicate IsHead(t: seq<Byte>, units: nat, long: bool) {
    && |t| >= 54 && units < 0x1_0000
    && t[18..20] == Big16(units) && t[50..52] == Big16(if long then 1 else 0)
  }

  /** hhea: the number of metrics is its last word. */
  predicate IsHhea(t: seq<Byte>, metrics: nat) { |t| >= 36 && metrics < 0x1_0000 && t[34..36] == Big16(metrics) }

  /** maxp: the number of glyphs follows the version. */
  predicate IsMaxp(t: seq<Byte>, glyphs: nat) { |t| >= 6 && glyphs < 0x1_0000 && t[4..6] == Big16(glyphs) }

  lemma FixedRead(f: Font, head: seq<Byte>, hhea: seq<Byte>, maxp: seq<Byte>)
    requires IsHead(head, f.unitsPerEm, f.longLoca) && IsHhea(hhea, f.metrics) && IsMaxp(maxp, f.glyphs)
    ensures HeadSays(head, f) && HheaSays(hhea, f) && MaxpSays(maxp, f)
  {
    Reads16(head, 18, f.unitsPerEm);
    ReadsSigned(head, 50, if f.longLoca then 1 else 0);
    Reads16(hhea, 34, f.metrics);
    Reads16(maxp, 4, f.glyphs);
  }

  /** A file written from these tables describes the font made of them, which is what ParseTtf answers. */
  lemma FontWritten(data: seq<Byte>, ts: seq<Table>, f: Font, cmap: nat, glyf: nat, head: nat, hhea: nat, hmtx: nat, loca: nat, maxp: nat)
    requires IsFont(data, ts) && ValidFont(f)
    requires First(ts, cmap, "cmap") && First(ts, glyf, "glyf") && First(ts, head, "head") && First(ts, hhea, "hhea")
    requires First(ts, hmtx, "hmtx") && First(ts, loca, "loca") && First(ts, maxp, "maxp")
    requires f.glyf == ts[glyf].content && f.loca == ts[loca].content && f.hmtx == ts[hmtx].content
    requires IsSubtable(ts[cmap].content, Some(f.subtable)) && IsHead(ts[head].content, f.unitsPerEm, f.longLoca)
    requires IsHhea(ts[hhea].content, f.metrics) && IsMaxp(ts[maxp].content, f.glyphs)
    ensures Describes(data, f)
  {
    hide IsSubtable, IsTable, HeadSays, HheaSays, MaxpSays, U32, IsHead, IsHhea, IsMaxp, IsFont, First, LegalTag, TagNumber;
    TagNumbers();
    InDirectory(ts, cmap, "cmap");
    InDirectory(ts, glyf, "glyf");
    InDirectory(ts, head, "head");
    InDirectory(ts, hhea, "hhea");
    InDirectory(ts, hmtx, "hmtx");
    InDirectory(ts, loca, "loca");
    InDirectory(ts, maxp, "maxp");
    TableFound(data, ts, cmap, "cmap");
    TableFound(data, ts, glyf, "glyf");
    TableFound(data, ts, head, "head");
    TableFound(data, ts, hhea, "hhea");
    TableFound(data, ts, hmtx, "hmtx");
    TableFound(data, ts, loca, "loca");
    TableFound(data, ts, maxp, "maxp");
    FixedRead(f, ts[head].content, ts[hhea].content, ts[maxp].content);
    ScalerRead(data, ts);
  }

  lemma InDirectory(ts: seq<Table>, i: nat, tag: string)
    requires First(ts, i, tag)
    ensures i < |ts|
  {
  }

  lemma TagNumbers()
    ensures LegalTag("cmap") && LegalTag("glyf") && LegalTag("head") && LegalTag("hhea") && LegalTag("hmtx") && LegalTag("loca") && LegalTag("maxp")
    ensures TagNumber("cmap") == TAG_CMAP && TagNumber("glyf") == TAG_GLYF && TagNumber("head") == TAG_HEAD && TagNumber("hhea") == TAG_HHEA
    ensures TagNumber("hmtx") == TAG_HMTX && TagNumber("loca") == TAG_LOCA && TagNumber("maxp") == TAG_MAXP
  {
  }

  lemma ScalerRead(data: seq<Byte>, ts: seq<Table>)
    requires IsFont(data, ts)
    ensures |data| >= 12 && U32(data, 0) in {0x0001_0000, 0x7472_7565}
  {
    forall k | 0 <= k < 4 ensures data[k] == data[0..4][k] {
    }
  }

  // ----- glyph locations and advances -----

  function Concat(gs: seq<seq<Byte>>): (s: seq<Byte>) {
    if gs == [] then [] else Concat(gs[..|gs| - 1]) + gs[|gs| - 1]
  }

  lemma {:induction false} ConcatAt(gs: seq<seq<Byte>>, i: nat, rest: seq<Byte>)
    requires i < |gs|
    ensures |Concat(gs[..i])| + |gs[i]| == |Concat(gs[..i + 1])| <= |Concat(gs)|
    ensures (Concat(gs) + rest)[|Concat(gs[..i])|..|Concat(gs[..i + 1])|] == gs[i]
    decreases |gs|
  {
    var n := |gs| - 1;
    assert gs[..i + 1][..i] == gs[..i];
    if i < n {
      ConcatAt(gs[..n], i, gs[n] + rest);
      assert gs[..n][..i] == gs[..i] && gs[..n][..i + 1] == gs[..i + 1];
      assert Concat(gs) + rest == Concat(gs[..n]) + (gs[n] + rest);
    } else {
      assert gs[..i + 1] == gs;
    }
  }

  /** Entry i of loca says where glyph i begins, halved in the short form. */
  ghost predicate IsLoca(t: seq<Byte>, gs: seq<seq<Byte>>, long: bool) {
    forall i :: 0 <= i <= |gs| ==> LocaAt(t, i, |Concat(gs[..i])|, long)
  }

  ghost predicate LocaAt(t: seq<Byte>, i: nat, start: nat, long: bool) {
    if long then 4 * i + 4 <= |t| && start < 0x1_0000_0000 && t[4 * i..4 * i + 4] == Big32(start)
    else 2 * i + 2 <= |t| && start % 2 == 0 && start / 2 < 0x1_0000 && t[2 * i..2 * i + 2] == Big16(start / 2)
  }

  lemma LocaReads(t: seq<Byte>, i: nat, start: nat, long: bool)
    requires LocaAt(t, i, start, long)
    ensures long ==> U32(t, 4 * i) == start
    ensures !long ==> 2 * U16(t, 2 * i) == start
  {
    if long {
      Reads32(t, 4 * i, start);
    } else {
      Reads16(t, 2 * i, start / 2);
    }
  }

  /** The bytes of a glyph are those it was written with; other numbers name no glyph. */
  lemma GlyphWritten(f: Font, gs: seq<seq<Byte>>, padding: seq<Byte>, g: nat)
    requires ValidFont(f) && f.glyphs == |gs| && f.glyf == Concat(gs) + padding && IsLoca(f.loca, gs, f.longLoca)
    ensures G.GlyphData(f, g) == if g < |gs| then Some(gs[g]) else None
  {
    hide LocaAt, U16, U32, Concat;
    if g < |gs| {
      ConcatAt(gs, g, padding);
      assert LocaAt(f.loca, g, |Concat(gs[..g])|, f.longLoca);
      assert LocaAt(f.loca, g + 1, |Concat(gs[..g + 1])|, f.longLoca);
      LocaReads(f.loca, g, |Concat(gs[..g])|, f.longLoca);
      LocaReads(f.loca, g + 1, |Concat(gs[..g + 1])|, f.longLoca);
    }
  }

  /** A glyph has the advance width written for it, later glyphs the last one; but a width of 0x8000 or more reads as
      negative. */
  lemma AdvanceWritten(f: Font, advances: seq<nat>, g: nat)
    requires ValidFont(f) && f.metrics == |advances|
    requires forall i :: 0 <= i < |advances| ==> advances[i] < 0x1_0000 && f.hmtx[4 * i..4 * i + 2] == Big16(advances[i])
    ensures var a := advances[if g < |advances| then g else |advances| - 1];
            L.GlyphAdvance(f, g) + (if a < 0x8000 then 0 else 0x1_0000) == a
  {
    var i := if g < |advances| then g else |advances| - 1;
    assert f.hmtx[4 * i..4 * i + 2] == Big16(advances[i]);
    Reads16(f.hmtx, 4 * i, advances[i]);
  }
}
