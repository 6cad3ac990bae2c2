/**
 The container of a TrueType font (drivers/font_ttf.c): big-endian fields, the table
 directory, and the tables the kernel takes from it.  Every table is the slice of the file
 that the directory names, so every read below is proved to stay inside its own table.
 */
module Sfnt {
  import opened VirtualMemory
  import opened Wrappers

  const TAG_CMAP: nat := 0x636d6170
  const TAG_GLYF: nat := 0x676c7966
  const TAG_HEAD: nat := 0x68656164
  const TAG_HHEA: nat := 0x68686561
  const TAG_HMTX: nat := 0x686d7478
  const TAG_LOCA: nat := 0x6c6f6361
  const TAG_MAXP: nat := 0x6d617870

  predicate RangeIsValid(size: nat, offset: nat, length: nat) {
    offset <= size && length <= size - offset
  }

  function U16(s: seq<Byte>, at: nat): (v: nat)
    requires at + 2 <= |s|
    ensures v < 0x1_0000
  {
    var high: nat, low: nat := s[at], s[at + 1];
    256 * high + low
  }

  function S16(s: seq<Byte>, at: nat): (v: int)
    requires at + 2 <= |s|
    ensures -0x8000 <= v < 0x8000 && v % 0x1_0000 == U16(s, at)
  {
    if U16(s, at) < 0x8000 then U16(s, at) else U16(s, at) - 0x1_0000
  }

  function U32(s: seq<Byte>, at: nat): (v: nat)
    requires at + 4 <= |s|
    ensures v < 0x1_0000_0000
  {
    0x1_0000 * U16(s, at) + U16(s, at + 2)
  }

  // ----- the table directory -----

  /** The number of tables, when the whole directory lies in the file. */
  function TableCount(data: seq<Byte>): (r: Option<nat>)
    ensures r.Some? ==> 12 + 16 * r.value <= |data|
  {
    if |data| < 12 || !RangeIsValid(|data|, 12, 16 * U16(data, 4)) then None else Some(U16(data, 4))
  }

  predicate HasTag(data: seq<Byte>, i: nat, tag: nat)
    requires 12 + 16 * i + 16 <= |data|
  {
    U32(data, 12 + 16 * i) == tag
  }

  /** The bytes record i describes. */
  function TableAt(data: seq<Byte>, i: nat): (r: Option<seq<Byte>>)
    requires 12 + 16 * i + 16 <= |data|
  {
    var offset, length := U32(data, 12 + 16 * i + 8), U32(data, 12 + 16 * i + 12);
    if RangeIsValid(|data|, offset, length) then Some(data[offset..offset + length]) else None
  }

  /** The table of the first record carrying the tag. */
  ghost predicate IsTable(data: seq<Byte>, tag: nat, r: Option<seq<Byte>>) {
    match TableCount(data)
    case None => r == None
    case Some(n) =>
      && ((forall i :: 0 <= i < n ==> !HasTag(data, i, tag)) ==> r == None)
      && (forall i :: 0 <= i < n && HasTag(data, i, tag) && (forall j :: 0 <= j < i ==> !HasTag(data, j, tag)) ==> r == TableAt(data, i))
  }

  method GetTable(data: seq<Byte>, tag: nat) returns (r: Option<seq<Byte>>)
    ensures IsTable(data, tag, r)
  {
    hide U32;
    if !RangeIsValid(|data|, 0, 12) {
      return None;
    }
    var count := U16(data, 4);
    if !RangeIsValid(|data|, 12, count * 16) {
      return None;
    }
    assert TableCount(data) == Some(count);
    hide U16, TableCount;
    var i: nat := 0;
    while i < count
      invariant i <= count
      invariant forall j :: 0 <= j < i ==> !HasTag(data, j, tag)
    {
      var record := 12 + i * 16;
      if U32(data, record) == tag {
        var offset, length := U32(data, record + 8), U32(data, record + 12);
        assert HasTag(data, i, tag);
        if !RangeIsValid(|data|, offset, length) {
          return None;
        }
        return Some(data[offset..offset + length]);
      }
      i := i + 1;
    }
    return None;
  }

  lemma {:induction false} FirstTag(data: seq<Byte>, tag: nat, n: nat)
    requires 12 + 16 * n <= |data|
    ensures (forall i :: 0 <= i < n ==> !HasTag(data, i, tag))
         || (exists i :: 0 <= i < n && HasTag(data, i, tag) && (forall j :: 0 <= j < i ==> !HasTag(data, j, tag)))
  {
    if n > 0 {
      FirstTag(data, tag, n - 1);
      if forall i :: 0 <= i < n - 1 ==> !HasTag(data, i, tag) {
        assert HasTag(data, n - 1, tag) || !HasTag(data, n - 1, tag);
      }
    }
  }

  /** The directory determines the table. */
  lemma TableUnique(data: seq<Byte>, tag: nat, r: Option<seq<Byte>>, r': Option<seq<Byte>>)
    requires IsTable(data, tag, r) && IsTable(data, tag, r')
    ensures r == r'
  {
    if TableCount(data).Some? {
      FirstTag(data, tag, TableCount(data).value);
    }
  }

  // ----- the character map subtable -----

  /** The encoding record selects a Unicode map. */
  predicate Unicode(cmap: seq<Byte>, i: nat)
    requires 4 + 8 * i + 8 <= |cmap|
  {
    var platform, encoding := U16(cmap, 4 + 8 * i), U16(cmap, 4 + 8 * i + 2);
    (platform == 3 && (encoding == 1 || encoding == 10)) || platform == 0
  }

  /** The subtable an encoding record points to, when it is of a known format and inside the table. */
  function SubtableAt(cmap: seq<Byte>, i: nat): (r: Option<seq<Byte>>)
    requires 4 + 8 * i + 8 <= |cmap|
  {
    var offset := U32(cmap, 4 + 8 * i + 4);
    if !RangeIsValid(|cmap|, offset, 2) then None
    else if U16(cmap, offset) == 4 && RangeIsValid(|cmap|, offset, 4) then Cut(cmap, offset, U16(cmap, offset + 2))
    else if U16(cmap, offset) == 12 && RangeIsValid(|cmap|, offset, 16) then Cut(cmap, offset, U32(cmap, offset + 4))
    else None
  }

  function Cut(s: seq<Byte>, offset: nat, length: nat): (r: Option<seq<Byte>>) {
    if RangeIsValid(|s|, offset, length) then Some(s[offset..offset + length]) else None
  }

  function SubtableCount(cmap: seq<Byte>): (r: Option<nat>)
    ensures r.Some? ==> 4 + 8 * r.value <= |cmap|
  {
    if |cmap| < 4 || !RangeIsValid(|cmap|, 4, 8 * U16(cmap, 2)) then None else Some(U16(cmap, 2))
  }

  predicate Usable(cmap: seq<Byte>, i: nat)
    requires 4 + 8 * i + 8 <= |cmap|
  {
    SubtableAt(cmap, i).Some?
  }

  ghost predicate NoUnicodeBefore(cmap: seq<Byte>, n: nat)
    requires 4 + 8 * n <= |cmap|
  {
    forall i :: 0 <= i < n && Usable(cmap, i) ==> !Unicode(cmap, i)
  }

  ghost predicate NoneBefore(cmap: seq<Byte>, n: nat)
    requires 4 + 8 * n <= |cmap|
  {
    forall i :: 0 <= i < n ==> !Usable(cmap, i)
  }

  /** The first usable Unicode subtable; when there is none the first usable one; else nothing. */
  ghost predicate IsSubtable(cmap: seq<Byte>, r: Option<seq<Byte>>) {
    match SubtableCount(cmap)
    case None => r == None
    case Some(n) =>
      && (forall i :: 0 <= i < n && Usable(cmap, i) && Unicode(cmap, i) && NoUnicodeBefore(cmap, i) ==> r == SubtableAt(cmap, i))
      && (forall i :: 0 <= i < n && Usable(cmap, i) && NoneBefore(cmap, i) && NoUnicodeBefore(cmap, n) ==> r == SubtableAt(cmap, i))
      && (NoneBefore(cmap, n) ==> r == None)
  }

  /** One encoding record of the loop below. */
  method ReadSubtable(cmap: seq<Byte>, i: nat) returns (r: Option<seq<Byte>>)
    requires 4 + 8 * i + 8 <= |cmap|
    ensures r == SubtableAt(cmap, i)
  {
    r := None;
    var offset := U32(cmap, 4 + i * 8 + 4);
    if !RangeIsValid(|cmap|, offset, 2) {
      return;
    }
    var format := U16(cmap, offset);
    var length: nat := 0;
    if format == 4 {
      if !RangeIsValid(|cmap|, offset, 4) {
        return;
      }
      length := U16(cmap, offset + 2);
    } else if format == 12 {
      if !RangeIsValid(|cmap|, offset, 16) {
        return;
      }
      length := U32(cmap, offset + 4);
    } else {
      return;
    }
    if !RangeIsValid(|cmap|, offset, length) {
      return;
    }
    r := Some(cmap[offset..offset + length]);
  }

  method SelectCmapSubtable(cmap: seq<Byte>) returns (r: Option<seq<Byte>>)
    ensures IsSubtable(cmap, r)
  {
    hide U32, SubtableAt;
    if !RangeIsValid(|cmap|, 0, 4) {
      return None;
    }
    var count := U16(cmap, 2);
    if !RangeIsValid(|cmap|, 4, count * 8) {
      return None;
    }
    hide U16;
    var fallback: Option<seq<Byte>> := None;
    var i: nat := 0;
    while i < count
      invariant i <= count
      invariant NoUnicodeBefore(cmap, i)
      invariant fallback == None ==> NoneBefore(cmap, i)
      invariant fallback.Some? ==> !NoneBefore(cmap, i)
      invariant forall k :: 0 <= k < i && Usable(cmap, k) && NoneBefore(cmap, k) ==> fallback == SubtableAt(cmap, k)
    {
      var subtable := ReadSubtable(cmap, i);
      assert Usable(cmap, i) == subtable.Some?;
      if subtable.Some? {
        if fallback == None {
          fallback := subtable;
        }
        var platform, encoding := U16(cmap, 4 + i * 8), U16(cmap, 4 + i * 8 + 2);
        if (platform == 3 && (encoding == 1 || encoding == 10)) || platform == 0 {
          assert Unicode(cmap, i);
          return subtable;
        }
      }
      i := i + 1;
    }
    return fallback;
  }

  // ----- the whole font -----

  datatype Font = Font(glyf: seq<Byte>, loca: seq<Byte>, hmtx: seq<Byte>, glyphs: nat, metrics: nat, unitsPerEm: nat, longLoca: bool, subtable: seq<Byte>)

  /** What the later readers rely on to stay inside the tables. */
  predicate ValidFont(f: Font) {
    && 0 < f.metrics <= f.glyphs && f.unitsPerEm > 0
    && |f.loca| >= (f.glyphs + 1) * (if f.longLoca then 4 else 2)
    && |f.hmtx| >= 4 * f.metrics
  }

  /** The font the file describes. */
  ghost predicate Describes(data: seq<Byte>, f: Font) {
    && |data| >= 12 && U32(data, 0) in {0x0001_0000, 0x7472_7565}
    && IsTable(data, TAG_GLYF, Some(f.glyf)) && IsTable(data, TAG_LOCA, Some(f.loca)) && IsTable(data, TAG_HMTX, Some(f.hmtx))
    && (exists cmap :: IsTable(data, TAG_CMAP, Some(cmap)) && IsSubtable(cmap, Some(f.subtable)))
    && (exists head :: IsTable(data, TAG_HEAD, Some(head)) && HeadSays(head, f))
    && (exists hhea :: IsTable(data, TAG_HHEA, Some(hhea)) && HheaSays(hhea, f))
    && (exists maxp :: IsTable(data, TAG_MAXP, Some(maxp)) && MaxpSays(maxp, f))
    && ValidFont(f)
  }

  predicate HeadSays(head: seq<Byte>, f: Font) {
    |head| >= 54 && f.unitsPerEm == U16(head, 18) && S16(head, 50) == (if f.longLoca then 1 else 0)
  }

  predicate HheaSays(hhea: seq<Byte>, f: Font) { |hhea| >= 36 && f.metrics == U16(hhea, 34) }

  predicate MaxpSays(maxp: seq<Byte>, f: Font) { |maxp| >= 6 && f.glyphs == U16(maxp, 4) }

  /** Parsing succeeds exactly on the files that describe a font, and yields the one they describe. */
  method ParseTtf(data: seq<Byte>) returns (r: Option<Font>)
    ensures forall f :: r == Some(f) <==> Describes(data, f)
    ensures r.Some? ==> ValidFont(r.value)
  {
    hide IsTable, IsSubtable;
    r := None;
    if !RangeIsValid(|data|, 0, 12) {
      return;
    }
    var scaler := U32(data, 0);
    if scaler != 0x0001_0000 && scaler != 0x7472_7565 {
      return;
    }
    var cmap := GetTable(data, TAG_CMAP);
    var glyf := GetTable(data, TAG_GLYF);
    var head := GetTable(data, TAG_HEAD);
    var hhea := GetTable(data, TAG_HHEA);
    var hmtx := GetTable(data, TAG_HMTX);
    var loca := GetTable(data, TAG_LOCA);
    var maxp := GetTable(data, TAG_MAXP);
    forall tag: nat, t, t' | IsTable(data, tag, t) && IsTable(data, tag, t') ensures t == t' {
      TableUnique(data, tag, t, t');
    }
    if cmap == None || glyf == None || head == None || hhea == None || hmtx == None || loca == None || maxp == None {
      return;
    }
    if |head.value| < 54 || |hhea.value| < 36 || |maxp.value| < 6 {
      return;
    }
    var units, format := U16(head.value, 18), S16(head.value, 50);
    var metrics, glyphs := U16(hhea.value, 34), U16(maxp.value, 4);
    if units == 0 || glyphs == 0 || metrics == 0 || metrics > glyphs || (format != 0 && format != 1) {
      return;
    }
    var entry := if format == 0 then 2 else 4;
    if |loca.value| < (glyphs + 1) * entry || |hmtx.value| < metrics * 4 {
      return;
    }
    var subtable := SelectCmapSubtable(cmap.value);
    forall t, t' | IsSubtable(cmap.value, t) && IsSubtable(cmap.value, t') ensures t == t' {
      SubtableUnique(cmap.value, t, t');
    }
    if subtable == None {
      return;
    }
    var font := Font(glyf.value, loca.value, hmtx.value, glyphs, metrics, units, format == 1, subtable.value);
    assert HeadSays(head.value, font) && HheaSays(hhea.value, font) && MaxpSays(maxp.value, font);
    assert Describes(data, font);
    r := Some(font);
  }

  lemma {:induction false} FirstUsable(cmap: seq<Byte>, n: nat)
    requires 4 + 8 * n <= |cmap|
    ensures NoneBefore(cmap, n) || (exists i :: 0 <= i < n && Usable(cmap, i) && NoneBefore(cmap, i))
  {
    if n > 0 {
      FirstUsable(cmap, n - 1);
      assert NoneBefore(cmap, n - 1) ==> Usable(cmap, n - 1) || NoneBefore(cmap, n);
    }
  }

  lemma {:induction false} FirstUnicode(cmap: seq<Byte>, n: nat)
    requires 4 + 8 * n <= |cmap|
    ensures NoUnicodeBefore(cmap, n) || (exists i :: 0 <= i < n && Usable(cmap, i) && Unicode(cmap, i) && NoUnicodeBefore(cmap, i))
  {
    if n > 0 {
      FirstUnicode(cmap, n - 1);
      assert NoUnicodeBefore(cmap, n - 1) ==> (Usable(cmap, n - 1) && Unicode(cmap, n - 1)) || NoUnicodeBefore(cmap, n);
    }
  }

  /** The table determines the subtable. */
  lemma SubtableUnique(cmap: seq<Byte>, r: Option<seq<Byte>>, r': Option<seq<Byte>>)
    requires IsSubtable(cmap, r) && IsSubtable(cmap, r')
    ensures r == r'
  {
    if SubtableCount(cmap).Some? {
      FirstUsable(cmap, SubtableCount(cmap).value);
      FirstUnicode(cmap, SubtableCount(cmap).value);
    }
  }
}
