/**
 The arena ELF loader of fs/elf.c: two passes over the program headers, of which the first
 makes the second unable to fail.
 */
module Arena {
  import opened VirtualMemory
  import opened Wrappers
  import P = Programs
  import E = ElfFormat

  const PT_LOAD: nat := 1
  const U64_MAX: nat := 0xffff_ffff_ffff_ffff

  predicate AddOverflows(a: nat, b: nat)
    requires a <= U64_MAX
  {
    U64_MAX - a < b
  }

  function EntryPoint(data: seq<Byte>): nat requires |data| >= 64 { P.U64(data, 24) }

  /** The checks of the process loader, and those of the file type and against overflow. */
  predicate ValidHeader(file: P.File) {
    && P.ValidElf(file) && P.Field(file.data, 16, 2) in {2, 3}
    && P.PhOff(file) <= |file.data| && P.PhNum(file) <= (U64_MAX - P.PhOff(file)) / 56
  }

  predicate Loadable(file: P.File, s: P.Segment) {
    && s.filesz <= s.memsz && !AddOverflows(s.offset, s.filesz) && s.offset + s.filesz <= |file.data|
    && !AddOverflows(s.vaddr, s.memsz)
  }

  predicate IsLoad(file: P.File, i: nat)
    requires ValidHeader(file) && i < P.PhNum(file)
  {
    P.SegmentAt(file, i).kind == PT_LOAD
  }

  // ----- what the first pass computes -----

  /** low and high bound the first n PT_LOAD segments tightly; U64_MAX and 0 when there are none. */
  ghost predicate Bounds(file: P.File, n: nat, low: nat, high: nat, found: bool)
    requires ValidHeader(file) && n <= P.PhNum(file)
  {
    && (found <==> exists i :: 0 <= i < n && IsLoad(file, i))
    && (forall i :: 0 <= i < n && IsLoad(file, i) ==>
          && Loadable(file, P.SegmentAt(file, i))
          && low <= P.SegmentAt(file, i).vaddr && P.SegmentAt(file, i).vaddr + P.SegmentAt(file, i).memsz <= high)
    && (found ==> && (exists i :: 0 <= i < n && IsLoad(file, i) && low == P.SegmentAt(file, i).vaddr)
                  && (exists i :: 0 <= i < n && IsLoad(file, i) && high == P.SegmentAt(file, i).vaddr + P.SegmentAt(file, i).memsz))
    && (!found ==> low == U64_MAX && high == 0)
  }

  /** Some PT_LOAD segment is malformed. */
  ghost predicate Malformed(file: P.File)
    requires ValidHeader(file)
  {
    exists i :: 0 <= i < P.PhNum(file) && IsLoad(file, i) && !Loadable(file, P.SegmentAt(file, i))
  }

  /** The image fits an arena of this size at these bounds. */
  ghost predicate Fits(file: P.File, size: nat, low: nat, high: nat)
    requires ValidHeader(file)
  {
    && Bounds(file, P.PhNum(file), low, high, true)
    && high - low <= size && low <= EntryPoint(file.data) < high
  }

  lemma BoundsUnique(file: P.File, low: nat, high: nat, found: bool, low2: nat, high2: nat, found2: bool)
    requires ValidHeader(file)
    requires Bounds(file, P.PhNum(file), low, high, found) && Bounds(file, P.PhNum(file), low2, high2, found2)
    ensures low == low2 && high == high2 && found == found2
  {
    hide P.SegmentAt, Loadable;
  }

  method FirstPass(file: P.File) returns (ok: bool, low: nat, high: nat, found: bool)
    requires ValidHeader(file)
    ensures ok ==> Bounds(file, P.PhNum(file), low, high, found)
    ensures !ok ==> Malformed(file)
  {
    hide P.SegmentAt, Loadable;
    low, high, found := U64_MAX, 0, false;
    var i := 0;
    while i < P.PhNum(file)
      invariant i <= P.PhNum(file) && Bounds(file, i, low, high, found)
    {
      var s := P.SegmentAt(file, i);
      if s.kind == PT_LOAD {
        if !Loadable(file, s) {
          assert IsLoad(file, i);
          return false, low, high, found;
        }
        ghost var low0, high0, found0 := low, high, found;
        if s.vaddr < low {
          low := s.vaddr;
        }
        if s.vaddr + s.memsz > high {
          high := s.vaddr + s.memsz;
        }
        found := true;
        BoundsLoad(file, i, low0, high0, found0, low, high);
      } else {
        BoundsSkip(file, i, low, high, found);
      }
      i := i + 1;
    }
    ok := true;
  }

  lemma BoundsSkip(file: P.File, i: nat, low: nat, high: nat, found: bool)
    requires ValidHeader(file) && i < P.PhNum(file) && Bounds(file, i, low, high, found) && !IsLoad(file, i)
    ensures Bounds(file, i + 1, low, high, found)
  {
    hide P.SegmentAt, Loadable;
  }

  lemma BoundsLoad(file: P.File, i: nat, low: nat, high: nat, found: bool, low': nat, high': nat)
    requires ValidHeader(file) && i < P.PhNum(file) && Bounds(file, i, low, high, found) && IsLoad(file, i)
    requires Loadable(file, P.SegmentAt(file, i))
    requires low' == (if P.SegmentAt(file, i).vaddr < low then P.SegmentAt(file, i).vaddr else low)
    requires high' == (if P.SegmentAt(file, i).vaddr + P.SegmentAt(file, i).memsz > high
                       then P.SegmentAt(file, i).vaddr + P.SegmentAt(file, i).memsz else high)
    ensures Bounds(file, i + 1, low', high', true)
  {
    hide Loadable, P.SegmentAt;
    var s := P.SegmentAt(file, i);
    if found {
      var a :| 0 <= a < i && IsLoad(file, a) && low == P.SegmentAt(file, a).vaddr;
      var b :| 0 <= b < i && IsLoad(file, b) && high == P.SegmentAt(file, b).vaddr + P.SegmentAt(file, b).memsz;
      LastIsWitness(file, i, low', if s.vaddr < low then i else a, high', if s.vaddr + s.memsz > high then i else b);
    } else {
      LastIsWitness(file, i, low', i, high', i);
    }
  }

  lemma LastIsWitness(file: P.File, i: nat, low: nat, a: nat, high: nat, b: nat)
    requires ValidHeader(file) && i < P.PhNum(file) && a <= i && b <= i && IsLoad(file, a) && IsLoad(file, b)
    requires low == P.SegmentAt(file, a).vaddr && high == P.SegmentAt(file, b).vaddr + P.SegmentAt(file, b).memsz
    ensures exists j :: 0 <= j < i + 1 && IsLoad(file, j) && low == P.SegmentAt(file, j).vaddr
    ensures exists j :: 0 <= j < i + 1 && IsLoad(file, j) && high == P.SegmentAt(file, j).vaddr + P.SegmentAt(file, j).memsz
  {
    hide P.SegmentAt;
  }

  // ----- what the second pass leaves in the arena -----

  /** Byte x of the arena after the first n headers: that of the last PT_LOAD file range covering it. */
  ghost function ArenaByte(file: P.File, low: nat, n: nat, x: nat): (b: Byte)
    requires ValidHeader(file) && n <= P.PhNum(file) && Prefix(file, n, low)
  {
    if n == 0 then 0
    else
      var s := P.SegmentAt(file, n - 1);
      assert IsLoad(file, n - 1) ==> Loadable(file, s) && low <= s.vaddr;
      if IsLoad(file, n - 1) && s.vaddr - low <= x < s.vaddr - low + s.filesz
      then file.data[s.offset + (x - (s.vaddr - low))]
      else ArenaByte(file, low, n - 1, x)
  }

  /** memcpy into the arena. */
  method CopyInto(arena: array<Byte>, at: nat, bytes: seq<Byte>)
    requires at + |bytes| <= arena.Length
    modifies arena
    ensures forall x :: 0 <= x < arena.Length ==>
              arena[x] == if at <= x < at + |bytes| then bytes[x - at] else old(arena[x])
  {
    var i := 0;
    while i < |bytes|
      invariant i <= |bytes|
      invariant forall x :: 0 <= x < arena.Length ==>
                  arena[x] == if at <= x < at + i then bytes[x - at] else old(arena[x])
    {
      arena[at + i] := bytes[i];
      i := i + 1;
    }
  }

  datatype Image = Image(entry: nat, base: nat, size: nat)

  /** All or nothing: a refused image leaves the arena untouched, an accepted one determines every byte,
      and it is accepted exactly when its headers are sound and it fits. */
  method LoadImage(file: Option<P.File>, base: nat, arena: array<Byte>) returns (r: Option<Image>)
    modifies arena
    ensures r.None? ==> arena[..] == old(arena[..])
    ensures r.Some? <==> && base != 0 && arena.Length != 0 && file.Some? && ValidHeader(file.value)
                         && exists low, high :: Fits(file.value, arena.Length, low, high)
    ensures r.Some? ==> exists low: nat, high: nat ::
              && Fits(file.value, arena.Length, low, high)
              && r.value == Image(base + EntryPoint(file.value.data) - low, base, high - low)
              && base <= r.value.entry < base + r.value.size
              && forall x :: 0 <= x < arena.Length ==> arena[x] == ArenaByte(file.value, low, P.PhNum(file.value), x)
  {
    hide P.SegmentAt, ValidHeader, Bounds, EntryPoint, P.PhNum, P.ValidElf, ArenaByte, Prefix, Loadable;
    if base == 0 || arena.Length == 0 || file.None? || !ValidHeader(file.value) {
      return None;
    }
    var f := file.value;
    HeaderSize(f);
    var ok, low, high, found := FirstPass(f);
    if !ok {
      MalformedNeverFits(f, arena.Length);
      return None;
    }
    OnlyBounds(f, arena.Length, low, high, found);
    if !found || high < low || high - low > arena.Length {
      return None;
    }
    if EntryPoint(f.data) < low || EntryPoint(f.data) >= high {
      return None;
    }
    for x := 0 to arena.Length
      invariant forall j :: 0 <= j < x ==> arena[j] == 0
    {
      arena[x] := 0;
    }
    var i := 0;
    NothingCopied(f, low);
    while i < P.PhNum(f)
      invariant i <= P.PhNum(f) && Prefix(f, i, low)
      invariant forall x :: 0 <= x < arena.Length ==> arena[x] == ArenaByte(f, low, i, x)
    {
      PrefixNext(f, i, low, high);
      var s := P.SegmentAt(f, i);
      ghost var before := arena[..];
      if s.kind == PT_LOAD {
        InTheFile(f, s);
        var relative := s.vaddr - low;
        if relative > arena.Length || s.memsz > arena.Length - relative {
          assert false;
          return None;
        }
        CopyInto(arena, relative, f.data[s.offset..s.offset + s.filesz]);
      }
      forall x | 0 <= x < arena.Length ensures arena[x] == ArenaByte(f, low, i + 1, x) {
        assert before[x] == ArenaByte(f, low, i, x);
        OneCopied(f, low, i, x);
      }
      i := i + 1;
    }
    assert Fits(f, arena.Length, low, high);
    r := Some(Image(base + EntryPoint(f.data) - low, base, high - low));
  }

  lemma NothingCopied(file: P.File, low: nat)
    requires ValidHeader(file)
    ensures Prefix(file, 0, low) && forall x: nat :: ArenaByte(file, low, 0, x) == 0
  {
  }

  /** One more header changes the bytes its file range covers and no others. */
  lemma OneCopied(file: P.File, low: nat, i: nat, x: nat)
    requires ValidHeader(file) && i < P.PhNum(file) && Prefix(file, i, low) && Prefix(file, i + 1, low)
    ensures var s := P.SegmentAt(file, i);
            && (s.kind == PT_LOAD ==> low <= s.vaddr && s.offset + s.filesz <= |file.data|)
            && ArenaByte(file, low, i + 1, x) ==
               if s.kind == PT_LOAD && s.vaddr - low <= x < s.vaddr - low + s.filesz then file.data[s.offset..s.offset + s.filesz][x - (s.vaddr - low)]
               else ArenaByte(file, low, i, x)
  {
    hide P.SegmentAt, ValidHeader;
    HeaderSize(file);
    assert IsLoad(file, i) ==> Loadable(file, P.SegmentAt(file, i)) && low <= P.SegmentAt(file, i).vaddr;
  }

  lemma InTheFile(file: P.File, s: P.Segment)
    requires Loadable(file, s)
    ensures s.filesz <= s.memsz && s.offset + s.filesz <= |file.data|
  {
  }

  ghost predicate Prefix(file: P.File, n: nat, low: nat)
    requires ValidHeader(file) && n <= P.PhNum(file)
  {
    forall i :: 0 <= i < n && IsLoad(file, i) ==> Loadable(file, P.SegmentAt(file, i)) && low <= P.SegmentAt(file, i).vaddr
  }

  lemma HeaderSize(file: P.File)
    requires ValidHeader(file)
    ensures P.ValidElf(file) && |file.data| >= 64
  {
  }

  lemma PrefixNext(file: P.File, i: nat, low: nat, high: nat)
    requires ValidHeader(file) && i < P.PhNum(file) && Bounds(file, P.PhNum(file), low, high, true)
    ensures Prefix(file, i + 1, low)
    ensures IsLoad(file, i) ==> && P.SegmentAt(file, i).vaddr + P.SegmentAt(file, i).memsz <= high
                                && Loadable(file, P.SegmentAt(file, i)) && low <= P.SegmentAt(file, i).vaddr
  {
    hide P.SegmentAt, Loadable;
  }

  lemma MalformedNeverFits(file: P.File, size: nat)
    requires ValidHeader(file) && Malformed(file)
    ensures forall low, high :: !Fits(file, size, low, high)
  {
    hide P.SegmentAt, Loadable;
  }

  lemma OnlyBounds(file: P.File, size: nat, low: nat, high: nat, found: bool)
    requires ValidHeader(file) && Bounds(file, P.PhNum(file), low, high, found)
    ensures forall low2, high2 :: Fits(file, size, low2, high2) ==> low2 == low && high2 == high && found
    ensures found ==> low <= high
  {
    hide P.SegmentAt, Loadable;
    forall low2: nat, high2: nat | Fits(file, size, low2, high2) ensures low2 == low && high2 == high && found {
      BoundsUnique(file, low, high, found, low2, high2, true);
    }
  }

  // ----- the same said of the headers a file was written from -----

  predicate Sane(size: nat, h: E.ProgramHeader) {
    h.filesz <= h.memsz && h.offset + h.filesz <= size && h.vaddr + h.memsz <= U64_MAX
  }

  /** The PT_LOAD headers are sane, low and high are the lowest address and the highest end among them. */
  ghost predicate Spans(size: nat, headers: seq<E.ProgramHeader>, low: nat, high: nat) {
    && (forall i :: 0 <= i < |headers| && headers[i].kind == PT_LOAD ==>
          Sane(size, headers[i]) && low <= headers[i].vaddr && headers[i].vaddr + headers[i].memsz <= high)
    && (exists i :: 0 <= i < |headers| && headers[i].kind == PT_LOAD && headers[i].vaddr == low)
    && (exists i :: 0 <= i < |headers| && headers[i].kind == PT_LOAD && headers[i].vaddr + headers[i].memsz == high)
  }

  /** What address va shows: the bytes of the last segment that brings some, else zero. */
  ghost function ImageByte(data: seq<Byte>, headers: seq<E.ProgramHeader>, va: nat): (b: Byte)
    requires forall i :: 0 <= i < |headers| && headers[i].kind == PT_LOAD ==> Sane(|data|, headers[i])
  {
    if headers == [] then 0
    else
      var h := headers[|headers| - 1];
      assert headers[|headers| - 1].kind == PT_LOAD ==> Sane(|data|, headers[|headers| - 1]);
      if h.kind == PT_LOAD && h.vaddr <= va < h.vaddr + h.filesz then data[h.offset + (va - h.vaddr)]
      else ImageByte(data, headers[..|headers| - 1], va)
  }

  lemma {:induction false} ArenaByteWritten(file: P.File, headers: seq<E.ProgramHeader>, low: nat, n: nat, x: nat)
    requires ValidHeader(file) && n <= P.PhNum(file) == |headers| && Prefix(file, n, low)
    requires forall j :: 0 <= j < |headers| ==> P.SegmentAt(file, j) == E.SegmentOf(headers[j])
    requires forall i :: 0 <= i < |headers| && headers[i].kind == PT_LOAD ==> Sane(|file.data|, headers[i])
    ensures ArenaByte(file, low, n, x) == ImageByte(file.data, headers[..n], low + x)
    decreases n
  {
    hide P.SegmentAt, ValidHeader;
    if n > 0 {
      HeaderSize(file);
      ArenaByteWritten(file, headers, low, n - 1, x);
      assert headers[..n][..n - 1] == headers[..n - 1];
      assert IsLoad(file, n - 1) <==> headers[n - 1].kind == PT_LOAD;
    }
  }

  /** What LoadImage decides and leaves in the arena, for a file written from these headers: it is taken exactly when
      its type is executable or shared, its segments are sane, they span no more than the arena and contain
      the entry; then every byte of the arena is that of its address. */
  lemma WrittenImage(file: P.File, e: E.Elf, headers: seq<E.ProgramHeader>, size: nat, low: nat, high: nat)
    requires E.Describes(file.data, e, headers) && !file.directory && |file.data| <= U64_MAX
    ensures ValidHeader(file) <==> e.kind in {2, 3}
    ensures ValidHeader(file) ==>
              && EntryPoint(file.data) == e.entry && P.PhNum(file) == |headers|
              && (Fits(file, size, low, high) <==>
                    Spans(|file.data|, headers, low, high) && high - low <= size && low <= e.entry < high)
              && (Fits(file, size, low, high) ==>
                    Prefix(file, |headers|, low) && Spans(|file.data|, headers, low, high) &&
                    forall x: nat :: ArenaByte(file, low, |headers|, x) == ImageByte(file.data, headers, low + x))
  {
    hide P.Field, P.SegmentAt, E.FileHeader, E.HeaderBytes, Prefix, Bounds;
    E.WrittenIsRead(file, e, headers);
    if ValidHeader(file) {
      SpansIsBounds(file, headers, low, high);
      if Fits(file, size, low, high) {
        BoundsPrefix(file, low, high);
        assert headers[..|headers|] == headers;
        forall x: nat ensures ArenaByte(file, low, |headers|, x) == ImageByte(file.data, headers, low + x) {
          ArenaByteWritten(file, headers, low, |headers|, x);
        }
      }
    }
  }

  lemma BoundsPrefix(file: P.File, low: nat, high: nat)
    requires ValidHeader(file) && Bounds(file, P.PhNum(file), low, high, true)
    ensures Prefix(file, P.PhNum(file), low)
  {
    hide P.SegmentAt, Loadable;
  }

  lemma SaneIsLoadable(file: P.File, h: E.ProgramHeader)
    requires |file.data| <= U64_MAX
    ensures Loadable(file, E.SegmentOf(h)) <==> Sane(|file.data|, h)
  {
  }

  lemma SpansIsBounds(file: P.File, headers: seq<E.ProgramHeader>, low: nat, high: nat)
    requires ValidHeader(file) && |file.data| <= U64_MAX && P.PhNum(file) == |headers|
    requires forall j :: 0 <= j < |headers| ==> P.SegmentAt(file, j) == E.SegmentOf(headers[j])
    ensures Bounds(file, P.PhNum(file), low, high, true) <==> Spans(|file.data|, headers, low, high)
  {
    hide P.SegmentAt, Loadable, Sane, P.Field;
    forall j | 0 <= j < |headers|
      ensures IsLoad(file, j) <==> headers[j].kind == PT_LOAD
      ensures Loadable(file, E.SegmentOf(headers[j])) <==> Sane(|file.data|, headers[j])
    {
      SaneIsLoadable(file, headers[j]);
    }
    forall i | 0 <= i < |headers|
      ensures P.SegmentAt(file, i).vaddr == headers[i].vaddr
      ensures P.SegmentAt(file, i).vaddr + P.SegmentAt(file, i).memsz == headers[i].vaddr + headers[i].memsz
    {
    }
    if Bounds(file, P.PhNum(file), low, high, true) {
      var a :| 0 <= a < |headers| && IsLoad(file, a) && low == P.SegmentAt(file, a).vaddr;
      var b :| 0 <= b < |headers| && IsLoad(file, b) && high == P.SegmentAt(file, b).vaddr + P.SegmentAt(file, b).memsz;
      assert headers[a].vaddr == low && headers[b].vaddr + headers[b].memsz == high;
    }
    if Spans(|file.data|, headers, low, high) {
      var a :| 0 <= a < |headers| && headers[a].kind == PT_LOAD && headers[a].vaddr == low;
      var b :| 0 <= b < |headers| && headers[b].kind == PT_LOAD && headers[b].vaddr + headers[b].memsz == high;
      assert IsLoad(file, a) && IsLoad(file, b);
      assert P.SegmentAt(file, a).vaddr == low && P.SegmentAt(file, b).vaddr + P.SegmentAt(file, b).memsz == high;
    }
  }
}
