/**
 What a loaded program sees: its segments byte for byte, on pages of their own.
 */
module Images {
  import opened Wrappers
  import opened Paging
  import opened Ownership
  import opened PageTables
  import opened AddressSpaces
  import opened VirtualMemory
  import opened Programs
  import opened Loading

  lemma {:induction false} DigitOfZero(k: nat)
    ensures Digit(0, k) == 0
  {
    if k > 0 {
      DigitOfZero(k - 1);
    }
  }

  lemma ZeroPageByte(o: nat)
    requires o < 4096
    ensures PageByte(ZeroPage(), o) == 0
  {
    DigitOfZero(o % 8);
  }

  /** What the image prescribes at an address of a segment. */
  function SegmentByte(file: File, s: Segment, va: nat): (b: Byte)
    requires SegmentFits(file, s) && s.vaddr <= va
  {
    if va < s.vaddr + s.filesz then file.data[s.offset + (va - s.vaddr)] else 0
  }

  predicate InSegment(s: Segment, va: nat) {
    s.kind == 1 && s.vaddr <= va < s.vaddr + s.memsz
  }

  /** A segment that passes the loader's checks lies in the file and in the user half exactly when neither of
      its sums wraps around. */
  lemma AcceptedFits(file: File, s: Segment)
    requires |file.data| < WORD_LIMIT && Accepted(file, s)
    ensures SegmentFits(file, s) <==> s.offset + s.filesz < WORD_LIMIT && s.vaddr + s.memsz < WORD_LIMIT
  {
  }

  /** Without wrap-around the checks are what they should be. */
  lemma UnwrappedFits(file: File, i: nat)
    requires ValidElf(file) && NoWrap(file) && i < PhNum(file)
    ensures SegmentAt(file, i).kind == 1 ==> (Accepted(file, SegmentAt(file, i)) <==> SegmentFits(file, SegmentAt(file, i)))
    ensures Contained(file, SegmentAt(file, i))
  {
    hide SegmentAt;
  }

  lemma NoWrapIsUserOnly(file: File)
    requires NoWrap(file)
    ensures UserOnly(file)
  {
    if ValidElf(file) {
      forall i | 0 <= i < PhNum(file) ensures Contained(file, SegmentAt(file, i)) {
        UnwrappedFits(file, i);
      }
    }
  }

  /** A range mapped in full shows zeroes where nothing was mapped, and nothing else changes. */
  lemma MappedRangeStep(m: Mem, g: Ledger, root: nat, base: nat, size: nat, va: nat) returns (g': Ledger)
    requires Inv(m, g) && Root(root) in g.at && base + size < USER_TOP && va < USER_TOP
    requires MapRange(m, root, base, size, 2).1
    ensures var m' := MapRange(m, root, base, size, 2).0;
            && Inv(m', g') && Root(root) in g'.at
            && (base <= va < base + size ==> Load(m, root, va).None? && Load(m', root, va) == Some(0))
            && (Load(m, root, va).Some? ==> Load(m', root, va) == Load(m, root, va) && !(base <= va < base + size))
            && (base <= va < base + size ==> Mapped(g', root, va) && UserLoad(m', root, va) == Some(0) && Usable(m', root, va))
            && (UserLoad(m, root, va).Some? ==> UserLoad(m', root, va) == UserLoad(m, root, va))
            && (Usable(m, root, va) ==> Usable(m', root, va))
  {
    hide Load, MapPages, Index, View, PageByte, UserLoad, Usable, Allows, FlagsOf, UserFlags, LeafFlags;
    var first, end := base / 4096, EndPage(base, size);
    assert end == (base + size + 4095) / 4096;
    g' := MapPagesKeeps(m, g, root, first, end, 2);
    var m' := MapRange(m, root, base, size, 2).0;
    assert base <= va < base + size ==> first <= va / 4096 < end;
    assert MapsAt(m, g, m', g', root, first, end, true, va / 4096, 2);
    UserFlagsBits(2);
    UserLoadIsView(m, g, root, va);
    UserLoadIsView(m', g', root, va);
    if base <= va < base + size {
      SevenAllows(View(m', g', Leaf(root, va / 4096)).value.entry, false);
      SevenAllows(View(m', g', Leaf(root, va / 4096)).value.entry, true);
    }
    LoadIsView(m, g, root, va);
    LoadIsView(m', g', root, va);
    ViewNone(m', g', Leaf(root, va / 4096));
    ZeroPageByte(va % 4096);
  }

  /** One segment at one address. */
  lemma SegmentStep(m: Mem, g: Ledger, root: nat, file: File, s: Segment, va: nat)
    requires Inv(m, g) && Root(root) in g.at && va < USER_TOP
    requires LoadSegment(m, root, file, s).1 && (s.kind == 1 && Accepted(file, s) ==> SegmentFits(file, s)) && |file.data| < WORD_LIMIT
    ensures var m' := LoadSegment(m, root, file, s).0;
            && (InSegment(s, va) ==> && Load(m, root, va).None? && SegmentFits(file, s)
                                     && Load(m', root, va) == UserLoad(m', root, va) == Some(SegmentByte(file, s, va)) && Usable(m', root, va))
            && (Load(m, root, va).Some? ==> Load(m', root, va) == Load(m, root, va))
            && (UserLoad(m, root, va).Some? ==> UserLoad(m', root, va) == UserLoad(m, root, va))
            && (Usable(m, root, va) ==> Usable(m', root, va))
  {
    UserLoadIsLoad(m, root, va);
    hide Load, MapRange, WriteProcess, StoreAll, FileBytes, UserLoad, Usable;
    if s.kind == 1 {
      var m1 := MapRange(m, root, s.vaddr, s.memsz, 2).0;
      var g1 := MappedRangeStep(m, g, root, s.vaddr, s.memsz, va);
      var bytes := FileBytes(file, s.offset, s.filesz);
      var n := WriteProcessIsStores(m1, g1, root, s.vaddr, bytes);
      assert bytes[..n] == bytes;
      LoadAfterStoreAll(m1, g1, root, s.vaddr, bytes, root, va);
      UserLoadAfterStoreAll(m1, g1, root, s.vaddr, bytes, root, va);
    }
  }

  lemma UserLoadIsLoad(m: Mem, root: nat, va: nat)
    ensures UserLoad(m, root, va).Some? ==> Load(m, root, va) == UserLoad(m, root, va)
  {
    hide Load, Reaches;
  }

  /** The image is shown: user code reads every loaded segment, byte for byte, and may write it. */
  ghost predicate Shows(m: Mem, root: nat, file: File, first: nat)
    requires ValidElf(file)
  {
    forall k: nat, va: nat {:trigger InSegment(SegmentAt(file, k), va)} ::
      first <= k < PhNum(file) && va < USER_TOP && InSegment(SegmentAt(file, k), va) ==>
        && SegmentFits(file, SegmentAt(file, k))
        && UserLoad(m, root, va) == Some(SegmentByte(file, SegmentAt(file, k), va)) && Usable(m, root, va)
  }

  /** None of the segments' addresses were mapped. */
  ghost predicate Unmapped(m: Mem, root: nat, file: File, first: nat)
    requires ValidElf(file)
  {
    forall k: nat, va: nat {:trigger InSegment(SegmentAt(file, k), va)} ::
      first <= k < PhNum(file) && va < USER_TOP && InSegment(SegmentAt(file, k), va) ==> Load(m, root, va).None?
  }

  ghost predicate Retains(m: Mem, m': Mem, root: nat) {
    && (forall va: nat :: UserLoad(m, root, va).Some? ==> UserLoad(m', root, va) == UserLoad(m, root, va))
    && (forall va: nat :: Usable(m, root, va) ==> Usable(m', root, va))
  }

  ghost predicate DisjointFrom(file: File, first: nat)
    requires ValidElf(file)
  {
    forall j: nat, k: nat, a: nat, b: nat {:trigger InSegment(SegmentAt(file, j), a), InSegment(SegmentAt(file, k), b)} ::
      && first <= j < k < PhNum(file) && a < USER_TOP && b < USER_TOP
      && InSegment(SegmentAt(file, j), a) && InSegment(SegmentAt(file, k), b)
      ==> a / 4096 != b / 4096
  }

  /** Program loading is faithful: on success every PT_LOAD segment shows its file bytes and then
      zeroes, no two segments share a page, and what was mapped before is untouched. */
  lemma {:induction false} SegmentsLoad(m: Mem, g: Ledger, root: nat, file: File, i: nat)
    requires Inv(m, g) && Root(root) in g.at && ValidElf(file) && i <= PhNum(file)
    requires LoadSegments(m, root, file, i).1 && NoWrap(file)
    ensures Shows(LoadSegments(m, root, file, i).0, root, file, i)
    ensures Unmapped(m, root, file, i) && DisjointFrom(file, i)
    ensures Retains(m, LoadSegments(m, root, file, i).0, root)
    decreases PhNum(file) - i
  {
    hide Load, LoadSegment, SegmentAt, SegmentFits, SegmentByte, UserLoad, Usable;
    if i < PhNum(file) {
      var s := SegmentAt(file, i);
      var m1 := LoadSegment(m, root, file, s).0;
      var m' := LoadSegments(m, root, file, i).0;
      UnwrappedFits(file, i);
      var g1 := LoadSegmentKeeps(m, g, root, file, s);
      SegmentsLoad(m1, g1, root, file, i + 1);
      forall va: nat | va < USER_TOP
        ensures InSegment(s, va) ==> && Load(m, root, va).None? && SegmentFits(file, s)
                                     && Load(m1, root, va) == UserLoad(m1, root, va) == Some(SegmentByte(file, s, va)) && Usable(m1, root, va)
        ensures Load(m, root, va).Some? ==> Load(m1, root, va) == Load(m, root, va)
        ensures UserLoad(m, root, va).Some? ==> UserLoad(m1, root, va) == UserLoad(m, root, va)
        ensures Usable(m, root, va) ==> Usable(m1, root, va)
      {
        SegmentStep(m, g, root, file, s, va);
      }
      OnOwnPages(m1, g1, root, file, i);
      OnlyBelow(m, root);
    }
  }

  lemma OnlyBelow(m: Mem, root: nat)
    ensures forall va: nat :: UserLoad(m, root, va).Some? || Usable(m, root, va) ==> va < USER_TOP
  {
    hide Load, Reaches;
  }

  lemma OnOwnPages(m1: Mem, g1: Ledger, root: nat, file: File, i: nat)
    requires Inv(m1, g1) && Root(root) in g1.at && ValidElf(file) && i < PhNum(file)
    requires forall va: nat :: va < USER_TOP && InSegment(SegmentAt(file, i), va) ==> Load(m1, root, va).Some?
    requires Unmapped(m1, root, file, i + 1) && DisjointFrom(file, i + 1)
    ensures DisjointFrom(file, i)
  {
    hide Load, SegmentAt;
    forall j: nat, k: nat, a: nat, b: nat | i <= j < k < PhNum(file) && a < USER_TOP && b < USER_TOP
                        && InSegment(SegmentAt(file, j), a) && InSegment(SegmentAt(file, k), b)
      ensures a / 4096 != b / 4096
    {
      if j == i {
        SamePageSameMapping(m1, g1, root, a, b);
      }
    }
  }

  lemma SamePageSameMapping(m: Mem, g: Ledger, root: nat, a: nat, b: nat)
    requires Inv(m, g) && Root(root) in g.at && a < USER_TOP && b < USER_TOP
    ensures a / 4096 == b / 4096 ==> (Load(m, root, a).Some? <==> Load(m, root, b).Some?)
  {
  }
}
