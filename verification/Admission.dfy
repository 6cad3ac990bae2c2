/**
 Which programs load_program of kernel/process.c admits: with frames enough, exactly those whose segments pass
 its checks and lie on pages of their own.
 */
module Admission {
  import opened Wrappers
  import opened Paging
  import opened Ownership
  import opened PageTables
  import opened AddressSpaces
  import opened VirtualMemory
  import opened Programs
  import opened Loading
  import opened Images
  import opened Stacks
  import opened Supply

  // ----- what a file must be like -----

  /** The pages a segment is given. */
  predicate Covers(s: Segment, page: nat) {
    s.kind == 1 && s.vaddr / 4096 <= page < EndPage(s.vaddr, s.memsz)
  }

  predicate OnStack(page: nat) { STACK_BASE / 4096 <= page < STACK_TOP / 4096 }

  function PageCount(s: Segment): (n: nat) {
    if s.kind == 1 && s.vaddr / 4096 < EndPage(s.vaddr, s.memsz) then EndPage(s.vaddr, s.memsz) - s.vaddr / 4096 else 0
  }

  /** The pages of the segments from i on. */
  function TotalPages(file: File, i: nat): (n: nat)
    requires ValidElf(file) && i <= PhNum(file)
    decreases PhNum(file) - i
  {
    if i == PhNum(file) then 0 else PageCount(SegmentAt(file, i)) + TotalPages(file, i + 1)
  }

  /** From header i on: every segment lies in the file and in the user half, and no two share a page. */
  ghost predicate Loadable(file: File, i: nat)
    requires ValidElf(file)
  {
    && (forall k :: i <= k < PhNum(file) && SegmentAt(file, k).kind == 1 ==> SegmentFits(file, SegmentAt(file, k)))
    && (forall j: nat, k: nat, p: nat {:trigger Covers(SegmentAt(file, j), p), Covers(SegmentAt(file, k), p)} ::
          i <= j < k < PhNum(file) && Covers(SegmentAt(file, j), p) ==> !Covers(SegmentAt(file, k), p))
  }

  ghost predicate OffStack(file: File)
    requires ValidElf(file)
  {
    forall k: nat, p: nat {:trigger Covers(SegmentAt(file, k), p)} ::
      k < PhNum(file) && Covers(SegmentAt(file, k), p) ==> !OnStack(p)
  }

  /** None of the pages of the segments from i on is mapped. */
  ghost predicate Vacant(g: Ledger, root: nat, file: File, i: nat)
    requires ValidElf(file)
  {
    forall k: nat, p: nat {:trigger Covers(SegmentAt(file, k), p)} ::
      i <= k < PhNum(file) && Covers(SegmentAt(file, k), p) ==> Leaf(root, p) !in g.at
  }

  // ----- enough: such a file loads -----

  lemma FittingEnds(file: File, s: Segment)
    requires SegmentFits(file, s)
    ensures EndPage(s.vaddr, s.memsz) == (s.vaddr + s.memsz + 4095) / 4096 <= USER_PAGES
  {
  }

  /** One segment with four frames for each of its pages. */
  lemma SegmentSucceeds(m: Mem, g: Ledger, root: nat, file: File, s: Segment) returns (g': Ledger)
    requires Inv(m, g) && Root(root) in g.at && |file.data| < WORD_LIMIT && (s.kind == 1 ==> SegmentFits(file, s))
    requires |g.stack| >= 4 * PageCount(s) && forall p: nat :: Covers(s, p) ==> Leaf(root, p) !in g.at
    ensures var (m', ok) := LoadSegment(m, root, file, s);
            && ok && Inv(m', g') && Root(root) in g'.at && |g'.stack| >= |g.stack| - 4 * PageCount(s)
            && (forall p: nat :: p < USER_PAGES && !Covers(s, p) && Leaf(root, p) !in g.at ==> Leaf(root, p) !in g'.at)
  {
    hide MapPages, WriteProcess, FileBytes, Inv, Leaf, Confined;
    g' := g;
    if s.kind == 1 {
      FittingEnds(file, s);
      var first, end := s.vaddr / 4096, EndPage(s.vaddr, s.memsz);
      assert Accepted(file, s);
      g' := PagesSucceed(m, g, root, first, end, 2);
      var m1 := MapPages(m, root, first, end, 2).0;
      var bytes := FileBytes(file, s.offset, s.filesz);
      WriteProcessConfined(m1, g', root, s.vaddr, bytes);
      var _ := WriteProcessIsStores(m1, g', root, s.vaddr, bytes);
      RangeIsMapped(g', root, s.vaddr, s.filesz, first, end);
    }
  }

  lemma RangeIsMapped(g: Ledger, root: nat, va: nat, n: nat, first: nat, end: nat)
    requires forall p: nat :: first <= p < end ==> Leaf(root, p) in g.at
    requires first == va / 4096 && va + n <= 4096 * end
    ensures RangeMapped(g, root, va, n)
  {
    hide Leaf;
    forall i | va <= i < va + n ensures Mapped(g, root, i) {
      assert first <= i / 4096 < end;
    }
  }

  lemma {:induction false} SegmentsSucceed(m: Mem, g: Ledger, root: nat, file: File, i: nat) returns (g': Ledger)
    requires Inv(m, g) && Root(root) in g.at && ValidElf(file) && |file.data| < WORD_LIMIT && i <= PhNum(file)
    requires Loadable(file, i) && Vacant(g, root, file, i) && |g.stack| >= 4 * TotalPages(file, i)
    ensures var (m', ok) := LoadSegments(m, root, file, i);
            && ok && Inv(m', g') && Root(root) in g'.at && |g'.stack| >= |g.stack| - 4 * TotalPages(file, i)
            && (forall p: nat :: p < USER_PAGES && Leaf(root, p) !in g.at && (forall k: nat :: i <= k < PhNum(file) ==> !Covers(SegmentAt(file, k), p))
                  ==> Leaf(root, p) !in g'.at)
    decreases PhNum(file) - i
  {
    hide LoadSegment, SegmentAt, SegmentFits, Inv, Leaf, Covers, Field, PageCount;
    g' := g;
    if i < PhNum(file) {
      var s := SegmentAt(file, i);
      var m1 := LoadSegment(m, root, file, s).0;
      var g1 := SegmentSucceeds(m, g, root, file, s);
      CoversUser(file, i);
      g' := SegmentsSucceed(m1, g1, root, file, i + 1);
    }
  }

  lemma CoversUser(file: File, i: nat)
    requires ValidElf(file) && Loadable(file, i)
    ensures forall k: nat, p: nat {:trigger Covers(SegmentAt(file, k), p)} ::
              i <= k < PhNum(file) && Covers(SegmentAt(file, k), p) ==> p < USER_PAGES
  {
    hide SegmentAt, Field;
    forall k: nat, p: nat | i <= k < PhNum(file) && Covers(SegmentAt(file, k), p) ensures p < USER_PAGES {
      FittingEnds(file, SegmentAt(file, k));
    }
  }

  // ----- no less: what loads is such a file -----

  lemma ViewMapped(m: Mem, g: Ledger, leaf: Node)
    requires Inv(m, g) && Depth(leaf) == 4
    ensures View(m, g, leaf).Some? <==> leaf in g.at
  {
    ViewNone(m, g, leaf);
  }

  /** A range that was mapped in full was unmapped before. */
  lemma RangeWasVacant(m: Mem, g: Ledger, root: nat, first: nat, end: nat) returns (g': Ledger)
    requires Inv(m, g) && Root(root) in g.at && end <= USER_PAGES && MapPages(m, root, first, end, 2).1
    ensures Inv(MapPages(m, root, first, end, 2).0, g') && Root(root) in g'.at
    ensures forall p: nat :: first <= p < end ==> Leaf(root, p) !in g.at && Leaf(root, p) in g'.at
    ensures forall p: nat :: p < USER_PAGES && Leaf(root, p) in g.at ==> Leaf(root, p) in g'.at
  {
    hide MapPages, Inv, View, Leaf, FlagsOf, LeafFlags, UserFlags, Confined;
    g' := MapPagesKeeps(m, g, root, first, end, 2);
    var m' := MapPages(m, root, first, end, 2).0;
    forall p: nat | p < USER_PAGES
      ensures first <= p < end ==> Leaf(root, p) !in g.at && Leaf(root, p) in g'.at
      ensures Leaf(root, p) in g.at ==> Leaf(root, p) in g'.at
    {
      assert MapsAt(m, g, m', g', root, first, end, true, p, 2);
      LeafDepth(root, p);
      ViewMapped(m, g, Leaf(root, p));
      ViewMapped(m', g', Leaf(root, p));
    }
  }

  lemma LeafDepth(root: nat, page: nat)
    ensures Depth(Leaf(root, page)) == 4
  {
  }

  lemma SegmentLoaded(m: Mem, g: Ledger, root: nat, file: File, s: Segment) returns (g': Ledger)
    requires Inv(m, g) && Root(root) in g.at && LoadSegment(m, root, file, s).1
    requires s.kind == 1 && Accepted(file, s) ==> SegmentFits(file, s)
    ensures Inv(LoadSegment(m, root, file, s).0, g') && Root(root) in g'.at && (s.kind == 1 ==> SegmentFits(file, s))
    ensures forall p: nat :: Covers(s, p) ==> Leaf(root, p) !in g.at && Leaf(root, p) in g'.at
    ensures forall p: nat :: p < USER_PAGES && Leaf(root, p) in g.at ==> Leaf(root, p) in g'.at
  {
    hide MapPages, WriteProcess, FileBytes, Inv, Leaf, Confined;
    g' := g;
    if s.kind == 1 {
      FittingEnds(file, s);
      var first, end := s.vaddr / 4096, EndPage(s.vaddr, s.memsz);
      g' := RangeWasVacant(m, g, root, first, end);
      WriteProcessConfined(MapPages(m, root, first, end, 2).0, g', root, s.vaddr, FileBytes(file, s.offset, s.filesz));
    }
  }

  /** The pages of the segments from i on are mapped. */
  ghost predicate Occupied(g: Ledger, root: nat, file: File, i: nat)
    requires ValidElf(file)
  {
    forall k: nat, p: nat {:trigger Covers(SegmentAt(file, k), p)} ::
      i <= k < PhNum(file) && Covers(SegmentAt(file, k), p) ==> Leaf(root, p) in g.at
  }

  lemma {:induction false} SegmentsLoaded(m: Mem, g: Ledger, root: nat, file: File, i: nat) returns (g': Ledger)
    requires Inv(m, g) && Root(root) in g.at && ValidElf(file) && NoWrap(file) && i <= PhNum(file) && LoadSegments(m, root, file, i).1
    ensures Inv(LoadSegments(m, root, file, i).0, g') && Root(root) in g'.at
    ensures Loadable(file, i) && Vacant(g, root, file, i) && Occupied(g', root, file, i)
    ensures forall p: nat :: p < USER_PAGES && Leaf(root, p) in g.at ==> Leaf(root, p) in g'.at
    decreases PhNum(file) - i
  {
    hide LoadSegment, SegmentAt, SegmentFits, Inv, Leaf, Covers, Field, NoWrap;
    g' := g;
    if i < PhNum(file) {
      var s := SegmentAt(file, i);
      var m1 := LoadSegment(m, root, file, s).0;
      UnwrappedFits(file, i);
      var g1 := SegmentLoaded(m, g, root, file, s);
      g' := SegmentsLoaded(m1, g1, root, file, i + 1);
      CoversUser(file, i + 1);
      SegmentCovers(file, s);
    }
  }

  lemma SegmentCovers(file: File, s: Segment)
    requires s.kind == 1 ==> SegmentFits(file, s)
    ensures forall p: nat :: Covers(s, p) ==> p < USER_PAGES
  {
  }

  // ----- load_program -----

  const STACK_FRAMES: nat := 64   // four for each of its sixteen pages

  /** With frames for its pages and its stack, a program loads if and only if it is an executable file with a
      valid header whose segments lie in the file, in the user half, off the stack and on pages of their own. */
  lemma AdmitsExactly(m: Mem, g: Ledger, req: Request)
    requires Inv(m, g) && Copied31(req.argv) && Copied31(req.envp)
    requires req.file.Some? ==> NoWrap(req.file.value)
    requires req.file.Some? && ValidElf(req.file.value) ==> m.count >= 1 + 4 * TotalPages(req.file.value, 0) + STACK_FRAMES
    ensures LoadProgram(m, req).1.Some? <==>
            && req.file.Some? && req.file.value.executable && !req.file.value.directory
            && ValidElf(req.file.value) && Loadable(req.file.value, 0) && OffStack(req.file.value)
  {
    hide CreateRoot, LoadSegments, BuildStack, Field, Loadable, OffStack, NoWrap, Inv, TotalPages;
    if req.file.Some? && req.file.value.executable && !req.file.value.directory && ValidElf(req.file.value) {
      var file := req.file.value;
      if LoadProgram(m, req).1.Some? {
        LoadsOnly(m, g, req);
      }
      if Loadable(file, 0) && OffStack(file) {
        LoadsAll(m, g, req);
      }
    }
  }

  lemma LoadsOnly(m: Mem, g: Ledger, req: Request)
    requires Inv(m, g) && Copied31(req.argv) && Copied31(req.envp) && LoadProgram(m, req).1.Some?
    requires req.file.Some? && ValidElf(req.file.value) && NoWrap(req.file.value)
    ensures Loadable(req.file.value, 0) && OffStack(req.file.value)
  {
    hide CreateRoot, LoadSegments, BuildStack, Field, Loadable, NoWrap, Inv, SegmentAt, Covers, Leaf, Kept, MapRange;
    var file := req.file.value;
    var (m1, root) := CreateRoot(m);
    var g1 := CreateKeeps(m, g);
    var m2 := LoadSegments(m1, root, file, 0).0;
    var g2 := SegmentsLoaded(m1, g1, root, file, 0);
    assert BuildStack(m2, root, req.argv, req.envp).1.Some?;
    BuildStackRoundTrip(m2, g2, root, req.argv, req.envp);
    StackVacant(m2, g2, root);
  }

  lemma StackVacant(m: Mem, g: Ledger, root: nat)
    requires Inv(m, g) && Root(root) in g.at && MapRange(m, root, STACK_BASE, STACK_PAGES * 4096, 2).1
    ensures forall p: nat :: OnStack(p) ==> Leaf(root, p) !in g.at
  {
    hide MapPages, Inv, Leaf;
    var _ := RangeWasVacant(m, g, root, STACK_BASE / 4096, EndPage(STACK_BASE, STACK_PAGES * 4096));
  }

  lemma StackSucceeds(m: Mem, g: Ledger, root: nat)
    requires Inv(m, g) && Root(root) in g.at && |g.stack| >= STACK_FRAMES && forall p: nat :: OnStack(p) ==> Leaf(root, p) !in g.at
    ensures MapRange(m, root, STACK_BASE, STACK_PAGES * 4096, 2).1
  {
    hide MapPages, Inv, Leaf;
    var _ := PagesSucceed(m, g, root, STACK_BASE / 4096, EndPage(STACK_BASE, STACK_PAGES * 4096), 2);
  }

  lemma LoadsAll(m: Mem, g: Ledger, req: Request)
    requires Inv(m, g) && Copied31(req.argv) && Copied31(req.envp)
    requires req.file.Some? && ValidElf(req.file.value) && req.file.value.executable && NoWrap(req.file.value)
    requires m.count >= 1 + 4 * TotalPages(req.file.value, 0) + STACK_FRAMES && Loadable(req.file.value, 0) && OffStack(req.file.value)
    ensures LoadProgram(m, req).1.Some?
  {
    hide CreateRoot, LoadSegments, BuildStack, Field, Loadable, Inv, SegmentAt, Covers, Leaf, TotalPages, Vacant;
    var file := req.file.value;
    var (m1, root) := CreateRoot(m);
    StackCount(m, g);
    var g1 := CreateKeeps(m, g);
    Counted(m, g);
    Counted(m1, g1);
    LooseSame(m, g, m1, g1);
    assert g1.at.Keys == g.at.Keys + {Root(root)};
    OnlyTheRoot(g, g1, root, file);
    var m2 := LoadSegments(m1, root, file, 0).0;
    var g2 := SegmentsSucceed(m1, g1, root, file, 0);
    forall p: nat | OnStack(p) ensures Leaf(root, p) !in g2.at {
      assert forall k: nat :: 0 <= k < PhNum(file) ==> !Covers(SegmentAt(file, k), p);
    }
    StackSucceeds(m2, g2, root);
    BuildStackRoundTrip(m2, g2, root, req.argv, req.envp);
  }

  lemma OnlyTheRoot(g: Ledger, g1: Ledger, root: nat, file: File)
    requires g1.at == g.at[Root(root) := root] && ValidElf(file) && forall x <- g.at :: SpaceOf(x) != root
    ensures Vacant(g1, root, file, 0) && forall p: nat :: Leaf(root, p) !in g1.at
  {
    forall p: nat ensures Leaf(root, p) !in g1.at {
      LeafSpace(root, p);
    }
  }

  lemma LeafSpace(root: nat, page: nat)
    ensures SpaceOf(Leaf(root, page)) == root && Leaf(root, page) != Root(root)
  {
  }
}
