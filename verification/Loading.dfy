/**
 Program loading is faithful and all-or-nothing.
 */
module Loading {
  import opened Wrappers
  import opened Paging
  import opened Ownership
  import opened PageTables
  import opened AddressSpaces
  import opened VirtualMemory
  import opened Programs

  /** A byte seen through a space is a byte of the page shown there. */
  lemma LoadIsView(m: Mem, g: Ledger, root: nat, va: nat)
    requires Inv(m, g) && Root(root) in g.at && va < USER_TOP
    ensures Load(m, root, va) ==
            match View(m, g, Leaf(root, va / 4096))
            case None => None
            case Some(c) => Some(PageByte(c.bytes, va % 4096))
  {
    hide Index, Lookup;
    TranslateAgrees(m, g, root, va);
    ViewNone(m, g, Leaf(root, va / 4096));
  }

  /** What user code reads there: the byte, if the page lets it. */
  lemma UserLoadIsView(m: Mem, g: Ledger, root: nat, va: nat)
    requires Inv(m, g) && Root(root) in g.at && va < USER_TOP
    ensures UserLoad(m, root, va) ==
            match View(m, g, Leaf(root, va / 4096))
            case None => None
            case Some(c) => if Allows(c.entry, false) then Some(PageByte(c.bytes, va % 4096)) else None
    ensures Usable(m, root, va) <==>
            View(m, g, Leaf(root, va / 4096)).Some? && Allows(View(m, g, Leaf(root, va / 4096)).value.entry, true)
  {
    hide Lookup, Reaches, Allows, View, Leaf, Load;
    LoadIsView(m, g, root, va);
    LookupAgrees(m, g, root, va / 4096);
    ReachesByLeaf(m, g, root, va / 4096, false);
    ReachesByLeaf(m, g, root, va / 4096, true);
  }

  /** A page with flags 7 is open to user code. */
  lemma SevenAllows(e: Word, write: bool)
    requires FlagsOf(e) == 7
    ensures Allows(e, write)
  {
    assert e % 8 == e % 4096 % 8;
    OpenEntry(e, write);
  }

  // ----- mapping ranges -----

  ghost predicate Appears(m: Mem, g: Ledger, m': Mem, g': Ledger, leaf: Node, flags: nat) {
    && View(m, g, leaf).None?
    && View(m', g', leaf).Some? && View(m', g', leaf).value.bytes == ZeroPage()
    && FlagsOf(View(m', g', leaf).value.entry) == LeafFlags(UserFlags(flags))
  }

  /** In space `root`, pages from `page` to `end` may appear; nothing shown before changes. */
  ghost predicate MapsAt(m: Mem, g: Ledger, m': Mem, g': Ledger, root: nat, page: nat, end: nat, all: bool, p: nat, flags: nat) {
    var leaf := Leaf(root, p);
    if page <= p < end && all then Appears(m, g, m', g', leaf, flags)
    else View(m', g', leaf) == View(m, g, leaf) || (page <= p < end && Appears(m, g, m', g', leaf, flags))
  }

  ghost predicate Maps(m: Mem, g: Ledger, m': Mem, g': Ledger, root: nat, page: nat, end: nat, all: bool, flags: nat) {
    forall p {:trigger MapsAt(m, g, m', g', root, page, end, all, p, flags)} :: 0 <= p < USER_PAGES ==>
      MapsAt(m, g, m', g', root, page, end, all, p, flags)
  }

  /** map_user_page adds the user bit and no other; a writable page is present, writable and user. */
  lemma UserFlagsBits(flags: nat)
    requires flags < 4096
    ensures UserFlags(flags) < 4096 && LeafFlags(UserFlags(flags)) < 4096
    ensures UserFlags(flags) / 4 % 2 == 1 && UserFlags(flags) % 4 == flags % 4 && UserFlags(flags) / 8 == flags / 8
    ensures LeafFlags(UserFlags(2)) == 7
  {
  }

  lemma MapUserPageKeeps(m: Mem, g: Ledger, root: nat, page: nat, flags: nat) returns (g': Ledger)
    requires Inv(m, g) && Root(root) in g.at && page < USER_PAGES && flags < 4096
    ensures var (m', ok) := MapUserPage(m, root, page, flags);
            && Inv(m', g') && Confined(m, g, m', g', root) && Root(root) in g'.at
            && Maps(m, g, m', g', root, page, page + 1, ok, flags)
  {
    UserFlagsBits(flags);
    hide MapFresh, LeafFlags, Entry, UserFlags, Inv, View, AddsOnPath, OutOfFrames, Maps;
    g' := FreshKeeps(m, g, root, page, ZeroPage(), UserFlags(flags));
    var (m', ok) := MapFresh(m, root, page, ZeroPage(), UserFlags(flags));
    OnePageMaps(m, g, m', g', root, page, ok, flags);
  }

  lemma OnePageMaps(m: Mem, g: Ledger, m': Mem, g': Ledger, root: nat, page: nat, ok: bool, flags: nat)
    requires page < USER_PAGES && flags < 4096
    requires ViewsKept(m, g, m', g', if ok then {Leaf(root, page)} else {})
    requires ok ==> && View(m, g, Leaf(root, page)).None?
                    && exists f: nat :: f < FRAME_LIMIT &&
                         View(m', g', Leaf(root, page)) == Some(Cell(Entry(f, LeafFlags(UserFlags(flags))), ZeroPage()))
    ensures Maps(m, g, m', g', root, page, page + 1, ok, flags)
  {
    UserFlagsBits(flags);
    hide LeafFlags, Entry, UserFlags, FlagsOf, View, Index;
    if ok {
      var f: nat :| f < FRAME_LIMIT && View(m', g', Leaf(root, page)) == Some(Cell(Entry(f, LeafFlags(UserFlags(flags))), ZeroPage()));
      EntryParts(f, LeafFlags(UserFlags(flags)));
    }
    var end := page + 1;
    forall p | 0 <= p < USER_PAGES ensures MapsAt(m, g, m', g', root, page, end, ok, p, flags) {
      if p != page {
        LeafInjective(root, page, p);
      }
    }
  }

  lemma {:induction false} MapPagesKeeps(m: Mem, g: Ledger, root: nat, page: nat, end: nat, flags: nat) returns (g': Ledger)
    requires Inv(m, g) && Root(root) in g.at && end <= USER_PAGES && flags < 4096
    ensures var (m', ok) := MapPages(m, root, page, end, flags);
            && Inv(m', g') && Confined(m, g, m', g', root) && Root(root) in g'.at
            && Maps(m, g, m', g', root, page, end, ok, flags)
    decreases end - page
  {
    hide MapUserPage, View, MapsAt;
    var (m', ok) := MapPages(m, root, page, end, flags);
    if page >= end {
      g' := g;
      MapsNothing(m, g, root, page, end, flags);
    } else {
      var (m1, ok1) := MapUserPage(m, root, page, flags);
      var g1 := MapUserPageKeeps(m, g, root, page, flags);
      g' := g1;
      if ok1 {
        g' := MapPagesKeeps(m1, g1, root, page + 1, end, flags);
        ConfinedTrans(m, g, m1, g1, m', g', root);
        MapsTrans(m, g, m1, g1, m', g', root, page, end, ok, flags);
      } else {
        MapsWider(m, g, m1, g1, root, page, end, flags);
      }
    }
  }

  lemma MapsNothing(m: Mem, g: Ledger, root: nat, page: nat, end: nat, flags: nat)
    requires page >= end
    ensures Maps(m, g, m, g, root, page, end, true, flags)
  {
  }

  lemma MapsWider(m: Mem, g: Ledger, m': Mem, g': Ledger, root: nat, page: nat, end: nat, flags: nat)
    requires page < end && Maps(m, g, m', g', root, page, page + 1, false, flags)
    ensures Maps(m, g, m', g', root, page, end, false, flags)
  {
    forall p | 0 <= p < USER_PAGES ensures MapsAt(m, g, m', g', root, page, end, false, p, flags) {
      assert MapsAt(m, g, m', g', root, page, page + 1, false, p, flags);
    }
  }

  lemma MapsTrans(m0: Mem, g0: Ledger, m1: Mem, g1: Ledger, m2: Mem, g2: Ledger, root: nat, page: nat, end: nat, all: bool, flags: nat)
    requires page < end
    requires Maps(m0, g0, m1, g1, root, page, page + 1, true, flags) && Maps(m1, g1, m2, g2, root, page + 1, end, all, flags)
    ensures Maps(m0, g0, m2, g2, root, page, end, all, flags)
  {
    hide View;
    forall p | 0 <= p < USER_PAGES ensures MapsAt(m0, g0, m2, g2, root, page, end, all, p, flags) {
      assert MapsAt(m0, g0, m1, g1, root, page, page + 1, true, p, flags);
      assert MapsAt(m1, g1, m2, g2, root, page + 1, end, all, p, flags);
    }
  }

  // ----- everything the loader does stays inside its space -----

  lemma LoadSegmentKeeps(m: Mem, g: Ledger, root: nat, file: File, s: Segment) returns (g': Ledger)
    requires Inv(m, g) && Root(root) in g.at && Contained(file, s)
    ensures var m' := LoadSegment(m, root, file, s).0;
            Inv(m', g') && Confined(m, g, m', g', root) && Root(root) in g'.at
  {
    hide MapPages, WriteProcess, View, FileBytes;
    g' := g;
    if s.kind == 1 && Accepted(file, s) {
      g' := MapPagesKeeps(m, g, root, s.vaddr / 4096, EndPage(s.vaddr, s.memsz), 2);
      var (m1, ok) := MapRange(m, root, s.vaddr, s.memsz, 2);
      if ok {
        var bytes := FileBytes(file, s.offset, s.filesz);
        WriteProcessConfined(m1, g', root, s.vaddr, bytes);
        ConfinedTrans(m, g, m1, g', WriteProcess(m1, root, s.vaddr, bytes).0, g', root);
      }
    }
  }

  lemma {:induction false} LoadSegmentsKeeps(m: Mem, g: Ledger, root: nat, file: File, i: nat) returns (g': Ledger)
    requires Inv(m, g) && Root(root) in g.at && ValidElf(file) && i <= PhNum(file) && UserOnly(file)
    ensures var m' := LoadSegments(m, root, file, i).0;
            Inv(m', g') && Confined(m, g, m', g', root) && Root(root) in g'.at
    decreases PhNum(file) - i
  {
    hide LoadSegment, View, SegmentAt, Contained;
    g' := g;
    if i < PhNum(file) {
      var (m1, ok) := LoadSegment(m, root, file, SegmentAt(file, i));
      g' := LoadSegmentKeeps(m, g, root, file, SegmentAt(file, i));
      if ok {
        var g1 := g';
        g' := LoadSegmentsKeeps(m1, g1, root, file, i + 1);
        ConfinedTrans(m, g, m1, g1, LoadSegments(m, root, file, i).0, g', root);
      }
    }
  }

  lemma PushBytesKeeps(m: Mem, g: Ledger, root: nat, sp: nat, bytes: seq<Byte>)
    requires Inv(m, g) && Root(root) in g.at
    ensures Inv(PushBytes(m, root, sp, bytes).0, g)
    ensures Confined(m, g, PushBytes(m, root, sp, bytes).0, g, root)
  {
    hide Translate, View;
    if |bytes| <= sp && UserRange(sp - |bytes|, |bytes|) && bytes != [] {
      WriteProcessConfined(m, g, root, sp - |bytes|, bytes);
    }
  }

  lemma {:induction false} PushWordsKeeps(m: Mem, g: Ledger, root: nat, sp: nat, words: seq<Word>)
    requires Inv(m, g) && Root(root) in g.at
    ensures Inv(PushWords(m, root, sp, words).0, g)
    ensures Confined(m, g, PushWords(m, root, sp, words).0, g, root)
    decreases |words|
  {
    hide PushBytes, View;
    if words != [] {
      var n := |words| - 1;
      var (m1, sp1) := PushBytes(m, root, sp, WordBytesOf(words[n]));
      PushBytesKeeps(m, g, root, sp, WordBytesOf(words[n]));
      if sp1.Some? {
        PushWordsKeeps(m1, g, root, sp1.value, words[..n]);
        ConfinedTrans(m, g, m1, g, PushWords(m, root, sp, words).0, g, root);
      }
    }
  }

  lemma {:induction false} PushStringsKeeps(m: Mem, g: Ledger, root: nat, sp: nat, strings: seq<seq<Byte>>)
    requires Inv(m, g) && Root(root) in g.at
    ensures Inv(PushStrings(m, root, sp, strings).mem, g)
    ensures Confined(m, g, PushStrings(m, root, sp, strings).mem, g, root)
    decreases |strings|
  {
    hide PushBytes, View;
    if strings != [] {
      var n := |strings| - 1;
      var (m1, sp1) := PushBytes(m, root, sp, strings[n] + [0]);
      PushBytesKeeps(m, g, root, sp, strings[n] + [0]);
      if sp1.Some? {
        PushStringsKeeps(m1, g, root, sp1.value, strings[..n]);
        ConfinedTrans(m, g, m1, g, PushStrings(m, root, sp, strings).mem, g, root);
      }
    }
  }

  lemma FillStackKeeps(m: Mem, g: Ledger, root: nat, argv: seq<seq<Byte>>, envp: seq<seq<Byte>>)
    requires Inv(m, g) && Root(root) in g.at
    ensures Inv(FillStack(m, root, argv, envp).0, g)
    ensures Confined(m, g, FillStack(m, root, argv, envp).0, g, root)
  {
    hide PushStrings, PushWords, View, StackVector;
    var env := PushStrings(m, root, STACK_TOP, envp);
    PushStringsKeeps(m, g, root, STACK_TOP, envp);
    if env.sp.Some? {
      var arg := PushStrings(env.mem, root, env.sp.value, argv);
      PushStringsKeeps(env.mem, g, root, env.sp.value, argv);
      ConfinedTrans(m, g, env.mem, g, arg.mem, g, root);
      if arg.sp.Some? {
        var words := StackVector(|argv|, arg.addresses, env.addresses);
        PushWordsKeeps(arg.mem, g, root, AlignStack(arg.sp.value), words);
        ConfinedTrans(m, g, arg.mem, g, PushWords(arg.mem, root, AlignStack(arg.sp.value), words).0, g, root);
      }
    }
  }

  lemma BuildStackKeeps(m: Mem, g: Ledger, root: nat, argv: seq<seq<Byte>>, envp: seq<seq<Byte>>) returns (g': Ledger)
    requires Inv(m, g) && Root(root) in g.at
    ensures var m' := BuildStack(m, root, argv, envp).0;
            Inv(m', g') && Confined(m, g, m', g', root) && Root(root) in g'.at
  {
    hide MapPages, FillStack, View;
    g' := MapPagesKeeps(m, g, root, STACK_BASE / 4096, (STACK_BASE + STACK_PAGES * 4096 + 4095) / 4096, 2);
    var (m1, ok) := MapRange(m, root, STACK_BASE, STACK_PAGES * 4096, 2);
    if ok {
      FillStackKeeps(m1, g', root, argv, envp);
      ConfinedTrans(m, g, m1, g', FillStack(m1, root, argv, envp).0, g', root);
    }
  }

  // ----- load_program -----

  /** Every place and every view is as before. */
  ghost predicate Unchanged(m: Mem, g: Ledger, m': Mem, g': Ledger) {
    && SameFrames(m, g, m', g') && LooseKept(m, g, m', g', {})
    && g'.at == g.at && ViewsKept(m, g, m', g', {})
  }

  ghost predicate NoSuchSpace(g: Ledger, root: nat) {
    forall x <- g.at :: SpaceOf(x) != root
  }

  /** A failed load gives every frame back; a successful one adds one new space. */
  lemma LoadProgramKeeps(m: Mem, g: Ledger, req: Request) returns (g': Ledger)
    requires Inv(m, g) && Harmless(req)
    ensures var (m', r) := LoadProgram(m, req);
            && Inv(m', g')
            && (r.None? ==> Unchanged(m, g, m', g'))
            && (r.Some? ==> && r.value.cr3 != 0 && NoSuchSpace(g, r.value.cr3)
                            && Root(r.value.cr3) in g'.at && Confined(m, g, m', g', r.value.cr3))
  {
    hide CreateRoot, LoadElf, BuildStack, View, DestroyUserSpace, Field, UserOnly;
    g' := g;
    if req.file.Some? && req.file.value.executable && !req.file.value.directory {
      var (m1, root) := CreateRoot(m);
      g' := CreateKeeps(m, g);
      if root != 0 {
        var g1 := g';
        CreateConfined(m, g, m1, g1, root);
        var (m2, ok) := LoadElf(m1, root, req.file.value);
        var g2 := LoadElfKeeps(m1, g1, root, req.file.value);
        ConfinedTrans(m, g, m1, g1, m2, g2, root);
        if !ok {
          g' := Discard(m, g, m2, g2, root);
        } else {
          var (m3, sp) := BuildStack(m2, root, req.argv, req.envp);
          g' := BuildStackKeeps(m2, g2, root, req.argv, req.envp);
          ConfinedTrans(m, g, m2, g2, m3, g', root);
          if sp.None? {
            g' := Discard(m, g, m3, g', root);
          }
        }
      }
    }
  }

  lemma LoadElfKeeps(m: Mem, g: Ledger, root: nat, file: File) returns (g': Ledger)
    requires Inv(m, g) && Root(root) in g.at && UserOnly(file)
    ensures var m' := LoadElf(m, root, file).0;
            Inv(m', g') && Confined(m, g, m', g', root) && Root(root) in g'.at
  {
    g' := g;
    if ValidElf(file) {
      g' := LoadSegmentsKeeps(m, g, root, file, 0);
    }
  }

  lemma CreateConfined(m: Mem, g: Ledger, m': Mem, g': Ledger, root: nat)
    requires g'.at == g.at[Root(root) := root] && Kept(m, g, m', g', root)
    ensures Confined(m, g, m', g', root)
  {
  }

  /** Destroying a space that was created since restores what was there before. */
  lemma Discard(m0: Mem, g0: Ledger, m: Mem, g: Ledger, root: nat) returns (g': Ledger)
    requires Inv(m, g) && Root(root) in g.at && Confined(m0, g0, m, g, root) && NoSuchSpace(g0, root)
    ensures Inv(DestroyUserSpace(m, root), g') && Unchanged(m0, g0, DestroyUserSpace(m, root), g')
  {
    hide DestroyUserSpace, View;
    g' := DestroyKeeps(m, g, root);
    var m' := DestroyUserSpace(m, root);
    forall leaf: Node | Depth(leaf) == 4 ensures View(m', g', leaf) == View(m0, g0, leaf) {
      if SpaceOf(leaf) != root {
        DestroyViews(m, g, m', g', root, leaf);
      } else {
        NoView(m', g', leaf);
        NoView(m0, g0, leaf);
      }
    }
    assert g'.at == g0.at;
  }

  lemma NoView(m: Mem, g: Ledger, leaf: Node)
    requires leaf !in g.at
    ensures View(m, g, leaf) == None
  {
  }
}
