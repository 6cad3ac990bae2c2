/**
 What mapping and walking do to address spaces: the radix tree refines a flat map from
 page numbers to leaf entries.
 */
module PageTables {
  import opened Wrappers
  import opened Paging
  import opened Ownership

  /** What an address space shows at one page: its leaf entry and the page's contents. */
  datatype Cell = Cell(entry: Word, bytes: Page)

  ghost function View(m: Mem, g: Ledger, leaf: Node): Option<Cell> {
    if leaf in g.at && leaf.Step? && leaf.up in g.at && leaf.index < 512
    then Some(Cell(Get(m, g.at[leaf.up])[leaf.index], Get(m, g.at[leaf])))
    else None
  }

  /** The usable frames are the same, and all other memory is untouched: the boot PML4 and the tables under
      it, the kernel's image, the modules. */
  ghost predicate SameFrames(m: Mem, g: Ledger, m': Mem, g': Ledger) {
    && m'.hhdm == m.hhdm && m'.kernel == m.kernel && g'.owner.Keys == g.owner.Keys
    && Untouched(m, m', g.owner.Keys)
  }

  ghost predicate Untouched(m: Mem, m': Mem, usable: set<nat>) {
    forall f: nat {:trigger Get(m', f)} :: f !in usable ==> Get(m', f) == Get(m, f)
  }

  lemma UntouchedTrans(m0: Mem, m1: Mem, m2: Mem, usable: set<nat>)
    requires Untouched(m0, m1, usable) && Untouched(m1, m2, usable)
    ensures Untouched(m0, m2, usable)
  {
  }

  /** Places are only added, and only in the space rooted at `root`. */
  ghost predicate Grows(g: Ledger, g': Ledger, root: nat) {
    && (forall n <- g.at :: n in g'.at && g'.at[n] == g.at[n])
    && (forall n <- g'.at :: n in g.at || SpaceOf(n) == root)
  }

  ghost predicate ViewsKept(m: Mem, g: Ledger, m': Mem, g': Ledger, except: set<Node>) {
    forall leaf: Node :: Depth(leaf) == 4 && leaf !in except ==> View(m', g', leaf) == View(m, g, leaf)
  }

  ghost predicate LooseKept(m: Mem, g: Ledger, m': Mem, g': Ledger, except: set<nat>) {
    forall f <- g.owner :: f !in except && f in g'.owner ==>
      (g.owner[f].Loose? <==> g'.owner[f].Loose?) && (g.owner[f].Loose? ==> Get(m', f) == Get(m, f))
  }

  /** New tables may appear under `root`, and nothing else changes. */
  ghost predicate Kept(m: Mem, g: Ledger, m': Mem, g': Ledger, root: nat) {
    && SameFrames(m, g, m', g') && Grows(g, g', root)
    && ViewsKept(m, g, m', g', {}) && LooseKept(m, g, m', g', {})
  }

  lemma ViewFrame(m: Mem, g: Ledger, m': Mem, g': Ledger, except: set<Node>)
    requires TreeOk(m, g) && TreeOk(m', g')
    requires forall n <- g.at :: Depth(n) == 4 && n !in except ==>
               && n in g'.at && g'.at[n] == g.at[n] && Get(m', g.at[n]) == Get(m, g.at[n])
               && n.up in g.at && n.up in g'.at && g'.at[n.up] == g.at[n.up] && n.index < 512
               && Get(m', g.at[n.up])[n.index] == Get(m, g.at[n.up])[n.index]
    requires forall n <- g'.at :: Depth(n) == 4 && n !in except ==> n in g.at
    ensures ViewsKept(m, g, m', g', except)
  {
  }

  // ----- the walk agrees with the ledger -----

  lemma WalkStep(m: Mem, g: Ledger, n: Node, i: nat)
    requires Inv(m, g) && n in g.at && Depth(n) < 4 && i < Fanout(Depth(n))
    ensures n.Child(i) in g.at <==> Present(Get(m, g.at[n])[i])
    ensures n.Child(i) in g.at ==> FrameOf(Get(m, g.at[n])[i]) == g.at[n.Child(i)]
    ensures n.Child(i) in g.at && Depth(n) < 3 ==> Get(m, g.at[n])[i] % 8 == 7
  {
    assert NodeOk(m, g, n) && SlotOk(m, g, n, i);
  }

  lemma UserIndex(page: nat)
    requires page < USER_PAGES
    ensures Index(page, 0) < 256
  {
  }

  lemma Ancestors(m: Mem, g: Ledger, root: nat, page: nat)
    requires TreeOk(m, g) && Leaf(root, page) in g.at
    ensures forall level :: 0 <= level < 4 ==> TableAt(root, page, level) in g.at
  {
    var n1, n2, n3 := TableAt(root, page, 1), TableAt(root, page, 2), TableAt(root, page, 3);
    assert NodeOk(m, g, Leaf(root, page)) && NodeOk(m, g, n3) && NodeOk(m, g, n2) && NodeOk(m, g, n1);
  }

  /** Lookup finds exactly the leaves of the ledger. */
  lemma LookupAgrees(m: Mem, g: Ledger, root: nat, page: nat)
    requires Inv(m, g) && Root(root) in g.at && page < USER_PAGES
    ensures Lookup(m, root, page).Some? <==> Leaf(root, page) in g.at
    ensures Lookup(m, root, page) ==
            match View(m, g, Leaf(root, page)) case None => None case Some(c) => Some(c.entry)
    ensures Leaf(root, page) in g.at ==> FrameOf(Lookup(m, root, page).value) == g.at[Leaf(root, page)]
  {
    UserIndex(page);
    var n0, n1, n2, n3 := TableAt(root, page, 0), TableAt(root, page, 1), TableAt(root, page, 2), TableAt(root, page, 3);
    assert NodeOk(m, g, n0);
    if Leaf(root, page) in g.at {
      Ancestors(m, g, root, page);
    }
    WalkStep(m, g, n0, Index(page, 0));
    if n1 in g.at {
      WalkStep(m, g, n1, Index(page, 1));
      if n2 in g.at {
        WalkStep(m, g, n2, Index(page, 2));
        if n3 in g.at {
          WalkStep(m, g, n3, Index(page, 3));
        }
      }
    }
  }

  // ----- user mode -----

  /** The four indices are bits 39 to 47, 30 to 38, 21 to 29 and 12 to 20 of the address. */
  lemma IndicesAreBits(va: nat)
    ensures Index(va / 4096, 0) == va / 0x80_0000_0000 % 512 && Index(va / 4096, 1) == va / 0x4000_0000 % 512
    ensures Index(va / 4096, 2) == va / 0x20_0000 % 512 && Index(va / 4096, 3) == va / 0x1000 % 512
  {
    Nested(va, 0x800_0000);
    Nested(va, 0x4_0000);
    Nested(va, 512);
  }

  lemma Nested(va: nat, d: nat)
    requires d > 0
    ensures va / 4096 / d == va / (4096 * d)
  {
    var q, r := va / 4096, va % 4096;
    var a, b := q / d, q % d;
    assert d * a + b == q;
    assert va == 4096 * d * a + (4096 * b + r) && 0 <= 4096 * b + r < 4096 * d;
    QuotientIs(va, 4096 * d, a, 4096 * b + r);
  }

  /** The entry lets user code through: present, user, and writable if it wants to write. */
  predicate Allows(entry: Word, write: bool) {
    entry % 2 == 1 && entry / 4 % 2 == 1 && (write ==> entry / 2 % 2 == 1)
  }

  /** User code may read, or write, this page: every entry of its walk lets it through (section 4.6 of Intel
      SDM Vol. 3A). */
  predicate Reaches(m: Mem, root: nat, page: nat, write: bool) {
    var e0 := Get(m, root)[Index(page, 0)];
    Allows(e0, write) &&
    var e1 := Get(m, FrameOf(e0))[Index(page, 1)];
    Allows(e1, write) &&
    var e2 := Get(m, FrameOf(e1))[Index(page, 2)];
    Allows(e2, write) && Allows(Get(m, FrameOf(e2))[Index(page, 3)], write)
  }

  lemma OpenEntry(e: Word, write: bool)
    ensures e % 8 == 7 ==> Allows(e, write)
    ensures Allows(e, write) ==> Present(e)
  {
    if e % 8 == 7 {
      var q := e / 8;
      QuotientIs(e, 2, 4 * q + 3, 1);
      QuotientIs(e, 4, 2 * q + 1, 3);
      EvenPart(4 * q + 3, 1);
      EvenPart(2 * q + 1, 1);
      EvenPart(q, 1);
    }
  }

  /** In a user space only the last entry decides. */
  lemma ReachesByLeaf(m: Mem, g: Ledger, root: nat, page: nat, write: bool)
    requires Inv(m, g) && Root(root) in g.at && page < USER_PAGES
    ensures Reaches(m, root, page, write) <==> Lookup(m, root, page).Some? && Allows(Lookup(m, root, page).value, write)
  {
    hide Allows, FrameOf;
    UserIndex(page);
    var n0, n1, n2, n3 := TableAt(root, page, 0), TableAt(root, page, 1), TableAt(root, page, 2), TableAt(root, page, 3);
    assert NodeOk(m, g, n0);
    WalkStep(m, g, n0, Index(page, 0));
    OpenEntry(Get(m, g.at[n0])[Index(page, 0)], write);
    if n1 in g.at {
      WalkStep(m, g, n1, Index(page, 1));
      OpenEntry(Get(m, g.at[n1])[Index(page, 1)], write);
      if n2 in g.at {
        WalkStep(m, g, n2, Index(page, 2));
        OpenEntry(Get(m, g.at[n2])[Index(page, 2)], write);
        if n3 in g.at {
          OpenEntry(Get(m, g.at[n3])[Index(page, 3)], write);
        }
      }
    }
  }

  // ----- ensure_next_table -----

  lemma EnsureKeeps(m: Mem, g: Ledger, n: Node, i: nat, flags: nat) returns (g': Ledger)
    requires Inv(m, g) && n in g.at && Depth(n) < 3 && i < Fanout(Depth(n)) && flags < 4096
    ensures var (m', t) := EnsureNext(m, g.at[n], i, flags);
            && Inv(m', g') && Kept(m, g, m', g', SpaceOf(n))
            && (if t.Some? then n.Child(i) in g'.at && t.value == g'.at[n.Child(i)]
                else m' == m && g' == g && g.stack == [] && n.Child(i) !in g.at)
            && forall x <- g'.at :: x in g.at || x == n.Child(i)
  {
    hide Entry, FrameOf, VirtToPhys;
    TableFlagsPresent(flags);
    WalkStep(m, g, n, i);
    AllocKeeps(m, g);
    if Present(Get(m, g.at[n])[i]) || g.stack == [] {
      g' := g;
    } else {
      var (m1, f) := AllocFrame(m);
      var g1 := Taken(g);
      LooseIsNoPlace(m1, g1, f);
      AttachKeeps(m1, g1, n, i, f, TableFlags(flags));
      assert OwnsBack(g, f);
      EntryParts(f, TableFlags(flags));
      g' := Attached(g1, n.Child(i), f);
      assert g'.owner.Keys == g.owner.Keys;
      assert NodeOk(m, g, n);
      EnsureViews(m, g, m1, n, i, f, Entry(f, TableFlags(flags)));
      EnsureLoose(m, g, m1, n, i, f, Entry(f, TableFlags(flags)));
    }
  }

  lemma TableFlagsPresent(flags: nat)
    requires flags < 4096
    ensures TableFlags(flags) < 4096 && TableFlags(flags) % 8 == 7
    ensures LeafFlags(flags) < 4096 && LeafFlags(flags) % 2 == 1
  {
  }

  lemma EnsureViews(m: Mem, g: Ledger, m1: Mem, n: Node, i: nat, f: nat, e: Word)
    requires Inv(m, g) && n in g.at && Depth(n) < 3 && i < Fanout(Depth(n)) && n.Child(i) !in g.at
    requires |g.stack| > 0 && f == g.stack[|g.stack| - 1] && f in g.owner && g.owner[f].Free?
    requires forall x: nat :: x != f ==> Get(m1, x) == Get(m, x)
    requires Inv(PutWord(m1, g.at[n], i, e), Attached(Taken(g), n.Child(i), f))
    ensures ViewsKept(m, g, PutWord(m1, g.at[n], i, e), Attached(Taken(g), n.Child(i), f), {})
  {
    hide StackOk, OwnerOk, FrameOf, SlotOk;
    var m', g' := PutWord(m1, g.at[n], i, e), Attached(Taken(g), n.Child(i), f);
    assert NodeOk(m, g, n);
    forall x | x in g.at && Depth(x) == 4
      ensures x in g'.at && g'.at[x] == g.at[x] && Get(m', g.at[x]) == Get(m, g.at[x])
      ensures x.up in g.at && x.up in g'.at && g'.at[x.up] == g.at[x.up] && x.index < 512
      ensures Get(m', g.at[x.up]) == Get(m, g.at[x.up])
    {
      assert NodeOk(m, g, x) && NodeOk(m, g, x.up);
    }
    ViewFrame(m, g, m', g', {});
  }

  lemma EnsureLoose(m: Mem, g: Ledger, m1: Mem, n: Node, i: nat, f: nat, e: Word)
    requires Inv(m, g) && n in g.at && i < 512
    requires |g.stack| > 0 && f == g.stack[|g.stack| - 1] && f in g.owner && g.owner[f].Free?
    requires forall x: nat :: x != f ==> Get(m1, x) == Get(m, x)
    ensures LooseKept(m, g, PutWord(m1, g.at[n], i, e), Attached(Taken(g), n.Child(i), f), {})
  {
    hide StackOk, OwnerOk, FrameOf, SlotOk;
    assert NodeOk(m, g, n);
  }

  // ----- xbks_vmm_map_page -----

  /** The place lies on the walk for this page. */
  ghost predicate OnPath(x: Node, root: nat, page: nat) {
    x == Leaf(root, page) || (Depth(x) < 4 && x == TableAt(root, page, Depth(x)))
  }

  /** Only places on that walk have been added. */
  ghost predicate AddsOnPath(g: Ledger, g': Ledger, root: nat, page: nat) {
    forall x <- g'.at :: x in g.at || OnPath(x, root, page)
  }

  lemma AddsTrans(g0: Ledger, g1: Ledger, g2: Ledger, root: nat, page: nat)
    requires AddsOnPath(g0, g1, root, page) && AddsOnPath(g1, g2, root, page)
    ensures AddsOnPath(g0, g2, root, page)
  {
    hide OnPath;
  }

  lemma AddsOne(g: Ledger, g': Ledger, root: nat, page: nat, level: nat)
    requires level < 4
    requires forall x <- g'.at :: x in g.at || x == TableAt(root, page, level) || x == Leaf(root, page)
    ensures AddsOnPath(g, g', root, page)
  {
    hide Leaf, Index;
  }

  /** Mapping a loose frame adds exactly one leaf; a failed call changes no view.  It fails
      only for a page that is mapped already or for want of frames. */
  lemma MapPageKeeps(m: Mem, g: Ledger, root: nat, page: nat, f: nat, flags: nat) returns (g': Ledger)
    requires Inv(m, g) && Root(root) in g.at && page < USER_PAGES && flags < 4096
    requires f in g.owner && g.owner[f] == Loose
    ensures var (m', ok) := MapPage(m, root, 4096 * page, 4096 * f, flags);
            var leaf := Leaf(root, page);
            && Inv(m', g') && SameFrames(m, g, m', g') && Grows(g, g', root)
            && ViewsKept(m, g, m', g', if ok then {leaf} else {})
            && LooseKept(m, g, m', g', if ok then {f} else {})
            && (ok ==> leaf !in g.at && leaf in g'.at && g'.at[leaf] == f && !g'.owner[f].Loose?
                       && View(m', g', leaf) == Some(Cell(Entry(f, LeafFlags(flags)), Get(m, f))))
            && (!ok ==> leaf in g.at || (g'.stack == [] && TableAt(root, page, 3) !in g'.at && leaf !in g'.at))
            && AddsOnPath(g, g', root, page)
  {
    hide Index, Entry, FrameOf, LeafFlags, Descend, AddsOnPath, OnPath;
    assert 4096 * page / 4096 == page && 4096 * f / 4096 == f;
    g' := DescendKeeps(m, g, root, page, 3, flags);
    var (m3, t) := Descend(m, root, page, 3, flags);
    if t.None? {
      NoOrphans(m3, g', TableAt(root, page, 3));
    } else {
      WalkStep(m3, g', TableAt(root, page, 3), Index(page, 3));
      LeafWasThere(m, g, m3, g', root, page);
      if !Present(Get(m3, t.value)[Index(page, 3)]) {
        var g3 := g';
        g' := SetLeaf(m3, g3, root, page, f, flags);
        AddsOne(g3, g', root, page, 3);
        AddsTrans(g, g3, g', root, page);
        MapTrans(m, g, m3, g3, MapPage(m, root, 4096 * page, 4096 * f, flags).0, g', root, Leaf(root, page), f);
      }
    }
  }

  lemma LeafWasThere(m: Mem, g: Ledger, m3: Mem, g3: Ledger, root: nat, page: nat)
    requires TreeOk(m, g) && TreeOk(m3, g3) && Kept(m, g, m3, g3, root)
    ensures Leaf(root, page) in g3.at ==> Leaf(root, page) in g.at
  {
    hide Index, Leaf;
    var leaf := Leaf(root, page);
    assert View(m3, g3, leaf) == View(m, g, leaf);
    assert leaf in g3.at ==> NodeOk(m3, g3, leaf);
  }

  lemma MapTrans(m0: Mem, g0: Ledger, m1: Mem, g1: Ledger, m2: Mem, g2: Ledger, root: nat, leaf: Node, f: nat)
    requires Kept(m0, g0, m1, g1, root) && SameFrames(m1, g1, m2, g2) && Grows(g1, g2, root)
    requires ViewsKept(m1, g1, m2, g2, {leaf}) && LooseKept(m1, g1, m2, g2, {f})
    ensures SameFrames(m0, g0, m2, g2) && Grows(g0, g2, root)
    ensures ViewsKept(m0, g0, m2, g2, {leaf}) && LooseKept(m0, g0, m2, g2, {f})
  {
    forall l: Node | Depth(l) == 4 && l != leaf ensures View(m2, g2, l) == View(m0, g0, l) {
      assert View(m1, g1, l) == View(m0, g0, l);
    }
  }

  lemma {:induction false} DescendKeeps(m: Mem, g: Ledger, root: nat, page: nat, level: nat, flags: nat)
    returns (g': Ledger)
    requires Inv(m, g) && Root(root) in g.at && page < USER_PAGES && level < 4 && flags < 4096
    ensures var (m', t) := Descend(m, root, page, level, flags);
            && Inv(m', g') && Kept(m, g, m', g', root)
            && (if t.Some? then TableAt(root, page, level) in g'.at && t.value == g'.at[TableAt(root, page, level)]
                else g'.stack == [] && TableAt(root, page, level) !in g'.at)
            && AddsOnPath(g, g', root, page)
  {
    hide AddsOnPath, OnPath, Leaf, Kept, EnsureNext;
    if level == 0 {
      g' := g;
      assert NodeOk(m, g, Root(root));
      NothingKept(m, g, root);
      AddsOne(g, g, root, page, 0);
    } else {
      UserIndex(page);
      g' := DescendKeeps(m, g, root, page, level - 1, flags);
      var (m1, t) := Descend(m, root, page, level - 1, flags);
      var n := TableAt(root, page, level - 1);
      if t.None? {
        NoOrphans(m1, g', n);
      } else {
        var g1 := g';
        g' := EnsureKeeps(m1, g1, n, Index(page, level - 1), flags);
        AddsOne(g1, g', root, page, level);
        AddsTrans(g, g1, g', root, page);
        KeptTrans(m, g, m1, g1, Descend(m, root, page, level, flags).0, g', root);
      }
    }
  }

  lemma NothingKept(m: Mem, g: Ledger, root: nat)
    ensures Kept(m, g, m, g, root)
  {
  }

  lemma KeptTrans(m0: Mem, g0: Ledger, m1: Mem, g1: Ledger, m2: Mem, g2: Ledger, root: nat)
    requires Kept(m0, g0, m1, g1, root) && Kept(m1, g1, m2, g2, root)
    ensures Kept(m0, g0, m2, g2, root)
  {
    forall leaf: Node | Depth(leaf) == 4 ensures View(m2, g2, leaf) == View(m0, g0, leaf) {
      assert View(m1, g1, leaf) == View(m0, g0, leaf);
    }
  }

  lemma SetLeaf(m: Mem, g: Ledger, root: nat, page: nat, f: nat, flags: nat) returns (g': Ledger)
    requires Inv(m, g) && TableAt(root, page, 3) in g.at && flags < 4096
    requires f in g.owner && g.owner[f] == Loose
    requires !Present(Get(m, g.at[TableAt(root, page, 3)])[Index(page, 3)])
    ensures var m' := PutWord(m, g.at[TableAt(root, page, 3)], Index(page, 3), Entry(f, LeafFlags(flags)));
            var leaf := Leaf(root, page);
            && Inv(m', g') && SameFrames(m, g, m', g') && Grows(g, g', root)
            && ViewsKept(m, g, m', g', {leaf}) && LooseKept(m, g, m', g', {f})
            && leaf in g'.at && g'.at[leaf] == f && !g'.owner[f].Loose? && g'.at == g.at[leaf := f]
            && View(m', g', leaf) == Some(Cell(Entry(f, LeafFlags(flags)), Get(m, f)))
  {
    hide Index, Entry, FrameOf, LeafFlags;
    TableFlagsPresent(flags);
    var n, i, leaf := TableAt(root, page, 3), Index(page, 3), Leaf(root, page);
    var m' := PutWord(m, g.at[n], i, Entry(f, LeafFlags(flags)));
    LooseIsNoPlace(m, g, f);
    AttachKeeps(m, g, n, i, f, LeafFlags(flags));
    g' := Attached(g, leaf, f);
    assert NodeOk(m, g, n);
    forall x | x in g.at && Depth(x) == 4
      ensures x in g'.at && g'.at[x] == g.at[x] && Get(m', g.at[x]) == Get(m, g.at[x])
      ensures x.up in g.at && x.index < 512
      ensures Get(m', g.at[x.up])[x.index] == Get(m, g.at[x.up])[x.index]
    {
      assert NodeOk(m, g, x) && NodeOk(m, g, x.up);
      assert x.up == n ==> x.index != i;
    }
    ViewFrame(m, g, m', g', {leaf});
  }
}
