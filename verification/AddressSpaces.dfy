/**
 Whole address spaces: creation, deep copy and destruction of a user half.
 */
module AddressSpaces {
  import opened Wrappers
  import opened Paging
  import opened Ownership
  import opened PageTables

  // ----- places below a place -----

  ghost predicate Below(x: Node, n: Node) {
    x.Step? && (x.up == n || Below(x.up, n))
  }

  lemma {:induction false} BelowDepth(x: Node, n: Node)
    requires Below(x, n)
    ensures Depth(n) < Depth(x) && SpaceOf(x) == SpaceOf(n)
  {
    if x.up != n {
      BelowDepth(x.up, n);
    }
  }

  lemma {:induction false} BelowChild(x: Node, n: Node, i: nat)
    requires Below(x, n.Child(i)) || x == n.Child(i)
    ensures Below(x, n)
  {
    if x != n.Child(i) && x.up != n.Child(i) {
      BelowChild(x.up, n, i);
    }
  }

  /** A place without children has nothing below it. */
  lemma {:induction false} NothingBelow(m: Mem, g: Ledger, n: Node, x: Node)
    requires TreeOk(m, g) && x in g.at && forall j :: n.Child(j) !in g.at
    ensures !Below(x, n)
  {
    assert NodeOk(m, g, x);
    if x.Step? {
      assert x == x.up.Child(x.index);
      NothingBelow(m, g, n, x.up);
    }
  }

  lemma NothingLeft(m: Mem, g: Ledger, n: Node)
    requires TreeOk(m, g) && forall j :: 0 <= j < Fanout(Depth(n)) ==> n.Child(j) !in g.at
    ensures forall x <- g.at :: !Below(x, n)
  {
    forall j ensures n.Child(j) !in g.at {
      assert n.Child(j) in g.at ==> NodeOk(m, g, n.Child(j));
    }
    forall x | x in g.at ensures !Below(x, n) {
      NothingBelow(m, g, n, x);
    }
  }

  lemma {:induction false} SpaceIsBelowRoot(x: Node, root: nat)
    ensures SpaceOf(x) == root <==> x == Root(root) || Below(x, Root(root))
  {
    if x.Step? {
      SpaceIsBelowRoot(x.up, root);
    }
  }

  // ----- creation -----

  /** A new PML4 shows nothing in its user half and shares the kernel half. */
  lemma CreateKeeps(m: Mem, g: Ledger) returns (g': Ledger)
    requires Inv(m, g)
    ensures var (m', root) := CreateRoot(m);
            if g.stack == [] then root == 0 && m' == m && g' == g
            else
              && root != 0 && Root(root) !in g.at && g'.at == g.at[Root(root) := root]
              && Inv(m', g') && Kept(m, g, m', g', root) && SharesKernelHalf(m', root)
              && forall x <- g.at :: SpaceOf(x) != root
  {
    AllocKeeps(m, g);
    g' := g;
    if g.stack != [] {
      var (m1, f) := AllocFrame(m);
      var g1 := Taken(g);
      var p := Get(m1, f)[..256] + Get(m1, m1.kernel)[256..];
      var m2 := Put(m1, f, p);
      assert f != m.kernel;
      WriteKeeps(m1, g1, f, p);
      RootAttachKeeps(m2, g1, f);
      g' := Attached(g1, Root(f), f);
      CreateViews(m, g, m2, f);
      forall x | x in g.at ensures SpaceOf(x) != f {
        RootOfSpace(m, g, x);
      }
    }
  }

  lemma {:induction false} RootOfSpace(m: Mem, g: Ledger, x: Node)
    requires TreeOk(m, g) && x in g.at
    ensures Root(SpaceOf(x)) in g.at
  {
    assert NodeOk(m, g, x);
    if x.Step? {
      RootOfSpace(m, g, x.up);
    }
  }

  lemma CreateViews(m: Mem, g: Ledger, m': Mem, f: nat)
    requires Inv(m, g) && g.stack != [] && f == g.stack[|g.stack| - 1] && f in g.owner && g.owner[f].Free?
    requires m'.hhdm == m.hhdm && m'.kernel == m.kernel && forall x: nat :: x != f ==> Get(m', x) == Get(m, x)
    requires Inv(m', Attached(Taken(g), Root(f), f))
    ensures Kept(m, g, m', Attached(Taken(g), Root(f), f), f)
  {
    var g' := Attached(Taken(g), Root(f), f);
    assert Root(f) in g.at ==> NodeOk(m, g, Root(f));
    forall x | x in g.at
      ensures g.at[x] != f && Get(m', g.at[x]) == Get(m, g.at[x])
      ensures x.Step? ==> x.up in g.at && x.index < 512
    {
      assert NodeOk(m, g, x);
    }
    ViewFrame(m, g, m', g', {});
  }

  // ----- destruction -----

  /** Places are only removed, and no page or loose frame changes except the table `n`. */
  ghost predicate Shrinks(m: Mem, g: Ledger, m': Mem, g': Ledger, n: Node) {
    && SameFrames(m, g, m', g') && LooseKept(m, g, m', g', {})
    && (forall x <- g'.at :: x in g.at && g'.at[x] == g.at[x])
    && (forall x <- g'.at :: x != n ==> Get(m', g'.at[x]) == Get(m, g'.at[x]))
  }

  lemma {:induction false} DestroyFromKeeps(m: Mem, g: Ledger, n: Node, i: nat) returns (g': Ledger)
    requires Inv(m, g) && n in g.at && Depth(n) < 4 && i <= Fanout(Depth(n))
    requires forall j :: 0 <= j < i ==> n.Child(j) !in g.at
    ensures Inv(DestroyFrom(m, Depth(n), g.at[n], i), g')
    ensures Shrinks(m, g, DestroyFrom(m, Depth(n), g.at[n], i), g', n)
    ensures forall x <- g.at :: x in g'.at <==> !Below(x, n)
    decreases 4 - Depth(n), Fanout(Depth(n)) - i
  {
    hide FrameOf, PhysToVirt, Below;
    if i == Fanout(Depth(n)) {
      g' := g;
      NothingLeft(m, g, n);
    } else {
      WalkStep(m, g, n, i);
      hide Inv, FreeFrame, PutWord;
      if !Present(Get(m, g.at[n])[i]) {
        g' := DestroyFromKeeps(m, g, n, i + 1);
      } else {
        var c := n.Child(i);
        var m2, g2 := DestroyChild(m, g, n, i);
        BelowSelf(n, i);
        assert n in g2.at && c !in g2.at && g2.at[n] == g.at[n];
        assert DestroyFrom(m, Depth(n), g.at[n], i) == DestroyFrom(m2, Depth(n), g2.at[n], i + 1);
        hide DestroyFrom;
        g' := DestroyFromKeeps(m2, g2, n, i + 1);
        ShrinksTrans(m, g, m2, g2, DestroyFrom(m, Depth(n), g.at[n], i), g', n);
        RemovedTrans(g, g2, g', n, i);
      }
    }
  }

  lemma ShrinksTrans(m0: Mem, g0: Ledger, m1: Mem, g1: Ledger, m2: Mem, g2: Ledger, n: Node)
    requires Shrinks(m0, g0, m1, g1, n) && Shrinks(m1, g1, m2, g2, n)
    ensures Shrinks(m0, g0, m2, g2, n)
  {
  }

  lemma RemovedTrans(g0: Ledger, g1: Ledger, g2: Ledger, n: Node, i: nat)
    requires forall x <- g0.at :: x in g1.at <==> !(x == n.Child(i) || Below(x, n.Child(i)))
    requires forall x <- g1.at :: x in g2.at <==> !Below(x, n)
    requires g2.at.Keys <= g1.at.Keys
    ensures forall x <- g0.at :: x in g2.at <==> !Below(x, n)
  {
    forall x | x in g0.at ensures x in g2.at <==> !Below(x, n) {
      if x == n.Child(i) || Below(x, n.Child(i)) {
        BelowChild(x, n, i);
      }
    }
  }

  /** One iteration: everything at and below child i goes. */
  lemma {:induction false} DestroyChild(m: Mem, g: Ledger, n: Node, i: nat) returns (m2: Mem, g2: Ledger)
    requires Inv(m, g) && n in g.at && Depth(n) < 4 && i < Fanout(Depth(n)) && n.Child(i) in g.at
    requires FrameOf(Get(m, g.at[n])[i]) == g.at[n.Child(i)]
    ensures var m1 := if Depth(n) == 3 then m else DestroyFrom(m, Depth(n) + 1, FrameOf(Get(m, g.at[n])[i]), 0);
            m2 == PutWord(FreeFrame(m1, FrameOf(Get(m1, g.at[n])[i])), g.at[n], i, 0)
    ensures Inv(m2, g2) && Shrinks(m, g, m2, g2, n)
    ensures forall x <- g.at :: x in g2.at <==> !(x == n.Child(i) || Below(x, n.Child(i)))
    decreases 4 - Depth(n), 0
  {
    hide FrameOf, PhysToVirt;
    var c := n.Child(i);
    var m1, g1 := m, g;
    if Depth(n) == 3 {
      forall x | x in g.at ensures !Below(x, c) {
        assert NodeOk(m, g, x);
        if Below(x, c) {
          BelowDepth(x, c);
        }
      }
    } else {
      m1 := DestroyFrom(m, Depth(n) + 1, FrameOf(Get(m, g.at[n])[i]), 0);
      g1 := DestroyFromKeeps(m, g, c, 0);
    }
    BelowSelf(n, i);
    assert n in g1.at && c in g1.at;
    forall j ensures c.Child(j) !in g1.at {
      assert c.Child(j) in g1.at ==> c.Child(j) in g.at && Below(c.Child(j), c);
    }
    DetachKeeps(m1, g1, c);
    m2 := PutWord(FreeFrame(m1, g1.at[c]), g1.at[n], i, 0);
    g2 := Detached(g1, c);
    assert Get(m1, g.at[n]) == Get(m, g.at[n]);
    DetachShrinks(m, g, m1, g1, n, c);
  }

  lemma BelowSelf(n: Node, i: nat)
    ensures !Below(n, n.Child(i)) && !Below(n.Child(i), n.Child(i))
  {
    if Below(n, n.Child(i)) {
      BelowDepth(n, n.Child(i));
    }
    if Below(n.Child(i), n.Child(i)) {
      BelowDepth(n.Child(i), n.Child(i));
    }
  }

  lemma DetachShrinks(m: Mem, g: Ledger, m1: Mem, g1: Ledger, n: Node, c: Node)
    requires Inv(m1, g1) && Shrinks(m, g, m1, g1, c) && n in g1.at && c in g1.at && c.Step? && c.up == n && c.index < 512
    ensures Shrinks(m, g, PutWord(FreeFrame(m1, g1.at[c]), g1.at[n], c.index, 0), Detached(g1, c), n)
  {
    assert NodeOk(m1, g1, n) && NodeOk(m1, g1, c) && OwnsBack(g1, g1.at[c]);
    var m', g' := PutWord(FreeFrame(m1, g1.at[c]), g1.at[n], c.index, 0), Detached(g1, c);
    forall x | x in g'.at && x != n ensures Get(m', g'.at[x]) == Get(m, g'.at[x]) {
      assert NodeOk(m1, g1, x);
    }
    assert g'.owner.Keys == g1.owner.Keys;
    assert Untouched(m1, m', g1.owner.Keys);
    UntouchedTrans(m, m1, m', g.owner.Keys);
  }

  /** Destroy hands back every frame of the space, each exactly once (the ledger puts each
      on one place of the list), and touches no other space. */
  lemma DestroyKeeps(m: Mem, g: Ledger, root: nat) returns (g': Ledger)
    requires Inv(m, g) && Root(root) in g.at
    ensures Inv(DestroyUserSpace(m, root), g')
    ensures SameFrames(m, g, DestroyUserSpace(m, root), g')
    ensures LooseKept(m, g, DestroyUserSpace(m, root), g', {})
    ensures forall x: Node :: x in g'.at <==> x in g.at && SpaceOf(x) != root
    ensures forall x <- g'.at :: g'.at[x] == g.at[x] && Get(DestroyUserSpace(m, root), g.at[x]) == Get(m, g.at[x])
  {
    assert NodeOk(m, g, Root(root)) && OwnsBack(g, root);
    var m1 := DestroyFrom(m, 0, root, 0);
    var g1 := DestroyFromKeeps(m, g, Root(root), 0);
    forall j ensures Step(Root(root), j) !in g1.at {
      assert Below(Step(Root(root), j), Root(root));
    }
    RootDetachKeeps(m1, g1, root);
    g' := Detached(g1, Root(root));
    assert g'.owner.Keys == g1.owner.Keys;
    assert Untouched(m1, FreeFrame(m1, root), g1.owner.Keys);
    UntouchedTrans(m, m1, FreeFrame(m1, root), g.owner.Keys);
    forall x: Node ensures x in g'.at <==> x in g.at && SpaceOf(x) != root {
      SpaceIsBelowRoot(x, root);
    }
    forall x | x in g'.at ensures Get(FreeFrame(m1, root), g.at[x]) == Get(m, g.at[x]) {
      assert NodeOk(m1, g1, x) && NodeOk(m1, g1, Root(root)) && x != Root(root);
    }
  }

  lemma DestroyViews(m: Mem, g: Ledger, m': Mem, g': Ledger, root: nat, leaf: Node)
    requires TreeOk(m, g) && TreeOk(m', g') && Depth(leaf) == 4 && SpaceOf(leaf) != root
    requires forall x: Node :: x in g'.at <==> x in g.at && SpaceOf(x) != root
    requires forall x <- g'.at :: g'.at[x] == g.at[x] && Get(m', g.at[x]) == Get(m, g.at[x])
    ensures View(m', g', leaf) == View(m, g, leaf)
  {
    assert leaf in g.at ==> NodeOk(m, g, leaf);
  }

  // ----- deep copy -----

  /** Pages whose walk passes through slot i or a later slot of table n. */
  ghost predicate From(page: nat, n: Node, i: nat)
    requires Depth(n) < 4
  {
    TableAt(SpaceOf(n), page, Depth(n)) == n && Index(page, Depth(n)) >= i
  }

  /** Outside the space `root` nothing changes, and inside it places are only added. */
  ghost predicate OnlyGrows(m: Mem, g: Ledger, m': Mem, g': Ledger, root: nat) {
    && SameFrames(m, g, m', g') && Grows(g, g', root) && LooseKept(m, g, m', g', {})
    && forall leaf: Node :: Depth(leaf) == 4 && SpaceOf(leaf) != root ==> View(m', g', leaf) == View(m, g, leaf)
  }

  ghost predicate SameCell(a: Option<Cell>, b: Option<Cell>) {
    match (a, b)
    case (None, None) => true
    case (Some(x), Some(y)) => FlagsOf(x.entry) == FlagsOf(y.entry) && x.bytes == y.bytes
    case _ => false
  }

  /** After copying slots i and up of table n, `dest` shows the source's pages there and what it
      showed before elsewhere. */
  ghost predicate CopiedAt(m: Mem, g: Ledger, m': Mem, g': Ledger, n: Node, i: nat, dest: nat, page: nat)
    requires Depth(n) < 4
  {
    if From(page, n, i) then SameCell(View(m', g', Leaf(dest, page)), View(m, g, Leaf(SpaceOf(n), page)))
    else View(m', g', Leaf(dest, page)) == View(m, g, Leaf(dest, page))
  }

  ghost predicate Copied(m: Mem, g: Ledger, m': Mem, g': Ledger, n: Node, i: nat, dest: nat)
    requires Depth(n) < 4
  {
    forall page :: 0 <= page < USER_PAGES ==> CopiedAt(m, g, m', g', n, i, dest, page)
  }

  ghost predicate EmptyFrom(m: Mem, g: Ledger, n: Node, i: nat, dest: nat)
    requires Depth(n) < 4
  {
    forall page :: 0 <= page < USER_PAGES && From(page, n, i) ==> View(m, g, Leaf(dest, page)).None?
  }

  lemma ViewNone(m: Mem, g: Ledger, leaf: Node)
    requires TreeOk(m, g) && Depth(leaf) == 4
    ensures View(m, g, leaf).None? <==> leaf !in g.at
  {
    assert leaf in g.at ==> NodeOk(m, g, leaf);
  }

  lemma OnlyGrowsTrans(m0: Mem, g0: Ledger, m1: Mem, g1: Ledger, m2: Mem, g2: Ledger, root: nat)
    requires OnlyGrows(m0, g0, m1, g1, root) && OnlyGrows(m1, g1, m2, g2, root)
    ensures OnlyGrows(m0, g0, m2, g2, root)
  {
    forall leaf: Node | Depth(leaf) == 4 && SpaceOf(leaf) != root
      ensures View(m2, g2, leaf) == View(m0, g0, leaf)
    {
      assert View(m1, g1, leaf) == View(m0, g0, leaf);
    }
  }

  /** What one operation may do besides changing the leaves in `leaves`: add places under
      `root`, and take or release the frame f. */
  ghost predicate Moves(m: Mem, g: Ledger, m': Mem, g': Ledger, root: nat, leaves: set<Node>, f: nat) {
    && SameFrames(m, g, m', g') && Grows(g, g', root)
    && ViewsKept(m, g, m', g', leaves) && LooseKept(m, g, m', g', {f})
  }

  lemma MovesTrans(m0: Mem, g0: Ledger, m1: Mem, g1: Ledger, m2: Mem, g2: Ledger, root: nat, leaves: set<Node>, f: nat)
    requires Moves(m0, g0, m1, g1, root, {}, f) && Moves(m1, g1, m2, g2, root, leaves, f)
    ensures Moves(m0, g0, m2, g2, root, leaves, f)
  {
    forall leaf: Node | Depth(leaf) == 4 && leaf !in leaves ensures View(m2, g2, leaf) == View(m0, g0, leaf) {
      assert View(m1, g1, leaf) == View(m0, g0, leaf);
    }
  }

  /** The leaf of this page is missing for want of a frame; at most the frame meant for it is left, and then
      the table above is missing too. */
  ghost predicate OutOfFrames(g: Ledger, root: nat, page: nat) {
    && Leaf(root, page) !in g.at && |g.stack| <= 1
    && (|g.stack| == 1 ==> TableAt(root, page, 3) !in g.at)
  }

  /** A fresh page appears, or nothing does; no frame is left loose. */
  lemma FreshKeeps(m: Mem, g: Ledger, root: nat, page: nat, bytes: Page, flags: nat) returns (g': Ledger)
    requires Inv(m, g) && Root(root) in g.at && page < USER_PAGES && flags < 4096
    ensures var (m', ok) := MapFresh(m, root, page, bytes, flags);
            && Inv(m', g') && SameFrames(m, g, m', g') && Grows(g, g', root) && LooseKept(m, g, m', g', {})
            && ViewsKept(m, g, m', g', if ok then {Leaf(root, page)} else {})
            && (ok ==> && View(m, g, Leaf(root, page)).None?
                       && exists f: nat :: f < FRAME_LIMIT &&
                            View(m', g', Leaf(root, page)) == Some(Cell(Entry(f, LeafFlags(flags)), bytes)))
            && AddsOnPath(g, g', root, page)
            && (!ok ==> Leaf(root, page) in g.at || OutOfFrames(g', root, page))
  {
    hide Index, FrameOf, LeafFlags, Entry, MapPage, VirtToPhys, OnPath;
    g' := g;
    AllocKeeps(m, g);
    if g.stack != [] {
      var (m1, f) := AllocFrame(m);
      var g1 := Taken(g);
      var m2 := Put(m1, f, bytes);
      WriteKeeps(m1, g1, f, bytes);
      AllocViews(m, g, m2, f);
      var g3 := MapPageKeeps(m2, g1, root, page, f, flags);
      var (m3, ok) := MapPage(m2, root, 4096 * page, 4096 * f, flags);
      assert OwnsBack(g, f);
      assert Moves(m, g, m2, g1, root, {}, f);
      if ok {
        g' := g3;
        MovesTrans(m, g, m2, g1, m3, g3, root, {Leaf(root, page)}, f);
      } else {
        FreeKeeps(m3, g3, f);
        g' := Given(g3, f);
        FreeViews(m3, g3, f);
        MovesTrans(m2, g1, m3, g3, FreeFrame(m3, f), g', root, {}, f);
        MovesTrans(m, g, m2, g1, FreeFrame(m3, f), g', root, {}, f);
      }
    }
  }

  lemma ClonePageKeeps(m: Mem, g: Ledger, leaf: Node, page: nat, dest: nat) returns (g': Ledger)
    requires Inv(m, g) && leaf in g.at && Depth(leaf) == 4 && Root(dest) in g.at
    requires leaf.Step? && leaf.up in g.at && leaf.index < 512 && page < USER_PAGES
    requires Present(Get(m, g.at[leaf.up])[leaf.index])
    requires FrameOf(Get(m, g.at[leaf.up])[leaf.index]) == g.at[leaf]
    ensures var (m', ok) := ClonePage(m, Get(m, g.at[leaf.up])[leaf.index], page, dest);
            && Inv(m', g') && OnlyGrows(m, g, m', g', dest)
            && (ok ==> && ViewsKept(m, g, m', g', {Leaf(dest, page)})
                       && SameCell(View(m', g', Leaf(dest, page)), View(m, g, leaf)))
            && AddsOnPath(g, g', dest, page)
            && (!ok ==> Leaf(dest, page) in g.at || OutOfFrames(g', dest, page))
  {
    hide Index, FrameOf, LeafFlags, Entry, MapFresh, AddsOnPath, OutOfFrames;
    var entry := Get(m, g.at[leaf.up])[leaf.index];
    AllocKeeps(m, g);
    assert NodeOk(m, g, leaf);
    var bytes := Get(AllocFrame(m).0, FrameOf(entry));
    g' := FreshKeeps(m, g, dest, page, bytes, FlagsOf(entry));
    var (m', ok) := MapFresh(m, dest, page, bytes, FlagsOf(entry));
    if ok {
      var f: nat :| f < FRAME_LIMIT && View(m', g', Leaf(dest, page)) == Some(Cell(Entry(f, LeafFlags(FlagsOf(entry))), bytes));
      LeafFlagsKept(f, entry);
    }
  }

  lemma LeafFlagsKept(f: nat, entry: Word)
    requires f < FRAME_LIMIT && Present(entry)
    ensures FlagsOf(Entry(f, LeafFlags(FlagsOf(entry)))) == FlagsOf(entry)
  {
    assert FlagsOf(entry) % 2 == 1;
    EntryParts(f, FlagsOf(entry));
  }

  lemma AllocViews(m: Mem, g: Ledger, m2: Mem, f: nat)
    requires Inv(m, g) && g.stack != [] && f == g.stack[|g.stack| - 1] && f in g.owner && g.owner[f].Free?
    requires Inv(m2, Taken(g)) && forall x: nat :: x != f ==> Get(m2, x) == Get(m, x)
    requires m2.hhdm == m.hhdm && m2.kernel == m.kernel
    ensures ViewsKept(m, g, m2, Taken(g), {}) && LooseKept(m, g, m2, Taken(g), {f}) && SameFrames(m, g, m2, Taken(g))
  {
    forall x | x in g.at
      ensures g.at[x] != f && (x.Step? ==> x.up in g.at && x.index < 512)
    {
      assert NodeOk(m, g, x);
    }
    ViewFrame(m, g, m2, Taken(g), {});
  }

  lemma FreeViews(m: Mem, g: Ledger, f: nat)
    requires Inv(m, g) && f in g.owner && g.owner[f] == Loose
    requires Inv(FreeFrame(m, f), Given(g, f))
    requires forall x: nat :: x != f ==> Get(FreeFrame(m, f), x) == Get(m, x)
    ensures ViewsKept(m, g, FreeFrame(m, f), Given(g, f), {})
    ensures LooseKept(m, g, FreeFrame(m, f), Given(g, f), {f}) && SameFrames(m, g, FreeFrame(m, f), Given(g, f))
  {
    forall x | x in g.at
      ensures g.at[x] != f && (x.Step? ==> x.up in g.at && x.index < 512)
    {
      assert NodeOk(m, g, x);
    }
    ViewFrame(m, g, FreeFrame(m, f), Given(g, f), {});
  }

  // ----- page numbers -----

  lemma IndexOfSum(a: nat, b: nat, c: nat, i: nat)
    requires a < 256 && b < 512 && c < 512 && i < 512
    ensures var page := ((a * 512 + b) * 512 + c) * 512 + i;
            && page < USER_PAGES && Index(page, 0) == a && Index(page, 1) == b
            && Index(page, 2) == c && Index(page, 3) == i
  {
    var ab := a * 512 + b;
    var abc := ab * 512 + c;
    var page := abc * 512 + i;
    Digit512(abc, i);
    Digit512(ab, c);
    Digit512(a, b);
    assert page / 0x4_0000 == page / 512 / 512;
    assert page / 0x800_0000 == page / 0x4_0000 / 512;
  }

  lemma Digit512(high: nat, low: nat)
    requires low < 512
    ensures (high * 512 + low) / 512 == high && (high * 512 + low) % 512 == low
  {
  }

  lemma SumOfIndex(page: nat)
    requires page < USER_PAGES
    ensures page == ((Index(page, 0) * 512 + Index(page, 1)) * 512 + Index(page, 2)) * 512 + Index(page, 3)
  {
    assert page / 0x4_0000 == page / 512 / 512;
    assert page / 0x800_0000 == page / 0x4_0000 / 512;
    assert page / 0x800_0000 < 256;
  }

  lemma PageOfPath(s: nat, a: nat, b: nat, c: nat)
    ensures PageOf(Root(s).Child(a).Child(b).Child(c)) == (a * 512 + b) * 512 + c
  {
    assert PageOf(Root(s).Child(a)) == a;
    assert PageOf(Root(s).Child(a).Child(b)) == a * 512 + b;
  }

  /** Slot i of page table n is the leaf of one page, and its only walk. */
  lemma PageOfSlot(m: Mem, g: Ledger, n: Node, i: nat, page: nat)
    requires TreeOk(m, g) && n in g.at && Depth(n) == 3 && i < 512 && page < USER_PAGES
    ensures PageOf(n) * 512 + i < USER_PAGES && Leaf(SpaceOf(n), PageOf(n) * 512 + i) == n.Child(i)
    ensures TableAt(SpaceOf(n), page, 3) == n && Index(page, 3) == i ==> page == PageOf(n) * 512 + i
  {
    assert NodeOk(m, g, n) && NodeOk(m, g, n.up) && NodeOk(m, g, n.up.up);
    var s, a, b, c := n.up.up.up.frame, n.up.up.index, n.up.index, n.index;
    assert n == Root(s).Child(a).Child(b).Child(c) && SpaceOf(n) == s;
    IndexOfSum(a, b, c, i);
    SumOfIndex(page);
    var q := ((a * 512 + b) * 512 + c) * 512 + i;
    PageOfPath(s, a, b, c);
    TableAtIs(s, q);
    TableAtIs(s, page);
  }

  lemma TableAtIs(root: nat, page: nat)
    ensures TableAt(root, page, 3) == Step(Step(Step(Root(root), Index(page, 0)), Index(page, 1)), Index(page, 2))
  {
    assert TableAt(root, page, 1) == Step(Root(root), Index(page, 0));
    assert TableAt(root, page, 2) == Step(TableAt(root, page, 1), Index(page, 1));
  }

  // ----- the clone loops -----

  lemma FromChild(page: nat, n: Node, i: nat)
    requires Depth(n) < 3
    ensures From(page, n.Child(i), 0) <==> From(page, n, i) && !From(page, n, i + 1)
  {
  }

  lemma {:induction false} CloneFromKeeps(m: Mem, g: Ledger, n: Node, i: nat, dest: nat) returns (g': Ledger)
    requires Inv(m, g) && n in g.at && Depth(n) < 4 && i <= Fanout(Depth(n))
    requires Root(dest) in g.at && SpaceOf(n) != dest && EmptyFrom(m, g, n, i, dest)
    ensures var (m', ok) := CloneFrom(m, Depth(n), g.at[n], PageOf(n), i, dest);
            && Inv(m', g') && OnlyGrows(m, g, m', g', dest)
            && (ok ==> Copied(m, g, m', g', n, i, dest))
            && (Shaped(g, SpaceOf(n), dest) ==> Shaped(g', SpaceOf(n), dest)) && (!ok ==> Short(g', SpaceOf(n), dest))
    decreases 4 - Depth(n), Fanout(Depth(n)) - i
  {
    hide Shaped, Short, OnlyGrows, Copied, SlotCopied, EmptyFrom, FrameOf, ClonePage;
    var (m', ok) := CloneFrom(m, Depth(n), g.at[n], PageOf(n), i, dest);
    if i == Fanout(Depth(n)) {
      g' := g;
      NothingToCopy(m, g, n, i, dest);
    } else {
      WalkStep(m, g, n, i);
      if !Present(Get(m, g.at[n])[i]) {
        EmptyLater(m, g, n, i, dest);
        g' := CloneFromKeeps(m, g, n, i + 1, dest);
        if ok {
          SkippedSlot(m, g, m', g', n, i, dest);
        }
      } else {
        var m1, ok1, g1 := CloneSlot(m, g, n, i, dest);
        g' := g1;
        if ok1 {
          CopiedMeansEmpty(m, g, m1, g1, n, i, dest);
          StillIn(m, g, m1, g1, n, dest);
          g' := CloneFromKeeps(m1, g1, n, i + 1, dest);
          OnlyGrowsTrans(m, g, m1, g1, m', g', dest);
          if ok {
            CopiedTrans(m, g, m1, g1, m', g', n, i, dest);
          }
        }
      }
    }
  }

  lemma NothingToCopy(m: Mem, g: Ledger, n: Node, i: nat, dest: nat)
    requires Depth(n) < 4 && i == Fanout(Depth(n))
    ensures OnlyGrows(m, g, m, g, dest) && Copied(m, g, m, g, n, i, dest)
  {
    forall page | 0 <= page < USER_PAGES ensures CopiedAt(m, g, m, g, n, i, dest, page) {
      UserIndex(page);
    }
  }

  lemma EmptyLater(m: Mem, g: Ledger, n: Node, i: nat, dest: nat)
    requires Depth(n) < 4 && EmptyFrom(m, g, n, i, dest)
    ensures EmptyFrom(m, g, n, i + 1, dest)
  {
    hide View;
    forall page | 0 <= page < USER_PAGES && From(page, n, i + 1) ensures View(m, g, Leaf(dest, page)).None? {
      assert From(page, n, i);
    }
  }

  lemma StillIn(m: Mem, g: Ledger, m': Mem, g': Ledger, n: Node, dest: nat)
    requires OnlyGrows(m, g, m', g', dest) && n in g.at && Root(dest) in g.at
    ensures n in g'.at && g'.at[n] == g.at[n] && Root(dest) in g'.at
  {
  }

  /** Exactly the pages behind slot i have been copied. */
  ghost predicate SlotCopied(m: Mem, g: Ledger, m': Mem, g': Ledger, n: Node, i: nat, dest: nat)
    requires Depth(n) < 4
  {
    forall page :: 0 <= page < USER_PAGES ==>
      if From(page, n, i) && !From(page, n, i + 1)
      then SameCell(View(m', g', Leaf(dest, page)), View(m, g, Leaf(SpaceOf(n), page)))
      else View(m', g', Leaf(dest, page)) == View(m, g, Leaf(dest, page))
  }

  lemma {:induction false} CloneSlot(m: Mem, g: Ledger, n: Node, i: nat, dest: nat)
    returns (m': Mem, ok: bool, g': Ledger)
    requires Inv(m, g) && n in g.at && Depth(n) < 4 && i < Fanout(Depth(n)) && n.Child(i) in g.at
    requires Root(dest) in g.at && SpaceOf(n) != dest && EmptyFrom(m, g, n, i, dest)
    ensures (m', ok) == (if Depth(n) == 3 then ClonePage(m, Get(m, g.at[n])[i], PageOf(n) * 512 + i, dest)
                         else CloneFrom(m, Depth(n) + 1, FrameOf(Get(m, g.at[n])[i]), PageOf(n) * 512 + i, 0, dest))
    ensures Inv(m', g') && OnlyGrows(m, g, m', g', dest)
    ensures ok ==> SlotCopied(m, g, m', g', n, i, dest)
    ensures (Shaped(g, SpaceOf(n), dest) ==> Shaped(g', SpaceOf(n), dest)) && (!ok ==> Short(g', SpaceOf(n), dest))
    decreases 4 - Depth(n), 0
  {
    hide Index, FrameOf, From, CopiedAt, ClonePage, Shaped, Short;
    WalkStep(m, g, n, i);
    if Depth(n) == 3 {
      g' := CloneLeafSlot(m, g, n, i, dest);
      var r := ClonePage(m, Get(m, g.at[n])[i], PageOf(n) * 512 + i, dest);
      m', ok := r.0, r.1;
    } else {
      EmptyChild(m, g, n, i, dest);
      g' := CloneFromKeeps(m, g, n.Child(i), 0, dest);
      var r := CloneFrom(m, Depth(n) + 1, FrameOf(Get(m, g.at[n])[i]), PageOf(n) * 512 + i, 0, dest);
      m', ok := r.0, r.1;
      if ok {
        TableSlotCopied(m, g, m', g', n, i, dest);
      }
    }
  }

  lemma CloneLeafSlot(m: Mem, g: Ledger, n: Node, i: nat, dest: nat) returns (g': Ledger)
    requires Inv(m, g) && n in g.at && Depth(n) == 3 && i < 512 && n.Child(i) in g.at && Root(dest) in g.at
    requires SpaceOf(n) != dest && EmptyFrom(m, g, n, i, dest)
    ensures var (m', ok) := ClonePage(m, Get(m, g.at[n])[i], PageOf(n) * 512 + i, dest);
            && Inv(m', g') && OnlyGrows(m, g, m', g', dest)
            && (ok ==> SlotCopied(m, g, m', g', n, i, dest))
            && (Shaped(g, SpaceOf(n), dest) ==> Shaped(g', SpaceOf(n), dest)) && (!ok ==> Short(g', SpaceOf(n), dest))
  {
    hide Index, FrameOf, ClonePage, SlotCopied, Shaped, Short, OutOfFrames, AddsOnPath, From;
    var page := PageOf(n) * 512 + i;
    WalkStep(m, g, n, i);
    PageOfSlot(m, g, n, i, 0);
    g' := ClonePageKeeps(m, g, n.Child(i), page, dest);
    var (m', ok) := ClonePage(m, Get(m, g.at[n])[i], page, dest);
    if ok {
      OneSlotCopied(m, g, m', g', n, i, dest);
    }
    ShapeKept(m, g, m', g', n, i, dest, page);
    SlotEmpty(m, g, n, i, dest, page);
    if !ok {
      ShortHere(m', g', n, i, dest, page);
    }
  }

  // ----- the shape of the copy -----

  /** The same place in another space. */
  ghost function Moved(x: Node, root: nat): (y: Node)
    ensures Depth(y) == Depth(x) && SpaceOf(y) == root
  {
    match x case Root(_) => Root(root) case Step(u, i) => Step(Moved(u, root), i)
  }

  /** Every place of `dest` is the copy of one of `source`. */
  ghost predicate Shaped(g: Ledger, source: nat, dest: nat) {
    forall y <- g.at :: SpaceOf(y) == dest ==> Moved(y, source) in g.at
  }

  /** Some leaf could not be copied for want of frames. */
  ghost predicate Short(g: Ledger, source: nat, dest: nat) {
    |g.stack| <= 1 && exists leaf: Node ::
      && leaf in g.at && Depth(leaf) == 4 && SpaceOf(leaf) == source && leaf.Step? && leaf.up in g.at
      && Moved(leaf, dest) !in g.at && (|g.stack| == 1 ==> Moved(leaf.up, dest) !in g.at)
  }

  lemma {:induction false} MovedTable(root: nat, page: nat, level: nat, to: nat)
    requires level < 4
    ensures Moved(TableAt(root, page, level), to) == TableAt(to, page, level)
  {
    hide Index;
    if level > 0 {
      MovedTable(root, page, level - 1, to);
    }
  }

  lemma MovedLeaf(root: nat, page: nat, to: nat)
    ensures Moved(Leaf(root, page), to) == Leaf(to, page)
  {
    hide Index;
    MovedTable(root, page, 3, to);
  }

  lemma ShapeKept(m: Mem, g: Ledger, m': Mem, g': Ledger, n: Node, i: nat, dest: nat, page: nat)
    requires TreeOk(m, g) && n in g.at && n.Child(i) in g.at && Leaf(SpaceOf(n), page) == n.Child(i) && SpaceOf(n) != dest
    requires OnlyGrows(m, g, m', g', dest) && AddsOnPath(g, g', dest, page)
    ensures Shaped(g, SpaceOf(n), dest) ==> Shaped(g', SpaceOf(n), dest)
  {
    hide Leaf, Index, View;
    var source := SpaceOf(n);
    Ancestors(m, g, source, page);
    if Shaped(g, source, dest) {
      forall y | y in g'.at && SpaceOf(y) == dest ensures Moved(y, source) in g'.at {
        if y !in g.at {
          MovedLeaf(dest, page, source);
          if Depth(y) < 4 {
            MovedTable(dest, page, Depth(y), source);
          }
        }
      }
    }
  }

  lemma SlotEmpty(m: Mem, g: Ledger, n: Node, i: nat, dest: nat, page: nat)
    requires TreeOk(m, g) && Depth(n) == 3 && Leaf(SpaceOf(n), page) == n.Child(i) && page < USER_PAGES && EmptyFrom(m, g, n, i, dest)
    ensures Leaf(dest, page) !in g.at
  {
    hide Index;
    assert From(page, n, i);
    ViewNone(m, g, Leaf(dest, page));
  }

  lemma ShortHere(m: Mem, g: Ledger, n: Node, i: nat, dest: nat, page: nat)
    requires n in g.at && Depth(n) == 3 && n.Child(i) in g.at && Leaf(SpaceOf(n), page) == n.Child(i) && OutOfFrames(g, dest, page)
    ensures Short(g, SpaceOf(n), dest)
  {
    hide Index;
    MovedLeaf(SpaceOf(n), page, dest);
    MovedTable(SpaceOf(n), page, 3, dest);
    assert TableAt(SpaceOf(n), page, 3) == n;
  }

  // ----- what has been copied -----

  lemma EmptyChild(m: Mem, g: Ledger, n: Node, i: nat, dest: nat)
    requires Depth(n) < 3 && EmptyFrom(m, g, n, i, dest)
    ensures EmptyFrom(m, g, n.Child(i), 0, dest)
  {
    forall page | 0 <= page < USER_PAGES && From(page, n.Child(i), 0) ensures View(m, g, Leaf(dest, page)).None? {
      FromChild(page, n, i);
    }
  }

  lemma TableSlotCopied(m: Mem, g: Ledger, m': Mem, g': Ledger, n: Node, i: nat, dest: nat)
    requires Depth(n) < 3 && Copied(m, g, m', g', n.Child(i), 0, dest)
    ensures SlotCopied(m, g, m', g', n, i, dest)
  {
    forall page | 0 <= page < USER_PAGES
      ensures if From(page, n, i) && !From(page, n, i + 1)
              then SameCell(View(m', g', Leaf(dest, page)), View(m, g, Leaf(SpaceOf(n), page)))
              else View(m', g', Leaf(dest, page)) == View(m, g, Leaf(dest, page))
    {
      FromChild(page, n, i);
      assert CopiedAt(m, g, m', g', n.Child(i), 0, dest, page);
    }
  }

  lemma OneSlotCopied(m: Mem, g: Ledger, m': Mem, g': Ledger, n: Node, i: nat, dest: nat)
    requires TreeOk(m, g) && n in g.at && Depth(n) == 3 && i < 512 && PageOf(n) * 512 + i < USER_PAGES
    requires ViewsKept(m, g, m', g', {Leaf(dest, PageOf(n) * 512 + i)})
    requires SameCell(View(m', g', Leaf(dest, PageOf(n) * 512 + i)), View(m, g, n.Child(i)))
    ensures SlotCopied(m, g, m', g', n, i, dest)
  {
    hide Index;
    var p := PageOf(n) * 512 + i;
    forall page | 0 <= page < USER_PAGES
      ensures if From(page, n, i) && !From(page, n, i + 1)
              then SameCell(View(m', g', Leaf(dest, page)), View(m, g, Leaf(SpaceOf(n), page)))
              else View(m', g', Leaf(dest, page)) == View(m, g, Leaf(dest, page))
    {
      PageOfSlot(m, g, n, i, page);
      if page != p {
        LeafInjective(dest, page, p);
      }
    }
  }

  /** Distinct user pages never share a leaf slot. */
  lemma LeafInjective(root: nat, p: nat, q: nat)
    requires p < USER_PAGES && q < USER_PAGES && p != q
    ensures Leaf(root, p) != Leaf(root, q)
  {
    SumOfIndex(p);
    SumOfIndex(q);
    TableAtIs(root, p);
    TableAtIs(root, q);
  }

  lemma SkippedSlot(m: Mem, g: Ledger, m': Mem, g': Ledger, n: Node, i: nat, dest: nat)
    requires TreeOk(m, g) && n in g.at && Depth(n) < 4 && i < 512 && n.Child(i) !in g.at
    requires EmptyFrom(m, g, n, i, dest) && Copied(m, g, m', g', n, i + 1, dest)
    ensures Copied(m, g, m', g', n, i, dest)
  {
    forall page | 0 <= page < USER_PAGES ensures CopiedAt(m, g, m', g', n, i, dest, page) {
      assert CopiedAt(m, g, m', g', n, i + 1, dest, page);
      if From(page, n, i) && !From(page, n, i + 1) {
        var leaf := Leaf(SpaceOf(n), page);
        ViewNone(m, g, leaf);
        assert Depth(n) < 3 ==> TableAt(SpaceOf(n), page, Depth(n) + 1) == n.Child(i);
        if leaf in g.at {
          Ancestors(m, g, SpaceOf(n), page);
        }
      }
    }
  }

  lemma CopiedMeansEmpty(m: Mem, g: Ledger, m1: Mem, g1: Ledger, n: Node, i: nat, dest: nat)
    requires Depth(n) < 4 && EmptyFrom(m, g, n, i, dest) && SlotCopied(m, g, m1, g1, n, i, dest)
    ensures EmptyFrom(m1, g1, n, i + 1, dest)
  {
    forall page | 0 <= page < USER_PAGES && From(page, n, i + 1) ensures View(m1, g1, Leaf(dest, page)).None? {
      assert From(page, n, i);
    }
  }

  lemma CopiedTrans(m: Mem, g: Ledger, m1: Mem, g1: Ledger, m2: Mem, g2: Ledger, n: Node, i: nat, dest: nat)
    requires Depth(n) < 4 && SpaceOf(n) != dest && OnlyGrows(m, g, m1, g1, dest)
    requires SlotCopied(m, g, m1, g1, n, i, dest) && Copied(m1, g1, m2, g2, n, i + 1, dest)
    ensures Copied(m, g, m2, g2, n, i, dest)
  {
    forall page | 0 <= page < USER_PAGES ensures CopiedAt(m, g, m2, g2, n, i, dest, page) {
      assert CopiedAt(m1, g1, m2, g2, n, i + 1, dest, page);
      assert View(m1, g1, Leaf(SpaceOf(n), page)) == View(m, g, Leaf(SpaceOf(n), page));
    }
  }
}
