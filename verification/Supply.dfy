/**
 How many frames there are: nothing is created or lost, so a copy succeeds when the free list holds as many
 frames as the original.
 */
module Supply {
  import opened Paging
  import opened Ownership
  import opened PageTables
  import opened AddressSpaces
  import opened Programs
  import opened Kernel
  import opened Processes
  import opened Census
  import Boot

  // ----- counting owners -----

  lemma {:induction false} MapSize<S, T>(f: map<S, T>)
    requires forall x, y :: x in f && y in f && f[x] == f[y] ==> x == y
    ensures |f.Keys| == |f.Values|
    decreases |f|
  {
    if f.Keys != {} {
      var x :| x in f.Keys;
      var rest := f - {x};
      MapSize(rest);
      assert rest.Keys == f.Keys - {x};
      forall v ensures v in rest.Values <==> v in f.Values - {f[x]} {
        if v in f.Values - {f[x]} {
          var y :| y in f && f[y] == v;
          assert y in rest && rest[y] == v;
        }
      }
      assert rest.Values == f.Values - {f[x]};
    }
  }

  ghost function Loose(g: Ledger): (s: set<nat>) { set f: nat | f in g.owner.Keys && g.owner[f].Loose? }

  ghost function Free(g: Ledger): (s: set<nat>) { set f: nat | f in g.owner.Keys && g.owner[f].Free? }

  lemma FreeCount(m: Mem, g: Ledger)
    requires Inv(m, g)
    ensures |Free(g)| == |g.stack|
  {
    hide TreeOk, LinkTo, PhysToVirt;
    forall f: nat ensures f in g.stack <==> f in Free(g) {
      if f in g.stack {
        var i :| 0 <= i < |g.stack| && g.stack[i] == f;
        assert FreeAt(m, g, i);
      }
      if f in Free(g) {
        assert OwnsBack(g, f);
      }
    }
    forall i, j | 0 <= i < j < |g.stack| ensures g.stack[i] != g.stack[j] {
      assert FreeAt(m, g, i) && FreeAt(m, g, j);
    }
    Boot.DistinctCount(g.stack, Free(g));
  }

  lemma TreeFrames(m: Mem, g: Ledger, f: nat)
    requires Inv(m, g)
    ensures f in g.at.Values <==> f in g.owner && g.owner[f].Tree?
    ensures f in g.owner && g.owner[f].Tree? ==> g.owner[f].node in g.at && g.at[g.owner[f].node] == f
  {
    hide StackOk;
    if f in g.at.Values {
      var x :| x in g.at && g.at[x] == f;
      assert NodeOk(m, g, x);
    }
    if f in g.owner && g.owner[f].Tree? {
      assert OwnsBack(g, f);
      assert g.at[g.owner[f].node] in g.at.Values;
    }
  }

  lemma TreeCount(m: Mem, g: Ledger)
    requires Inv(m, g)
    ensures |g.at.Values| == |g.at.Keys|
  {
    forall x, y | x in g.at && y in g.at && g.at[x] == g.at[y] ensures x == y {
      assert NodeOk(m, g, x) && NodeOk(m, g, y);
    }
    MapSize(g.at);
  }

  /** Every usable frame is on the list, in a tree or held. */
  lemma Counted(m: Mem, g: Ledger)
    requires Inv(m, g)
    ensures |g.owner.Keys| == |g.stack| + |g.at.Keys| + |Loose(g)|
  {
    hide Inv;
    FreeCount(m, g);
    TreeCount(m, g);
    var trees := g.at.Values;
    forall f: nat ensures f in trees <==> f in g.owner && g.owner[f].Tree? {
      TreeFrames(m, g, f);
    }
    assert g.owner.Keys == Free(g) + trees + Loose(g);
    assert Free(g) !! trees && (Free(g) + trees) !! Loose(g);
  }

  lemma LooseSame(m: Mem, g: Ledger, m': Mem, g': Ledger)
    requires g'.owner.Keys == g.owner.Keys && LooseKept(m, g, m', g', {})
    ensures Loose(g') == Loose(g)
  {
  }

  // ----- the places of one space -----

  ghost function Places(g: Ledger, root: nat): (s: set<Node>) { set x | x in g.at.Keys && SpaceOf(x) == root }

  lemma {:induction false} MovedBack(x: Node, root: nat)
    ensures Moved(Moved(x, root), SpaceOf(x)) == x
  {
    if x.Step? {
      MovedBack(x.up, root);
    }
  }

  /** A copy that stopped short has at least as many places missing as it leaves frames, and one more. */
  lemma ShortCount(g: Ledger, source: nat, dest: nat)
    requires Shaped(g, source, dest) && Short(g, source, dest)
    ensures |Places(g, dest)| + 1 + |g.stack| <= |Places(g, source)|
  {
    var from, to := Places(g, source), Places(g, dest);
    var back := map y | y in to :: Moved(y, source);
    forall x, y | x in back && y in back && back[x] == back[y] ensures x == y {
      MovedBack(x, source);
      MovedBack(y, source);
    }
    MapSize(back);
    assert back.Keys == to;
    assert back.Values <= from;
    var leaf: Node :| && leaf in g.at && Depth(leaf) == 4 && SpaceOf(leaf) == source && leaf.Step? && leaf.up in g.at
                      && Moved(leaf, dest) !in g.at && (|g.stack| == 1 ==> Moved(leaf.up, dest) !in g.at);
    Missing(g, source, dest, back.Values, leaf);
    var rest := from - {leaf};
    if |g.stack| == 1 {
      Missing(g, source, dest, back.Values, leaf.up);
      assert leaf.up in rest && back.Values <= rest - {leaf.up};
      Smaller(back.Values, rest - {leaf.up});
    } else {
      assert back.Values <= rest;
      Smaller(back.Values, rest);
    }
  }

  lemma Missing(g: Ledger, source: nat, dest: nat, image: set<Node>, x: Node)
    requires image == set y | y in Places(g, dest) :: Moved(y, source)
    requires SpaceOf(x) == source && Moved(x, dest) !in g.at
    ensures x !in image
  {
    if x in image {
      var y :| y in Places(g, dest) && Moved(y, source) == x;
      MovedBack(y, source);
    }
  }

  lemma {:induction false} Smaller<T>(a: set<T>, b: set<T>)
    requires a <= b
    ensures |a| <= |b|
  {
    if a != {} {
      var x :| x in a;
      Smaller(a - {x}, b - {x});
    }
  }

  // ----- when copying succeeds -----

  lemma CloneSucceeds(m: Mem, g: Ledger, source: nat, dest: nat)
    requires Inv(m, g) && Root(source) in g.at && Root(dest) in g.at && source != dest
    requires forall x <- g.at :: SpaceOf(x) == dest ==> x == Root(dest)
    requires |g.stack| + 1 >= |Places(g, source)|
    ensures CloneUserSpace(m, source, dest).1
  {
    hide CloneFrom, View, StackOk, OwnerOk, NodeOk, Short;
    FreshIsEmpty(m, g, source, dest);
    assert g.at[Root(source)] == source by { RootFrame(m, g, source); }
    var g' := CloneFromKeeps(m, g, Root(source), 0, dest);
    var (m', ok) := CloneUserSpace(m, source, dest);
    if !ok {
      assert Shaped(g, source, dest);
      ShortCount(g', source, dest);
      Counted(m, g);
      Counted(m', g');
      LooseSame(m, g, m', g');
      Grown(g, g', source, dest);
    }
  }

  lemma RootFrame(m: Mem, g: Ledger, root: nat)
    requires Inv(m, g) && Root(root) in g.at
    ensures g.at[Root(root)] == root
  {
    assert NodeOk(m, g, Root(root));
  }

  lemma Grown(g: Ledger, g': Ledger, source: nat, dest: nat)
    requires Grows(g, g', dest) && source != dest && Root(dest) in g.at && forall x <- g.at :: SpaceOf(x) == dest ==> x == Root(dest)
    ensures |g'.at.Keys| == |g.at.Keys| - 1 + |Places(g', dest)| && Places(g', source) == Places(g, source)
  {
    var others := g.at.Keys - {Root(dest)};
    assert g'.at.Keys == others + Places(g', dest);
    assert others !! Places(g', dest);
  }

  /** vfork succeeds when a slot is free and the free list holds as many frames as the caller's space. */
  lemma VforkSucceeds(k: Kernel, g: Ledger, chain: seq<nat>, f: Frame, held: set<nat>)
    requires KernelOk(k, g, chain) && !k.halted && FirstUnused(k.procs, 0) < MAX_PROCESSES
    requires forall x: nat :: x in held <==> InSpace(k.mem, k.cr3, x)
    requires |held| <= k.mem.count
    ensures Vfork(k, f).0.current != k.current && Vfork(k, f).1 == f.(rax := 0)
  {
    hide CreateRoot, CloneUserSpace, DestroyUserSpace, InSpace, PidsOk, NoLoose, RootsOk, Inv, EmptyFds, StandardFds;
    RunningRoot(k, g, chain);
    assert Inv(k.mem, g);
    HeldPlaces(k.mem, g, k.cr3, held);
    StackCount(k.mem, g);
    var (m1, root) := CreateRoot(k.mem);
    var g1 := CreateKeeps(k.mem, g);
    Counted(k.mem, g);
    Counted(m1, g1);
    LooseSame(k.mem, g, m1, g1);
    assert g1.at.Keys == g.at.Keys + {Root(root)};
    assert Places(g1, k.cr3) == Places(g, k.cr3);
    CloneSucceeds(m1, g1, k.cr3, root);
  }

  lemma StackCount(m: Mem, g: Ledger)
    requires Inv(m, g)
    ensures m.count == |g.stack|
  {
  }

  lemma HeldPlaces(m: Mem, g: Ledger, root: nat, held: set<nat>)
    requires Inv(m, g) && Root(root) in g.at && forall x: nat :: x in held <==> InSpace(m, root, x)
    ensures |held| == |Places(g, root)| && |held| > 0
  {
    hide InSpace, StackOk;
    var at := map x | x in Places(g, root) :: g.at[x];
    forall x | x in at ensures g.at[x] in g.owner && g.owner[g.at[x]] == Tree(x) {
      assert NodeOk(m, g, x);
    }
    MapSize(at);
    hide Inv;
    forall f: nat ensures f in held <==> f in at.Values {
      InSpaceIsLedger(m, g, root, f);
      TreeFrames(m, g, f);
      if f in held {
        assert at[g.owner[f].node] == f;
      }
    }
    assert at.Keys == Places(g, root) && at.Values == held;
    assert Root(root) in Places(g, root);
  }

  // ----- when mapping succeeds -----

  /** A mapping adds at most the four places below the root of its walk. */
  lemma PathCount(m: Mem, g: Ledger, m': Mem, g': Ledger, root: nat, page: nat)
    requires Inv(m, g) && Inv(m', g') && Root(root) in g.at && SameFrames(m, g, m', g') && LooseKept(m, g, m', g', {})
    requires Grows(g, g', root) && AddsOnPath(g, g', root, page)
    ensures |g'.stack| >= |g.stack| - 4
    ensures Leaf(root, page) !in g'.at && TableAt(root, page, 3) !in g'.at ==> |g'.stack| >= |g.stack| - 2
    ensures Leaf(root, page) !in g'.at ==> |g'.stack| >= |g.stack| - 3
  {
    hide Inv, Leaf, Index;
    Counted(m, g);
    Counted(m', g');
    LooseSame(m, g, m', g');
    var t1, t2, t3, leaf := TableAt(root, page, 1), TableAt(root, page, 2), TableAt(root, page, 3), Leaf(root, page);
    var added := g'.at.Keys - g.at.Keys;
    assert g'.at.Keys == g.at.Keys + added;
    forall x | x in added ensures x in {t1, t2, t3, leaf} {
      assert OnPath(x, root, page);
      assert x != Root(root);
    }
    Smaller(added, {t1, t2, t3, leaf});
    if leaf !in g'.at {
      Smaller(added, {t1, t2, t3});
      if t3 !in g'.at {
        Smaller(added, {t1, t2});
      }
    }
  }

  /** With four frames to spare an unmapped page can be mapped. */
  lemma PageSucceeds(m: Mem, g: Ledger, root: nat, page: nat, flags: nat) returns (g': Ledger)
    requires Inv(m, g) && Root(root) in g.at && page < USER_PAGES && flags < 4096
    requires |g.stack| >= 4 && Leaf(root, page) !in g.at
    ensures var (m', ok) := MapUserPage(m, root, page, flags);
            && ok && Inv(m', g') && Root(root) in g'.at && |g'.stack| >= |g.stack| - 4
            && Leaf(root, page) in g'.at && g.at.Keys <= g'.at.Keys
            && forall p: nat :: p < USER_PAGES && p != page && Leaf(root, p) !in g.at ==> Leaf(root, p) !in g'.at
  {
    hide MapFresh, Inv, Leaf, View, LeafFlags, Entry, AddsOnPath, Index;
    g' := FreshKeeps(m, g, root, page, ZeroPage(), UserFlags(flags));
    var (m', ok) := MapUserPage(m, root, page, flags);
    PathCount(m, g, m', g', root, page);
    ViewIsMapped(m', g', Leaf(root, page));
    forall p: nat | p < USER_PAGES && p != page && Leaf(root, p) !in g.at ensures Leaf(root, p) !in g'.at {
      OtherLeaf(g, g', root, page, p);
    }
  }

  lemma ViewIsMapped(m: Mem, g: Ledger, leaf: Node)
    requires View(m, g, leaf).Some?
    ensures leaf in g.at
  {
  }

  lemma OtherLeaf(g: Ledger, g': Ledger, root: nat, page: nat, p: nat)
    requires AddsOnPath(g, g', root, page) && page < USER_PAGES && p < USER_PAGES && p != page && Leaf(root, p) !in g.at
    ensures Leaf(root, p) !in g'.at
  {
    hide Index;
    LeafInjective(root, p, page);
  }

  /** With four frames for each page a range of unmapped pages can be mapped. */
  lemma {:induction false} PagesSucceed(m: Mem, g: Ledger, root: nat, page: nat, end: nat, flags: nat) returns (g': Ledger)
    requires Inv(m, g) && Root(root) in g.at && end <= USER_PAGES && flags < 4096
    requires |g.stack| >= 4 * (end - page) && forall p: nat :: page <= p < end ==> Leaf(root, p) !in g.at
    ensures var (m', ok) := MapPages(m, root, page, end, flags);
            && ok && Inv(m', g') && Root(root) in g'.at
            && (if page < end then |g'.stack| >= |g.stack| - 4 * (end - page) else g' == g)
            && (forall p: nat :: page <= p < end || Leaf(root, p) in g.at ==> Leaf(root, p) in g'.at)
            && (forall p: nat :: p < USER_PAGES && !(page <= p < end) && Leaf(root, p) !in g.at ==> Leaf(root, p) !in g'.at)
    decreases end - page
  {
    hide Inv, Leaf, MapUserPage;
    g' := g;
    if page < end {
      var g1 := PageSucceeds(m, g, root, page, flags);
      g' := PagesSucceed(MapUserPage(m, root, page, flags).0, g1, root, page + 1, end, flags);
    }
  }

  /** brk grants a break in its range when the new pages are unmapped and the free list holds four frames for
      each of them. */
  lemma BrkSucceeds(k: Kernel, g: Ledger, chain: seq<nat>, f: Frame, request: Word)
    requires KernelOk(k, g, chain) && !k.halted && 0 < request < 0x1000_0000 && Current(k).brk <= request
    requires var first, end := (Current(k).brk + 4095) / 4096, (request + 4095) / 4096;
             && 4 * (end - first) <= k.mem.count
             && forall p: nat :: first <= p < end ==> Lookup(k.mem, k.cr3, p).None?
    ensures Current(Brk(k, f, request).0).brk == request && Brk(k, f, request).1 == f.(rax := request)
  {
    hide MapPages, Inv, Leaf, Lookup, PidsOk, NoLoose, RootsOk, ChainOk;
    RunningRoot(k, g, chain);
    assert Inv(k.mem, g);
    StackCount(k.mem, g);
    var first, end := (Current(k).brk + 4095) / 4096, (request + 4095) / 4096;
    forall p: nat | first <= p < end ensures Leaf(k.cr3, p) !in g.at {
      LookupAgrees(k.mem, g, k.cr3, p);
    }
    var _ := PagesSucceed(k.mem, g, k.cr3, first, end, 2);
  }
}
