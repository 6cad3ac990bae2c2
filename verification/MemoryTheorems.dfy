/**
 The memory manager's guarantees, stated about memory: walks, contents and the free list.
 */
module MemoryTheorems {
  import opened Wrappers
  import opened Paging
  import opened Ownership
  import opened PageTables
  import opened AddressSpaces
  import opened VirtualMemory
  import opened Programs
  import opened Loading
  import opened Processes
  import opened Census
  import Boot

  /** The radix tree refines a flat map: a successful map_page changes what Lookup reports for exactly
      one page of one space, a failed one for none; a mapped page is never overwritten, and a call
      fails only for a mapped page or for want of frames. */
  lemma MapRefinesFlatMap(m: Mem, g: Ledger, root: nat, page: nat, f: nat, flags: nat, root2: nat, q: nat)
    requires Inv(m, g) && Root(root) in g.at && Root(root2) in g.at
    requires page < USER_PAGES && q < USER_PAGES && flags < 4096 && f in g.owner && g.owner[f] == Loose
    ensures var (m', ok) := MapPage(m, root, 4096 * page, 4096 * f, flags);
            && Lookup(m', root2, q) ==
                 (if ok && root2 == root && q == page then Some(Entry(f, LeafFlags(flags))) else Lookup(m, root2, q))
            && (Lookup(m, root, page).Some? ==> !ok)
            && (!ok ==> Lookup(m, root, page).Some? || m'.count == 0)
  {
    hide Lookup, Index, MapPage, Leaf;
    var g' := MapPageKeeps(m, g, root, page, f, flags);
    var (m', ok) := MapPage(m, root, 4096 * page, 4096 * f, flags);
    LookupAgrees(m, g, root, page);
    LookupAgrees(m, g, root2, q);
    LookupAgrees(m', g', root2, q);
    if root2 == root && q != page {
      LeafInjective(root, page, q);
    }
  }

  /** Two mapped pages, of one space or of two, never share a frame. */
  lemma FramesDistinct(m: Mem, g: Ledger, root: nat, p: nat, root2: nat, q: nat)
    requires Inv(m, g) && Root(root) in g.at && Root(root2) in g.at && p < USER_PAGES && q < USER_PAGES
    requires Lookup(m, root, p).Some? && Lookup(m, root2, q).Some? && (root != root2 || p != q)
    ensures FrameOf(Lookup(m, root, p).value) != FrameOf(Lookup(m, root2, q).value)
  {
    hide Lookup, Index;
    LookupAgrees(m, g, root, p);
    LookupAgrees(m, g, root2, q);
    if root == root2 {
      LeafInjective(root, p, q);
    }
    assert NodeOk(m, g, Leaf(root, p)) && NodeOk(m, g, Leaf(root2, q));
  }

  /** A successful clone into an empty user half is a deep copy: the same pages with the same flags and
      bytes, in frames of its own, and the source is untouched. */
  lemma CloneIsDeepCopy(m: Mem, g: Ledger, source: nat, dest: nat, p: nat, q: nat)
    requires Inv(m, g) && Root(source) in g.at && Root(dest) in g.at && source != dest
    requires forall x <- g.at :: SpaceOf(x) == dest ==> x == Root(dest)
    requires p < USER_PAGES && q < USER_PAGES && CloneUserSpace(m, source, dest).1
    ensures var m' := CloneUserSpace(m, source, dest).0;
            && SameCell(Peek(m', dest, p), Peek(m, source, p))
            && Peek(m', source, p) == Peek(m, source, p)
            && (Peek(m', dest, p).Some? && Peek(m', source, q).Some? ==>
                  FrameOf(Peek(m', dest, p).value.entry) != FrameOf(Peek(m', source, q).value.entry))
            && (Peek(m', dest, p).Some? && Peek(m', dest, q).Some? && p != q ==>
                  FrameOf(Peek(m', dest, p).value.entry) != FrameOf(Peek(m', dest, q).value.entry))
  {
    hide Lookup, Index, CloneFrom, View, Leaf;
    FreshIsEmpty(m, g, source, dest);
    assert NodeOk(m, g, Root(source));
    var g' := CloneFromKeeps(m, g, Root(source), 0, dest);
    var m' := CloneUserSpace(m, source, dest).0;
    PeekIsView(m, g, source, p);
    PeekIsView(m', g', source, p);
    PeekIsView(m', g', dest, p);
    CopiedPage(m, g, m, g, m', g', source, dest, p);
    if Lookup(m', dest, p).Some? && Lookup(m', source, q).Some? {
      FramesDistinct(m', g', dest, p, source, q);
    }
    if Lookup(m', dest, p).Some? && Lookup(m', dest, q).Some? && p != q {
      FramesDistinct(m', g', dest, p, dest, q);
    }
  }

  /** The free list holds the same frames in both memories. */
  ghost predicate SameFreeFrames(m: Mem, m': Mem) {
    m'.count == m.count && forall f: nat :: f in FreeList(m') <==> f in FreeList(m)
  }

  lemma UnchangedFree(m: Mem, g: Ledger, m': Mem, g': Ledger)
    requires Inv(m, g) && Inv(m', g') && Unchanged(m, g, m', g')
    ensures SameFreeFrames(m, m')
  {
    hide FreeList, View, LinkAfter;
    forall f: nat ensures f in FreeList(m') <==> f in FreeList(m) {
      OnListIsLedger(m, g, f);
      OnListIsLedger(m', g', f);
      if f in g.owner {
        assert OwnsBack(g, f) && OwnsBack(g', f);
        if g.owner[f].Tree? {
          assert NodeOk(m', g', g.owner[f].node);
        }
        if g'.owner[f].Tree? {
          assert NodeOk(m, g, g'.owner[f].node);
        }
      }
    }
    OnListIsLedger(m, g, 0);
    OnListIsLedger(m', g', 0);
    SameLength(FreeList(m), FreeList(m'));
  }

  lemma SameLength(s: seq<nat>, t: seq<nat>)
    requires forall f: nat :: f in t <==> f in s
    requires forall i, j :: 0 <= i < j < |s| ==> s[i] != s[j]
    requires forall i, j :: 0 <= i < j < |t| ==> t[i] != t[j]
    ensures |s| == |t|
  {
    var u := set f: nat | f in s;
    Boot.DistinctCount(s, u);
    Boot.DistinctCount(t, u);
  }

  /** create, then clone whether it succeeds or fails, then destroy: the free list has the frames it had. */
  lemma CloneThenDestroyRestores(m: Mem, g: Ledger, source: nat)
    requires Inv(m, g) && Root(source) in g.at && CreateRoot(m).1 != 0
    ensures var (m1, root) := CreateRoot(m);
            SameFreeFrames(m, DestroyUserSpace(CloneUserSpace(m1, source, root).0, root))
  {
    hide CreateRoot, CloneFrom, DestroyUserSpace, View, FreeList, Index;
    var (m1, root) := CreateRoot(m);
    var g1 := CreateKeeps(m, g);
    CreateConfined(m, g, m1, g1, root);
    FreshIsEmpty(m1, g1, source, root);
    assert NodeOk(m1, g1, Root(source));
    var g2 := CloneFromKeeps(m1, g1, Root(source), 0, root);
    var m2 := CloneUserSpace(m1, source, root).0;
    GrowsConfined(m1, g1, m2, g2, root);
    ConfinedTrans(m, g, m1, g1, m2, g2, root);
    var g3 := Discard(m, g, m2, g2, root);
    UnchangedFree(m, g, DestroyUserSpace(m2, root), g3);
  }

  /** A failed load leaves the free list with the frames it had and every space showing what it showed. */
  lemma FailedLoadRestores(m: Mem, g: Ledger, req: Request, root: nat, page: nat)
    requires Inv(m, g) && Harmless(req) && LoadProgram(m, req).1.None? && Root(root) in g.at && page < USER_PAGES
    ensures SameFreeFrames(m, LoadProgram(m, req).0)
    ensures Peek(LoadProgram(m, req).0, root, page) == Peek(m, root, page)
  {
    hide LoadProgram, View, FreeList, Inv, SameFreeFrames, Peek, Harmless;
    var m' := LoadProgram(m, req).0;
    var g' := LoadProgramKeeps(m, g, req);
    UnchangedFree(m, g, m', g');
    PeekIsView(m, g, root, page);
    PeekIsView(m', g', root, page);
  }

  /** Destroy puts exactly the frames of this space on the free list, each once, and none of them was there. */
  lemma DestroyFreesSpace(m: Mem, g: Ledger, root: nat, f: nat)
    requires Inv(m, g) && Root(root) in g.at
    ensures var m' := DestroyUserSpace(m, root);
            && (f in FreeList(m') <==> f in FreeList(m) || InSpace(m, root, f))
            && !(f in FreeList(m) && InSpace(m, root, f))
            && |FreeList(m')| == m'.count
            && (forall i, j :: 0 <= i < j < |FreeList(m')| ==> FreeList(m')[i] != FreeList(m')[j])
  {
    hide DestroyUserSpace, FreeList, LinkAfter, InSpace, StackOk;
    var m' := DestroyUserSpace(m, root);
    var g' := DestroyKeeps(m, g, root);
    OnListIsLedger(m, g, f);
    OnListIsLedger(m', g', f);
    InSpaceIsLedger(m, g, root, f);
    if f in g.owner {
      assert OwnsBack(g, f) && OwnsBack(g', f);
      assert g.owner[f].Tree? && g.owner[f].node in g'.at ==> NodeOk(m', g', g.owner[f].node);
      assert g'.owner[f].Tree? ==> NodeOk(m, g, g'.owner[f].node);
    }
  }

  /** Other spaces show what they showed. */
  lemma DestroyKeepsOthers(m: Mem, g: Ledger, root: nat, other: nat, page: nat)
    requires Inv(m, g) && Root(root) in g.at && Root(other) in g.at && other != root && page < USER_PAGES
    ensures Peek(DestroyUserSpace(m, root), other, page) == Peek(m, other, page)
  {
    hide DestroyUserSpace, Peek, View, StackOk;
    var m' := DestroyUserSpace(m, root);
    var g' := DestroyKeeps(m, g, root);
    assert SpaceOf(Root(other)) == other;
    PeekIsView(m, g, other, page);
    PeekIsView(m', g', other, page);
    DestroyViews(m, g, m', g', root, Leaf(other, page));
  }

  /** Destroy leaves the kernel's half alone: every frame outside the usable memory (the boot PML4 and the
      kernel tables under it among them) and every other PML4 keeps its contents. */
  lemma DestroyKeepsKernelHalf(m: Mem, g: Ledger, root: nat)
    requires Inv(m, g) && Root(root) in g.at
    ensures var m' := DestroyUserSpace(m, root);
            && (forall f: nat :: f !in g.owner ==> Get(m', f) == Get(m, f))
            && Get(m', m.kernel) == Get(m, m.kernel)
            && forall other: nat :: Root(other) in g.at && other != root ==>
                 Get(m', other) == Get(m, other) && SharesKernelHalf(m', other)
  {
    hide DestroyUserSpace, StackOk;
    var m' := DestroyUserSpace(m, root);
    var g' := DestroyKeeps(m, g, root);
    forall other: nat | Root(other) in g.at && other != root
      ensures Get(m', other) == Get(m, other) && SharesKernelHalf(m', other)
    {
      assert SpaceOf(Root(other)) == other;
      assert NodeOk(m, g, Root(other)) && NodeOk(m', g', Root(other));
    }
  }
}
