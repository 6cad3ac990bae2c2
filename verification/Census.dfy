/**
 Frame accounting in terms of memory alone: the frames a free-list walk meets, the frames
 a page-table walk meets, and who holds what.
 */
module Census {
  import opened Wrappers
  import opened Paging
  import opened Ownership
  import opened PageTables
  import opened AddressSpaces

  // ----- the free list as its links -----

  /** The frames met by following n links from `link`. */
  ghost function ListFrom(m: Mem, link: Word, n: nat): (s: seq<nat>)
    decreases n
  {
    if n == 0 then [] else [VirtToPhys(m.hhdm, link)] + ListFrom(m, Get(m, VirtToPhys(m.hhdm, link))[0], n - 1)
  }

  /** The pointer after n links. */
  ghost function LinkAfter(m: Mem, link: Word, n: nat): (w: Word)
    decreases n
  {
    if n == 0 then link else LinkAfter(m, Get(m, VirtToPhys(m.hhdm, link))[0], n - 1)
  }

  ghost function FreeList(m: Mem): (s: seq<nat>) {
    if m.count < 0 then [] else ListFrom(m, m.head, m.count)
  }

  lemma {:induction false} ListIsStack(m: Mem, g: Ledger, n: nat)
    requires Inv(m, g) && n <= |g.stack|
    ensures ListFrom(m, LinkTo(m.hhdm, g.stack, n), n) == Reversed(g.stack[..n])
    ensures LinkAfter(m, LinkTo(m.hhdm, g.stack, n), n) == 0
  {
    hide VirtToPhys, PhysToVirt;
    if n > 0 {
      var f := g.stack[n - 1];
      assert FreeAt(m, g, n - 1) && OwnsBack(g, f);
      LinksInvert(m.hhdm, f);
      ListIsStack(m, g, n - 1);
      assert g.stack[..n][..n - 1] == g.stack[..n - 1];
    }
  }

  // ----- page-table trees as their entries -----

  /** The walk below table `t` meets frame f: t itself, a table under it or a user page. */
  ghost predicate Meets(m: Mem, t: nat, level: nat, f: nat)
    requires level < 4
    decreases 4 - level
  {
    f == t || exists i :: 0 <= i < Fanout(level) && Present(Get(m, t)[i])
                          && (if level == 3 then f == FrameOf(Get(m, t)[i])
                              else Meets(m, FrameOf(Get(m, t)[i]), level + 1, f))
  }

  /** What the walk meets is what the ledger records at or below the place. */
  lemma {:induction false} MeetsIsLedger(m: Mem, g: Ledger, n: Node, f: nat)
    requires Inv(m, g) && n in g.at && Depth(n) < 4
    ensures Meets(m, g.at[n], Depth(n), f) ==> f in g.owner && g.owner[f].Tree? && (g.owner[f].node == n || Below(g.owner[f].node, n))
    decreases 4 - Depth(n)
  {
    hide FrameOf;
    assert NodeOk(m, g, n);
    if Meets(m, g.at[n], Depth(n), f) && f != g.at[n] {
      var i :| 0 <= i < Fanout(Depth(n)) && Present(Get(m, g.at[n])[i])
               && (if Depth(n) == 3 then f == FrameOf(Get(m, g.at[n])[i])
                   else Meets(m, FrameOf(Get(m, g.at[n])[i]), Depth(n) + 1, f));
      WalkStep(m, g, n, i);
      var c := n.Child(i);
      assert NodeOk(m, g, c);
      if Depth(n) == 3 {
        BelowChild(c, n, i);
      } else {
        MeetsIsLedger(m, g, c, f);
        BelowChild(g.owner[f].node, n, i);
      }
    }
  }

  lemma {:induction false} LedgerIsMet(m: Mem, g: Ledger, n: Node, x: Node)
    requires Inv(m, g) && x in g.at && n in g.at && Depth(n) < 4 && (x == n || Below(x, n))
    ensures Meets(m, g.at[n], Depth(n), g.at[x])
    decreases Depth(x) - Depth(n)
  {
    hide FrameOf;
    if x != n {
      var c := ChildToward(m, g, n, x);
      assert NodeOk(m, g, c);
      WalkStep(m, g, n, c.index);
      if Depth(n) == 3 {
        assert NodeOk(m, g, x);
        LeafIsChild(x, n, c);
      } else {
        if x != c {
          BelowDepth(x, c);
        }
        LedgerIsMet(m, g, c, x);
      }
      assert Present(Get(m, g.at[n])[c.index]);
    }
  }

  lemma {:induction false} LeafIsChild(x: Node, n: Node, c: Node)
    requires Depth(x) <= 4 && Depth(n) == 3 && c.Step? && c.up == n && (x == c || Below(x, c))
    ensures x == c
  {
    if x != c {
      BelowDepth(x, c);
    }
  }

  /** The child of n on the way down to x. */
  lemma {:induction false} ChildToward(m: Mem, g: Ledger, n: Node, x: Node) returns (c: Node)
    requires TreeOk(m, g) && x in g.at && Below(x, n)
    ensures c in g.at && c.Step? && c.up == n && (x == c || Below(x, c))
    decreases x
  {
    assert NodeOk(m, g, x);
    if x.up == n {
      c := x;
    } else {
      c := ChildToward(m, g, n, x.up);
    }
  }

  /** Frame f belongs to the address space rooted at `root`. */
  ghost predicate InSpace(m: Mem, root: nat, f: nat) {
    Meets(m, root, 0, f)
  }

  lemma InSpaceIsLedger(m: Mem, g: Ledger, root: nat, f: nat)
    requires Inv(m, g) && Root(root) in g.at
    ensures InSpace(m, root, f) <==> f in g.owner && g.owner[f].Tree? && SpaceOf(g.owner[f].node) == root
  {
    var r := Root(root);
    assert NodeOk(m, g, r);
    MeetsIsLedger(m, g, r, f);
    if f in g.owner && g.owner[f].Tree? {
      var x := g.owner[f].node;
      assert OwnsBack(g, f);
      SpaceIsBelowRoot(x, root);
      if SpaceOf(x) == root {
        LedgerIsMet(m, g, r, x);
      }
    }
  }

  lemma StackOwners(m: Mem, g: Ledger, f: nat)
    requires Inv(m, g)
    ensures f in Reversed(g.stack) <==> f in g.owner && g.owner[f].Free?
    ensures forall i, j :: 0 <= i < j < |g.stack| ==> Reversed(g.stack)[i] != Reversed(g.stack)[j]
  {
    hide Reversed, PhysToVirt;
    var n, l := |g.stack|, Reversed(g.stack);
    if f in l {
      var i :| 0 <= i < n && l[i] == f;
      assert FreeAt(m, g, n - 1 - i);
    }
    if f in g.owner && g.owner[f].Free? {
      assert OwnsBack(g, f);
      assert l[n - 1 - g.owner[f].pos] == f;
    }
    forall i, j | 0 <= i < j < n ensures l[i] != l[j] {
      assert FreeAt(m, g, n - 1 - i) && FreeAt(m, g, n - 1 - j);
    }
  }

  lemma OnListIsLedger(m: Mem, g: Ledger, f: nat)
    requires Inv(m, g)
    ensures f in FreeList(m) <==> f in g.owner && g.owner[f].Free?
    ensures |FreeList(m)| == m.count && LinkAfter(m, m.head, m.count) == 0
    ensures forall i, j :: 0 <= i < j < |FreeList(m)| ==> FreeList(m)[i] != FreeList(m)[j]
  {
    hide ListFrom, LinkAfter, Reversed, PhysToVirt;
    var n := |g.stack|;
    ListIsStack(m, g, n);
    assert g.stack[..n] == g.stack;
    StackOwners(m, g, f);
  }

  /** What a space shows at a page, from memory alone. */
  function Peek(m: Mem, root: nat, page: nat): (c: Option<Cell>) {
    match Lookup(m, root, page)
    case None => None
    case Some(e) => Some(Cell(e, Get(m, FrameOf(e))))
  }

  lemma PeekIsView(m: Mem, g: Ledger, root: nat, page: nat)
    requires Inv(m, g) && Root(root) in g.at && page < USER_PAGES
    ensures Peek(m, root, page) == View(m, g, Leaf(root, page))
  {
    hide Lookup, Index;
    LookupAgrees(m, g, root, page);
  }

  // ----- the kernel half -----

  /** The tables the boot PML4 leads to for this page are not memory the allocator hands out. */
  predicate WalkReserved(m: Mem, page: nat, usable: set<nat>) {
    var e0 := Get(m, m.kernel)[Index(page, 0)];
    if !Present(e0) then true else
    var e1 := Get(m, FrameOf(e0))[Index(page, 1)];
    if !Present(e1) then FrameOf(e0) !in usable else
    var e2 := Get(m, FrameOf(e1))[Index(page, 2)];
    FrameOf(e0) !in usable && FrameOf(e1) !in usable && (Present(e2) ==> FrameOf(e2) !in usable)
  }

  /** As long as only usable memory changes, every PML4 leads to the kernel's pages as the boot PML4 did. */
  lemma KernelWalkKept(m: Mem, m': Mem, g': Ledger, root: nat, page: nat)
    requires Inv(m', g') && Root(root) in g'.at && Untouched(m, m', g'.owner.Keys) && m'.kernel == m.kernel
    requires Index(page, 0) >= 256 && WalkReserved(m, page, g'.owner.Keys)
    ensures Lookup(m', root, page) == Lookup(m, m.kernel, page)
  {
    hide StackOk, Index, FrameOf;
    assert NodeOk(m', g', Root(root));
    assert Get(m', root)[Index(page, 0)] == Get(m', m.kernel)[Index(page, 0)];
    assert Get(m', m.kernel) == Get(m, m.kernel);
  }
}
