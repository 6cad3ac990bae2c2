/**
 Who owns each frame.  The kernel keeps no such record: it is the reason why the
 functions of module Paging are right.  A ledger gives every usable frame exactly one
 owner (a place on the free list, a place in one page-table tree, or "loose" between an
 allocation and the store that attaches it), and the invariant ties the ledger to the
 words in memory.
 */
module Ownership {
  import opened Paging

  /** A place in a page-table tree: the PML4 in frame `frame`, or slot `index` of a table.
      Depth 4 is a user data page. */
  datatype Node = Root(frame: nat) | Step(up: Node, index: nat) {
    function Child(i: nat): (c: Node)
      ensures Depth(c) == Depth(this) + 1 && SpaceOf(c) == SpaceOf(this)
    {
      Step(this, i)
    }
  }

  function Depth(n: Node): (d: nat) {
    match n case Root(_) => 0 case Step(u, _) => 1 + Depth(u)
  }

  function SpaceOf(n: Node): (f: nat) {
    match n case Root(f) => f case Step(u, _) => SpaceOf(u)
  }

  function PageOf(n: Node): (p: nat) {
    match n case Root(_) => 0 case Step(u, i) => PageOf(u) * 512 + i
  }

  /** The table that the walk for `page` reads at this level. */
  function TableAt(root: nat, page: nat, level: nat): (n: Node)
    requires level < 4
    ensures Depth(n) == level && SpaceOf(n) == root
  {
    if level == 0 then Root(root) else TableAt(root, page, level - 1).Child(Index(page, level - 1))
  }

  function Leaf(root: nat, page: nat): (n: Node)
    ensures Depth(n) == 4 && SpaceOf(n) == root
  {
    TableAt(root, page, 3).Child(Index(page, 3))
  }

  datatype Owner = Free(pos: nat) | Loose | Tree(node: Node)

  /** `stack` is the free list, bottom first; `at` gives the frame of each tree place. */
  datatype Ledger = Ledger(stack: seq<nat>, at: map<Node, nat>, owner: map<nat, Owner>)

  /** A frame whose number fits a table entry and whose address in the direct map does not wrap around. */
  predicate Addressable(hhdm: Word, f: nat) {
    0 < f < FRAME_LIMIT && 4096 * f + hhdm < WORD_LIMIT
  }

  ghost predicate OwnerOk(m: Mem, g: Ledger) {
    && m.kernel !in g.owner
    && forall f {:trigger OwnsBack(g, f)} :: f in g.owner ==> Addressable(m.hhdm, f) && OwnsBack(g, f)
  }

  ghost predicate OwnsBack(g: Ledger, f: nat)
    requires f in g.owner
  {
    match g.owner[f]
    case Free(i) => i < |g.stack| && g.stack[i] == f
    case Loose => true
    case Tree(n) => n in g.at && g.at[n] == f
  }

  /** The link stored in the free frame above the first i frames of the stack. */
  ghost function LinkTo(hhdm: Word, stack: seq<nat>, i: nat): Word
    requires i <= |stack|
  {
    if i == 0 then 0 else PhysToVirt(hhdm, stack[i - 1])
  }

  ghost predicate StackOk(m: Mem, g: Ledger) {
    && m.count == |g.stack|
    && m.head == LinkTo(m.hhdm, g.stack, |g.stack|)
    && forall i {:trigger FreeAt(m, g, i)} :: 0 <= i < |g.stack| ==> FreeAt(m, g, i)
  }

  ghost predicate FreeAt(m: Mem, g: Ledger, i: nat)
    requires i < |g.stack|
  {
    && g.stack[i] in g.owner
    && g.owner[g.stack[i]] == Free(i)
    && Get(m, g.stack[i])[0] == LinkTo(m.hhdm, g.stack, i)
  }

  /** A slot holds a present entry exactly for the places the ledger knows, pointing at
      their frame; entries that lead to tables are present, writable and open to user mode. */
  ghost predicate SlotOk(m: Mem, g: Ledger, n: Node, i: nat)
    requires n in g.at && i < 512
  {
    var e := Get(m, g.at[n])[i];
    if Present(e) then Step(n, i) in g.at && FrameOf(e) == g.at[Step(n, i)] && (Depth(n) < 3 ==> e % 8 == 7)
    else Step(n, i) !in g.at
  }

  ghost predicate NodeOk(m: Mem, g: Ledger, n: Node)
    requires n in g.at
  {
    && g.at[n] in g.owner && g.owner[g.at[n]] == Tree(n)
    && Depth(n) <= 4
    && (n.Step? ==> n.up in g.at && n.index < Fanout(Depth(n.up)))
    && (n.Root? ==> n.frame == g.at[n] && SharesKernelHalf(m, g.at[n]))
    && (Depth(n) < 4 ==> forall i :: 0 <= i < Fanout(Depth(n)) ==> SlotOk(m, g, n, i))
  }

  /** The upper half of a PML4 is that of the boot PML4. */
  ghost predicate SharesKernelHalf(m: Mem, f: nat) {
    forall i :: 256 <= i < 512 ==> Get(m, f)[i] == Get(m, m.kernel)[i]
  }

  ghost predicate TreeOk(m: Mem, g: Ledger) {
    forall n {:trigger NodeOk(m, g, n)} :: n in g.at ==> NodeOk(m, g, n)
  }

  ghost predicate Inv(m: Mem, g: Ledger) {
    OwnerOk(m, g) && StackOk(m, g) && TreeOk(m, g)
  }

  // ----- framing -----

  lemma TreeFrame(m: Mem, g: Ledger, m': Mem, g': Ledger)
    requires TreeOk(m, g) && g'.at == g.at && m'.kernel == m.kernel
    requires Get(m', m.kernel) == Get(m, m.kernel)
    requires forall n <- g.at :: g.at[n] in g'.owner && g'.owner[g.at[n]] == Tree(n)
    requires forall n <- g.at :: Depth(n) < 4 ==> Get(m', g.at[n]) == Get(m, g.at[n])
    ensures TreeOk(m', g')
  {
    forall n | n in g'.at ensures NodeOk(m', g', n) {
      assert NodeOk(m, g, n);
      if Depth(n) < 4 {
        forall i | 0 <= i < Fanout(Depth(n)) ensures SlotOk(m', g', n, i) {
          assert SlotOk(m, g, n, i);
        }
      }
    }
  }

  lemma LinksInvert(hhdm: Word, f: nat)
    requires Addressable(hhdm, f)
    ensures VirtToPhys(hhdm, PhysToVirt(hhdm, f)) == f && PhysToVirt(hhdm, f) != 0
  {
    assert PhysToVirt(hhdm, f) == 4096 * f + hhdm;
  }

  lemma LowBits(x: nat, flags: nat)
    ensures (8 * x + flags) % 8 == flags % 8
  {
  }

  lemma EntryParts(f: nat, flags: nat)
    requires f < FRAME_LIMIT && flags < 4096
    ensures FrameOf(Entry(f, flags)) == f && FlagsOf(Entry(f, flags)) == flags
    ensures Present(Entry(f, flags)) == (flags % 2 == 1) && Entry(f, flags) % 8 == flags % 8
  {
    assert Entry(f, flags) == 4096 * f + flags;
    assert (4096 * f + flags) / 4096 == f;
    assert (4096 * f + flags) % 4096 == flags;
    LowBits(512 * f, flags);
    assert Entry(f, flags) == 8 * (512 * f) + flags;
  }

  // ----- allocation and release -----

  ghost function Taken(g: Ledger): Ledger
    requires |g.stack| > 0
  {
    var n := |g.stack| - 1;
    Ledger(g.stack[..n], g.at, g.owner[g.stack[n] := Loose])
  }

  ghost function Given(g: Ledger, f: nat): Ledger {
    Ledger(g.stack + [f], g.at, g.owner[f := Free(|g.stack|)])
  }

  /** Every allocation is a zeroed frame off the list, and 0 means the list is empty. */
  lemma AllocKeeps(m: Mem, g: Ledger)
    requires Inv(m, g)
    ensures var (m', f) := AllocFrame(m);
            if |g.stack| == 0 then f == 0 && m' == m
            else
              && f != 0 && f == g.stack[|g.stack| - 1] && f in g.owner && g.owner[f].Free?
              && Inv(m', Taken(g)) && Get(m', f) == ZeroPage()
              && forall x: nat :: x != f ==> Get(m', x) == Get(m, x)
  {
    hide PhysToVirt, VirtToPhys, FrameOf;
    if |g.stack| > 0 {
      var n := |g.stack| - 1;
      var f := g.stack[n];
      assert FreeAt(m, g, n) && OwnsBack(g, f);
      LinksInvert(m.hhdm, f);
      var m' := AllocFrame(m).0;
      var g' := Taken(g);
      forall i | 0 <= i < |g'.stack| ensures FreeAt(m', g', i) {
        assert FreeAt(m, g, i);
      }
      forall n | n in g.at
        ensures g.at[n] in g'.owner && g'.owner[g.at[n]] == Tree(n) && g.at[n] != f
      {
        assert NodeOk(m, g, n);
      }
      TreeFrame(m, g, m', g');
      forall x | x in g'.owner ensures Addressable(m.hhdm, x) && OwnsBack(g', x) {
        assert OwnsBack(g, x);
      }
    }
  }

  lemma FreeKeeps(m: Mem, g: Ledger, f: nat)
    requires Inv(m, g) && f in g.owner && g.owner[f] == Loose
    ensures Inv(FreeFrame(m, f), Given(g, f))
    ensures forall x: nat :: x != f ==> Get(FreeFrame(m, f), x) == Get(m, x)
  {
    hide PhysToVirt;
    var m', g' := FreeFrame(m, f), Given(g, f);
    assert OwnsBack(g, f);
    forall i | 0 <= i < |g'.stack| ensures FreeAt(m', g', i) {
      if i < |g.stack| {
        assert FreeAt(m, g, i);
      }
    }
    forall n | n in g.at
      ensures g.at[n] in g'.owner && g'.owner[g.at[n]] == Tree(n) && g.at[n] != f
    {
      assert NodeOk(m, g, n);
    }
    TreeFrame(m, g, m', g');
    forall x | x in g'.owner ensures Addressable(m.hhdm, x) && OwnsBack(g', x) {
      assert OwnsBack(g, x);
    }
  }

  /** Words of loose frames and of user data pages can be written freely. */
  lemma WriteKeeps(m: Mem, g: Ledger, f: nat, p: Page)
    requires Inv(m, g) && f in g.owner
    requires g.owner[f].Loose? || (g.owner[f].Tree? && Depth(g.owner[f].node) == 4)
    ensures Inv(Put(m, f, p), g)
  {
    var m' := Put(m, f, p);
    forall x | x in g.owner ensures Addressable(m.hhdm, x) && OwnsBack(g, x) {
      assert OwnsBack(g, x);
    }
    forall i | 0 <= i < |g.stack| ensures FreeAt(m', g, i) {
      assert FreeAt(m, g, i);
    }
    forall n | n in g.at
      ensures g.at[n] in g.owner && g.owner[g.at[n]] == Tree(n) && (Depth(n) < 4 ==> g.at[n] != f)
    {
      assert NodeOk(m, g, n);
    }
    TreeFrame(m, g, m', g);
  }

  // ----- attaching and detaching tree places -----

  ghost function Attached(g: Ledger, n: Node, f: nat): Ledger {
    Ledger(g.stack, g.at[n := f], g.owner[f := Tree(n)])
  }

  ghost function Detached(g: Ledger, n: Node): Ledger
    requires n in g.at
  {
    Ledger(g.stack + [g.at[n]], g.at - {n}, g.owner[g.at[n] := Free(|g.stack|)])
  }

  /** No entry of a table page is present in its user slots. */
  ghost predicate Blank(p: Page, level: nat) {
    forall i :: 0 <= i < Fanout(level) ==> !Present(p[i])
  }

  lemma NoOrphans(m: Mem, g: Ledger, n: Node)
    requires TreeOk(m, g) && n !in g.at
    ensures forall j :: Step(n, j) !in g.at
  {
    forall j ensures Step(n, j) !in g.at {
      assert Step(n, j) in g.at ==> NodeOk(m, g, Step(n, j));
    }
  }

  lemma LooseIsNoPlace(m: Mem, g: Ledger, f: nat)
    requires TreeOk(m, g) && f in g.owner && !g.owner[f].Tree?
    ensures forall n <- g.at :: g.at[n] != f
  {
    forall n | n in g.at ensures g.at[n] != f {
      assert NodeOk(m, g, n);
    }
  }

  /** A place keeps its condition when its page and the places below it stay as they are. */
  lemma NodeFrame(m: Mem, g: Ledger, m': Mem, g': Ledger, x: Node)
    requires x in g.at && NodeOk(m, g, x)
    requires x in g'.at && g'.at[x] == g.at[x] && g.at[x] in g'.owner && g'.owner[g.at[x]] == Tree(x)
    requires x.Step? ==> x.up in g'.at
    requires m'.kernel == m.kernel && Get(m', m.kernel) == Get(m, m.kernel)
    requires Depth(x) < 4 ==> Get(m', g.at[x]) == Get(m, g.at[x])
    requires forall j :: Step(x, j) in g'.at <==> Step(x, j) in g.at
    requires forall j :: Step(x, j) in g.at ==> g'.at[Step(x, j)] == g.at[Step(x, j)]
    ensures NodeOk(m', g', x)
  {
    if Depth(x) < 4 {
      forall i | 0 <= i < Fanout(Depth(x)) ensures SlotOk(m', g', x, i) {
        assert SlotOk(m, g, x, i);
      }
    }
  }

  /** The same for the one table that is written: only slot i may differ. */
  lemma TableFrame(m: Mem, g: Ledger, m': Mem, g': Ledger, x: Node, i: nat)
    requires x in g.at && NodeOk(m, g, x) && Depth(x) < 4 && i < Fanout(Depth(x))
    requires x in g'.at && g'.at[x] == g.at[x] && g.at[x] in g'.owner && g'.owner[g.at[x]] == Tree(x)
    requires x.Step? ==> x.up in g'.at
    requires m'.kernel == m.kernel && Get(m', m.kernel) == Get(m, m.kernel)
    requires forall j :: 0 <= j < 512 && j != i ==> Get(m', g.at[x])[j] == Get(m, g.at[x])[j]
    requires forall j :: j != i ==> (Step(x, j) in g'.at <==> Step(x, j) in g.at)
    requires forall j :: j != i && Step(x, j) in g.at ==> g'.at[Step(x, j)] == g.at[Step(x, j)]
    requires SlotOk(m', g', x, i)
    ensures NodeOk(m', g', x)
  {
    forall j | 0 <= j < Fanout(Depth(x)) ensures SlotOk(m', g', x, j) {
      if j != i {
        assert SlotOk(m, g, x, j);
      }
    }
  }

  /** Storing a present entry for a loose frame in a free slot of a table attaches it. */
  lemma AttachKeeps(m: Mem, g: Ledger, n: Node, i: nat, f: nat, flags: nat)
    requires Inv(m, g) && n in g.at && Depth(n) < 4 && i < Fanout(Depth(n))
    requires !Present(Get(m, g.at[n])[i])
    requires f in g.owner && g.owner[f] == Loose && flags < 4096 && flags % 2 == 1
    requires Depth(n) < 3 ==> Blank(Get(m, f), Depth(n) + 1) && flags % 8 == 7
    ensures Step(n, i) !in g.at
    ensures Inv(PutWord(m, g.at[n], i, Entry(f, flags)), Attached(g, Step(n, i), f))
  {
    assert NodeOk(m, g, n) && SlotOk(m, g, n, i);
    var m', g' := PutWord(m, g.at[n], i, Entry(f, flags)), Attached(g, Step(n, i), f);
    AttachLists(m, g, n, i, f, flags);
    AttachTrees(m, g, n, i, f, flags);
  }

  lemma AttachLists(m: Mem, g: Ledger, n: Node, i: nat, f: nat, flags: nat)
    requires Inv(m, g) && n in g.at && i < 512
    requires f in g.owner && g.owner[f] == Loose && Step(n, i) !in g.at
    ensures var m', g' := PutWord(m, g.at[n], i, Entry(f, flags)), Attached(g, Step(n, i), f);
            OwnerOk(m', g') && StackOk(m', g')
  {
    hide Entry;
    assert NodeOk(m, g, n);
    var m', g' := PutWord(m, g.at[n], i, Entry(f, flags)), Attached(g, Step(n, i), f);
    forall k | 0 <= k < |g'.stack| ensures FreeAt(m', g', k) {
      assert FreeAt(m, g, k);
    }
    forall x | x in g'.owner ensures Addressable(m.hhdm, x) && OwnsBack(g', x) {
      assert OwnsBack(g, x);
    }
  }

  lemma AttachTrees(m: Mem, g: Ledger, n: Node, i: nat, f: nat, flags: nat)
    requires Inv(m, g) && n in g.at && Depth(n) < 4 && i < Fanout(Depth(n))
    requires f in g.owner && g.owner[f] == Loose && flags < 4096 && flags % 2 == 1
    requires Step(n, i) !in g.at
    requires Depth(n) < 3 ==> Blank(Get(m, f), Depth(n) + 1) && flags % 8 == 7
    ensures TreeOk(PutWord(m, g.at[n], i, Entry(f, flags)), Attached(g, Step(n, i), f))
  {
    var c := Step(n, i);
    var m', g' := PutWord(m, g.at[n], i, Entry(f, flags)), Attached(g, Step(n, i), f);
    hide Entry, FrameOf;
    assert NodeOk(m, g, n) && OwnsBack(g, f);
    EntryParts(f, flags);
    LooseIsNoPlace(m, g, f);
    NoOrphans(m, g, c);
    assert m.kernel !in g.owner;
    forall x | x in g'.at ensures NodeOk(m', g', x) {
      if x == c {
        forall j | Depth(c) < 4 && 0 <= j < Fanout(Depth(c)) ensures SlotOk(m', g', c, j) {
        }
      } else if x == n {
        TableFrame(m, g, m', g', n, i);
      } else {
        assert NodeOk(m, g, x);
        NodeFrame(m, g, m', g', x);
      }
    }
  }

  /** Freeing the frame of a childless place and then clearing its slot detaches it. */
  lemma DetachKeeps(m: Mem, g: Ledger, c: Node)
    requires Inv(m, g) && c in g.at && c.Step?
    requires forall j :: Step(c, j) !in g.at
    ensures c.up in g.at && c.index < 512
    ensures Inv(PutWord(FreeFrame(m, g.at[c]), g.at[c.up], c.index, 0), Detached(g, c))
  {
    assert NodeOk(m, g, c) && NodeOk(m, g, c.up);
    DetachLists(m, g, c);
    DetachTrees(m, g, c);
  }

  lemma DetachLists(m: Mem, g: Ledger, c: Node)
    requires Inv(m, g) && c in g.at && c.Step? && c.up in g.at && c.index < 512
    ensures var m' := PutWord(FreeFrame(m, g.at[c]), g.at[c.up], c.index, 0);
            OwnerOk(m', Detached(g, c)) && StackOk(m', Detached(g, c))
  {
    hide PhysToVirt;
    assert NodeOk(m, g, c) && NodeOk(m, g, c.up);
    var f := g.at[c];
    var m', g' := PutWord(FreeFrame(m, f), g.at[c.up], c.index, 0), Detached(g, c);
    assert OwnsBack(g, f);
    forall k | 0 <= k < |g'.stack| ensures FreeAt(m', g', k) {
      if k < |g.stack| {
        assert FreeAt(m, g, k);
      }
    }
    forall x | x in g'.owner ensures Addressable(m.hhdm, x) && OwnsBack(g', x) {
      assert OwnsBack(g, x);
    }
  }

  lemma DetachTrees(m: Mem, g: Ledger, c: Node)
    requires Inv(m, g) && c in g.at && c.Step? && c.up in g.at && c.index < 512
    requires forall j :: Step(c, j) !in g.at
    ensures TreeOk(PutWord(FreeFrame(m, g.at[c]), g.at[c.up], c.index, 0), Detached(g, c))
  {
    hide PhysToVirt, FrameOf;
    var f := g.at[c];
    assert NodeOk(m, g, c) && NodeOk(m, g, c.up) && OwnsBack(g, f);
    var m', g' := PutWord(FreeFrame(m, f), g.at[c.up], c.index, 0), Detached(g, c);
    assert m.kernel !in g.owner;
    forall x | x in g'.at ensures NodeOk(m', g', x) {
      assert NodeOk(m, g, x);
      if x == c.up {
        TableFrame(m, g, m', g', x, c.index);
      } else {
        assert NodeOk(m, g, x);
        NodeFrame(m, g, m', g', x);
      }
    }
  }

  lemma RootAttachKeeps(m: Mem, g: Ledger, f: nat)
    requires Inv(m, g) && f in g.owner && g.owner[f] == Loose
    requires Blank(Get(m, f), 0) && SharesKernelHalf(m, f)
    ensures Root(f) !in g.at
    ensures Inv(m, Attached(g, Root(f), f))
  {
    var g' := Attached(g, Root(f), f);
    assert OwnsBack(g, f);
    LooseIsNoPlace(m, g, f);
    assert Root(f) in g.at ==> NodeOk(m, g, Root(f));
    NoOrphans(m, g, Root(f));
    forall k | 0 <= k < |g'.stack| ensures FreeAt(m, g', k) {
      assert FreeAt(m, g, k);
    }
    forall x | x in g'.owner ensures Addressable(m.hhdm, x) && OwnsBack(g', x) {
      assert OwnsBack(g, x);
    }
    forall x | x in g'.at ensures NodeOk(m, g', x) {
      if x != Root(f) {
        assert NodeOk(m, g, x);
        NodeFrame(m, g, m, g', x);
      }
    }
  }

  lemma RootDetachKeeps(m: Mem, g: Ledger, f: nat)
    requires Inv(m, g) && Root(f) in g.at
    requires forall j :: Step(Root(f), j) !in g.at
    ensures Inv(FreeFrame(m, f), Detached(g, Root(f)))
  {
    hide PhysToVirt, FrameOf;
    assert NodeOk(m, g, Root(f));
    var m', g' := FreeFrame(m, f), Detached(g, Root(f));
    assert OwnsBack(g, f) && m.kernel !in g.owner;
    forall k | 0 <= k < |g'.stack| ensures FreeAt(m', g', k) {
      if k < |g.stack| {
        assert FreeAt(m, g, k);
      }
    }
    forall x | x in g'.owner ensures Addressable(m.hhdm, x) && OwnsBack(g', x) {
      assert OwnsBack(g, x);
    }
    forall x | x in g'.at ensures NodeOk(m', g', x) {
      assert NodeOk(m, g, x);
      NodeFrame(m, g, m', g', x);
    }
  }
}
