/**
 mm/mm.c as it is written: one object whose memory words are read and written in place.
 Every method is proved equal to the function of module Paging that specifies it.
 */
module MemoryManager {
  import opened Wrappers
  import opened Paging
  import opened Ownership
  import opened PageTables
  import opened AddressSpaces
  import opened VirtualMemory

  class Manager {
    var ram: map<nat, Page>
    var head: Word
    var count: int
    const hhdm: Word
    const kernel: nat

    constructor (ram: map<nat, Page>, hhdm: Word, kernel: nat)
      ensures State() == Mem(ram, 0, 0, hhdm, kernel)
    {
      this.ram, this.head, this.count, this.hhdm, this.kernel := ram, 0, 0, hhdm, kernel;
    }

    function State(): (m: Mem)
      reads this
    {
      Mem(ram, head, count, hhdm, kernel)
    }

    method Peek(f: nat) returns (p: Page)
      ensures p == Get(State(), f)
    {
      p := if f in ram then ram[f] else ZeroPage();
    }

    method WriteWord(f: nat, i: nat, w: Word)
      requires i < 512
      modifies this`ram
      ensures State() == PutWord(old(State()), f, i, w)
    {
      var p := Peek(f);
      ram := ram[f := p[i := w]];
    }

    /** memcpy to a physical address. */
    method CopyBytes(pa: nat, bytes: seq<Byte>)
      modifies this`ram
      ensures State() == PutBytes(old(State()), pa, bytes)
    {
      hide SetPageByte;
      var i := 0;
      while i < |bytes|
        invariant i <= |bytes|
        invariant PutBytes(State(), pa + i, bytes[i..]) == PutBytes(old(State()), pa, bytes)
      {
        var at := pa + i;
        var p := Peek(at / 4096);
        ram := ram[at / 4096 := SetPageByte(p, at % 4096, bytes[i])];
        assert bytes[i..][1..] == bytes[i + 1..];
        i := i + 1;
      }
    }

    // ----- frame allocator -----

    method AllocFrame() returns (f: nat)
      modifies this
      ensures (State(), f) == Paging.AllocFrame(old(State()))
    {
      if head == 0 {
        return 0;
      }
      f := VirtToPhys(hhdm, head);
      var p := Peek(f);
      head := p[0];
      count := count - 1;
      ram := ram[f := ZeroPage()];
    }

    method FreeFrame(f: nat)
      modifies this
      ensures State() == Paging.FreeFrame(old(State()), f)
    {
      if f == 0 {
        return;
      }
      WriteWord(f, 0, head);
      head := PhysToVirt(hhdm, f);
      count := count + 1;
    }

    /** base and length are in bytes. */
    method AddUsableRange(base: nat, length: nat)
      modifies this
      ensures State() == AddFrames(old(State()), (base + 4095) / 4096, (base + length) / 4096)
    {
      var frame, end := (base + 4095) / 4096, (base + length) / 4096;
      while frame < end
        invariant AddFrames(State(), frame, end) == AddFrames(old(State()), (base + 4095) / 4096, end)
      {
        FreeFrame(frame);
        frame := frame + 1;
      }
    }

    // ----- tables -----

    method CreateKernelMappedPml4() returns (root: nat)
      modifies this
      ensures (State(), root) == CreateRoot(old(State()))
    {
      root := AllocFrame();
      if root == 0 {
        return;
      }
      ghost var m1 := State();
      ghost var own, shared := Get(m1, root), Get(m1, kernel);
      HalfCopyEnds(own, shared);
      assert m1.ram[root := own] == m1.ram;
      var i := 256;
      while i < 512
        invariant 256 <= i <= 512
        invariant State() == Put(m1, root, HalfCopy(own, shared, i))
      {
        hide HalfCopy;
        var p := Peek(kernel);
        HalfCopyStep(own, shared, i);
        WriteWord(root, i, p[i]);
        i := i + 1;
      }
    }

    method EnsureNextTable(table: nat, i: nat, flags: nat) returns (next: Option<nat>)
      requires i < 512
      modifies this
      ensures (State(), next) == EnsureNext(old(State()), table, i, flags)
    {
      var p := Peek(table);
      if !Present(p[i]) {
        var f := AllocFrame();
        if f == 0 {
          return None;
        }
        WriteWord(table, i, Entry(f, TableFlags(flags)));
      }
      p := Peek(table);
      next := Some(FrameOf(p[i]));
    }

    method MapPage(root: nat, va: nat, pa: nat, flags: nat) returns (ok: bool)
      modifies this
      ensures (State(), ok) == Paging.MapPage(old(State()), root, va, pa, flags)
    {
      hide Index, FrameOf, Entry, EnsureNext;
      if va % 4096 != 0 || pa % 4096 != 0 {
        return false;
      }
      var page := va / 4096;
      ghost var m0 := State();
      assert Descend(m0, root, page, 0, flags) == (m0, Some(root));
      var pdpt := EnsureNextTable(root, Index(page, 0), flags);
      assert Descend(m0, root, page, 1, flags) == (State(), pdpt);
      if pdpt.None? {
        assert Descend(m0, root, page, 2, flags) == (State(), None);
        return false;
      }
      var pd := EnsureNextTable(pdpt.value, Index(page, 1), flags);
      assert Descend(m0, root, page, 2, flags) == (State(), pd);
      if pd.None? {
        return false;
      }
      var pt := EnsureNextTable(pd.value, Index(page, 2), flags);
      if pt.None? {
        return false;
      }
      var p := Peek(pt.value);
      if Present(p[Index(page, 3)]) {
        return false;
      }
      WriteWord(pt.value, Index(page, 3), Entry(pa / 4096, LeafFlags(flags)));
      ok := true;
    }

    method Translate(root: nat, va: nat) returns (pa: Option<nat>)
      ensures pa == Paging.Translate(State(), root, va)
    {
      var page := va / 4096;
      var t := Peek(root);
      if !Present(t[Index(page, 0)]) {
        return None;
      }
      t := Peek(FrameOf(t[Index(page, 0)]));
      if !Present(t[Index(page, 1)]) {
        return None;
      }
      t := Peek(FrameOf(t[Index(page, 1)]));
      if !Present(t[Index(page, 2)]) {
        return None;
      }
      t := Peek(FrameOf(t[Index(page, 2)]));
      if !Present(t[Index(page, 3)]) {
        return None;
      }
      pa := Some(4096 * FrameOf(t[Index(page, 3)]) + va % 4096);
    }

    // ----- clone: one method for the loop that the source nests four deep -----

    method CloneUserSpace(source: nat, dest: nat) returns (ok: bool)
      modifies this
      ensures (State(), ok) == Paging.CloneUserSpace(old(State()), source, dest)
    {
      ok := CloneLevel(0, source, 0, dest);
    }

    method CloneLevel(level: nat, table: nat, base: nat, dest: nat) returns (ok: bool)
      requires level < 4
      modifies this
      ensures (State(), ok) == CloneFrom(old(State()), level, table, base, 0, dest)
      decreases 4 - level, 1
    {
      hide FrameOf, Paging.ClonePage;
      var i := 0;
      while i < Fanout(level)
        invariant i <= Fanout(level)
        invariant CloneFrom(State(), level, table, base, i, dest) == CloneFrom(old(State()), level, table, base, 0, dest)
      {
        var p := Peek(table);
        if Present(p[i]) {
          if level == 3 {
            ok := ClonePage(p[i], base * 512 + i, dest);
          } else {
            ok := CloneLevel(level + 1, FrameOf(p[i]), base * 512 + i, dest);
          }
          if !ok {
            return;
          }
        }
        i := i + 1;
      }
      ok := true;
    }

    method ClonePage(entry: Word, page: nat, dest: nat) returns (ok: bool)
      modifies this
      ensures (State(), ok) == Paging.ClonePage(old(State()), entry, page, dest)
      decreases 0, 0
    {
      hide FrameOf, FlagsOf, Paging.MapPage;
      var f := AllocFrame();
      if f == 0 {
        return false;
      }
      var p := Peek(FrameOf(entry));
      ram := ram[f := p];
      ok := MapPage(dest, 4096 * page, 4096 * f, FlagsOf(entry));
      if !ok {
        FreeFrame(f);
      }
    }

    // ----- destroy -----

    /** Reading a table is allowed only while it belongs to a tree: freeing overwrites its first word. */
    method ReadTable(table: nat, i: nat, ghost g: Ledger) returns (entry: Word)
      requires Inv(State(), g) && table in g.owner && g.owner[table].Tree? && i < 512
      ensures entry == Get(State(), table)[i]
    {
      var p := Peek(table);
      entry := p[i];
    }

    /** The ledger is only the proof that no freed table is read; the frames of the space end up free. */
    method DestroyUserSpace(root: nat, ghost g: Ledger) returns (ghost g': Ledger)
      requires root != 0 ==> Inv(State(), g) && Root(root) in g.at
      modifies this
      ensures State() == Paging.DestroyUserSpace(old(State()), root)
      ensures root != 0 ==> Inv(State(), g') && (forall x: Node :: x in g'.at <==> x in g.at && SpaceOf(x) != root)
    {
      hide DestroyFrom, Paging.FreeFrame;
      g' := g;
      if root == 0 {
        return;
      }
      assert NodeOk(State(), g, Root(root));
      g' := DestroyKeeps(State(), g, root);
      ghost var _ := DestroyLevel(0, root, Root(root), g);
      FreeFrame(root);
    }

    method DestroyLevel(level: nat, table: nat, ghost n: Node, ghost g: Ledger) returns (ghost g': Ledger)
      requires level < 4 && Inv(State(), g) && n in g.at && Depth(n) == level && g.at[n] == table
      modifies this
      ensures State() == DestroyFrom(old(State()), level, table, 0)
      ensures Inv(State(), g') && Shrinks(old(State()), g, State(), g', n)
      ensures forall x <- g.at :: x in g'.at <==> !Below(x, n)
      decreases 4 - level
    {
      hide FrameOf, Paging.FreeFrame, Inv, Shrinks, Below;
      ghost var m0 := State();
      ghost var gi := g;
      var i := 0;
      while i < Fanout(level)
        invariant i <= Fanout(level)
        invariant Inv(State(), gi) && n in gi.at && gi.at[n] == table
        invariant forall j :: 0 <= j < i ==> n.Child(j) !in gi.at
        invariant DestroyFrom(State(), level, table, i) == DestroyFrom(m0, level, table, 0)
      {
        ghost var m := State();
        TableOwned(m, gi, n);
        WalkStep(m, gi, n, i);
        var entry := ReadTable(table, i, gi);
        if Present(entry) {
          ghost var m2, g2 := DestroyChild(m, gi, n, i);
          ghost var g1 := gi;
          if level < 3 {
            g1 := DestroyLevel(level + 1, FrameOf(entry), n.Child(i), gi);
            StillThere(m, gi, State(), g1, n, i);
          }
          TableOwned(State(), g1, n);
          entry := ReadTable(table, i, g1);
          FreeFrame(FrameOf(entry));
          WriteWord(table, i, 0);
          ChildGone(m, gi, m2, g2, n, i);
          gi := g2;
        }
        i := i + 1;
      }
      g' := DestroyFromKeeps(m0, g, n, 0);
    }
  }

  /** A table page after entries 256 to i - 1 have been copied from the kernel's. */
  ghost function HalfCopy(own: Page, shared: Page, i: nat): (p: Page)
    requires 256 <= i <= 512
  {
    own[..256] + shared[256..i] + own[i..]
  }

  lemma HalfCopyEnds(own: Page, shared: Page)
    ensures HalfCopy(own, shared, 256) == own
    ensures HalfCopy(own, shared, 512) == own[..256] + shared[256..]
  {
  }

  lemma HalfCopyStep(own: Page, shared: Page, i: nat)
    requires 256 <= i < 512
    ensures HalfCopy(own, shared, i)[i := shared[i]] == HalfCopy(own, shared, i + 1)
    ensures own == shared ==> HalfCopy(own, shared, i)[i] == shared[i]
  {
  }

  lemma TableOwned(m: Mem, g: Ledger, n: Node)
    requires Inv(m, g) && n in g.at
    ensures g.at[n] in g.owner && g.owner[g.at[n]].Tree?
  {
    assert NodeOk(m, g, n);
  }

  lemma StillThere(m: Mem, g: Ledger, m1: Mem, g1: Ledger, n: Node, i: nat)
    requires n in g.at && Shrinks(m, g, m1, g1, n.Child(i))
    requires forall x <- g.at :: x in g1.at <==> !Below(x, n.Child(i))
    ensures n in g1.at && g1.at[n] == g.at[n]
  {
    BelowSelf(n, i);
  }

  lemma ChildGone(m: Mem, g: Ledger, m2: Mem, g2: Ledger, n: Node, i: nat)
    requires n in g.at && Shrinks(m, g, m2, g2, n)
    requires forall x <- g.at :: x in g2.at <==> !(x == n.Child(i) || Below(x, n.Child(i)))
    ensures n in g2.at && g2.at[n] == g.at[n] && n.Child(i) !in g2.at && g2.at.Keys <= g.at.Keys
  {
    BelowSelf(n, i);
  }
}
