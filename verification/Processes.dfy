/**
 What every step of the process machine keeps.
 */
module Processes {
  import opened Wrappers
  import opened Paging
  import opened Ownership
  import opened PageTables
  import opened AddressSpaces
  import opened VirtualMemory
  import opened Programs
  import opened Loading
  import opened Files
  import opened Kernel
  import D = Dirents

  // ----- the invariant -----

  /** Slot i owns the space rooted at frame f. */
  ghost predicate Holder(procs: seq<Proc>, i: nat, f: nat) {
    i < |procs| && procs[i].status != Unused && procs[i].cr3 == f
  }

  /** The spaces in memory are exactly those of the slots in use, one each. */
  ghost predicate RootsOk(procs: seq<Proc>, g: Ledger) {
    && (forall i, f :: Holder(procs, i, f) ==> Root(f) in g.at)
    && (forall f: nat {:trigger Root(f)} :: Root(f) in g.at ==> exists i :: Holder(procs, i, f))
    && (forall i, j, f :: Holder(procs, i, f) && Holder(procs, j, f) ==> i == j)
  }

  ghost predicate NoLoose(g: Ledger) {
    forall f <- g.owner :: !g.owner[f].Loose?
  }

  ghost predicate MemoryOk(k: Kernel, g: Ledger) {
    Inv(k.mem, g) && NoLoose(g) && RootsOk(k.procs, g)
  }

  ghost predicate PidsOk(k: Kernel) {
    && (forall i :: 0 <= i < |k.procs| && k.procs[i].status != Unused ==> 0 < k.procs[i].pid < k.nextPid)
    && (forall i, j :: 0 <= i < j < |k.procs| && k.procs[i].status != Unused && k.procs[j].status != Unused
          ==> k.procs[i].pid != k.procs[j].pid)
    && (forall i :: 0 <= i < |k.procs| && k.procs[i].status == Unused ==> k.procs[i] == EmptyProc())
  }

  predicate Alive(p: Proc) { p.status == Running || p.status == Blocked }

  /** Place j of the chain: the last is running, the others were suspended by the vfork that made
      the next. */
  ghost predicate Link(procs: seq<Proc>, chain: seq<nat>, j: nat)
    requires j < |chain|
  {
    && chain[j] < |procs|
    && procs[chain[j]].status == (if j == |chain| - 1 then Running else Blocked)
    && procs[chain[j]].vforkParent == (if j == 0 then None else Some(chain[j - 1]))
  }

  ghost predicate Older(procs: seq<Proc>, chain: seq<nat>, i: nat, j: nat)
    requires i < j < |chain|
  {
    chain[i] < |procs| && chain[j] < |procs| && procs[chain[i]].pid < procs[chain[j]].pid
  }

  /** `chain` lists the suspended parents from init on and ends with the running process. */
  ghost predicate ChainOk(k: Kernel, chain: seq<nat>)
    requires Shape(k)
  {
    && |chain| > 0 && chain[|chain| - 1] == k.current && k.cr3 == k.procs[k.current].cr3
    && (forall j {:trigger Link(k.procs, chain, j)} :: 0 <= j < |chain| ==> Link(k.procs, chain, j))
    && (forall i, j {:trigger Older(k.procs, chain, i, j)} :: 0 <= i < j < |chain| ==> Older(k.procs, chain, i, j))
    && (forall i {:trigger Alive(k.procs[i])} :: 0 <= i < MAX_PROCESSES && Alive(k.procs[i]) ==> i in chain)
  }

  ghost predicate KernelOk(k: Kernel, g: Ledger, chain: seq<nat>) {
    && Shape(k) && MemoryOk(k, g) && PidsOk(k) && (!k.halted ==> ChainOk(k, chain))
    && SafeArchive(k.archive)
  }

  /** Every space that was there and still is shows what it showed, except the running one. */
  ghost predicate OthersKept(k: Kernel, g: Ledger, k': Kernel, g': Ledger) {
    && SameFrames(k.mem, g, k'.mem, g')
    && forall leaf: Node :: Depth(leaf) == 4 && SpaceOf(leaf) != k.cr3
         && Root(SpaceOf(leaf)) in g.at && Root(SpaceOf(leaf)) in g'.at
         ==> View(k'.mem, g', leaf) == View(k.mem, g, leaf)
  }

  lemma RunningRoot(k: Kernel, g: Ledger, chain: seq<nat>)
    requires KernelOk(k, g, chain) && !k.halted
    ensures Root(k.cr3) in g.at && k.cr3 == Current(k).cr3 && Current(k).status == Running
  {
    assert Link(k.procs, chain, |chain| - 1);
    assert Holder(k.procs, k.current, k.cr3);
  }

  /** The chain survives changes that keep who is alive and how they are linked. */
  lemma ChainFrame(k: Kernel, k': Kernel, chain: seq<nat>)
    requires Shape(k) && Shape(k') && ChainOk(k, chain)
    requires k'.current == k.current && k'.cr3 == k'.procs[k'.current].cr3
    requires forall i :: 0 <= i < MAX_PROCESSES && Alive(k.procs[i]) ==>
               && k'.procs[i].pid == k.procs[i].pid && k'.procs[i].vforkParent == k.procs[i].vforkParent
               && k'.procs[i].status == k.procs[i].status
    requires forall i :: 0 <= i < MAX_PROCESSES && Alive(k'.procs[i]) ==> Alive(k.procs[i])
    ensures ChainOk(k', chain)
  {
    forall j | 0 <= j < |chain| ensures Link(k'.procs, chain, j) {
      assert Link(k.procs, chain, j);
      assert Alive(k.procs[chain[j]]);
    }
    forall i, j | 0 <= i < j < |chain| ensures Older(k'.procs, chain, i, j) {
      assert Older(k.procs, chain, i, j) && Link(k.procs, chain, i) && Link(k.procs, chain, j);
      assert Alive(k.procs[chain[i]]) && Alive(k.procs[chain[j]]);
    }
  }

  // ----- steps that only touch the running space -----

  /** Memory effects confined to the running space keep the invariant. */
  lemma ConfinedKeeps(k: Kernel, g: Ledger, chain: seq<nat>, m': Mem, g': Ledger)
    requires KernelOk(k, g, chain) && !k.halted && Inv(m', g') && Confined(k.mem, g, m', g', k.cr3)
    requires Root(k.cr3) in g.at && Root(k.cr3) in g'.at
    ensures KernelOk(k.(mem := m'), g', chain) && OthersKept(k, g, k.(mem := m'), g')
  {
    hide View;
    forall f: nat ensures Root(f) in g'.at <==> Root(f) in g.at {
      assert SpaceOf(Root(f)) == f;
    }
    LooseKeptKeepsNone(k.mem, g, m', g');
  }

  lemma LooseKeptKeepsNone(m: Mem, g: Ledger, m': Mem, g': Ledger)
    requires NoLoose(g) && SameFrames(m, g, m', g') && LooseKept(m, g, m', g', {})
    ensures NoLoose(g')
  {
    forall f | f in g'.owner ensures !g'.owner[f].Loose? {
      assert f in g.owner;
    }
  }

  /** Records may change in ways that keep the ownership of spaces. */
  lemma SameHolders(procs: seq<Proc>, procs': seq<Proc>, g: Ledger)
    requires RootsOk(procs, g) && |procs'| == |procs|
    requires forall i :: 0 <= i < |procs| ==>
               procs'[i].cr3 == procs[i].cr3 && (procs'[i].status == Unused <==> procs[i].status == Unused)
    ensures RootsOk(procs', g)
  {
    forall i: nat, f: nat ensures Holder(procs', i, f) <==> Holder(procs, i, f) {
    }
    forall f: nat | Root(f) in g.at ensures exists i :: Holder(procs', i, f) {
      var i :| Holder(procs, i, f);
      assert Holder(procs', i, f);
    }
  }

  /** The fields of a record that no step of its own process changes before it exits. */
  ghost predicate SameIdentity(p: Proc, p': Proc) {
    && p'.pid == p.pid && p'.ppid == p.ppid && p'.parent == p.parent
    && p'.vforkParent == p.vforkParent && p'.saved == p.saved
  }

  /** Changing fields of the running record that the machine does not rely on. */
  lemma CurrentKeeps(k: Kernel, g: Ledger, chain: seq<nat>, p: Proc)
    requires KernelOk(k, g, chain) && !k.halted
    requires SameIdentity(Current(k), p) && p.status == Current(k).status && p.cr3 == Current(k).cr3
    ensures KernelOk(SetCurrent(k, p), g, chain)
  {
    hide Inv, NoLoose, RootsOk, ChainOk;
    SameHolders(k.procs, k.procs[k.current := p], g);
    RunningRoot(k, g, chain);
    ChainFrame(k, SetCurrent(k, p), chain);
  }

  lemma StoresKeep(k: Kernel, g: Ledger, chain: seq<nat>, va: nat, bytes: seq<Byte>)
    requires KernelOk(k, g, chain) && !k.halted && va + |bytes| <= USER_TOP
    ensures KernelOk(k.(mem := StoreAll(k.mem, k.cr3, va, bytes)), g, chain)
    ensures OthersKept(k, g, k.(mem := StoreAll(k.mem, k.cr3, va, bytes)), g)
  {
    hide StoreAll, View;
    RunningRoot(k, g, chain);
    assert Inv(k.mem, g);
    StoreAllConfined(k.mem, g, k.cr3, va, bytes);
    ConfinedKeeps(k, g, chain, StoreAll(k.mem, k.cr3, va, bytes), g);
  }

  /** The step changed memory in the running space and fields of the running record. */
  ghost predicate LocalStep(k: Kernel, g: Ledger, k': Kernel, g': Ledger, chain: seq<nat>)
    requires Shape(k)
  {
    && KernelOk(k', g', chain) && OthersKept(k, g, k', g') && !k'.halted && k'.archive == k.archive
    && k'.nextPid == k.nextPid && k'.current == k.current
    && k'.procs == k.procs[k.current := k'.procs[k.current]] && SameIdentity(Current(k), Current(k'))
  }

  lemma NothingDone(k: Kernel, g: Ledger, chain: seq<nat>)
    requires KernelOk(k, g, chain) && !k.halted
    ensures LocalStep(k, g, k, g, chain)
  {
  }

  /** Composes a confined memory effect with an update of the running record. */
  lemma LocalKeeps(k: Kernel, g: Ledger, chain: seq<nat>, m': Mem, g': Ledger, p: Proc)
    requires KernelOk(k, g, chain) && !k.halted && Inv(m', g') && Confined(k.mem, g, m', g', k.cr3)
    requires Root(k.cr3) in g.at && Root(k.cr3) in g'.at
    requires SameIdentity(Current(k), p) && p.status == Current(k).status && p.cr3 == Current(k).cr3
    ensures LocalStep(k, g, SetCurrent(k, p).(mem := m'), g', chain)
  {
    hide View, MemoryOk, PidsOk, ChainOk, Inv, Confined;
    ConfinedKeeps(k, g, chain, m', g');
    CurrentKeeps(k.(mem := m'), g', chain, p);
    assert SetCurrent(k, p).(mem := m') == SetCurrent(k.(mem := m'), p);
  }

  lemma BrkKeeps(k: Kernel, g: Ledger, chain: seq<nat>, f: Frame, request: Word) returns (g': Ledger)
    requires KernelOk(k, g, chain) && !k.halted
    ensures LocalStep(k, g, Brk(k, f, request).0, g', chain)
  {
    hide MapPages, View, LocalStep, Inv, Confined, PidsOk, ChainOk, NoLoose, RootsOk;
    var p := Current(k);
    RunningRoot(k, g, chain);
    g' := g;
    if request != 0 && p.brk <= request < BRK_LIMIT {
      g' := MapPagesKeeps(k.mem, g, p.cr3, (p.brk + 4095) / 4096, (request + 4095) / 4096, 2);
      var (m1, ok) := MapPages(k.mem, p.cr3, (p.brk + 4095) / 4096, (request + 4095) / 4096, 2);
      var p' := if ok then p.(brk := request) else p;
      LocalKeeps(k, g, chain, m1, g', p');
      assert k.procs[k.current := p] == k.procs;
    } else {
      NothingDone(k, g, chain);
    }
  }

  /** Updating descriptors and storing into a user buffer. */
  lemma FdKeeps(k: Kernel, g: Ledger, chain: seq<nat>, fds: seq<Fd>, va: nat, bytes: seq<Byte>)
    requires KernelOk(k, g, chain) && !k.halted && va + |bytes| <= USER_TOP
    ensures LocalStep(k, g, SetCurrent(k, Current(k).(fds := fds)).(mem := StoreAll(k.mem, k.cr3, va, bytes)), g, chain)
  {
    hide StoreAll, View, LocalStep, Inv, Confined, PidsOk, ChainOk, NoLoose, RootsOk;
    RunningRoot(k, g, chain);
    StoreAllConfined(k.mem, g, k.cr3, va, bytes);
    LocalKeeps(k, g, chain, StoreAll(k.mem, k.cr3, va, bytes), g, Current(k).(fds := fds));
  }

  lemma OpenKeeps(k: Kernel, g: Ledger, chain: seq<nat>, f: Frame, path: Option<CString>)
    requires KernelOk(k, g, chain) && !k.halted
    ensures LocalStep(k, g, Open(k, f, path).0, g, chain)
  {
    hide MemoryOk, PidsOk, ChainOk, LocalStep, StoreAll, FirstFreeFd, FileAt, SafeArchive;
    NothingDone(k, g, chain);
    StoreNoBytes(k.mem, k.cr3, 0);
    var fds := Current(k).fds;
    if |fds| >= 3 && FirstFreeFd(fds, 3) < |fds| && path.Some? && FileAt(k.archive, path.value).Some? {
      var d := Opened(FileAt(k.archive, path.value).value);
      FdKeeps(k, g, chain, fds[FirstFreeFd(fds, 3) := d], 0, []);
    }
  }

  lemma CloseKeeps(k: Kernel, g: Ledger, chain: seq<nat>, f: Frame, fd: Word)
    requires KernelOk(k, g, chain) && !k.halted
    ensures LocalStep(k, g, Close(k, f, fd).0, g, chain)
  {
    hide MemoryOk, PidsOk, ChainOk, LocalStep, StoreAll;
    NothingDone(k, g, chain);
    StoreNoBytes(k.mem, k.cr3, 0);
    if fd < |Current(k).fds| {
      FdKeeps(k, g, chain, Current(k).fds[fd := EmptyFd()], 0, []);
    }
  }

  lemma LseekKeeps(k: Kernel, g: Ledger, chain: seq<nat>, f: Frame, fd: Word, offset: Word, whence: Word)
    requires KernelOk(k, g, chain) && !k.halted
    ensures LocalStep(k, g, Lseek(k, f, fd, offset, whence).0, g, chain)
  {
    hide MemoryOk, PidsOk, ChainOk, LocalStep, StoreAll;
    NothingDone(k, g, chain);
    StoreNoBytes(k.mem, k.cr3, 0);
    var fds := Current(k).fds;
    if fd < |fds| && fds[fd].kind == FileFd && whence <= 2 {
      var base := if whence == 0 then 0 else if whence == 1 then fds[fd].offset else |fds[fd].file.data|;
      FdKeeps(k, g, chain, fds[fd := fds[fd].(offset := (base + offset) % WORD_LIMIT)], 0, []);
    }
  }

  lemma ReadKeeps(k: Kernel, g: Ledger, chain: seq<nat>, f: Frame, fd: Word, buffer: Word, count: Word, keys: seq<Byte>)
    requires KernelOk(k, g, chain) && !k.halted
    ensures LocalStep(k, g, Read(k, f, fd, buffer, count, keys).0, g, chain)
  {
    hide MemoryOk, PidsOk, ChainOk, LocalStep, StoreAll;
    NothingDone(k, g, chain);
    var fds := Current(k).fds;
    if UserRange(buffer, count) && fd < |fds| {
      var d := fds[fd];
      if d.kind == Stdin && |keys| == count {
        if keys == [] {
          StoreNoBytes(k.mem, k.cr3, buffer);
        } else {
          FdKeeps(k, g, chain, fds, buffer, keys);
        }
        assert SetCurrent(k, Current(k).(fds := fds)) == k;
      } else if d.kind == FileFd && d.offset < |d.file.data| {
        var n := Min(count, |d.file.data| - d.offset);
        var bytes := d.file.data[d.offset..d.offset + n];
        var fds' := fds[fd := d.(offset := (d.offset + n) % WORD_LIMIT)];
        if n == 0 {
          StoreNoBytes(k.mem, k.cr3, buffer);
          StoreNoBytes(k.mem, k.cr3, 0);
          FdKeeps(k, g, chain, fds', 0, []);
        } else {
          FdKeeps(k, g, chain, fds', buffer, bytes);
        }
      }
    }
  }

  lemma GetdentsKeeps(k: Kernel, g: Ledger, chain: seq<nat>, f: Frame, fd: Word, buffer: Word, count: Word)
    requires KernelOk(k, g, chain) && !k.halted
    ensures LocalStep(k, g, Getdents(k, f, fd, buffer, count).0, g, chain)
  {
    hide MemoryOk, PidsOk, ChainOk, LocalStep, StoreAll, ListingOf, D.Pack, D.Fitting, Held, SafeArchive;
    NothingDone(k, g, chain);
    var fds := Current(k).fds;
    if fd < |fds| && UserRange(buffer, count) {
      var nodes := ListingOf(k.archive, fds[fd]);
      var bytes := D.Pack(nodes, fds[fd].offset, Held(k.mem, k.cr3, buffer, count));
      var fds' := fds[fd := fds[fd].(offset := (fds[fd].offset + D.Fitting(nodes, fds[fd].offset, count)) % WORD_LIMIT)];
      if bytes == [] {
        StoreNoBytes(k.mem, k.cr3, buffer);
        StoreNoBytes(k.mem, k.cr3, 0);
        FdKeeps(k, g, chain, fds', 0, []);
      } else {
        FdKeeps(k, g, chain, fds', buffer, bytes);
      }
    }
  }

  // ----- steps that add or remove a space -----

  /** A slot takes over a newly created space. */
  lemma AdoptRoot(procs: seq<Proc>, procs': seq<Proc>, g: Ledger, g': Ledger, slot: nat, root: nat)
    requires RootsOk(procs, g) && |procs'| == |procs| && slot < |procs| && procs[slot].status == Unused
    requires procs'[slot].status != Unused && procs'[slot].cr3 == root
    requires forall i :: 0 <= i < |procs| && i != slot ==>
               procs'[i].cr3 == procs[i].cr3 && (procs'[i].status == Unused <==> procs[i].status == Unused)
    requires Root(root) !in g.at && Root(root) in g'.at
    requires forall f: nat {:trigger Root(f)} :: f != root ==> (Root(f) in g'.at <==> Root(f) in g.at)
    ensures RootsOk(procs', g')
  {
    forall i: nat, f: nat ensures Holder(procs', i, f) <==> if i == slot then f == root else Holder(procs, i, f) {
    }
    forall f: nat | Root(f) in g'.at ensures exists i :: Holder(procs', i, f) {
      if f == root {
        assert Holder(procs', slot, f);
      } else {
        var i :| Holder(procs, i, f);
        assert Holder(procs', i, f);
      }
    }
    forall i: nat, j: nat, f: nat | Holder(procs', i, f) && Holder(procs', j, f) ensures i == j {
      assert f == root ==> !Holder(procs, i, f) && !Holder(procs, j, f);
    }
  }

  /** A slot and its space go together. */
  lemma DropRoot(procs: seq<Proc>, procs': seq<Proc>, g: Ledger, g': Ledger, slot: nat)
    requires RootsOk(procs, g) && |procs'| == |procs| && slot < |procs| && procs[slot].status != Unused
    requires procs'[slot].status == Unused
    requires forall i :: 0 <= i < |procs| && i != slot ==>
               procs'[i].cr3 == procs[i].cr3 && (procs'[i].status == Unused <==> procs[i].status == Unused)
    requires forall f: nat {:trigger Root(f)} :: Root(f) in g'.at <==> Root(f) in g.at && f != procs[slot].cr3
    ensures RootsOk(procs', g')
  {
    assert Holder(procs, slot, procs[slot].cr3);
    forall i: nat, f: nat ensures Holder(procs', i, f) <==> i != slot && Holder(procs, i, f) {
    }
    forall f: nat | Root(f) in g'.at ensures exists i :: Holder(procs', i, f) {
      var i :| Holder(procs, i, f);
      assert Holder(procs', i, f);
    }
  }

  /** A slot swaps its space for a new one. */
  lemma SwapRoot(procs: seq<Proc>, procs': seq<Proc>, g: Ledger, g': Ledger, slot: nat, root: nat)
    requires RootsOk(procs, g) && slot < |procs| == |procs'| && procs[slot].status != Unused
    requires procs' == procs[slot := procs'[slot]] && procs'[slot].status != Unused && procs'[slot].cr3 == root
    requires Root(root) !in g.at
    requires forall f: nat {:trigger Root(f)} :: Root(f) in g'.at <==> f == root || (Root(f) in g.at && f != procs[slot].cr3)
    ensures RootsOk(procs', g')
  {
    assert Holder(procs, slot, procs[slot].cr3);
    forall i: nat, f: nat ensures Holder(procs', i, f) <==> if i == slot then f == root else Holder(procs, i, f) {
    }
    forall f: nat | Root(f) in g'.at ensures exists i :: Holder(procs', i, f) {
      if f == root {
        assert Holder(procs', slot, f);
      } else {
        var i :| Holder(procs, i, f);
        assert Holder(procs', i, f);
      }
    }
    forall i: nat, j: nat, f: nat | Holder(procs', i, f) && Holder(procs', j, f) ensures i == j {
      assert f == root ==> !Holder(procs, i, f) && !Holder(procs, j, f);
    }
  }

  // ----- what one step may do -----

  /** Suspended processes stay exactly as they are, except that an exit resumes one. */
  ghost predicate Frozen(k: Kernel, k': Kernel) {
    |k.procs| == |k'.procs| && forall i :: 0 <= i < |k.procs| && k.procs[i].status == Blocked ==>
      || k'.procs[i] == k.procs[i]
      || (i == k'.current && k'.procs[i] == k.procs[i].(status := Running))
  }

  /** The chain of suspended parents is a stack: vfork pushes, exit pops. */
  ghost predicate ChainStep(chain: seq<nat>, chain': seq<nat>, k': Kernel) {
    || chain' == chain
    || chain' == chain + [k'.current]
    || (|chain| > 1 && chain' == chain[..|chain| - 1])
  }

  ghost predicate Transition(k: Kernel, g: Ledger, chain: seq<nat>, k': Kernel, g': Ledger, chain': seq<nat>)
    requires Shape(k)
  {
    && KernelOk(k', g', chain') && OthersKept(k, g, k', g') && Frozen(k, k') && ChainStep(chain, chain', k') && k'.archive == k.archive
    && SameIdentity(k.procs[k.current], k'.procs[k.current]) && (k'.halted ==> |chain| == 1)
  }

  lemma LocalIsTransition(k: Kernel, g: Ledger, chain: seq<nat>, k': Kernel, g': Ledger)
    requires KernelOk(k, g, chain) && !k.halted && LocalStep(k, g, k', g', chain)
    ensures Transition(k, g, chain, k', g', chain)
  {
    hide MemoryOk, PidsOk, OthersKept, View;
    RunningAlive(k, chain);
  }

  // ----- vfork -----

  lemma FreshIsEmpty(m: Mem, g: Ledger, src: nat, root: nat)
    requires TreeOk(m, g) && src != root
    requires forall x <- g.at :: SpaceOf(x) == root ==> x == Root(root)
    ensures EmptyFrom(m, g, Root(src), 0, root)
  {
    hide Index;
    forall page | 0 <= page < USER_PAGES && From(page, Root(src), 0) ensures View(m, g, Leaf(root, page)).None? {
      ViewNone(m, g, Leaf(root, page));
    }
  }

  /** The copy at the heart of vfork: a deep copy in a new space, or every frame given back. */
  lemma SpaceCopy(m: Mem, g: Ledger, src: nat) returns (g': Ledger)
    requires Inv(m, g) && Root(src) in g.at
    ensures var (m1, root) := CreateRoot(m);
            var (m2, ok) := CloneUserSpace(m1, src, root);
            if root == 0 then m1 == m && g' == g
            else if ok then
              && Inv(m2, g') && NoSuchSpace(g, root) && Root(root) in g'.at && Confined(m, g, m2, g', root)
              && forall page :: 0 <= page < USER_PAGES ==>
                   SameCell(View(m2, g', Leaf(root, page)), View(m, g, Leaf(src, page)))
            else Inv(DestroyUserSpace(m2, root), g') && Unchanged(m, g, DestroyUserSpace(m2, root), g')
  {
    hide View, CreateRoot, CloneFrom, DestroyUserSpace, Index, Leaf;
    var (m1, root) := CreateRoot(m);
    g' := CreateKeeps(m, g);
    if root != 0 {
      var g1 := g';
      CreateConfined(m, g, m1, g1, root);
      FreshIsEmpty(m1, g1, src, root);
      assert NodeOk(m1, g1, Root(src));
      var g2 := CloneFromKeeps(m1, g1, Root(src), 0, root);
      var (m2, ok) := CloneUserSpace(m1, src, root);
      GrowsConfined(m1, g1, m2, g2, root);
      ConfinedTrans(m, g, m1, g1, m2, g2, root);
      if ok {
        g' := g2;
        forall page | 0 <= page < USER_PAGES
          ensures SameCell(View(m2, g', Leaf(root, page)), View(m, g, Leaf(src, page)))
        {
          CopiedPage(m, g, m1, g1, m2, g2, src, root, page);
        }
      } else {
        g' := Discard(m, g, m2, g2, root);
      }
    }
  }

  lemma GrowsConfined(m: Mem, g: Ledger, m': Mem, g': Ledger, root: nat)
    requires OnlyGrows(m, g, m', g', root)
    ensures Confined(m, g, m', g', root)
  {
    hide View;
  }

  lemma CopiedPage(m: Mem, g: Ledger, m1: Mem, g1: Ledger, m2: Mem, g2: Ledger, src: nat, root: nat, page: nat)
    requires Confined(m, g, m1, g1, root) && Copied(m1, g1, m2, g2, Root(src), 0, root) && src != root && page < USER_PAGES
    ensures SameCell(View(m2, g2, Leaf(root, page)), View(m, g, Leaf(src, page)))
  {
    hide View, Index;
    assert CopiedAt(m1, g1, m2, g2, Root(src), 0, root, page);
    assert From(page, Root(src), 0);
  }

  lemma UnchangedMemory(k: Kernel, g: Ledger, m': Mem, g': Ledger)
    requires MemoryOk(k, g) && Inv(m', g') && Unchanged(k.mem, g, m', g')
    ensures MemoryOk(k.(mem := m'), g') && OthersKept(k, g, k.(mem := m'), g')
  {
    hide View;
    LooseKeptKeepsNone(k.mem, g, m', g');
  }

  lemma VforkFailedKeeps(k: Kernel, g: Ledger, chain: seq<nat>, slot: nat, m': Mem, g': Ledger)
    requires KernelOk(k, g, chain) && !k.halted && slot < MAX_PROCESSES && k.procs[slot].status == Unused
    requires Inv(m', g') && Unchanged(k.mem, g, m', g')
    ensures Transition(k, g, chain, VforkFailed(k, slot, m'), g', chain)
    ensures VforkFailed(k, slot, m').procs == k.procs
  {
    hide View, Inv, RootsOk, NoLoose, Unchanged;
    UnchangedMemory(k, g, m', g');
    assert k.procs[slot := EmptyProc()] == k.procs;
  }

  lemma VforkPids(k: Kernel, slot: nat, m': Mem, child: Proc)
    requires Shape(k) && PidsOk(k) && slot < MAX_PROCESSES && k.procs[slot].status == Unused
    requires child.pid == k.nextPid > 0 && child.status == Running && Current(k).status == Running
    ensures PidsOk(VforkDone(k, slot, m', child))
  {
    hide EmptyProc;
    var k' := VforkDone(k, slot, m', child);
    assert forall i :: 0 <= i < MAX_PROCESSES && i != slot ==> k'.procs[i].pid == k.procs[i].pid;
    assert forall i :: 0 <= i < MAX_PROCESSES && i != slot ==> (k'.procs[i].status == Unused <==> k.procs[i].status == Unused);
  }

  lemma VforkLinks(k: Kernel, chain: seq<nat>, slot: nat, procs': seq<Proc>, j: nat)
    requires Shape(k) && PidsOk(k) && ChainOk(k, chain) && slot < MAX_PROCESSES && k.procs[slot].status == Unused
    requires |procs'| == |k.procs| && j < |chain|
    requires procs' == k.procs[slot := procs'[slot]][k.current := Current(k).(status := Blocked)]
    ensures chain[j] < MAX_PROCESSES && procs'[chain[j]].pid == k.procs[chain[j]].pid < k.nextPid
    ensures Link(procs', chain + [slot], j)
  {
    hide EmptyProc;
    assert Link(k.procs, chain, j);
    if j < |chain| - 1 {
      assert Older(k.procs, chain, j, |chain| - 1);
    }
  }

  lemma VforkChain(k: Kernel, chain: seq<nat>, slot: nat, m': Mem, child: Proc)
    requires Shape(k) && PidsOk(k) && ChainOk(k, chain) && slot < MAX_PROCESSES && k.procs[slot].status == Unused
    requires child.pid == k.nextPid && child.status == Running && child.vforkParent == Some(k.current)
    ensures ChainOk(VforkDone(k, slot, m', child), chain + [slot])
  {
    hide EmptyProc, PidsOk;
    var k', chain' := VforkDone(k, slot, m', child), chain + [slot];
    RunningAlive(k, chain);
    assert k'.procs[slot] == child;
    forall j | 0 <= j < |chain'| ensures Link(k'.procs, chain', j) {
      if j < |chain| {
        VforkLinks(k, chain, slot, k'.procs, j);
      }
    }
    forall i, j | 0 <= i < j < |chain'| ensures Older(k'.procs, chain', i, j) {
      VforkLinks(k, chain, slot, k'.procs, i);
      if j < |chain| {
        assert Older(k.procs, chain, i, j);
        VforkLinks(k, chain, slot, k'.procs, j);
      }
    }
    forall i | 0 <= i < MAX_PROCESSES && Alive(k'.procs[i]) ensures i in chain' {
      assert i != slot ==> Alive(k.procs[i]);
    }
  }

  lemma VforkKeeps(k: Kernel, g: Ledger, chain: seq<nat>, f: Frame) returns (g': Ledger, chain': seq<nat>)
    requires KernelOk(k, g, chain) && !k.halted
    ensures Transition(k, g, chain, Vfork(k, f).0, g', chain')
    ensures var k' := Vfork(k, f).0;
            if k'.current == k.current then chain' == chain && k'.procs == k.procs
            else VforkMade(k, g, chain, f, k', g', chain')
  {
    hide View, CreateRoot, CloneUserSpace, DestroyUserSpace, Inv, NoLoose, RootsOk, FirstUnused, Confined, SameCell, Leaf;
    var slot := FirstUnused(k.procs, 0);
    g', chain' := g, chain;
    RunningRoot(k, g, chain);
    if slot == MAX_PROCESSES {
      NothingDone(k, g, chain);
      LocalIsTransition(k, g, chain, k, g);
    } else {
      var (m1, root) := CreateRoot(k.mem);
      g' := SpaceCopy(k.mem, g, Current(k).cr3);
      var (m2, ok) := CloneUserSpace(m1, Current(k).cr3, root);
      if root == 0 {
        SameUnchanged(k.mem, g);
        VforkFailedKeeps(k, g, chain, slot, m1, g');
      } else if !ok {
        VforkFailedKeeps(k, g, chain, slot, DestroyUserSpace(m2, root), g');
      } else {
        chain' := chain + [slot];
        VforkDoneKeeps(k, g, chain, f, slot, m2, g', root);
      }
    }
  }

  lemma SameUnchanged(m: Mem, g: Ledger)
    ensures Unchanged(m, g, m, g)
  {
  }

  /** A successful vfork: the child is a new record on top of the chain with a deep copy of the
      parent's space, and the parent is only marked blocked. */
  ghost predicate VforkMade(k: Kernel, g: Ledger, chain: seq<nat>, f: Frame, k': Kernel, g': Ledger, chain': seq<nat>)
    requires Shape(k)
  {
    && Shape(k') && k.procs[k'.current].status == Unused && chain' == chain + [k'.current]
    && k'.procs[k.current] == Current(k).(status := Blocked)
    && Current(k') == VforkChild(k, f, k'.cr3) && !k'.halted
    && (forall leaf: Node :: Depth(leaf) == 4 && SpaceOf(leaf) != k'.cr3 ==> View(k'.mem, g', leaf) == View(k.mem, g, leaf))
    && NoSuchSpace(g, k'.cr3)
    && (forall page :: 0 <= page < USER_PAGES ==>
          SameCell(View(k'.mem, g', Leaf(k'.cr3, page)), View(k.mem, g, Leaf(k.cr3, page))))
  }

  lemma VforkDoneKeeps(k: Kernel, g: Ledger, chain: seq<nat>, f: Frame, slot: nat, m': Mem, g': Ledger, root: nat)
    requires KernelOk(k, g, chain) && !k.halted && slot < MAX_PROCESSES && k.procs[slot].status == Unused
    requires Inv(m', g') && NoSuchSpace(g, root) && Root(root) in g'.at && Confined(k.mem, g, m', g', root)
    requires forall page :: 0 <= page < USER_PAGES ==>
               SameCell(View(m', g', Leaf(root, page)), View(k.mem, g, Leaf(Current(k).cr3, page)))
    ensures var k' := VforkDone(k, slot, m', VforkChild(k, f, root));
            Transition(k, g, chain, k', g', chain + [slot]) && VforkMade(k, g, chain, f, k', g', chain + [slot])
  {
    hide View, Inv, SameCell, Leaf, EmptyProc, StandardFds, RootsOk, NoLoose;
    var child := VforkChild(k, f, root);
    var k' := VforkDone(k, slot, m', child);
    RunningRoot(k, g, chain);
    VforkMemory(k, g, k', slot, g', root);
    VforkPids(k, slot, m', child);
    VforkChain(k, chain, slot, m', child);
  }

  lemma VforkMemory(k: Kernel, g: Ledger, k': Kernel, slot: nat, g': Ledger, root: nat)
    requires Shape(k) && Shape(k') && MemoryOk(k, g) && slot < MAX_PROCESSES && k.procs[slot].status == Unused && slot != k.current
    requires k'.procs == k.procs[slot := k'.procs[slot]][k.current := Current(k).(status := Blocked)]
    requires k'.procs[slot].status != Unused && k'.procs[slot].cr3 == root && Current(k).status != Unused
    requires Inv(k'.mem, g') && NoSuchSpace(g, root) && Root(root) in g'.at && Confined(k.mem, g, k'.mem, g', root)
    ensures MemoryOk(k', g') && OthersKept(k, g, k', g')
  {
    hide View;
    LooseKeptKeepsNone(k.mem, g, k'.mem, g');
    forall f: nat | f != root ensures Root(f) in g'.at <==> Root(f) in g.at {
      assert SpaceOf(Root(f)) == f;
    }
    assert SpaceOf(Root(root)) == root;
    AdoptRoot(k.procs, k'.procs, g, g', slot, root);
  }

  // ----- execve -----

  lemma ExecMemory(k: Kernel, g: Ledger, m1: Mem, g1: Ledger, k': Kernel, root: nat) returns (g': Ledger)
    requires Shape(k) && Shape(k') && MemoryOk(k, g) && Current(k).status != Unused && k.cr3 == Current(k).cr3
    requires Inv(m1, g1) && NoSuchSpace(g, root) && Root(root) in g1.at && Confined(k.mem, g, m1, g1, root)
    requires k'.procs == k.procs[k.current := k'.procs[k.current]] && k'.procs[k.current].status != Unused
    requires k'.procs[k.current].cr3 == root && k'.mem == DestroyUserSpace(m1, k.cr3)
    ensures MemoryOk(k', g') && OthersKept(k, g, k', g')
  {
    hide View, DestroyUserSpace;
    assert Holder(k.procs, k.current, k.cr3);
    assert SpaceOf(Root(k.cr3)) == k.cr3 && SpaceOf(Root(root)) == root;
    assert root != k.cr3;
    g' := DestroyKeeps(m1, g1, k.cr3);
    forall f: nat ensures Root(f) in g'.at <==> f == root || (Root(f) in g.at && f != k.cr3) {
      assert SpaceOf(Root(f)) == f;
    }
    SwapRoot(k.procs, k'.procs, g, g', k.current, root);
    LooseKeptKeepsNone(k.mem, g, m1, g1);
    LooseKeptKeepsNone(m1, g1, k'.mem, g');
    forall leaf: Node | Depth(leaf) == 4 && SpaceOf(leaf) != k.cr3 && Root(SpaceOf(leaf)) in g.at
      ensures View(k'.mem, g', leaf) == View(k.mem, g, leaf)
    {
      assert SpaceOf(Root(SpaceOf(leaf))) == SpaceOf(leaf);
      DestroyViews(m1, g1, k'.mem, g', k.cr3, leaf);
    }
  }

  lemma ExecTable(k: Kernel, chain: seq<nat>, m: Mem, l: Loaded)
    requires Shape(k) && PidsOk(k) && ChainOk(k, chain)
    ensures PidsOk(ExecDone(k, m, l)) && ChainOk(ExecDone(k, m, l), chain) && Frozen(k, ExecDone(k, m, l))
  {
    hide DestroyUserSpace, EmptyProc, ChainOk;
    RunningAlive(k, chain);
    ChainFrame(k, ExecDone(k, m, l), chain);
  }

  lemma RunningAlive(k: Kernel, chain: seq<nat>)
    requires Shape(k) && ChainOk(k, chain)
    ensures k.procs[k.current].status == Running
  {
    assert Link(k.procs, chain, |chain| - 1);
  }

  lemma ExecveKeeps(k: Kernel, g: Ledger, chain: seq<nat>, f: Frame, call: Option<Invocation>) returns (g': Ledger)
    requires KernelOk(k, g, chain) && !k.halted
    ensures Transition(k, g, chain, Execve(k, f, call).0, g', chain)
  {
    hide View, LoadProgram, DestroyUserSpace, Inv, NoLoose, RootsOk, Unchanged, Confined, Resolve, SafeArchive, Harmless;
    g' := g;
    RunningRoot(k, g, chain);
    if call.None? {
      NothingDone(k, g, chain);
      LocalIsTransition(k, g, chain, k, g);
    } else {
      var req := Resolve(k.archive, call.value);
      SafeResolve(k.archive, call.value);
      var (m1, l) := LoadProgram(k.mem, req);
      g' := LoadProgramKeeps(k.mem, g, req);
      if l.None? {
        UnchangedMemory(k, g, m1, g');
      } else {
        g' := ExecMemory(k, g, m1, g', ExecDone(k, m1, l.value), l.value.cr3);
        ExecTable(k, chain, m1, l.value);
      }
    }
  }

  // ----- exit -----

  lemma ResumePids(k: Kernel, v: nat, code: Word)
    requires Shape(k) && PidsOk(k) && v < MAX_PROCESSES && Current(k).status == Running && k.procs[v].status == Blocked
    ensures PidsOk(Resume(k, v, code)) && Frozen(k, Resume(k, v, code))
  {
    hide EmptyProc;
    var k' := Resume(k, v, code);
    assert forall i :: 0 <= i < MAX_PROCESSES ==> k'.procs[i].pid == k.procs[i].pid;
    assert forall i :: 0 <= i < MAX_PROCESSES ==> (k'.procs[i].status == Unused <==> k.procs[i].status == Unused);
  }

  lemma ResumeLinks(k: Kernel, chain: seq<nat>, code: Word, j: nat)
    requires Shape(k) && ChainOk(k, chain) && |chain| > 1 && j < |chain| - 1
    ensures Link(k.procs, chain, |chain| - 2) && chain[j] < MAX_PROCESSES
    ensures var k' := Resume(k, chain[|chain| - 2], code);
            k'.procs[chain[j]].pid == k.procs[chain[j]].pid && Link(k'.procs, chain[..|chain| - 1], j)
  {
    var n := |chain| - 1;
    assert Link(k.procs, chain, n) && Link(k.procs, chain, n - 1);
    assert Link(k.procs, chain, j) && Older(k.procs, chain, j, n);
    if j < n - 1 {
      assert Older(k.procs, chain, j, n - 1);
    }
  }

  lemma ResumeChain(k: Kernel, chain: seq<nat>, code: Word)
    requires Shape(k) && ChainOk(k, chain) && |chain| > 1
    ensures Link(k.procs, chain, |chain| - 2) && ChainOk(Resume(k, chain[|chain| - 2], code), chain[..|chain| - 1])
  {
    var n := |chain| - 1;
    assert Link(k.procs, chain, n) && Link(k.procs, chain, n - 1);
    var k', chain' := Resume(k, chain[n - 1], code), chain[..n];
    forall j | 0 <= j < n ensures Link(k'.procs, chain', j) {
      ResumeLinks(k, chain, code, j);
    }
    forall i, j | 0 <= i < j < n ensures Older(k'.procs, chain', i, j) {
      assert Older(k.procs, chain, i, j);
      ResumeLinks(k, chain, code, i);
      ResumeLinks(k, chain, code, j);
    }
    forall i | 0 <= i < MAX_PROCESSES && Alive(k'.procs[i]) ensures i in chain' {
      assert Alive(k.procs[i]);
      ResumedInChain(k, chain, code, i);
    }
  }

  lemma ResumedInChain(k: Kernel, chain: seq<nat>, code: Word, i: nat)
    requires Shape(k) && |chain| > 1 && i in chain && chain[|chain| - 1] == k.current != chain[|chain| - 2] < MAX_PROCESSES
    requires i < MAX_PROCESSES && Alive(Resume(k, chain[|chain| - 2], code).procs[i])
    ensures i in chain[..|chain| - 1]
  {
    var j :| 0 <= j < |chain| && chain[j] == i;
    assert chain[..|chain| - 1][j] == i;
  }

  lemma ExitKeeps(k: Kernel, g: Ledger, chain: seq<nat>, f: Frame, code: Word) returns (chain': seq<nat>)
    requires KernelOk(k, g, chain) && !k.halted
    ensures Transition(k, g, chain, Exit(k, f, code).0, g, chain')
    ensures if |chain| > 1 then chain' == chain[..|chain| - 1] && Exit(k, f, code).0.current == chain[|chain| - 2]
            else chain' == chain && Exit(k, f, code).0.halted
  {
    hide View, Inv, NoLoose, EmptyProc, Resume, RootsOk;
    RunningRoot(k, g, chain);
    if |chain| > 1 {
      chain' := chain[..|chain| - 1];
      ExitResumes(k, g, chain, f, code);
    } else {
      chain' := chain;
      InitExits(k, g, chain, f, code);
    }
  }

  lemma ExitResumes(k: Kernel, g: Ledger, chain: seq<nat>, f: Frame, code: Word)
    requires KernelOk(k, g, chain) && !k.halted && |chain| > 1
    ensures Transition(k, g, chain, Exit(k, f, code).0, g, chain[..|chain| - 1])
    ensures chain[|chain| - 2] < MAX_PROCESSES && Exit(k, f, code).0 == Resume(k, chain[|chain| - 2], code)
    ensures Exit(k, f, code).0.current == chain[|chain| - 2]
  {
    hide View, Inv, NoLoose, EmptyProc, RootsOk, ChainStep;
    var v := chain[|chain| - 2];
    assert Link(k.procs, chain, |chain| - 1) && Link(k.procs, chain, |chain| - 2);
    SameHolders(k.procs, Resume(k, v, code).procs, g);
    ResumePids(k, v, code);
    ResumeChain(k, chain, code);
    assert ChainStep(chain, chain[..|chain| - 1], Resume(k, v, code)) by { ChainPops(chain, Resume(k, v, code)); }
  }

  lemma ChainPops(chain: seq<nat>, k': Kernel)
    requires |chain| > 1
    ensures ChainStep(chain, chain[..|chain| - 1], k')
  {
  }

  lemma InitExits(k: Kernel, g: Ledger, chain: seq<nat>, f: Frame, code: Word)
    requires KernelOk(k, g, chain) && !k.halted && |chain| == 1
    ensures Transition(k, g, chain, Exit(k, f, code).0, g, chain) && Exit(k, f, code).0.halted
  {
    hide View, Inv, NoLoose, EmptyProc;
    assert Link(k.procs, chain, 0);
    SameHolders(k.procs, Exit(k, f, code).0.procs, g);
  }

  // ----- wait4 -----

  lemma ReapMemory(k: Kernel, g: Ledger, i: nat, m1: Mem) returns (g': Ledger)
    requires Shape(k) && MemoryOk(k, g) && i < MAX_PROCESSES && k.procs[i].status != Unused
    requires Inv(m1, g) && SameFrames(k.mem, g, m1, g) && LooseKept(k.mem, g, m1, g, {})
    requires forall leaf: Node :: Depth(leaf) == 4 && SpaceOf(leaf) != k.cr3 ==> View(m1, g, leaf) == View(k.mem, g, leaf)
    ensures MemoryOk(Reaped(k, i, m1), g') && OthersKept(k, g, Reaped(k, i, m1), g')
  {
    hide View, DestroyUserSpace, EmptyFds;
    var root := k.procs[i].cr3;
    var k' := Reaped(k, i, m1);
    assert Holder(k.procs, i, root);
    g' := DestroyKeeps(m1, g, root);
    forall f: nat ensures Root(f) in g'.at <==> Root(f) in g.at && f != root {
      assert SpaceOf(Root(f)) == f;
    }
    DropRoot(k.procs, k'.procs, g, g', i);
    LooseKeptKeepsNone(m1, g, k'.mem, g');
    forall leaf: Node | Depth(leaf) == 4 && SpaceOf(leaf) != k.cr3 && Root(SpaceOf(leaf)) in g'.at
      ensures View(k'.mem, g', leaf) == View(k.mem, g, leaf)
    {
      assert SpaceOf(Root(SpaceOf(leaf))) == SpaceOf(leaf);
      DestroyViews(m1, g, k'.mem, g', root, leaf);
    }
  }

  lemma ReapTable(k: Kernel, chain: seq<nat>, i: nat, m1: Mem)
    requires Shape(k) && PidsOk(k) && ChainOk(k, chain) && i < MAX_PROCESSES && k.procs[i].status == Zombie
    ensures PidsOk(Reaped(k, i, m1)) && ChainOk(Reaped(k, i, m1), chain) && Frozen(k, Reaped(k, i, m1))
    ensures i != k.current
  {
    hide DestroyUserSpace, EmptyFds;
    RunningAlive(k, chain);
    ChainFrame(k, Reaped(k, i, m1), chain);
  }

  lemma Wait4Keeps(k: Kernel, g: Ledger, chain: seq<nat>, f: Frame, pid: Word, address: Word) returns (g': Ledger)
    requires KernelOk(k, g, chain) && !k.halted
    ensures Transition(k, g, chain, Wait4(k, f, pid, address).0, g', chain)
  {
    hide View, StoreAll, DestroyUserSpace, Inv, NoLoose, RootsOk, EmptyProc, FirstReapable, Confined;
    g' := g;
    RunningRoot(k, g, chain);
    var i := FirstReapable(k.procs, k.current, pid, 0);
    if i == MAX_PROCESSES || (address != 0 && !UserRange(address, 4)) {
      NothingDone(k, g, chain);
      LocalIsTransition(k, g, chain, k, g);
    } else {
      var m1 := if address == 0 then k.mem else StoreAll(k.mem, k.cr3, address, StatusBytes(k.procs[i].exitStatus));
      StatusStored(k, g, address, StatusBytes(k.procs[i].exitStatus));
      g' := ReapMemory(k, g, i, m1);
      ReapTable(k, chain, i, m1);
    }
  }

  lemma StatusStored(k: Kernel, g: Ledger, address: Word, bytes: seq<Byte>)
    requires Inv(k.mem, g) && Root(k.cr3) in g.at && (address == 0 || UserRange(address, |bytes|)) && |bytes| > 0
    ensures var m1 := if address == 0 then k.mem else StoreAll(k.mem, k.cr3, address, bytes);
            && Inv(m1, g) && SameFrames(k.mem, g, m1, g) && LooseKept(k.mem, g, m1, g, {})
            && forall leaf: Node :: Depth(leaf) == 4 && SpaceOf(leaf) != k.cr3 ==> View(m1, g, leaf) == View(k.mem, g, leaf)
  {
    hide StoreAll, View;
    if address != 0 {
      StoreAllConfined(k.mem, g, k.cr3, address, bytes);
    }
  }

  // ----- every step -----

  lemma StoreKeeps(k: Kernel, g: Ledger, chain: seq<nat>, va: nat, b: Byte)
    requires KernelOk(k, g, chain) && !k.halted && va < USER_TOP
    ensures Transition(k, g, chain, k.(mem := Store(k.mem, k.cr3, va, b)), g, chain)
  {
    hide View, MemoryOk, PidsOk, ChainOk, Translate;
    assert StoreAll(k.mem, k.cr3, va, [b]) == Store(k.mem, k.cr3, va, b);
    StoresKeep(k, g, chain, va, [b]);
  }

  lemma UsableBelow(m: Mem, root: nat, va: nat)
    ensures Usable(m, root, va) ==> va < USER_TOP
  {
    hide Reaches;
  }

  lemma StepKeeps(k: Kernel, g: Ledger, chain: seq<nat>, e: Event) returns (g': Ledger, chain': seq<nat>)
    requires KernelOk(k, g, chain) && !k.halted
    ensures Transition(k, g, chain, Next(k, e).0, g', chain')
  {
    hide View, MemoryOk, PidsOk, ChainOk, Transition, LocalStep, Vfork, Execve, Brk, Exit, Wait4, Open, Close, Lseek, Read, Getdents,
      Store, Usable;
    g', chain' := g, chain;
    NothingDone(k, g, chain);
    LocalIsTransition(k, g, chain, k, g);
    match e {
      case UserStore(va, b) =>
        if Usable(k.mem, k.cr3, va) {
          UsableBelow(k.mem, k.cr3, va);
          StoreKeeps(k, g, chain, va, b);
        }
      case VforkCall(f) =>
        g', chain' := VforkKeeps(k, g, chain, f);
      case ExecveCall(f, call) =>
        g' := ExecveKeeps(k, g, chain, f, call);
      case BrkCall(f, request) =>
        g' := BrkKeeps(k, g, chain, f, request);
        LocalIsTransition(k, g, chain, Brk(k, f, request).0, g');
      case ExitCall(f, code) =>
        chain' := ExitKeeps(k, g, chain, f, code);
      case Wait4Call(f, pid, address) =>
        g' := Wait4Keeps(k, g, chain, f, pid, address);
      case OpenCall(f, path) =>
        OpenKeeps(k, g, chain, f, path);
        LocalIsTransition(k, g, chain, Open(k, f, path).0, g);
      case CloseCall(f, fd) =>
        CloseKeeps(k, g, chain, f, fd);
        LocalIsTransition(k, g, chain, Close(k, f, fd).0, g);
      case LseekCall(f, fd, offset, whence) =>
        LseekKeeps(k, g, chain, f, fd, offset, whence);
        LocalIsTransition(k, g, chain, Lseek(k, f, fd, offset, whence).0, g);
      case ReadCall(f, fd, buffer, count, keys) =>
        ReadKeeps(k, g, chain, f, fd, buffer, count, keys);
        LocalIsTransition(k, g, chain, Read(k, f, fd, buffer, count, keys).0, g);
      case GetdentsCall(f, fd, buffer, count) =>
        GetdentsKeeps(k, g, chain, f, fd, buffer, count);
        LocalIsTransition(k, g, chain, Getdents(k, f, fd, buffer, count).0, g);
    }
  }
}
