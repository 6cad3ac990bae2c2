/**
 Properties of whole runs of the process machine: every finite sequence of user stores and
 system calls, successful or failing, from boot on.
 */
module Runs {
  import opened Wrappers
  import opened Paging
  import opened Ownership
  import opened PageTables
  import opened AddressSpaces
  import opened VirtualMemory
  import opened Programs
  import opened Loading
  import opened Stacks
  import opened Files
  import opened Kernel
  import opened Processes
  import opened Census
  import opened Boot

  // ----- the invariant holds along every run -----

  lemma {:induction false} RunKeeps(k: Kernel, g: Ledger, chain: seq<nat>, events: seq<Event>)
    returns (g': Ledger, chain': seq<nat>)
    requires KernelOk(k, g, chain)
    ensures KernelOk(Run(k, events), g', chain') && SameFrames(k.mem, g, Run(k, events).mem, g')
    ensures Run(k, events).archive == k.archive
    decreases |events|
  {
    hide Next, MemoryOk, PidsOk, ChainOk, View;
    g', chain' := g, chain;
    if events != [] {
      var k1 := Next(k, events[0]).0;
      if k.halted {
        HaltedStays(k, events[0]);
      } else {
        g', chain' := StepKeeps(k, g, chain, events[0]);
      }
      var g1, chain1 := g', chain';
      g', chain' := RunKeeps(k1, g1, chain1, events[1..]);
    }
  }

  lemma HaltedStays(k: Kernel, e: Event)
    requires Shape(k) && k.halted
    ensures Next(k, e).0 == k
  {
  }

  /** From the boot memory map on. */
  lemma RunFromBoot(m: Mem, ranges: seq<Range>, a: seq<Byte>, call: Invocation, events: seq<Event>) returns (g: Ledger, chain: seq<nat>)
    requires Boots(m, ranges, a, call)
    ensures var k := Run(Started(m, ranges, a, call), events);
            && KernelOk(k, g, chain) && k.archive == a && g.owner.Keys == UsableFrames(ranges)
            && Untouched(m, k.mem, UsableFrames(ranges)) && k.mem.kernel == m.kernel
  {
    hide Started, Boots, Run, KernelOk, Inv;
    var k0 := Started(m, ranges, a, call);
    var g0 := StartedOk(m, ranges, a, call);
    g, chain := RunKeeps(k0, g0, [0], events);
    UntouchedTrans(m, k0.mem, Run(k0, events).mem, UsableFrames(ranges));
  }

  // ----- frame conservation -----

  /** Slot i is in use and its page tables, table frames and user pages included, contain f. */
  ghost predicate Holds(k: Kernel, i: nat, f: nat) {
    i < |k.procs| && k.procs[i].status != Unused && InSpace(k.mem, k.procs[i].cr3, f)
  }

  /** The free list and the slots' spaces partition the usable frames. */
  ghost predicate Partition(k: Kernel, usable: set<nat>) {
    && (forall f: nat :: f in FreeList(k.mem) ==> f in usable)
    && (forall i: nat, f: nat :: Holds(k, i, f) ==> f in usable && f !in FreeList(k.mem))
    && (forall f: nat :: f in usable && f !in FreeList(k.mem) ==> exists i :: Holds(k, i, f))
    && (forall i: nat, j: nat, f: nat :: Holds(k, i, f) && Holds(k, j, f) ==> i == j)
    && |FreeList(k.mem)| == k.mem.count && LinkAfter(k.mem, k.mem.head, k.mem.count) == 0
    && (forall i, j :: 0 <= i < j < |FreeList(k.mem)| ==> FreeList(k.mem)[i] != FreeList(k.mem)[j])
  }

  lemma HoldsIsLedger(k: Kernel, g: Ledger, i: nat, f: nat)
    requires Shape(k) && MemoryOk(k, g)
    ensures Holds(k, i, f) <==>
            && i < MAX_PROCESSES && k.procs[i].status != Unused
            && f in g.owner && g.owner[f].Tree? && SpaceOf(g.owner[f].node) == k.procs[i].cr3
  {
    hide Inv, InSpace, NoLoose;
    if i < MAX_PROCESSES && k.procs[i].status != Unused {
      assert Holder(k.procs, i, k.procs[i].cr3);
      InSpaceIsLedger(k.mem, g, k.procs[i].cr3, f);
    }
  }

  lemma KernelPartitions(k: Kernel, g: Ledger, chain: seq<nat>)
    requires KernelOk(k, g, chain)
    ensures Partition(k, g.owner.Keys)
  {
    hide FreeList, LinkAfter, Holds, ChainOk, PidsOk;
    assert Inv(k.mem, g);
    OnListIsLedger(k.mem, g, 0);
    forall f: nat ensures f in FreeList(k.mem) <==> f in g.owner && g.owner[f].Free? {
      OnListIsLedger(k.mem, g, f);
    }
    forall i: nat, f: nat
      ensures Holds(k, i, f) <==>
              && i < MAX_PROCESSES && k.procs[i].status != Unused
              && f in g.owner && g.owner[f].Tree? && SpaceOf(g.owner[f].node) == k.procs[i].cr3
    {
      HoldsIsLedger(k, g, i, f);
    }
    forall f: nat | f in g.owner && g.owner[f].Tree? ensures exists i :: Holds(k, i, f) {
      var i := SlotOf(k, g, f);
      assert Holds(k, i, f);
    }
    forall i: nat, j: nat, f: nat | Holds(k, i, f) && Holds(k, j, f) ensures i == j {
      assert Holder(k.procs, i, k.procs[i].cr3) && Holder(k.procs, j, k.procs[i].cr3);
    }
  }

  /** The slot whose space contains a frame in use. */
  lemma SlotOf(k: Kernel, g: Ledger, f: nat) returns (i: nat)
    requires Shape(k) && MemoryOk(k, g) && f in g.owner && g.owner[f].Tree?
    ensures i < MAX_PROCESSES && k.procs[i].status != Unused && SpaceOf(g.owner[f].node) == k.procs[i].cr3
  {
    hide NoLoose, StackOk;
    assert OwnsBack(g, f);
    RootOfSpace(k.mem, g, g.owner[f].node);
    i :| Holder(k.procs, i, SpaceOf(g.owner[f].node));
  }

  /** Frame conservation over every run: whatever user code stores and whatever system calls succeed
      or fail, every usable frame is on the free list or in exactly one process's page tables. */
  lemma FramesConserved(m: Mem, ranges: seq<Range>, a: seq<Byte>, call: Invocation, events: seq<Event>)
    requires Boots(m, ranges, a, call)
    ensures Partition(Run(Started(m, ranges, a, call), events), UsableFrames(ranges))
  {
    hide Started, Boots, Run, Partition, KernelOk, Inv;
    var g, chain := RunFromBoot(m, ranges, a, call, events);
    KernelPartitions(Run(Started(m, ranges, a, call), events), g, chain);
  }

  // ----- memory that is not the allocator's -----

  /** On every run every frame outside the usable memory keeps its contents: the boot PML4 and the kernel's
      own tables, its image, the modules. */
  lemma OnlyUsableMemoryChanges(m: Mem, ranges: seq<Range>, a: seq<Byte>, call: Invocation, events: seq<Event>, f: nat)
    requires Boots(m, ranges, a, call)
    requires f !in UsableFrames(ranges)
    ensures Get(Run(Started(m, ranges, a, call), events).mem, f) == Get(m, f)
  {
    hide Started, Boots, Run, KernelOk, Inv;
    var _, _ := RunFromBoot(m, ranges, a, call, events);
  }

  /** In every reachable state every process has the kernel mapped exactly as at boot, and what it shows of
      memory that is not the allocator's is unchanged. */
  lemma KernelMappedAsAtBoot(m: Mem, ranges: seq<Range>, a: seq<Byte>, call: Invocation, events: seq<Event>, i: nat, page: nat)
    requires Boots(m, ranges, a, call)
    requires i < MAX_PROCESSES && Run(Started(m, ranges, a, call), events).procs[i].status != Unused
    requires Index(page, 0) >= 256 && WalkReserved(m, page, UsableFrames(ranges))
    ensures var k := Run(Started(m, ranges, a, call), events);
            && Lookup(k.mem, k.procs[i].cr3, page) == Lookup(m, m.kernel, page)
            && (Lookup(m, m.kernel, page).Some? && FrameOf(Lookup(m, m.kernel, page).value) !in UsableFrames(ranges) ==>
                  Peek(k.mem, k.procs[i].cr3, page) == Peek(m, m.kernel, page))
  {
    hide Started, Boots, Run, Inv, NoLoose, PidsOk, ChainOk, Index, FrameOf, Lookup, WalkReserved;
    var k := Run(Started(m, ranges, a, call), events);
    var g, chain := RunFromBoot(m, ranges, a, call, events);
    assert Holder(k.procs, i, k.procs[i].cr3);
    KernelWalkKept(m, k.mem, g, k.procs[i].cr3, page);
  }

  // ----- suspended parents -----

  /** The space rooted at `root` shows the same pages in both memories. */
  ghost predicate SameSpace(m: Mem, m': Mem, root: nat) {
    forall page :: 0 <= page < USER_PAGES ==> Peek(m', root, page) == Peek(m, root, page)
  }

  lemma KeptSpace(k: Kernel, g: Ledger, k': Kernel, g': Ledger, root: nat)
    requires Inv(k.mem, g) && Inv(k'.mem, g') && Root(root) in g.at && Root(root) in g'.at
    requires root != k.cr3 && OthersKept(k, g, k', g')
    ensures SameSpace(k.mem, k'.mem, root)
  {
    hide Lookup, Index, View, Peek, Inv;
    forall page | 0 <= page < USER_PAGES ensures Peek(k'.mem, root, page) == Peek(k.mem, root, page) {
      PeekIsView(k.mem, g, root, page);
      PeekIsView(k'.mem, g', root, page);
    }
  }

  /** While some descendant runs, the suspended process at place d of the chain keeps its record and
      its memory, and the one it waits for keeps its identity. */
  ghost predicate StillSuspended(k: Kernel, chain: seq<nat>, d: nat, k': Kernel, chain': seq<nat>)
    requires Shape(k) && d + 1 < |chain| && chain[d] < MAX_PROCESSES && chain[d + 1] < MAX_PROCESSES
  {
    && Shape(k') && !k'.halted && d + 1 < |chain'| && chain'[..d + 2] == chain[..d + 2]
    && k'.procs[chain[d]] == k.procs[chain[d]]
    && SameSpace(k.mem, k'.mem, k.procs[chain[d]].cr3)
    && SameIdentity(k.procs[chain[d + 1]], k'.procs[chain[d + 1]])
  }

  lemma SuspendedStep(k: Kernel, g: Ledger, chain: seq<nat>, d: nat, e: Event) returns (g': Ledger, chain': seq<nat>)
    requires KernelOk(k, g, chain) && !k.halted && d + 1 < |chain|
    requires Next(k, e).0.current != chain[d]
    ensures chain[d] < MAX_PROCESSES && chain[d + 1] < MAX_PROCESSES
    ensures KernelOk(Next(k, e).0, g', chain') && StillSuspended(k, chain, d, Next(k, e).0, chain')
  {
    hide Next, View, Inv, NoLoose, PidsOk, SameSpace;
    g', chain' := StepKeeps(k, g, chain, e);
    var k' := Next(k, e).0;
    var p, q := chain[d], chain[d + 1];
    assert Link(k.procs, chain, d) && Link(k.procs, chain, d + 1) && Link(k.procs, chain, |chain| - 1);
    assert Older(k.procs, chain, d, |chain| - 1);
    assert |chain'| >= d + 2 && chain'[..d + 2] == chain[..d + 2];
    var root := k.procs[p].cr3;
    assert Holder(k.procs, p, root) && Holder(k'.procs, p, root) && Holder(k.procs, k.current, k.cr3);
    KeptSpace(k, g, k', g', root);
  }

  lemma SameSpaceTrans(m0: Mem, m1: Mem, m2: Mem, root: nat)
    requires SameSpace(m0, m1, root) && SameSpace(m1, m2, root)
    ensures SameSpace(m0, m2, root)
  {
    hide Peek;
  }

  /** No state of the run has slot p current. */
  ghost predicate NeverCurrent(k: Kernel, events: seq<Event>, p: nat)
    requires Shape(k)
    decreases |events|
  {
    events == [] || (Next(k, events[0]).0.current != p && NeverCurrent(Next(k, events[0]).0, events[1..], p))
  }

  lemma {:induction false} SuspendedRun(k: Kernel, g: Ledger, chain: seq<nat>, d: nat, events: seq<Event>)
    returns (g': Ledger, chain': seq<nat>)
    requires KernelOk(k, g, chain) && !k.halted && d + 1 < |chain| && NeverCurrent(k, events, chain[d])
    ensures chain[d] < MAX_PROCESSES && chain[d + 1] < MAX_PROCESSES
    ensures KernelOk(Run(k, events), g', chain') && StillSuspended(k, chain, d, Run(k, events), chain')
    decreases |events|
  {
    hide Next, View, MemoryOk, PidsOk, Peek;
    assert Link(k.procs, chain, d) && Link(k.procs, chain, d + 1);
    g', chain' := g, chain;
    if events != [] {
      var k1 := Next(k, events[0]).0;
      var g1, chain1 := SuspendedStep(k, g, chain, d, events[0]);
      assert chain1[d] == chain1[..d + 2][d] && chain1[d + 1] == chain1[..d + 2][d + 1];
      g', chain' := SuspendedRun(k1, g1, chain1, d, events[1..]);
      SameSpaceTrans(k.mem, k1.mem, Run(k, events).mem, k.procs[chain[d]].cr3);
    }
  }

  // ----- from vfork to the matching exit -----

  /** Whatever the child and its descendants do after a successful vfork (stores, brk, execve,
      descriptors, nested vforks), until the parent runs again its record is that of the vfork with
      only the status changed and its space shows the same pages with the same bytes. */
  lemma ParentIsolated(k: Kernel, g: Ledger, chain: seq<nat>, f: Frame, events: seq<Event>)
    requires KernelOk(k, g, chain) && !k.halted && Vfork(k, f).0.current != k.current
    requires NeverCurrent(Vfork(k, f).0, events, k.current)
    ensures var k' := Run(Vfork(k, f).0, events);
            && k'.procs[k.current] == Current(k).(status := Blocked)
            && SameSpace(k.mem, k'.mem, Current(k).cr3)
  {
    var _, _ := VforkThenRun(k, g, chain, f, events);
  }

  lemma VforkThenRun(k: Kernel, g: Ledger, chain: seq<nat>, f: Frame, events: seq<Event>)
    returns (g': Ledger, chain': seq<nat>)
    requires KernelOk(k, g, chain) && !k.halted && Vfork(k, f).0.current != k.current
    requires NeverCurrent(Vfork(k, f).0, events, k.current)
    ensures var k1 := Vfork(k, f).0;
            var k' := Run(k1, events);
            && KernelOk(k', g', chain') && !k'.halted
            && chain + [k1.current] <= chain'
            && k'.procs[k.current] == Current(k).(status := Blocked)
            && SameSpace(k.mem, k'.mem, Current(k).cr3)
            && SameIdentity(VforkChild(k, f, k1.cr3), k'.procs[k1.current])
  {
    hide Vfork, View, MemoryOk, PidsOk, Peek, Next, Run, NewProc;
    var k1 := Vfork(k, f).0;
    var g1, chain1 := VforkKeeps(k, g, chain, f);
    RunningRoot(k, g, chain);
    VforkKeepsParent(k, g, chain, f, k1, g1, chain1);
    var d := |chain| - 1;
    assert chain1[d] == k.current && chain1[d + 1] == k1.current;
    g', chain' := SuspendedRun(k1, g1, chain1, d, events);
    SameSpaceTrans(k.mem, k1.mem, Run(k1, events).mem, Current(k).cr3);
    assert chain1 == chain1[..d + 2];
  }

  lemma VforkKeepsParent(k: Kernel, g: Ledger, chain: seq<nat>, f: Frame, k1: Kernel, g1: Ledger, chain1: seq<nat>)
    requires KernelOk(k, g, chain) && !k.halted && KernelOk(k1, g1, chain1) && VforkMade(k, g, chain, f, k1, g1, chain1)
    ensures SameSpace(k.mem, k1.mem, Current(k).cr3)
  {
    hide Lookup, Index, View, Peek, PidsOk;
    RunningRoot(k, g, chain);
    var root := Current(k).cr3;
    assert SpaceOf(Root(root)) == root;
    assert Holder(k1.procs, k.current, root);
    forall page | 0 <= page < USER_PAGES ensures Peek(k1.mem, root, page) == Peek(k.mem, root, page) {
      PeekIsView(k.mem, g, root, page);
      PeekIsView(k1.mem, g1, root, page);
    }
  }

  /** The exit that makes the parent run again resumes it from the vfork frame with only rax
      replaced by the child's pid; its record and its memory are those of the vfork. */
  lemma ParentResumes(k: Kernel, g: Ledger, chain: seq<nat>, f: Frame, events: seq<Event>, e: Event)
    requires KernelOk(k, g, chain) && !k.halted && Vfork(k, f).0.current != k.current
    requires NeverCurrent(Vfork(k, f).0, events, k.current)
    requires Next(Run(Vfork(k, f).0, events), e).0.current == k.current
    ensures var (k', frame) := Next(Run(Vfork(k, f).0, events), e);
            && e.ExitCall?
            && frame == f.(rax := k.nextPid % WORD_LIMIT)
            && k'.procs[k.current] == Current(k) && k'.cr3 == k.cr3
            && SameSpace(k.mem, k'.mem, Current(k).cr3)
  {
    hide View, MemoryOk, PidsOk, Peek, Run, Vfork;
    var k1 := Vfork(k, f).0;
    var k2 := Run(k1, events);
    var g2, chain2 := VforkThenRun(k, g, chain, f, events);
    RunningRoot(k, g, chain);
    OnlyExitReturns(k2, g2, chain2, |chain| - 1, e);
  }

  /** Only the exit of the process it waits for makes a suspended process current. */
  lemma OnlyExitReturns(k: Kernel, g: Ledger, chain: seq<nat>, d: nat, e: Event)
    requires KernelOk(k, g, chain) && !k.halted && d + 1 < |chain| && Next(k, e).0.current == chain[d]
    ensures e.ExitCall? && d + 2 == |chain| && k.current == chain[d + 1] && chain[d] < MAX_PROCESSES
    ensures Next(k, e) == (Resume(k, chain[d], e.code), Returns(Current(k).saved, Current(k).pid))
  {
    hide View, MemoryOk, Vfork, Execve, Brk, Wait4, Open, Close, Lseek, Read, Getdents, Store, Usable;
    var n := |chain| - 1;
    assert Link(k.procs, chain, d) && Link(k.procs, chain, n) && Older(k.procs, chain, d, n);
    var g', chain' := StepKeeps(k, g, chain, e);
    SameCurrent(k, e);
    if e.VforkCall? {
      var _, _ := VforkKeeps(k, g, chain, e.frame);
    }
    assert Link(k.procs, chain, n - 1);
    assert d < n - 1 ==> Older(k.procs, chain, d, n - 1);
  }

  lemma SameCurrent(k: Kernel, e: Event)
    requires Shape(k)
    ensures !e.ExitCall? && !e.VforkCall? ==> Next(k, e).0.current == k.current
  {
    hide LoadProgram, MapPages, StoreAll, DestroyUserSpace, Store, Usable;
  }

  // ----- the shape of the process table in every reachable state -----

  lemma {:induction false} RunKeepsInit(k: Kernel, g: Ledger, chain: seq<nat>, events: seq<Event>)
    returns (g': Ledger, chain': seq<nat>)
    requires KernelOk(k, g, chain) && !k.halted && !Run(k, events).halted
    ensures KernelOk(Run(k, events), g', chain') && |chain| > 0 && |chain'| > 0 && chain'[0] == chain[0]
    decreases |events|
  {
    hide Next, MemoryOk, PidsOk, View;
    g', chain' := g, chain;
    if events != [] {
      var k1 := Next(k, events[0]).0;
      var g1, chain1 := StepKeeps(k, g, chain, events[0]);
      if k1.halted {
        HaltedRun(k1, events[1..]);
      }
      g', chain' := RunKeepsInit(k1, g1, chain1, events[1..]);
    }
  }

  lemma {:induction false} HaltedRun(k: Kernel, events: seq<Event>)
    requires Shape(k) && k.halted
    ensures Run(k, events) == k
    decreases |events|
  {
    if events != [] {
      HaltedStays(k, events[0]);
      HaltedRun(k, events[1..]);
    }
  }

  /** In every reachable state before init exits exactly one slot is running, and it is the current
      one with its page tables in CR3; following vforkParent from it visits every blocked slot once,
      with decreasing pids, and ends at init. */
  lemma TableShape(m: Mem, ranges: seq<Range>, a: seq<Byte>, call: Invocation, events: seq<Event>) returns (chain: seq<nat>)
    requires Boots(m, ranges, a, call)
    requires !Run(Started(m, ranges, a, call), events).halted
    ensures var k := Run(Started(m, ranges, a, call), events);
            && |k.procs| == 16 && |chain| > 0 && chain[0] == 0 && chain[|chain| - 1] == k.current && k.cr3 == Current(k).cr3
            && (forall i :: 0 <= i < MAX_PROCESSES ==> (k.procs[i].status == Running <==> i == k.current))
            && (forall i :: 0 <= i < MAX_PROCESSES ==> (k.procs[i].status == Blocked <==> i in chain[..|chain| - 1]))
            && (forall j :: 0 <= j < |chain| ==> chain[j] < MAX_PROCESSES)
            && (forall j {:trigger chain[j]} :: 0 < j < |chain| ==>
                  && k.procs[chain[j]].vforkParent == Some(chain[j - 1])
                  && k.procs[chain[j - 1]].pid < k.procs[chain[j]].pid)
            && k.procs[0].vforkParent == None
  {
    hide Started, Boots, Run, Inv, MemoryOk, PidsOk;
    var k0 := Started(m, ranges, a, call);
    var g1 := StartedOk(m, ranges, a, call);
    var g2;
    g2, chain := RunKeepsInit(k0, g1, [0], events);
    ChainShape(Run(k0, events), chain);
  }

  lemma ChainShape(k: Kernel, chain: seq<nat>)
    requires Shape(k) && ChainOk(k, chain)
    ensures forall i :: 0 <= i < MAX_PROCESSES ==> (k.procs[i].status == Running <==> i == k.current)
    ensures forall i :: 0 <= i < MAX_PROCESSES ==> (k.procs[i].status == Blocked <==> i in chain[..|chain| - 1])
    ensures forall j :: 0 <= j < |chain| ==> chain[j] < MAX_PROCESSES
    ensures forall j {:trigger chain[j]} :: 0 < j < |chain| ==>
              k.procs[chain[j]].vforkParent == Some(chain[j - 1]) && k.procs[chain[j - 1]].pid < k.procs[chain[j]].pid
    ensures k.procs[chain[0]].vforkParent == None
  {
    var n := |chain| - 1;
    assert Link(k.procs, chain, n) && Link(k.procs, chain, 0);
    forall i | 0 <= i < MAX_PROCESSES
      ensures k.procs[i].status == Running <==> i == k.current
      ensures k.procs[i].status == Blocked <==> i in chain[..n]
    {
      assert Alive(k.procs[i]) ==> i in chain;
      if i in chain {
        var j :| 0 <= j < |chain| && chain[j] == i;
        assert Link(k.procs, chain, j);
        assert j < n ==> chain[..n][j] == i;
      }
      if i in chain[..n] {
        var j :| 0 <= j < n && chain[..n][j] == i;
        assert Link(k.procs, chain, j);
      }
    }
    forall j {:trigger chain[j]} | 0 < j < |chain|
      ensures chain[j] < MAX_PROCESSES && chain[j - 1] < MAX_PROCESSES
      ensures k.procs[chain[j]].vforkParent == Some(chain[j - 1]) && k.procs[chain[j - 1]].pid < k.procs[chain[j]].pid
    {
      assert Link(k.procs, chain, j) && Link(k.procs, chain, j - 1) && Older(k.procs, chain, j - 1, j);
    }
  }

  // ----- pids and reaping -----

  /** A used slot keeps its pid or has got a new one. */
  ghost predicate PidStep(k: Kernel, k': Kernel) {
    && |k'.procs| == |k.procs| && k.nextPid <= k'.nextPid
    && forall i :: 0 <= i < |k.procs| && k'.procs[i].status != Unused ==>
         (k.procs[i].status != Unused && k'.procs[i].pid == k.procs[i].pid) || k'.procs[i].pid >= k.nextPid
  }

  /** A zombie was one already, or is the process that has just exited with this code. */
  ghost predicate ZombieStep(k: Kernel, e: Event, k': Kernel) {
    |k'.procs| == |k.procs| && forall i :: 0 <= i < |k.procs| && k'.procs[i].status == Zombie ==>
      || (k.procs[i].status == Zombie && k'.procs[i].pid == k.procs[i].pid && k'.procs[i].exitStatus == k.procs[i].exitStatus)
      || (e.ExitCall? && i == k.current && k'.procs[i].pid == k.procs[i].pid && k'.procs[i].exitStatus == e.code % 256)
  }

  lemma TableStep(k: Kernel, g: Ledger, chain: seq<nat>, e: Event)
    requires KernelOk(k, g, chain) && !k.halted
    ensures PidStep(k, Next(k, e).0) && ZombieStep(k, e, Next(k, e).0)
  {
    hide LoadProgram, MapPages, StoreAll, DestroyUserSpace, Store, Usable, CreateRoot, CloneUserSpace, MemoryOk, EmptyFds,
      StandardFds, ChainOk, Exit, Lseek, Read, Getdents, Open, Close, PidStep, ZombieStep;
    RunningAlive(k, chain);
    match e {
      case ExitCall(f, code) => ExitTableStep(k, g, chain, f, code);
      case VforkCall(f) => VforkTableStep(k, f);
      case OpenCall(f, path) => OpenKeeps(k, g, chain, f, path); LocalTableStep(k, g, chain, e, Open(k, f, path).0, g);
      case CloseCall(f, fd) => CloseKeeps(k, g, chain, f, fd); LocalTableStep(k, g, chain, e, Close(k, f, fd).0, g);
      case LseekCall(f, fd, o, w) =>
        LseekKeeps(k, g, chain, f, fd, o, w);
        LocalTableStep(k, g, chain, e, Lseek(k, f, fd, o, w).0, g);
      case ReadCall(f, fd, b, c, keys) =>
        ReadKeeps(k, g, chain, f, fd, b, c, keys);
        LocalTableStep(k, g, chain, e, Read(k, f, fd, b, c, keys).0, g);
      case GetdentsCall(f, fd, b, c) =>
        GetdentsKeeps(k, g, chain, f, fd, b, c);
        LocalTableStep(k, g, chain, e, Getdents(k, f, fd, b, c).0, g);
      case _ => OtherTableStep(k, e);
    }
  }

  lemma LocalTableStep(k: Kernel, g: Ledger, chain: seq<nat>, e: Event, k': Kernel, g': Ledger)
    requires KernelOk(k, g, chain) && !k.halted && LocalStep(k, g, k', g', chain)
    ensures PidStep(k, k') && ZombieStep(k, e, k')
  {
    hide MemoryOk, OthersKept, PidsOk, ChainOk;
    RunningAlive(k, chain);
    RunningAlive(k', chain);
  }

  lemma OtherTableStep(k: Kernel, e: Event)
    requires Shape(k) && !k.halted && Current(k).status == Running
    requires e.UserStore? || e.ExecveCall? || e.BrkCall? || e.Wait4Call?
    ensures PidStep(k, Next(k, e).0) && ZombieStep(k, e, Next(k, e).0)
  {
    hide LoadProgram, MapPages, StoreAll, DestroyUserSpace, Store, Usable, EmptyFds, Resolve, FirstReapable, UserRange, StatusBytes,
      Vfork, Exit, Open, Close, Lseek, Read, Getdents;
  }

  lemma VforkTableStep(k: Kernel, f: Frame)
    requires Shape(k) && !k.halted && Current(k).status == Running
    ensures PidStep(k, Vfork(k, f).0) && ZombieStep(k, VforkCall(f), Vfork(k, f).0)
  {
    hide DestroyUserSpace, CreateRoot, CloneUserSpace, EmptyFds, StandardFds;
  }

  lemma ExitTableStep(k: Kernel, g: Ledger, chain: seq<nat>, f: Frame, code: Word)
    requires KernelOk(k, g, chain) && !k.halted
    ensures PidStep(k, Exit(k, f, code).0) && ZombieStep(k, ExitCall(f, code), Exit(k, f, code).0)
  {
    hide MemoryOk, EmptyFds;
    RunningAlive(k, chain);
    if |chain| > 1 {
      assert Link(k.procs, chain, |chain| - 1) && Link(k.procs, chain, |chain| - 2);
    } else {
      assert Link(k.procs, chain, 0);
    }
  }

  function Vforks(events: seq<Event>): (n: nat) {
    if events == [] then 0 else (if events[0].VforkCall? then 1 else 0) + Vforks(events[1..])
  }

  lemma PidCounter(k: Kernel, e: Event)
    requires Shape(k)
    ensures Next(k, e).0.nextPid <= k.nextPid + (if e.VforkCall? then 1 else 0)
  {
    hide LoadProgram, MapPages, StoreAll, DestroyUserSpace, Store, Usable, CreateRoot, CloneUserSpace, FirstUnused, FirstReapable, FirstFreeFd, FileAt,
      ListingOf, Held, UserRange;
  }

  /** Each vfork call uses up at most one pid. */
  lemma {:induction false} PidsCounted(k: Kernel, events: seq<Event>)
    requires Shape(k)
    ensures Run(k, events).nextPid <= k.nextPid + Vforks(events)
    decreases |events|
  {
    hide Next;
    if events != [] {
      PidCounter(k, events[0]);
      PidsCounted(Next(k, events[0]).0, events[1..]);
    }
  }

  /** So on a run from boot with fewer than 2^31 - 2 vfork calls every pid fits the kernel's int. */
  lemma PidsFitInt(m: Mem, ranges: seq<Range>, a: seq<Byte>, call: Invocation, events: seq<Event>, i: nat)
    requires Boots(m, ranges, a, call) && Vforks(events) < 0x7fff_fffe && i < MAX_PROCESSES
    ensures var k := Run(Started(m, ranges, a, call), events);
            k.nextPid <= 0x7fff_ffff && k.procs[i].pid < 0x7fff_ffff
  {
    hide Started, Boots, Run, Inv, MemoryOk, ChainOk, SafeArchive, Vforks, EmptyFds;
    var g, chain := RunFromBoot(m, ranges, a, call, events);
    var g0 := StartedOk(m, ranges, a, call);
    PidsCounted(Started(m, ranges, a, call), events);
  }

  /** This wait4 reaps the process `pid`. */
  ghost predicate Reaps(k: Kernel, e: Event, pid: nat)
    requires Shape(k)
  {
    && e.Wait4Call? && !k.halted
    && exists i :: 0 <= i < MAX_PROCESSES && k.procs[i].status == Zombie && k.procs[i].pid == pid
                   && Next(k, e).0.procs[i].status == Unused
  }

  /** The pid has been given out and no slot has it any more. */
  ghost predicate Gone(k: Kernel, pid: nat) {
    pid < k.nextPid && forall i :: 0 <= i < |k.procs| && k.procs[i].status != Unused ==> k.procs[i].pid != pid
  }

  lemma {:induction false} GoneForGood(k: Kernel, g: Ledger, chain: seq<nat>, events: seq<Event>, pid: nat)
    requires KernelOk(k, g, chain) && Gone(k, pid)
    ensures Gone(Run(k, events), pid)
    decreases |events|
  {
    hide Next, MemoryOk, ChainOk, View, PidsOk;
    if events != [] {
      if k.halted {
        HaltedStays(k, events[0]);
        GoneForGood(k, g, chain, events[1..], pid);
      } else {
        TableStep(k, g, chain, events[0]);
        var g1, chain1 := StepKeeps(k, g, chain, events[0]);
        GoneForGood(Next(k, events[0]).0, g1, chain1, events[1..], pid);
      }
    }
  }

  lemma ReapedIsGone(k: Kernel, g: Ledger, chain: seq<nat>, e: Event, pid: nat)
    requires KernelOk(k, g, chain) && Reaps(k, e, pid)
    ensures Gone(Next(k, e).0, pid) && Next(k, e).1.rax == pid % WORD_LIMIT
  {
    hide StoreAll, DestroyUserSpace, MemoryOk, EmptyFds, ChainOk;
    var i :| 0 <= i < MAX_PROCESSES && k.procs[i].status == Zombie && k.procs[i].pid == pid
             && Next(k, e).0.procs[i].status == Unused;
    assert i == FirstReapable(k.procs, k.current, e.pid, 0);
  }

  lemma {:induction false} RunSplit(k: Kernel, a: seq<Event>, b: seq<Event>)
    requires Shape(k)
    ensures Run(k, a + b) == Run(Run(k, a), b)
    decreases |a|
  {
    hide Next;
    if a == [] {
      assert a + b == b;
    } else {
      assert (a + b)[1..] == a[1..] + b;
      RunSplit(Next(k, a[0]).0, a[1..], b);
    }
  }

  lemma RunNext(k: Kernel, events: seq<Event>, e: Event)
    requires Shape(k)
    ensures Run(k, events + [e]) == Next(Run(k, events), e).0
  {
    hide Next;
    RunSplit(k, events, [e]);
    assert Run(Run(k, events), [e]) == Run(Next(Run(k, events), e).0, [e][1..]);
  }

  /** No pid is reaped twice on any run. */
  lemma ReapedOnce(k: Kernel, g: Ledger, chain: seq<nat>, before: seq<Event>, e1: Event, between: seq<Event>, e2: Event, a: nat, b: nat)
    requires KernelOk(k, g, chain)
    requires Reaps(Run(k, before), e1, a) && Reaps(Run(k, before + [e1] + between), e2, b)
    ensures a != b
  {
    hide Next, MemoryOk, ChainOk, View, PidsOk, Run;
    var g1, chain1 := RunKeeps(k, g, chain, before);
    var k1 := Run(k, before);
    ReapedIsGone(k1, g1, chain1, e1, a);
    var g2, chain2 := StepKeeps(k1, g1, chain1, e1);
    var k2 := Next(k1, e1).0;
    GoneForGood(k2, g2, chain2, between, a);
    RunNext(k, before, e1);
    RunSplit(k, before + [e1], between);
  }

  /** A process is a zombie only after its own exit, and carries the low byte of that exit's code. */
  lemma {:induction false} ZombieHasExited(k: Kernel, g: Ledger, chain: seq<nat>, events: seq<Event>, i: nat) returns (n: nat)
    requires KernelOk(k, g, chain) && i < MAX_PROCESSES && Run(k, events).procs[i].status == Zombie
    requires forall j :: 0 <= j < MAX_PROCESSES ==> k.procs[j].status != Zombie
    ensures n < |events| && events[n].ExitCall? && Run(k, events[..n]).current == i
    ensures Run(k, events[..n]).procs[i].pid == Run(k, events).procs[i].pid
    ensures Run(k, events).procs[i].exitStatus == events[n].code % 256
    decreases |events|
  {
    hide Next, MemoryOk, ChainOk, View, PidsOk, Run;
    assert Run(k, []) == k by { RunNothing(k); }
    var last := |events| - 1;
    var front := events[..last];
    assert events == front + [events[last]];
    var k1 := Run(k, front);
    RunNext(k, front, events[last]);
    var g1, chain1 := RunKeeps(k, g, chain, front);
    if k1.halted {
      HaltedStays(k1, events[last]);
    } else {
      TableStep(k1, g1, chain1, events[last]);
    }
    if k1.procs[i].status == Zombie && k1.procs[i].exitStatus == Run(k, events).procs[i].exitStatus
       && k1.procs[i].pid == Run(k, events).procs[i].pid {
      n := ZombieHasExited(k, g, chain, front, i);
      assert front[..n] == events[..n];
    } else {
      n := last;
    }
  }

  lemma RunNothing(k: Kernel)
    requires Shape(k)
    ensures Run(k, []) == k
  {
  }

  /** What wait4 leaves at the address is the int exit_status << 8, and what it returns the child's pid. */
  lemma StatusDelivered(k: Kernel, g: Ledger, chain: seq<nat>, f: Frame, pid: Word, address: Word, i: nat)
    requires KernelOk(k, g, chain) && !k.halted && i == FirstReapable(k.procs, k.current, pid, 0) < MAX_PROCESSES
    requires address != 0 && UserRange(address, 4) && Readable(k.mem, k.cr3, address, 4)
    ensures var (k', r) := Wait4(k, f, pid, address);
            && r == f.(rax := k.procs[i].pid % WORD_LIMIT) && k'.cr3 == k.cr3
            && ReadLE(k'.mem, k.cr3, address, 4) == Some(256 * k.procs[i].exitStatus % 0x1_0000_0000)
  {
    hide StoreAll, DestroyUserSpace, View, UserLoad, Usable, PidsOk, EmptyFds, Inv, Translate, ReadLE, StatusBytes;
    RunningRoot(k, g, chain);
    assert Inv(k.mem, g);
    var s := StatusBytes(k.procs[i].exitStatus);
    var m1 := StoreAll(k.mem, k.cr3, address, s);
    StoreAllConfined(k.mem, g, k.cr3, address, s);
    assert Holder(k.procs, i, k.procs[i].cr3) && Holder(k.procs, k.current, k.cr3);
    assert k.procs[i].cr3 != k.cr3;
    var m2 := Wait4(k, f, pid, address).0.mem;
    forall va: nat | address <= va < address + 4 ensures UserLoad(m2, k.cr3, va) == Some(s[va - address]) {
      UserLoadAfterStoreAll(m := k.mem, g := g, root := k.cr3, va := address, bytes := s, root2 := k.cr3, va2 := va);
      UserLoadAfterDestroy(m1, g, k.procs[i].cr3, k.cr3, va);
    }
    StatusRead(m2, k.cr3, address, k.procs[i].exitStatus);
  }

  /** User code can load every byte of the range. */
  ghost predicate Readable(m: Mem, root: nat, va: nat, n: nat) {
    forall a: nat :: va <= a < va + n ==> UserLoad(m, root, a).Some?
  }

  lemma StatusRead(m: Mem, root: nat, address: nat, e: nat)
    requires address + 4 <= USER_TOP
    requires forall va: nat :: address <= va < address + 4 ==> UserLoad(m, root, va) == Some(StatusBytes(e)[va - address])
    ensures ReadLE(m, root, address, 4) == Some(256 * e % 0x1_0000_0000)
  {
    hide UserLoad;
    var a, b, c := e % 256, e / 256 % 256, e / 65536 % 256;
    assert ReadLE(m, root, address + 4, 0) == Some(0);
    assert ReadLE(m, root, address + 3, 1) == Some(c);
    assert ReadLE(m, root, address + 2, 2) == Some(b + 256 * c);
    assert ReadLE(m, root, address + 1, 3) == Some(a + 256 * (b + 256 * c));
    LowThree(e);
  }

  lemma LowThree(e: nat)
    ensures 256 * (e % 256 + 256 * (e / 256 % 256 + 256 * (e / 65536 % 256))) == 256 * e % 0x1_0000_0000
  {
    var d := e / 65536;
    assert e / 256 / 256 == d;
    assert e == e % 256 + 256 * (e / 256 % 256) + 65536 * (d % 256) + 0x100_0000 * (d / 256);
  }

  /** From boot: the process that wait4 reaps has called exit before, and the caller gets its pid and the
      low byte of the status it gave, shifted left by eight. */
  lemma WaitReportsExit(m: Mem, ranges: seq<Range>, a: seq<Byte>, call: Invocation, events: seq<Event>, f: Frame, pid: Word, address: Word, i: nat)
    returns (n: nat)
    requires Boots(m, ranges, a, call)
    requires var k := Run(Started(m, ranges, a, call), events);
             && !k.halted && i == FirstReapable(k.procs, k.current, pid, 0) < MAX_PROCESSES
             && address != 0 && UserRange(address, 4) && Readable(k.mem, k.cr3, address, 4)
    ensures var k0 := Started(m, ranges, a, call);
            var k := Run(k0, events);
            var (k', r) := Wait4(k, f, pid, address);
            && n < |events| && events[n].ExitCall?
            && r == f.(rax := Current(Run(k0, events[..n])).pid % WORD_LIMIT)
            && ReadLE(k'.mem, k'.cr3, address, 4) == Some(events[n].code % 256 * 256)
            && Gone(k', Current(Run(k0, events[..n])).pid)
  {
    hide Started, Boots, Run, Inv, Load, ReadLE, Wait4, Readable, UserRange, FirstReapable, MemoryOk, ChainOk, PidsOk, View, Reaps;
    var k0 := Started(m, ranges, a, call);
    var g1 := StartedOk(m, ranges, a, call);
    NoZombieYet(m, ranges, a, call);
    var k := Run(k0, events);
    var g, chain := RunKeeps(k0, g1, [0], events);
    n := ZombieHasExited(k0, g1, [0], events, i);
    StatusDelivered(k, g, chain, f, pid, address, i);
    var e := Wait4Call(f, pid, address);
    ReapsFirst(k, f, pid, address, i);
    ReapedIsGone(k, g, chain, e, k.procs[i].pid);
  }

  lemma NoZombieYet(m: Mem, ranges: seq<Range>, a: seq<Byte>, call: Invocation)
    requires Boots(m, ranges, a, call)
    ensures forall j :: 0 <= j < MAX_PROCESSES ==> Started(m, ranges, a, call).procs[j].status != Zombie
  {
    hide LoadProgram, EmptyFds, StandardFds, AddRanges;
  }

  lemma ReapsFirst(k: Kernel, f: Frame, pid: Word, address: Word, i: nat)
    requires Shape(k) && !k.halted && i == FirstReapable(k.procs, k.current, pid, 0) < MAX_PROCESSES && (address == 0 || UserRange(address, 4))
    ensures Reaps(k, Wait4Call(f, pid, address), k.procs[i].pid)
    ensures Next(k, Wait4Call(f, pid, address)) == Wait4(k, f, pid, address)
  {
    hide StoreAll, DestroyUserSpace, EmptyFds, StatusBytes;
    assert Wait4(k, f, pid, address).0.procs[i].status == Unused;
  }

  /** Destroying one space changes nothing for user code in another. */
  lemma UserLoadAfterDestroy(m: Mem, g: Ledger, root: nat, root2: nat, va: nat)
    requires Inv(m, g) && Root(root) in g.at && Root(root2) in g.at && root2 != root && va < USER_TOP
    ensures UserLoad(DestroyUserSpace(m, root), root2, va) == UserLoad(m, root2, va)
    ensures Usable(DestroyUserSpace(m, root), root2, va) == Usable(m, root2, va)
  {
    hide DestroyUserSpace, View, UserLoad, Usable, Allows, StackOk, OwnerOk;
    var g' := DestroyKeeps(m, g, root);
    assert SpaceOf(Root(root2)) == root2;
    UserLoadIsView(m, g, root2, va);
    UserLoadIsView(DestroyUserSpace(m, root), g', root2, va);
    DestroyViews(m, g, DestroyUserSpace(m, root), g', root, Leaf(root2, va / 4096));
  }
}
