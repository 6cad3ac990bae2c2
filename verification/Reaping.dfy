/**
 Who can be waited for: every child that exits is delivered to the slot that called vfork for it.
 */
module Reaping {
  import opened Wrappers
  import opened Paging
  import opened Ownership
  import opened VirtualMemory
  import opened Programs
  import opened Files
  import opened Stacks
  import opened Kernel
  import opened Processes
  import opened Boot
  import opened Runs

  // ----- the child one has waited for -----

  /** Pids are distinct, so a zombie child is the one a wait for its pid finds. */
  lemma FoundByPid(k: Kernel, pid: Word, c: nat)
    requires Shape(k) && PidsOk(k) && c < MAX_PROCESSES && Reapable(k.procs[c], k.current, pid) && pid == k.procs[c].pid != ANY_PID
    ensures FirstReapable(k.procs, k.current, pid, 0) == c
  {
    var i := FirstReapable(k.procs, k.current, pid, 0);
    assert i < MAX_PROCESSES ==> Reapable(k.procs[i], k.current, pid);
  }

  /** From a vfork to the exit that makes the caller run again, whatever happens in between: waiting for the
      child then returns its pid, stores its status shifted left by eight, and frees its slot. */
  lemma ChildIsReaped(k: Kernel, g: Ledger, chain: seq<nat>, f: Frame, events: seq<Event>, e: Event, f2: Frame, address: Word)
    requires KernelOk(k, g, chain) && !k.halted && Vfork(k, f).0.current != k.current && k.nextPid < ANY_PID
    requires NeverCurrent(Vfork(k, f).0, events, k.current)
    requires Next(Run(Vfork(k, f).0, events), e).0.current == k.current
    requires var k' := Next(Run(Vfork(k, f).0, events), e).0;
             address != 0 && UserRange(address, 4) && Readable(k'.mem, k'.cr3, address, 4)
    ensures var k1 := Vfork(k, f).0;
            var k' := Next(Run(k1, events), e).0;
            var (k2, r) := Wait4(k', f2, k.nextPid, address);
            && e.ExitCall? && r == f2.(rax := k.nextPid) && k2.procs[k1.current] == EmptyProc()
            && k2.cr3 == k.cr3 && ReadLE(k2.mem, k.cr3, address, 4) == Some(e.code % 256 * 256)
  {
    hide Vfork, Run, Next, Wait4, ReadLE, Readable, UserRange, MemoryOk, PidsOk, ChainOk, SafeArchive, StandardFds, EmptyFds, FirstReapable;
    var k1 := Vfork(k, f).0;
    var k2 := Run(k1, events);
    var g2, chain2 := VforkThenRun(k, g, chain, f, events);
    var d := |chain| - 1;
    LastOfChain(k, chain);
    OnlyExitReturns(k2, g2, chain2, d, e);
    assert chain2[d + 1] == (chain + [k1.current])[d + 1] == k1.current;
    var k' := Next(k2, e).0;
    var g3, chain3 := StepKeeps(k2, g2, chain2, e);
    var c := k1.current;
    ChildRecord(k, f, k1.cr3, k2, c, e.code);
    FoundByPid(k', k.nextPid, c);
    StatusDelivered(k', g3, chain3, f2, k.nextPid, address, c);
    ReapedSlot(k', f2, k.nextPid, address, c);
    RunningRoot(k, g, chain);
    ParentResumes(k, g, chain, f, events, e);
  }

  lemma LastOfChain(k: Kernel, chain: seq<nat>)
    requires Shape(k) && ChainOk(k, chain)
    ensures |chain| > 0 && chain[|chain| - 1] == k.current
  {
  }

  /** What the table holds of the child once it has exited. */
  lemma ChildRecord(k: Kernel, f: Frame, root: nat, k2: Kernel, c: nat, code: Word)
    requires Shape(k) && Shape(k2) && c == k2.current && k.current != c && SameIdentity(VforkChild(k, f, root), k2.procs[c])
    ensures var k' := Resume(k2, k.current, code);
            && k'.procs[c].status == Zombie && k'.procs[c].parent == Some(k.current) && k'.procs[c].pid == k.nextPid
            && k'.procs[c].exitStatus == code % 256 && k'.current == k.current
  {
    hide StandardFds, EmptyFds;
  }

  lemma ReapedSlot(k: Kernel, f: Frame, pid: Word, address: Word, c: nat)
    requires Shape(k) && c == FirstReapable(k.procs, k.current, pid, 0) < MAX_PROCESSES && (address == 0 || UserRange(address, 4))
    ensures Wait4(k, f, pid, address).0.procs[c] == EmptyProc() && Wait4(k, f, pid, address).0.cr3 == k.cr3
  {
    hide StoreAll, DestroyUserSpace, EmptyFds, StatusBytes;
  }

  // ----- any child -----

  /** Event n of the run is the vfork call of slot s that made the process `pid`. */
  ghost predicate Made(k0: Kernel, events: seq<Event>, n: nat, pid: nat, s: nat)
    requires Shape(k0)
  {
    n < |events| && events[n].VforkCall? &&
    var a := Run(k0, events[..n]);
    var b := Next(a, events[n]).0;
    !a.halted && a.current == s && b.current != s && pid == a.nextPid == Current(b).pid && b.nextPid == pid + 1
  }

  /** A used slot was used under the same pid and parent, or belongs to the child just made by the current one. */
  ghost predicate ParentStep(k: Kernel, e: Event, k': Kernel)
    requires Shape(k)
  {
    Shape(k') && forall i :: 0 <= i < MAX_PROCESSES && k'.procs[i].status != Unused ==>
      || (k.procs[i].status != Unused && k'.procs[i].pid == k.procs[i].pid && k'.procs[i].parent == k.procs[i].parent)
      || (e.VforkCall? && i == k'.current != k.current && k'.procs[i].pid == k.nextPid && k'.procs[i].parent == Some(k.current)
          && k'.nextPid == k.nextPid + 1)
  }

  lemma ParentStepHolds(k: Kernel, g: Ledger, chain: seq<nat>, e: Event)
    requires KernelOk(k, g, chain) && !k.halted
    ensures ParentStep(k, e, Next(k, e).0)
  {
    hide LoadProgram, MapPages, StoreAll, DestroyUserSpace, Store, Usable, CreateRoot, CloneUserSpace, MemoryOk, EmptyFds, PidsOk, SafeArchive, Resolve,
      StandardFds, ChainOk, Exit, Lseek, Read, Getdents, Open, Close, ParentStep, UserRange, FirstReapable, StatusBytes;
    RunningAlive(k, chain);
    match e {
      case ExitCall(f, code) => ExitParents(k, g, chain, f, code);
      case VforkCall(f) => VforkParents(k, f);
      case OpenCall(f, path) => OpenKeeps(k, g, chain, f, path); LocalParents(k, g, chain, e, Open(k, f, path).0, g);
      case CloseCall(f, fd) => CloseKeeps(k, g, chain, f, fd); LocalParents(k, g, chain, e, Close(k, f, fd).0, g);
      case LseekCall(f, fd, o, w) => LseekKeeps(k, g, chain, f, fd, o, w); LocalParents(k, g, chain, e, Lseek(k, f, fd, o, w).0, g);
      case ReadCall(f, fd, b, c, keys) => ReadKeeps(k, g, chain, f, fd, b, c, keys); LocalParents(k, g, chain, e, Read(k, f, fd, b, c, keys).0, g);
      case GetdentsCall(f, fd, b, c) => GetdentsKeeps(k, g, chain, f, fd, b, c); LocalParents(k, g, chain, e, Getdents(k, f, fd, b, c).0, g);
      case _ => OtherParents(k, e);
    }
  }

  lemma LocalParents(k: Kernel, g: Ledger, chain: seq<nat>, e: Event, k': Kernel, g': Ledger)
    requires KernelOk(k, g, chain) && !k.halted && LocalStep(k, g, k', g', chain)
    ensures ParentStep(k, e, k')
  {
    hide MemoryOk, OthersKept, PidsOk, ChainOk, SafeArchive;
    RunningAlive(k, chain);
  }

  lemma OtherParents(k: Kernel, e: Event)
    requires Shape(k) && !k.halted && Current(k).status == Running
    requires e.UserStore? || e.ExecveCall? || e.BrkCall? || e.Wait4Call?
    ensures ParentStep(k, e, Next(k, e).0)
  {
    hide LoadProgram, MapPages, StoreAll, DestroyUserSpace, Store, Usable, EmptyFds, Resolve, FirstReapable, UserRange, StatusBytes,
      Vfork, Exit, Open, Close, Lseek, Read, Getdents;
  }

  lemma VforkParents(k: Kernel, f: Frame)
    requires Shape(k) && !k.halted && Current(k).status == Running
    ensures ParentStep(k, VforkCall(f), Vfork(k, f).0)
  {
    hide DestroyUserSpace, CreateRoot, CloneUserSpace, EmptyFds, StandardFds;
  }

  lemma ExitParents(k: Kernel, g: Ledger, chain: seq<nat>, f: Frame, code: Word)
    requires KernelOk(k, g, chain) && !k.halted
    ensures ParentStep(k, ExitCall(f, code), Exit(k, f, code).0)
  {
    hide MemoryOk, EmptyFds, SafeArchive, PidsOk;
    RunningAlive(k, chain);
    if |chain| > 1 {
      assert Link(k.procs, chain, |chain| - 1) && Link(k.procs, chain, |chain| - 2);
    } else {
      assert Link(k.procs, chain, 0);
    }
  }

  /** The slot's record names the vfork caller that made its process. */
  ghost predicate Traced(k0: Kernel, events: seq<Event>, i: nat)
    requires Shape(k0) && i < MAX_PROCESSES
  {
    var p := Run(k0, events).procs[i];
    || (k0.procs[i].status != Unused && p.pid == k0.procs[i].pid && p.parent == k0.procs[i].parent)
    || exists n: nat, s: nat :: Made(k0, events, n, p.pid, s) && p.parent == Some(s)
  }

  lemma {:induction false} ParentMadeIt(k0: Kernel, g: Ledger, chain: seq<nat>, events: seq<Event>, i: nat)
    requires KernelOk(k0, g, chain) && i < MAX_PROCESSES && Run(k0, events).procs[i].status != Unused
    ensures Traced(k0, events, i)
    decreases |events|
  {
    hide Next, MemoryOk, PidsOk, ChainOk, SafeArchive, ParentStep, Run, Traced;
    if events == [] {
      RunNothing(k0);
      TracedAtOnce(k0, i);
    } else {
      var n := |events| - 1;
      var front, e := events[..n], events[n];
      assert events == front + [e];
      var k, k' := Run(k0, front), Run(k0, events);
      RunNext(k0, front, e);
      var g1, chain1 := RunKeeps(k0, g, chain, front);
      if k.halted {
        HaltedStays(k, e);
        ParentMadeIt(k0, g, chain, front, i);
        TracedLater(k0, front, e, i);
      } else {
        ParentStepHolds(k, g1, chain1, e);
        TraceStep(k0, front, e, i);
        if !(e.VforkCall? && i == k'.current != k.current && k'.procs[i].pid == k.nextPid && k'.procs[i].parent == Some(k.current)
             && k'.nextPid == k.nextPid + 1) {
          ParentMadeIt(k0, g, chain, front, i);
          TracedLater(k0, front, e, i);
        }
      }
    }
  }

  lemma TracedAtOnce(k0: Kernel, i: nat)
    requires Shape(k0) && i < MAX_PROCESSES && k0.procs[i].status != Unused
    ensures Traced(k0, [], i)
  {
    hide Next;
  }

  /** What was traced stays traced as long as the record keeps pid and parent. */
  lemma TracedLater(k0: Kernel, front: seq<Event>, e: Event, i: nat)
    requires Shape(k0) && i < MAX_PROCESSES && Traced(k0, front, i)
    requires var p, p' := Run(k0, front).procs[i], Run(k0, front + [e]).procs[i]; p'.pid == p.pid && p'.parent == p.parent
    ensures Traced(k0, front + [e], i)
  {
    hide Next, Run;
    var p := Run(k0, front).procs[i];
    if !(k0.procs[i].status != Unused && p.pid == k0.procs[i].pid && p.parent == k0.procs[i].parent) {
      var n: nat, s: nat :| Made(k0, front, n, p.pid, s) && p.parent == Some(s);
      assert (front + [e])[..n] == front[..n];
      assert Made(k0, front + [e], n, p.pid, s);
    }
  }

  lemma TraceStep(k0: Kernel, front: seq<Event>, e: Event, i: nat)
    requires Shape(k0) && i < MAX_PROCESSES && !Run(k0, front).halted && ParentStep(Run(k0, front), e, Next(Run(k0, front), e).0)
    requires Run(k0, front + [e]) == Next(Run(k0, front), e).0 && Run(k0, front + [e]).procs[i].status != Unused
    ensures var k, k' := Run(k0, front), Run(k0, front + [e]);
            if e.VforkCall? && i == k'.current != k.current && k'.procs[i].pid == k.nextPid && k'.procs[i].parent == Some(k.current)
               && k'.nextPid == k.nextPid + 1
            then Traced(k0, front + [e], i)
            else k.procs[i].status != Unused && k'.procs[i].pid == k.procs[i].pid && k'.procs[i].parent == k.procs[i].parent
  {
    hide Next, Run;
    var k, k' := Run(k0, front), Run(k0, front + [e]);
    assert (front + [e])[..|front|] == front;
    if e.VforkCall? && i == k'.current != k.current && k'.procs[i].pid == k.nextPid && k'.procs[i].parent == Some(k.current)
       && k'.nextPid == k.nextPid + 1 {
      assert Made(k0, front + [e], |front|, k'.procs[i].pid, k.current);
    }
  }

  // ----- each process is made once -----

  lemma {:induction false} CounterGrows(k: Kernel, events: seq<Event>)
    requires Shape(k)
    ensures Run(k, events).nextPid >= k.nextPid
    decreases |events|
  {
    hide Next;
    if events != [] {
      CounterStep(k, events[0]);
      CounterGrows(Next(k, events[0]).0, events[1..]);
    }
  }

  lemma CounterStep(k: Kernel, e: Event)
    requires Shape(k)
    ensures Next(k, e).0.nextPid >= k.nextPid
  {
    hide LoadProgram, MapPages, StoreAll, DestroyUserSpace, Store, Usable, CreateRoot, CloneUserSpace, FirstUnused, FirstReapable, FirstFreeFd, FileAt,
      ListingOf, Held, UserRange;
  }

  lemma MadeBefore(k0: Kernel, events: seq<Event>, n: nat, m: nat, pid: nat, s: nat)
    requires Shape(k0) && n < m <= |events| && Made(k0, events, n, pid, s)
    ensures Run(k0, events[..m]).nextPid > pid
  {
    hide Next, Run;
    RunNext(k0, events[..n], events[n]);
    Splits(events, n, m);
    RunSplit(k0, events[..n + 1], events[n + 1..m]);
    CounterGrows(Run(k0, events[..n + 1]), events[n + 1..m]);
  }

  lemma Splits<T>(s: seq<T>, n: nat, m: nat)
    requires n < m <= |s|
    ensures s[..n] + [s[n]] == s[..n + 1] && s[..n + 1] + s[n + 1..m] == s[..m]
  {
  }

  lemma MadeOnce(k0: Kernel, events: seq<Event>, n: nat, s: nat, n2: nat, s2: nat, pid: nat)
    requires Shape(k0) && Made(k0, events, n, pid, s) && Made(k0, events, n2, pid, s2)
    ensures n == n2 && s == s2
  {
    hide Next, Run;
    if n < n2 {
      MadeBefore(k0, events, n, n2, pid, s);
    } else if n2 < n {
      MadeBefore(k0, events, n2, n, pid, s2);
    }
  }

  /** Slot i holds a process that has exited, was not waited for, and was made by the current slot. */
  ghost predicate Waiting(k0: Kernel, events: seq<Event>, i: nat)
    requires Shape(k0)
  {
    var k := Run(k0, events);
    i < MAX_PROCESSES && k.procs[i].status == Zombie && exists n: nat :: Made(k0, events, n, k.procs[i].pid, k.current)
  }

  /** On every run from boot a wait for any child fails, with ECHILD and nothing changed, exactly when no process
      made by the calling slot has exited and not been waited for. */
  lemma WaitAnyFails(m: Mem, ranges: seq<Range>, a: seq<Byte>, call: Invocation, events: seq<Event>, f: Frame, address: Word)
    requires Boots(m, ranges, a, call) && !Run(Started(m, ranges, a, call), events).halted && (address == 0 || UserRange(address, 4))
    ensures var k0 := Started(m, ranges, a, call);
            var k := Run(k0, events);
            Wait4(k, f, 0xffff_ffff_ffff_ffff, address) == (k, f.(rax := 0xffff_ffff_ffff_fff6))
            <==> forall i :: 0 <= i < MAX_PROCESSES ==> !Waiting(k0, events, i)
  {
    hide Started, Boots, Run, Next, KernelOk, UserRange;
    var k0 := Started(m, ranges, a, call);
    var k := Run(k0, events);
    var g0 := StartedOk(m, ranges, a, call);
    forall i | 0 <= i < MAX_PROCESSES ensures Waiting(k0, events, i) <==> Reapable(k.procs[i], k.current, ANY_PID) {
      InitAlone(m, ranges, a, call);
      if k.procs[i].status == Zombie {
        ParentMadeIt(k0, g0, [0], events, i);
        NotInit(m, ranges, a, call, events, i);
        var n: nat, s: nat :| Made(k0, events, n, k.procs[i].pid, s) && k.procs[i].parent == Some(s);
        forall n2: nat | Made(k0, events, n2, k.procs[i].pid, k.current) ensures s == k.current {
          MadeOnce(k0, events, n, s, n2, k.current, k.procs[i].pid);
        }
      }
    }
    AnyFails(k, f, address);
  }

  lemma AnyFails(k: Kernel, f: Frame, address: Word)
    requires Shape(k) && (address == 0 || UserRange(address, 4))
    ensures Wait4(k, f, ANY_PID, address) == (k, f.(rax := 0xffff_ffff_ffff_fff6))
       <==> forall i :: 0 <= i < MAX_PROCESSES ==> !Reapable(k.procs[i], k.current, ANY_PID)
  {
    hide StoreAll, DestroyUserSpace, StatusBytes, UserRange, EmptyFds;
    var i := FirstReapable(k.procs, k.current, ANY_PID, 0);
    if i < MAX_PROCESSES {
      ReapedSlot(k, f, ANY_PID, address, i);
      assert Wait4(k, f, ANY_PID, address).0.procs[i].status == Unused;
    }
  }

  lemma InitAlone(m: Mem, ranges: seq<Range>, a: seq<Byte>, call: Invocation)
    requires Boots(m, ranges, a, call)
    ensures var k0 := Started(m, ranges, a, call);
            && k0.procs[0].status == Running && k0.procs[0].parent == None && k0.procs[0].pid == 1
            && forall i :: 0 < i < MAX_PROCESSES ==> k0.procs[i].status == Unused
  {
    hide LoadProgram, EmptyFds, StandardFds, AddRanges, Resolve;
  }

  /** init is no zombie as long as the machine runs. */
  lemma NotInit(m: Mem, ranges: seq<Range>, a: seq<Byte>, call: Invocation, events: seq<Event>, i: nat)
    requires Boots(m, ranges, a, call) && i < MAX_PROCESSES
    requires var k := Run(Started(m, ranges, a, call), events); !k.halted && k.procs[i].status == Zombie
    ensures i != 0
  {
    hide Started, Boots, Run;
    var chain := TableShape(m, ranges, a, call, events);
    InitIsAlive(Run(Started(m, ranges, a, call), events), chain);
  }

  lemma InitIsAlive(k: Kernel, chain: seq<nat>)
    requires Shape(k) && |chain| > 0 && chain[0] == 0 && chain[|chain| - 1] == k.current
    requires k.procs[k.current].status == Running
    requires forall i :: 0 <= i < MAX_PROCESSES ==> (k.procs[i].status == Blocked <==> i in chain[..|chain| - 1])
    ensures k.procs[0].status != Zombie
  {
    if |chain| > 1 {
      assert chain[..|chain| - 1][0] == 0;
    }
  }
}
