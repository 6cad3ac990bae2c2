/**
 The standard streams on every run, and what refused calls answer (kernel/process.c, with the error numbers of
 the Linux ABI).
 */
module Streams {
  import opened Wrappers
  import opened Paging
  import opened Ownership
  import opened VirtualMemory
  import opened Programs
  import opened Files
  import opened Kernel
  import opened Processes
  import Boot
  import Runs

  // ----- descriptors 0, 1 and 2 -----

  predicate HasStreams(fds: seq<Fd>) {
    |fds| == 16 && fds[0].kind == Stdin && fds[1].kind == Stdout && fds[2].kind == Stderr
  }

  ghost predicate StreamsOk(k: Kernel) {
    forall i :: 0 <= i < |k.procs| && k.procs[i].status != Unused ==> HasStreams(k.procs[i].fds)
  }

  lemma Initially()
    ensures HasStreams(StandardFds())
  {
  }

  lemma SetFdStreams(k: Kernel, fd: nat, d: Fd)
    requires Shape(k) && StreamsOk(k) && fd < |Current(k).fds|
    requires d.kind == Current(k).fds[fd].kind || fd >= 3
    ensures StreamsOk(SetFd(k, fd, d))
  {
  }

  lemma FdCallStreams(k: Kernel, e: Event)
    requires Shape(k) && !k.halted && StreamsOk(k)
    requires e.OpenCall? || e.CloseCall? || e.LseekCall? || e.ReadCall? || e.GetdentsCall?
    ensures StreamsOk(Next(k, e).0)
  {
    hide StoreAll, UserRange, Vfork, Execve, Brk, Exit, Wait4, Store, Usable, StreamsOk, HasStreams, SetFd, FileAt, Held, ListingOf, FirstFreeFd, Opened;
    var fds := Current(k).fds;
    forall fd: nat, d: Fd | fd < |fds| && (d.kind == fds[fd].kind || fd >= 3) ensures StreamsOk(SetFd(k, fd, d)) {
      SetFdStreams(k, fd, d);
    }
    MemoryAside(k);
    forall fd: nat, d: Fd | fd < |fds| && (d.kind == fds[fd].kind || fd >= 3)
      ensures forall m :: StreamsOk(SetFd(k, fd, d).(mem := m))
    {
      MemoryAside(SetFd(k, fd, d));
    }
    assert |fds| >= 3 ==> FirstFreeFd(fds, 3) >= 3;
  }

  lemma MemoryAside(k: Kernel)
    requires StreamsOk(k)
    ensures forall m :: StreamsOk(k.(mem := m))
  {
  }

  lemma OtherCallStreams(k: Kernel, g: Ledger, chain: seq<nat>, e: Event)
    requires KernelOk(k, g, chain) && !k.halted && StreamsOk(k)
    requires e.UserStore? || e.ExecveCall? || e.BrkCall? || e.Wait4Call? || e.VforkCall? || e.ExitCall?
    ensures StreamsOk(Next(k, e).0)
  {
    hide LoadProgram, MapPages, StoreAll, DestroyUserSpace, Store, Usable, CreateRoot, CloneUserSpace, MemoryOk, EmptyFds, PidsOk, SafeArchive,
      StandardFds, Resolve, FirstUnused, FirstReapable, UserRange, StatusBytes, HasStreams;
    RunningRoot(k, g, chain);
    assert Link(k.procs, chain, |chain| - 1);
    if |chain| > 1 {
      assert Link(k.procs, chain, |chain| - 2);
    }
  }

  lemma {:induction false} RunKeepsStreams(k: Kernel, g: Ledger, chain: seq<nat>, events: seq<Event>)
    requires KernelOk(k, g, chain) && StreamsOk(k)
    ensures StreamsOk(Run(k, events))
    decreases |events|
  {
    hide Next, StreamsOk, MemoryOk, PidsOk, ChainOk, SafeArchive;
    if events != [] {
      var e := events[0];
      if k.halted {
        Runs.HaltedStays(k, e);
        RunKeepsStreams(k, g, chain, events[1..]);
      } else {
        if e.OpenCall? || e.CloseCall? || e.LseekCall? || e.ReadCall? || e.GetdentsCall? {
          FdCallStreams(k, e);
        } else {
          OtherCallStreams(k, g, chain, e);
        }
        var g1, chain1 := StepKeeps(k, g, chain, e);
        RunKeepsStreams(Next(k, e).0, g1, chain1, events[1..]);
      }
    }
  }

  /** On every run from boot, descriptors 0, 1 and 2 of every process are standard input, output and error. */
  lemma StandardStreams(m: Mem, ranges: seq<Boot.Range>, a: seq<Byte>, call: Invocation, events: seq<Event>, i: nat)
    requires Boot.Boots(m, ranges, a, call)
    requires i < MAX_PROCESSES && Run(Boot.Started(m, ranges, a, call), events).procs[i].status != Unused
    ensures HasStreams(Run(Boot.Started(m, ranges, a, call), events).procs[i].fds)
  {
    hide Boot.Started, Boot.Boots, Run, KernelOk, HasStreams;
    var k0 := Boot.Started(m, ranges, a, call);
    var g := Boot.StartedOk(m, ranges, a, call);
    StartedStreams(m, ranges, a, call);
    RunKeepsStreams(k0, g, [0], events);
  }

  lemma StartedStreams(m: Mem, ranges: seq<Boot.Range>, a: seq<Byte>, call: Invocation)
    requires Boot.Boots(m, ranges, a, call)
    ensures StreamsOk(Boot.Started(m, ranges, a, call))
  {
    hide LoadProgram, EmptyFds, StandardFds, Boot.AddRanges, HasStreams, Resolve;
    Initially();
  }

  // ----- refusals -----

  /** A range is accepted exactly when every byte of it lies between 64 KiB and 2^47. */
  lemma UserRangeMeans(address: nat, length: nat)
    ensures UserRange(address, length) <==> forall x: nat :: address <= x < address + length ==> InUserHalf(x)
  {
    if length > 0 {
      assert InUserHalf(address) <==> 0x1_0000 <= address < 0x8000_0000_0000;
      assert InUserHalf(address + length - 1) <==> 0x1_0000 <= address + length - 1 < 0x8000_0000_0000;
    }
  }

  predicate InUserHalf(x: nat) { 0x1_0000 <= x < 0x8000_0000_0000 }

  /** The call changed nothing and answered -e. */
  predicate Refused(k: Kernel, f: Frame, r: (Kernel, Frame), e: nat)
    requires 0 < e < 4096
  {
    r == (k, f.(rax := 0x1_0000_0000_0000_0000 - e))
  }

  /** Refused descriptor calls: EBADF 9, EFAULT 14, EISDIR 21, EINVAL 22, EMFILE 24, ENOENT 2. */
  lemma DescriptorRefusals(k: Kernel, f: Frame, fd: Word, buffer: Word, count: Word, keys: seq<Byte>, offset: Word, whence: Word, path: CString)
    requires Shape(k) && |Current(k).fds| == MAX_FDS
    ensures var fds := Current(k).fds;
            var open := fd < 16 && fds[fd].kind != NoFd;
            var full := forall j :: 3 <= j < 16 ==> fds[j].kind != NoFd;
            && (!open || fd < 3 ==> Refused(k, f, Close(k, f, fd), 9))
            && (!open || fds[fd].kind != FileFd ==> Refused(k, f, Lseek(k, f, fd, offset, whence), 9))
            && (open && fds[fd].kind == FileFd && whence > 2 ==> Refused(k, f, Lseek(k, f, fd, offset, whence), 22))
            && (!UserRange(buffer, count) ==> Refused(k, f, Read(k, f, fd, buffer, count, keys), 14))
            && (UserRange(buffer, count) && !open ==> Refused(k, f, Read(k, f, fd, buffer, count, keys), 9))
            && (UserRange(buffer, count) && open && fds[fd].kind !in {FileFd, Stdin} ==> Refused(k, f, Read(k, f, fd, buffer, count, keys), 21))
            && (!open || fds[fd].kind != DirFd ==> Refused(k, f, Getdents(k, f, fd, buffer, count), 9))
            && (open && fds[fd].kind == DirFd && !UserRange(buffer, count) ==> Refused(k, f, Getdents(k, f, fd, buffer, count), 14))
            && (full ==> Refused(k, f, Open(k, f, Some(path)), 24) && Refused(k, f, Open(k, f, None), 24))
            && (!full ==> Refused(k, f, Open(k, f, None), 14))
            && (!full && FileAt(k.archive, path).None? ==> Refused(k, f, Open(k, f, Some(path)), 2))
  {
    hide StoreAll, UserRange, FileAt, SetFd, Held, ListingOf;
    FullIsFull(Current(k).fds, 3);
  }

  lemma {:induction false} FullIsFull(fds: seq<Fd>, i: nat)
    requires i <= |fds|
    ensures FirstFreeFd(fds, i) == |fds| <==> forall j :: i <= j < |fds| ==> fds[j].kind != NoFd
    decreases |fds| - i
  {
    if i < |fds| {
      FullIsFull(fds, i + 1);
    }
  }

  /** Refused process calls: EAGAIN 11 without a free slot, ECHILD 10 without a zombie child to reap, EFAULT 14. */
  lemma ProcessRefusals(k: Kernel, f: Frame, pid: Word, address: Word)
    requires Shape(k)
    ensures (forall i :: 0 <= i < 16 ==> k.procs[i].status != Unused) ==> Refused(k, f, Vfork(k, f), 11)
    ensures Refused(k, f, Execve(k, f, None), 14)
    ensures var none := forall i :: 0 <= i < 16 ==> !Reapable(k.procs[i], k.current, pid);
            && (none ==> Refused(k, f, Wait4(k, f, pid, address), 10))
            && (!none && address != 0 && !UserRange(address, 4) ==> Refused(k, f, Wait4(k, f, pid, address), 14))
  {
    hide CreateRoot, CloneUserSpace, DestroyUserSpace, StoreAll, UserRange, EmptyFds, StandardFds, Reapable;
    var i := FirstReapable(k.procs, k.current, pid, 0);
  }
}
