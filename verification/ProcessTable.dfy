/**
 The process table and system calls of kernel/process.c as they are written: slots, the
 current slot and memory are updated in place.  Each system call is proved to be the
 step of module Kernel, and to keep the machine's invariant.
 */
module ProcessTable {
  import opened Wrappers
  import opened Paging
  import opened Ownership
  import opened AddressSpaces
  import opened VirtualMemory
  import opened Programs
  import opened Loading
  import opened Processes
  import opened MemoryManager
  import K = Kernel
  import opened Files
  import R = Ramdisk
  import D = Dirents
  import Directories
  import L = ProgramLoader

  class Table {
    const mm: Manager
    const procs: array<K.Proc>
    var current: nat
    var nextPid: nat
    var cr3: nat
    var halted: bool
    const archive: seq<Byte>
    ghost var ledger: Ledger
    ghost var chain: seq<nat>

    function Snapshot(): (k: K.Kernel)
      reads this, mm, procs
    {
      K.Kernel(mm.State(), procs[..], current, nextPid, cr3, halted, archive)
    }

    ghost predicate Valid()
      reads this, mm, procs
    {
      KernelOk(Snapshot(), ledger, chain)
    }

    /** Adopts a machine state together with the proof that it is a good one. */
    constructor (mm: Manager, procs: array<K.Proc>, current: nat, nextPid: nat, cr3: nat, halted: bool,
                 archive: seq<Byte>, ghost ledger: Ledger, ghost chain: seq<nat>)
      requires KernelOk(K.Kernel(mm.State(), procs[..], current, nextPid, cr3, halted, archive), ledger, chain)
      ensures Valid() && this.mm == mm && this.procs == procs
      ensures Snapshot() == K.Kernel(mm.State(), procs[..], current, nextPid, cr3, halted, archive)
    {
      this.mm, this.procs, this.current, this.nextPid, this.cr3, this.halted := mm, procs, current, nextPid, cr3, halted;
      this.archive, this.ledger, this.chain := archive, ledger, chain;
    }

    /** The first unused slot, or 16. */
    method FindUnused() returns (slot: nat)
      requires procs.Length == K.MAX_PROCESSES
      ensures slot == K.FirstUnused(procs[..], 0)
    {
      slot := 0;
      while slot < procs.Length
        invariant slot <= procs.Length
        invariant K.FirstUnused(procs[..], slot) == K.FirstUnused(procs[..], 0)
      {
        if procs[slot].status == K.Unused {
          return;
        }
        slot := slot + 1;
      }
    }

    // ----- brk -----

    method Brk(f: K.Frame, request: Word) returns (r: K.Frame)
      requires Valid() && !halted
      modifies this, mm, procs
      ensures Valid() && (Snapshot(), r) == K.Brk(old(Snapshot()), f, request)
    {
      hide Processes.MemoryOk, Processes.PidsOk, Processes.ChainOk, Programs.MapPages, Processes.OthersKept;
      var p := procs[current];
      ghost var k := Snapshot();
      ghost var g := BrkKeeps(k, ledger, chain, f, request);
      if request == 0 || request < p.brk || request >= K.BRK_LIMIT {
        return K.Returns(f, p.brk);
      }
      var ok := L.MapPages(mm, p.cr3, (p.brk + 4095) / 4096, (request + 4095) / 4096, 2);
      ledger := g;
      if !ok {
        return K.Returns(f, p.brk);
      }
      procs[current] := p.(brk := request);
      r := K.Returns(f, request);
    }

    // ----- execve -----

    /** `call` was copied from user memory, None when that faulted; its path is looked up in the archive. */
    method Execve(f: K.Frame, call: Option<Invocation>) returns (r: K.Frame)
      requires Valid() && !halted
      modifies this, mm, procs
      ensures Valid() && (Snapshot(), r) == K.Execve(old(Snapshot()), f, call)
    {
      hide Processes.PidsOk, Programs.LoadProgram, Paging.DestroyUserSpace, Processes.OthersKept, Inv,
        Processes.NoLoose, Processes.Link, Processes.Older, SafeArchive, Harmless, R.Find, R.Walk,
        Processes.ChainOk, Processes.RootsOk, FileOf;
      ghost var k := Snapshot();
      ghost var g := ExecveKeeps(k, ledger, chain, f, call);
      if call.None? {
        return K.Returns(f, K.Errno(K.EFAULT));
      }
      var node := Directories.FindPath(archive, call.value.path);
      var file := if node.None? then None else Some(FileOf(archive, node.value));
      var req := Request(file, call.value.argv, call.value.envp);
      SafeResolve(archive, call.value);
      ghost var g1 := LoadProgramKeeps(k.mem, ledger, req);
      RunningRoot(k, ledger, chain);
      var l := L.LoadProgram(mm, req, ledger);
      ledger := g;
      if l.None? {
        return K.Returns(f, K.Errno(K.ENOEXEC));
      }
      var oldCr3 := procs[current].cr3;
      procs[current] := procs[current].(cr3 := l.value.cr3, entry := l.value.entry, stack := l.value.stack, brk := l.value.brk);
      cr3 := l.value.cr3;
      OldSpaceThere(k, old(ledger), mm.State(), g1, l.value.cr3);
      ghost var _ := mm.DestroyUserSpace(oldCr3, g1);
      r := K.Returns(f, 0).(rip := l.value.entry % WORD_LIMIT, rsp := l.value.stack % WORD_LIMIT);
    }

    // ----- vfork -----

    /** A new address space holding a copy of another, or 0 with nothing left allocated. */
    method CopySpace(source: nat, ghost g: Ledger) returns (root: nat)
      requires Inv(mm.State(), g) && Root(source) in g.at
      modifies mm
      ensures var (m1, r) := CreateRoot(old(mm.State()));
              var (m2, ok) := Paging.CloneUserSpace(m1, source, r);
              (mm.State(), root) ==
              if r == 0 then (m1, 0) else if ok then (m2, r) else (Paging.DestroyUserSpace(m2, r), 0)
    {
      hide Inv, Paging.CloneUserSpace, Paging.DestroyUserSpace, CreateRoot;
      ghost var g1 := CreateKeeps(mm.State(), g);
      root := mm.CreateKernelMappedPml4();
      if root == 0 {
        return;
      }
      ghost var g2 := CloneGrows(mm.State(), g1, source, root);
      var ok := mm.CloneUserSpace(source, root);
      if !ok {
        ghost var _ := mm.DestroyUserSpace(root, g2);
        root := 0;
      }
    }

    method Vfork(f: K.Frame) returns (r: K.Frame)
      requires Valid() && !halted
      modifies this, mm, procs
      ensures Valid() && (Snapshot(), r) == K.Vfork(old(Snapshot()), f)
    {
      hide Processes.PidsOk, Processes.OthersKept, Inv, Processes.NoLoose, Processes.Link, Processes.Older,
        Paging.CloneUserSpace, Paging.DestroyUserSpace, CreateRoot, K.FirstUnused, Processes.VforkMade,
        Processes.Frozen, Processes.ChainStep, Processes.SameIdentity, K.StandardFds, K.EmptyFds,
        Processes.ChainOk, Processes.RootsOk;
      ghost var k := Snapshot();
      ghost var g, c := VforkKeeps(k, ledger, chain, f);
      RunningRoot(k, ledger, chain);
      var slot := FindUnused();
      if slot == K.MAX_PROCESSES {
        ledger, chain := g, c;
        return K.Returns(f, K.Errno(K.EAGAIN));
      }
      var pid, parent := nextPid, procs[current];
      nextPid := nextPid + 1;
      var root := CopySpace(parent.cr3, ledger);
      ledger, chain := g, c;
      if root == 0 {
        procs[slot] := K.EmptyProc();
        return K.Returns(f, K.Errno(K.ENOMEM));
      }
      procs[slot] := K.NewProc(pid).(ppid := parent.pid, parent := Some(current), vforkParent := Some(current),
        cr3 := root, entry := parent.entry, stack := parent.stack, brk := parent.brk,
        saved := K.Returns(f, pid), fds := parent.fds);
      procs[current] := parent.(status := K.Blocked);
      current, cr3 := slot, root;
      r := K.Returns(f, 0);
    }

    // ----- exit and wait4 -----

    method Exit(f: K.Frame, status: Word) returns (r: K.Frame)
      requires Valid() && !halted
      modifies this, procs
      ensures Valid() && (Snapshot(), r) == K.Exit(old(Snapshot()), f, status)
    {
      hide Processes.PidsOk, Processes.OthersKept, Processes.MemoryOk, Processes.Older;
      ghost var k := Snapshot();
      ghost var c := ExitKeeps(k, ledger, chain, f, status);
      assert Link(k.procs, chain, |chain| - 1);
      var p := procs[current];
      procs[current] := K.Dead(p, status);
      chain := c;
      if p.vforkParent.Some? && p.vforkParent.value < procs.Length {
        var v := p.vforkParent.value;
        procs[v] := procs[v].(status := K.Running);
        current := v;
        cr3 := procs[v].cr3;
        return K.Returns(p.saved, p.pid);
      }
      halted := true;
      r := f;
    }

    method FindReapable(pid: Word) returns (i: nat)
      requires procs.Length == K.MAX_PROCESSES
      ensures i == K.FirstReapable(procs[..], current, pid, 0)
    {
      i := 0;
      while i < procs.Length
        invariant i <= procs.Length
        invariant K.FirstReapable(procs[..], current, pid, i) == K.FirstReapable(procs[..], current, pid, 0)
      {
        if K.Reapable(procs[i], current, pid) {
          return;
        }
        i := i + 1;
      }
    }

    /** A store through the current address space. */
    method UserStores(va: nat, bytes: seq<Byte>)
      modifies mm
      ensures mm.State() == StoreAll(old(mm.State()), cr3, va, bytes)
    {
      hide Translate;
      var i := 0;
      while i < |bytes|
        invariant i <= |bytes|
        invariant StoreAll(mm.State(), cr3, va + i, bytes[i..]) == StoreAll(old(mm.State()), cr3, va, bytes)
      {
        var pa := mm.Translate(cr3, va + i);
        assert bytes[i..][1..] == bytes[i + 1..];
        if pa.Some? {
          ghost var m := mm.State();
          mm.CopyBytes(pa.value, [bytes[i]]);
          assert PutBytes(m, pa.value, [bytes[i]]) == SetByteAt(m, pa.value, bytes[i]);
        }
        i := i + 1;
      }
    }

    method Wait4(f: K.Frame, pid: Word, address: Word) returns (r: K.Frame)
      requires Valid() && !halted
      modifies this, mm, procs
      ensures Valid() && (Snapshot(), r) == K.Wait4(old(Snapshot()), f, pid, address)
    {
      hide Processes.PidsOk, Processes.OthersKept, Inv, Processes.NoLoose, Processes.Link, Processes.Older,
        Paging.DestroyUserSpace, StoreAll, K.FirstReapable, K.EmptyProc;
      ghost var k := Snapshot();
      ghost var g := Wait4Keeps(k, ledger, chain, f, pid, address);
      RunningRoot(k, ledger, chain);
      var i := FindReapable(pid);
      if i == K.MAX_PROCESSES {
        ledger := g;
        return K.Returns(f, K.Errno(K.ECHILD));
      }
      var child := procs[i];
      StatusStored(k, ledger, if UserRange(address, 4) then address else 0, K.StatusBytes(child.exitStatus));
      if address != 0 {
        if !UserRange(address, 4) {
          ledger := g;
          return K.Returns(f, K.Errno(K.EFAULT));
        }
        UserStores(address, K.StatusBytes(child.exitStatus));
      }
      ZombieSpaceThere(k, ledger, i);
      ghost var _ := mm.DestroyUserSpace(child.cr3, ledger);
      procs[i] := K.EmptyProc();
      ledger := g;
      r := K.Returns(f, child.pid);
    }

    // ----- descriptors -----

    /** The path was copied from user memory, None when that faulted; it is looked up in the archive. */
    method Open(f: K.Frame, path: Option<CString>) returns (r: K.Frame)
      requires Valid() && !halted
      modifies procs
      ensures Valid() && (Snapshot(), r) == K.Open(old(Snapshot()), f, path)
    {
      hide Processes.MemoryOk, Processes.PidsOk, Processes.ChainOk, Processes.OthersKept, R.Find, R.Walk, SafeArchive;
      OpenKeeps(Snapshot(), ledger, chain, f, path);
      var fds := procs[current].fds;
      var fd := 3;
      while fd < |fds|
        invariant |fds| >= 3 ==> fd <= |fds| && K.FirstFreeFd(fds, fd) == K.FirstFreeFd(fds, 3)
      {
        if fds[fd].kind == K.NoFd {
          break;
        }
        fd := fd + 1;
      }
      if fd >= |fds| {
        return K.Returns(f, K.Errno(K.EMFILE));
      }
      if path.None? {
        return K.Returns(f, K.Errno(K.EFAULT));
      }
      var node := Directories.FindPath(archive, path.value);
      if node.None? {
        return K.Returns(f, K.Errno(K.ENOENT));
      }
      procs[current] := procs[current].(fds := fds[fd := K.Opened(FileOf(archive, node.value))]);
      r := K.Returns(f, fd);
    }

    method Close(f: K.Frame, fd: Word) returns (r: K.Frame)
      requires Valid() && !halted
      modifies procs
      ensures Valid() && (Snapshot(), r) == K.Close(old(Snapshot()), f, fd)
    {
      hide Processes.MemoryOk, Processes.PidsOk, Processes.ChainOk, Processes.OthersKept;
      CloseKeeps(Snapshot(), ledger, chain, f, fd);
      var fds := procs[current].fds;
      if fd >= |fds| || fd <= 2 || fds[fd].kind == K.NoFd {
        return K.Returns(f, K.Errno(K.EBADF));
      }
      procs[current] := procs[current].(fds := fds[fd := K.EmptyFd()]);
      r := K.Returns(f, 0);
    }

    method Lseek(f: K.Frame, fd: Word, offset: Word, whence: Word) returns (r: K.Frame)
      requires Valid() && !halted
      modifies procs
      ensures Valid() && (Snapshot(), r) == K.Lseek(old(Snapshot()), f, fd, offset, whence)
    {
      hide Processes.MemoryOk, Processes.PidsOk, Processes.ChainOk, Processes.OthersKept;
      LseekKeeps(Snapshot(), ledger, chain, f, fd, offset, whence);
      var fds := procs[current].fds;
      if fd >= |fds| || fds[fd].kind != K.FileFd {
        return K.Returns(f, K.Errno(K.EBADF));
      }
      var next: Word;
      if whence == 0 {
        next := offset;
      } else if whence == 1 {
        next := (fds[fd].offset + offset) % WORD_LIMIT;
      } else if whence == 2 {
        next := (|fds[fd].file.data| + offset) % WORD_LIMIT;
      } else {
        return K.Returns(f, K.Errno(K.EINVAL));
      }
      procs[current] := procs[current].(fds := fds[fd := fds[fd].(offset := next)]);
      r := K.Returns(f, next);
    }

    method Read(f: K.Frame, fd: Word, buffer: Word, count: Word, keys: seq<Byte>) returns (r: K.Frame)
      requires Valid() && !halted
      modifies mm, procs
      ensures Valid() && (Snapshot(), r) == K.Read(old(Snapshot()), f, fd, buffer, count, keys)
    {
      hide Processes.MemoryOk, Processes.PidsOk, Processes.ChainOk, Processes.OthersKept, StoreAll, UserRange;
      ReadKeeps(Snapshot(), ledger, chain, f, fd, buffer, count, keys);
      if !UserRange(buffer, count) {
        return K.Returns(f, K.Errno(K.EFAULT));
      }
      var fds := procs[current].fds;
      if fd >= |fds| || fds[fd].kind == K.NoFd {
        return K.Returns(f, K.Errno(K.EBADF));
      }
      var d := fds[fd];
      if d.kind == K.Stdin {
        if |keys| == count {
          UserStores(buffer, keys);
        }
        return K.Returns(f, count);
      }
      if d.kind != K.FileFd {
        return K.Returns(f, K.Errno(K.EISDIR));
      }
      if d.offset >= |d.file.data| {
        return K.Returns(f, 0);
      }
      var n := Min(count, |d.file.data| - d.offset);
      UserStores(buffer, d.file.data[d.offset..d.offset + n]);
      procs[current] := procs[current].(fds := fds[fd := d.(offset := (d.offset + n) % WORD_LIMIT)]);
      r := K.Returns(f, n);
    }

    /** What the user's buffer holds. */
    method UserBytes(va: nat, n: nat) returns (bytes: array<Byte>)
      ensures fresh(bytes) && bytes[..] == K.Held(mm.State(), cr3, va, n)
    {
      hide Translate;
      bytes := new Byte[n](_ => 0);
      var i := 0;
      while i < n
        invariant i <= n
        invariant forall j :: i <= j < n ==> bytes[j] == 0
        invariant forall j :: 0 <= j < i ==> bytes[j] == K.HeldByte(mm.State(), cr3, va + j)
      {
        var pa := mm.Translate(cr3, va + i);
        if pa.Some? {
          bytes[i] := ByteAt(mm.State(), pa.value);
        }
        i := i + 1;
      }
    }

    /** The records are built over what the buffer holds, so that padding keeps it. */
    method Getdents(f: K.Frame, fd: Word, buffer: Word, count: Word) returns (r: K.Frame)
      requires Valid() && !halted
      modifies mm, procs
      ensures Valid() && (Snapshot(), r) == K.Getdents(old(Snapshot()), f, fd, buffer, count)
    {
      hide Processes.MemoryOk, Processes.PidsOk, Processes.ChainOk, Processes.OthersKept, StoreAll, UserRange, SafeArchive,
        K.Held, D.Fitting, D.Pack, D.Listing, R.Walk;
      GetdentsKeeps(Snapshot(), ledger, chain, f, fd, buffer, count);
      var fds := procs[current].fds;
      if fd >= |fds| || fds[fd].kind != K.DirFd {
        return K.Returns(f, K.Errno(K.EBADF));
      }
      if !UserRange(buffer, count) {
        return K.Returns(f, K.Errno(K.EFAULT));
      }
      var d := fds[fd];
      var scratch := UserBytes(buffer, count);
      ghost var bytes := D.Pack(K.ListingOf(archive, d), d.offset, scratch[..]);
      var written, next := D.Getdents(archive, d.file.path, d.offset, scratch);
      assert scratch[..written] == bytes;
      UserStores(buffer, scratch[..written]);
      procs[current] := procs[current].(fds := fds[fd := d.(offset := next % WORD_LIMIT)]);
      r := K.Returns(f, written);
    }
  }

  /** The space being replaced is still there while the new one is loaded. */
  lemma OldSpaceThere(k: K.Kernel, g: Ledger, m1: Mem, g1: Ledger, root: nat)
    requires Root(k.cr3) in g.at && NoSuchSpace(g, root) && Confined(k.mem, g, m1, g1, root)
    ensures Root(k.cr3) in g1.at
  {
    assert SpaceOf(Root(k.cr3)) == k.cr3;
  }

  lemma ZombieSpaceThere(k: K.Kernel, g: Ledger, i: nat)
    requires K.Shape(k) && RootsOk(k.procs, g) && i < K.MAX_PROCESSES && k.procs[i].status == K.Zombie
    ensures Root(k.procs[i].cr3) in g.at
  {
    assert Holder(k.procs, i, k.procs[i].cr3);
  }

  lemma CloneGrows(m: Mem, g: Ledger, source: nat, dest: nat) returns (g': Ledger)
    requires Inv(m, g) && Root(source) in g.at && Root(dest) in g.at && source != dest
    requires forall x <- g.at :: SpaceOf(x) == dest ==> x == Root(dest)
    ensures Inv(CloneUserSpace(m, source, dest).0, g') && Root(dest) in g'.at
  {
    hide CloneFrom;
    FreshIsEmpty(m, g, source, dest);
    assert NodeOk(m, g, Root(source));
    g' := CloneFromKeeps(m, g, Root(source), 0, dest);
  }
}
