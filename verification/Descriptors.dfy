/**
 Descriptors over the ramdisk: what open, close, lseek, read and getdents64 of kernel/process.c
 mean for a program when the files and the directory records come from one archive.
 */
module Descriptors {
  import opened Wrappers
  import opened Paging
  import opened Ownership
  import opened VirtualMemory
  import opened Programs
  import opened Stacks
  import opened Files
  import opened Kernel
  import opened Processes
  import Boot
  import Runs
  import SystemCalls
  import R = Ramdisk
  import D = Dirents

  // ----- what every run keeps -----

  /** A free descriptor is cleared; a directory's offset never passes the end of its listing. */
  ghost predicate FdOk(a: seq<Byte>, d: Fd) {
    && (d.kind == NoFd ==> d == EmptyFd())
    && (d.kind == DirFd ==> 0 !in d.file.path && d.offset <= |ListingOf(a, d)|)
  }

  ghost predicate AllFdsOk(a: seq<Byte>, fds: seq<Fd>) {
    |fds| == MAX_FDS && forall j :: 0 <= j < |fds| ==> FdOk(a, fds[j])
  }

  ghost predicate FdsOk(k: Kernel) {
    forall i :: 0 <= i < |k.procs| ==> AllFdsOk(k.archive, k.procs[i].fds)
  }

  lemma InitialFds(a: seq<Byte>)
    ensures AllFdsOk(a, EmptyFds()) && AllFdsOk(a, StandardFds())
  {
  }

  lemma SetFdOk(k: Kernel, fd: nat, d: Fd)
    requires Shape(k) && FdsOk(k) && fd < |Current(k).fds| && FdOk(k.archive, d)
    ensures FdsOk(SetFd(k, fd, d))
  {
    hide FdOk;
    assert AllFdsOk(k.archive, Current(k).fds);
  }

  lemma CurrentFdOk(k: Kernel, fd: nat)
    requires Shape(k) && FdsOk(k) && fd < |Current(k).fds|
    ensures FdOk(k.archive, Current(k).fds[fd])
  {
    assert AllFdsOk(k.archive, Current(k).fds);
  }

  lemma OpenedOk(a: seq<Byte>, path: CString)
    requires FileAt(a, path).Some?
    ensures FdOk(a, Opened(FileAt(a, path).value))
  {
    hide FileAt;
    FoundPath(a, path);
  }

  lemma AdvancedOk(a: seq<Byte>, d: Fd, count: nat)
    requires FdOk(a, d) && d.kind == DirFd
    ensures var n := D.Fitting(ListingOf(a, d), d.offset, count);
            && d.offset + n <= |ListingOf(a, d)|
            && FdOk(a, d.(offset := (d.offset + n) % WORD_LIMIT))
  {
    hide D.Listing, D.Fitting, R.Walk;
    var n := D.Fitting(ListingOf(a, d), d.offset, count);
    assert ListingOf(a, d.(offset := (d.offset + n) % WORD_LIMIT)) == ListingOf(a, d);
  }

  lemma FdsStep(k: Kernel, e: Event)
    requires Shape(k) && FdsOk(k)
    ensures FdsOk(Next(k, e).0)
  {
    hide LoadProgram, MapPages, StoreAll, DestroyUserSpace, Store, Usable, CreateRoot, CloneUserSpace, EmptyFds, StandardFds, AllFdsOk,
      FdOk, FileAt, FirstUnused, FirstReapable, FirstFreeFd, UserRange, Opened;
    var a, fds := k.archive, Current(k).fds;
    InitialFds(a);
    match e {
      case OpenCall(_, path) =>
        if path.Some? && FileAt(a, path.value).Some? && |fds| >= 3 && FirstFreeFd(fds, 3) < |fds| {
          OpenedOk(a, path.value);
          SetFdOk(k, FirstFreeFd(fds, 3), Opened(FileAt(a, path.value).value));
        }
      case CloseCall(_, fd) => if fd < |fds| { ClearedOk(a); SetFdOk(k, fd, EmptyFd()); }
      case LseekCall(_, fd, _, _) => OtherFdStep(k, e, fd);
      case ReadCall(_, fd, _, _, _) => OtherFdStep(k, e, fd);
      case GetdentsCall(_, _, _, _) => GetdentsFdStep(k, e);
      case _ =>
    }
  }

  lemma ClearedOk(a: seq<Byte>)
    ensures FdOk(a, EmptyFd())
  {
  }

  lemma OtherFdStep(k: Kernel, e: Event, fd: nat)
    requires Shape(k) && FdsOk(k) && ((e.LseekCall? && fd == e.fd) || (e.ReadCall? && fd == e.fd))
    ensures FdsOk(Next(k, e).0)
  {
    hide StoreAll, AllFdsOk, ListingOf, UserRange, Vfork, Execve, Brk, Exit, Wait4, Open, Close, Getdents, Store, Usable;
    var fds := Current(k).fds;
    if fd < |fds| && fds[fd].kind == FileFd {
      CurrentFdOk(k, fd);
      forall o: Word ensures FdsOk(SetFd(k, fd, fds[fd].(offset := o))) {
        SetFdOk(k, fd, fds[fd].(offset := o));
      }
    }
  }

  lemma GetdentsFdStep(k: Kernel, e: Event)
    requires Shape(k) && FdsOk(k) && e.GetdentsCall?
    ensures FdsOk(Next(k, e).0)
  {
    hide StoreAll, FdOk, AllFdsOk, ListingOf, D.Fitting, D.Pack, Held, UserRange, Vfork, Execve, Brk, Exit, Wait4, Open, Close, Lseek, Read, Store, Usable;
    var fds := Current(k).fds;
    if e.fd < |fds| && fds[e.fd].kind == DirFd && UserRange(e.buffer, e.count) {
      var d := fds[e.fd];
      CurrentFdOk(k, e.fd);
      AdvancedOk(k.archive, d, e.count);
      SetFdOk(k, e.fd, d.(offset := (d.offset + D.Fitting(ListingOf(k.archive, d), d.offset, e.count)) % WORD_LIMIT));
    }
  }

  lemma {:induction false} RunKeepsFds(k: Kernel, events: seq<Event>)
    requires Shape(k) && FdsOk(k)
    ensures FdsOk(Run(k, events))
    decreases |events|
  {
    hide Next, FdsOk;
    if events != [] {
      FdsStep(k, events[0]);
      RunKeepsFds(Next(k, events[0]).0, events[1..]);
    }
  }

  lemma StartFds(m: Mem, a: seq<Byte>, call: Invocation)
    requires StartInit(m, a, call).Some?
    ensures FdsOk(StartInit(m, a, call).value)
  {
    hide LoadProgram, EmptyFds, StandardFds, AllFdsOk, Resolve;
    InitialFds(a);
  }

  // ----- open, close and lseek -----

  /** open takes the lowest free descriptor above the standard three and starts it at the beginning of the
      file found; it fails with EMFILE exactly when there is none, and no failure changes anything. */
  lemma OpenTakesLowest(k: Kernel, f: Frame, path: CString, fd: nat)
    requires Shape(k) && |Current(k).fds| == MAX_FDS
    requires 3 <= fd <= MAX_FDS && (fd < MAX_FDS ==> Current(k).fds[fd].kind == NoFd)
    requires forall j :: 3 <= j < fd ==> Current(k).fds[j].kind != NoFd
    ensures var (k', r) := Open(k, f, Some(path));
            var file := FileAt(k.archive, path);
            && (r.rax == Errno(EMFILE) <==> fd == MAX_FDS)
            && (fd < MAX_FDS && file.Some? ==> r == f.(rax := fd) && k' == SetFd(k, fd, Fd(if file.value.directory then DirFd else FileFd, file.value, 0)))
            && (fd == MAX_FDS || file.None? ==> k' == k)
  {
    hide FileAt;
    LowestIs(Current(k).fds, fd, 3);
  }

  lemma {:induction false} LowestIs(fds: seq<Fd>, fd: nat, i: nat)
    requires i <= fd <= |fds| && (fd < |fds| ==> fds[fd].kind == NoFd) && forall j :: i <= j < fd ==> fds[j].kind != NoFd
    ensures FirstFreeFd(fds, i) == fd
    decreases fd - i
  {
    if i < fd {
      LowestIs(fds, fd, i + 1);
    }
  }

  /** Closing what was just opened undoes the open. */
  lemma OpenCloseRestores(k: Kernel, f: Frame, path: CString, f2: Frame, fd: nat)
    requires Shape(k) && FdsOk(k) && FileAt(k.archive, path).Some?
    requires 3 <= fd < |Current(k).fds| && Current(k).fds[fd].kind == NoFd
    requires forall j :: 3 <= j < fd ==> Current(k).fds[j].kind != NoFd
    ensures var (k1, r1) := Open(k, f, Some(path));
            r1.rax == fd && Close(k1, f2, fd) == (k, f2.(rax := 0))
  {
    hide FdOk, Open, FileAt;
    var fds := Current(k).fds;
    CurrentFdOk(k, fd);
    FreeIsCleared(k.archive, fds[fd]);
    assert AllFdsOk(k.archive, fds);
    OpenTakesLowest(k, f, path, fd);
    var k1 := Open(k, f, Some(path)).0;
    assert Current(k1).fds[fd := EmptyFd()] == fds;
    assert SetFd(k1, fd, EmptyFd()).procs == k.procs;
  }

  lemma FreeIsCleared(a: seq<Byte>, d: Fd)
    requires FdOk(a, d) && d.kind == NoFd
    ensures d == EmptyFd()
  {
  }

  /** The three forms of lseek set the offset relative to the start, the current offset and the end; any
      other fails and changes nothing. */
  lemma LseekSets(k: Kernel, f: Frame, fd: Word, offset: Word, whence: Word)
    requires Shape(k) && fd < |Current(k).fds| && Current(k).fds[fd].kind == FileFd
    ensures var (k', r) := Lseek(k, f, fd, offset, whence);
            var d := Current(k).fds[fd];
            && (whence == 0 ==> r.rax == offset)
            && (whence == 1 ==> r.rax == (d.offset + offset) % WORD_LIMIT)
            && (whence == 2 ==> r.rax == (|d.file.data| + offset) % WORD_LIMIT)
            && (if whence > 2 then k' == k && r.rax == Errno(EINVAL) else k' == SetFd(k, fd, d.(offset := r.rax)))
  {
  }

  /** After lseek to a place in the file, read delivers the file's bytes from there on into the caller's
      memory, as many as are left and wanted. */
  lemma LseekThenRead(k: Kernel, g: Ledger, chain: seq<nat>, f: Frame, fd: Word, offset: Word, f2: Frame, buffer: Word, count: Word)
    requires KernelOk(k, g, chain) && !k.halted && SystemCalls.ReadableFile(k, fd)
    requires offset <= |Current(k).fds[fd].file.data|
    requires UserRange(buffer, count) && Runs.Readable(k.mem, k.cr3, buffer, count)
    ensures var data := Current(k).fds[fd].file.data;
            var n := Min(count, |data| - offset);
            var (k', r) := Read(Lseek(k, f, fd, offset, 0).0, f2, fd, buffer, count, []);
            r == f2.(rax := n) && k'.cr3 == k.cr3 && ReadBytes(k'.mem, k.cr3, buffer, n) == Some(data[offset..offset + n])
  {
    hide Lseek, Read, StoreAll, ReadBytes, UserRange, UserLoad, Inv, NoLoose, RootsOk, PidsOk, ChainOk;
    LseekSets(k, f, fd, offset, 0);
    var k1 := Lseek(k, f, fd, offset, 0).0;
    var data := Current(k).fds[fd].file.data;
    SystemCalls.ReadConsumes(k1, f2, fd, buffer, count);
    var n := Min(count, |data| - offset);
    assert SystemCalls.Remaining(k1, fd) == data[offset..];
    assert data[offset..][..n] == data[offset..offset + n];
    RunningRoot(k, g, chain);
    RangeFront(buffer, n, count);
    assert Inv(k.mem, g);
    StoredIsRead(k.mem, g, k.cr3, buffer, data[offset..offset + n]);
  }

  /** A read from the keyboard leaves what was typed in the caller's buffer and changes no descriptor. */
  lemma KeysArrive(k: Kernel, g: Ledger, chain: seq<nat>, f: Frame, fd: Word, buffer: Word, keys: seq<Byte>)
    requires KernelOk(k, g, chain) && !k.halted && fd < |Current(k).fds| && Current(k).fds[fd].kind == Stdin
    requires |keys| < WORD_LIMIT && UserRange(buffer, |keys|) && Runs.Readable(k.mem, k.cr3, buffer, |keys|)
    ensures var (k', r) := Read(k, f, fd, buffer, |keys|, keys);
            && r == f.(rax := |keys|) && k' == k.(mem := k'.mem)
            && ReadBytes(k'.mem, k'.cr3, buffer, |keys|) == Some(keys)
            && forall va: nat :: !(buffer <= va < buffer + |keys|) ==> UserLoad(k'.mem, k'.cr3, va) == UserLoad(k.mem, k.cr3, va)
  {
    hide StoreAll, ReadBytes, UserRange, UserLoad, Usable, Inv, NoLoose, RootsOk, PidsOk, ChainOk, SafeArchive;
    RunningRoot(k, g, chain);
    assert Inv(k.mem, g);
    StoredIsRead(k.mem, g, k.cr3, buffer, keys);
    forall va: nat | !(buffer <= va < buffer + |keys|) ensures UserLoad(StoreAll(k.mem, k.cr3, buffer, keys), k.cr3, va) == UserLoad(k.mem, k.cr3, va) {
      if keys == [] {
        StoreNoBytes(k.mem, k.cr3, buffer);
      } else {
        RangeEnds(buffer, |keys|);
        UserLoadAfterStoreAll(k.mem, g, k.cr3, buffer, keys, k.cr3, va);
      }
    }
  }

  lemma RangeEnds(va: nat, n: nat)
    requires UserRange(va, n) && n > 0
    ensures va + n <= USER_TOP
  {
  }

  // ----- reading a directory -----

  /** n bytes as user code reads them. */
  function ReadBytes(m: Mem, root: nat, va: nat, n: nat): (r: Option<seq<Byte>>)
    decreases n
  {
    if n == 0 then Some([]) else
    var b, rest := UserLoad(m, root, va), ReadBytes(m, root, va + 1, n - 1);
    if b.Some? && rest.Some? then Some([b.value] + rest.value) else None
  }

  lemma {:induction false} ReadBytesGives(m: Mem, root: nat, va: nat, s: seq<Byte>)
    requires s == [] || va + |s| <= USER_TOP
    requires forall x: nat :: va <= x < va + |s| ==> UserLoad(m, root, x) == Some(s[x - va])
    ensures ReadBytes(m, root, va, |s|) == Some(s)
    decreases |s|
  {
    hide UserLoad;
    if s != [] {
      ReadBytesGives(m, root, va + 1, s[1..]);
      assert s == [s[0]] + s[1..];
    }
  }

  /** What was stored in a mapped buffer is read back, and what could be read still can. */
  lemma StoredIsRead(m: Mem, g: Ledger, root: nat, va: nat, bytes: seq<Byte>)
    requires Inv(m, g) && Root(root) in g.at && UserRange(va, |bytes|) && Runs.Readable(m, root, va, |bytes|)
    ensures ReadBytes(StoreAll(m, root, va, bytes), root, va, |bytes|) == Some(bytes)
    ensures forall x: nat :: x < USER_TOP && UserLoad(m, root, x).Some? ==> UserLoad(StoreAll(m, root, va, bytes), root, x).Some?
  {
    hide UserLoad, Usable, StoreAll, Inv, ReadBytes;
    var m' := StoreAll(m, root, va, bytes);
    if bytes == [] {
      StoreNoBytes(m, root, va);
      ReadBytesGives(m', root, va, bytes);
    } else {
      forall x: nat | x < USER_TOP && UserLoad(m, root, x).Some?
        ensures UserLoad(m', root, x) == if va <= x < va + |bytes| then Some(bytes[x - va]) else UserLoad(m, root, x)
      {
        UserLoadAfterStoreAll(m, g, root, va, bytes, root, x);
      }
      ReadBytesGives(m', root, va, bytes);
    }
  }

  lemma {:induction false} WalkShort(a: seq<Byte>, at: nat)
    ensures |R.Walk(a, at)| <= |a|
    ensures at <= |a| ==> |R.Walk(a, at)| <= |a| - at
    decreases |a| - at
  {
    hide R.EntryAt, R.ZeroBlock, R.FileSize, R.NextHeader;
    if R.HeaderAt(a, at) {
      WalkShort(a, R.NextHeader(a, at));
    }
  }

  lemma {:induction false} ShownShort(es: seq<R.Entry>, d: R.Path, n: nat)
    requires n <= |es|
    ensures |R.Shown(es, d, n)| <= n
  {
    if n > 0 {
      ShownShort(es, d, n - 1);
    }
  }

  lemma ListingShort(a: seq<Byte>, d: Fd)
    ensures |ListingOf(a, d)| <= |a|
  {
    hide R.Walk, R.Shown, D.Listing;
    WalkShort(a, 0);
    ShownShort(R.Walk(a, 0), R.Normalize(d.file.path), |R.Walk(a, 0)|);
  }

  /** One getdents64 call on a directory of this archive. */
  ghost predicate DirCall(k: Kernel, e: Event, fd: nat) {
    && Shape(k) && !k.halted && e.GetdentsCall? && e.fd == fd && fd < |Current(k).fds| && Current(k).fds[fd].kind == DirFd
    && UserRange(e.buffer, e.count) && Runs.Readable(k.mem, k.cr3, e.buffer, e.count)
  }

  /** The records user code finds in its buffer after a call that returned r. */
  function Sees(k: Kernel, buffer: nat, r: Frame): (records: seq<D.Dirent>) {
    match ReadBytes(k.mem, k.cr3, buffer, r.rax)
    case None => []
    case Some(bytes) => match D.ReadRecords(bytes, 0) case None => [] case Some(records) => records
  }

  lemma RangeFront(va: nat, n: nat, count: nat)
    requires UserRange(va, count) && n <= count
    ensures UserRange(va, n)
  {
  }

  /** The caller's memory decodes to the next records of the listing that fit, the descriptor has moved
      past exactly those, and what was readable still is. */
  ghost predicate NextRecords(k: Kernel, e: Event, fd: nat, k': Kernel, r: Frame)
    requires Shape(k) && fd < |Current(k).fds| && e.GetdentsCall?
  {
    var d := Current(k).fds[fd];
    var nodes := ListingOf(k.archive, d);
    var n := D.Fitting(nodes, d.offset, e.count);
    && d.offset <= |nodes| && Sees(k', e.buffer, r) == D.Records(nodes, d.offset, n)
    && Shape(k') && !k'.halted && k'.archive == k.archive && k'.current == k.current && k'.cr3 == k.cr3 && |Current(k').fds| == |Current(k).fds|
    && Current(k').fds[fd].kind == DirFd && Current(k').fds[fd].file == d.file && Current(k').fds[fd].offset == d.offset + n
    && forall x: nat :: x < USER_TOP && UserLoad(k.mem, k.cr3, x).Some? ==> UserLoad(k'.mem, k'.cr3, x).Some?
  }

  lemma GetdentsDelivers(k: Kernel, g: Ledger, chain: seq<nat>, e: Event, fd: nat)
    requires |k.archive| < WORD_LIMIT && KernelOk(k, g, chain) && FdsOk(k) && DirCall(k, e, fd)
    ensures NextRecords(k, e, fd, Next(k, e).0, Next(k, e).1)
  {
    hide StoreAll, FdOk, ListingOf, D.Fitting, D.Pack, D.Records, D.ReadRecords, ReadBytes, UserLoad, Held, UserRange, Inv, PidsOk, ChainOk,
      NoLoose, RootsOk, SafeArchive, Vfork, Execve, Brk, Exit, Wait4, Open, Close, Lseek, Read, Store, Usable;
    var d := Current(k).fds[fd];
    CurrentFdOk(k, fd);
    DirOk(k.archive, d);
    ListingShort(k.archive, d);
    AdvancedOk(k.archive, d, e.count);
    RunningRoot(k, g, chain);
    var room := Held(k.mem, k.cr3, e.buffer, e.count);
    var bytes := D.Pack(ListingOf(k.archive, d), d.offset, room);
    PackedListing(k.archive, d, room);
    RangeFront(e.buffer, |bytes|, e.count);
    StoredIsRead(k.mem, g, k.cr3, e.buffer, bytes);
  }

  lemma PackedListing(a: seq<Byte>, d: Fd, room: seq<Byte>)
    requires 0 !in d.file.path && d.offset <= |ListingOf(a, d)|
    ensures var nodes := ListingOf(a, d);
            D.ReadRecords(D.Pack(nodes, d.offset, room), 0) == Some(D.Records(nodes, d.offset, D.Fitting(nodes, d.offset, |room|)))
  {
    hide D.Listing, R.Walk, D.Fitting, D.Pack, D.Records, D.ReadRecords;
    D.NamesAreProper(a, d.file.path);
    D.PackDecodes(ListingOf(a, d), d.offset, room);
  }

  lemma DirOk(a: seq<Byte>, d: Fd)
    requires FdOk(a, d) && d.kind == DirFd
    ensures 0 !in d.file.path && d.offset <= |ListingOf(a, d)|
  {
  }

  // ----- reading it in any number of calls -----

  ghost predicate DirCalls(k: Kernel, events: seq<Event>, fd: nat) {
    forall i :: 0 <= i < |events| ==> DirCall(k, events[i], fd)
  }

  function Counts(events: seq<Event>): (counts: seq<nat>)
    requires forall i :: 0 <= i < |events| ==> events[i].GetdentsCall?
  {
    if events == [] then [] else [events[0].count] + Counts(events[1..])
  }

  /** All records user code finds, call after call. */
  function AllSeen(k: Kernel, events: seq<Event>): (records: seq<D.Dirent>)
    requires Shape(k) && forall i :: 0 <= i < |events| ==> events[i].GetdentsCall?
    decreases |events|
  {
    if events == [] then []
    else
      var (k1, r) := Next(k, events[0]);
      Sees(k1, events[0].buffer, r) + AllSeen(k1, events[1..])
  }

  lemma CallsRemain(k: Kernel, events: seq<Event>, fd: nat, k': Kernel, r: Frame)
    requires events != [] && DirCalls(k, events, fd) && DirCall(k, events[0], fd) && NextRecords(k, events[0], fd, k', r)
    ensures DirCalls(k', events[1..], fd)
  {
    hide UserLoad, Sees, ListingOf, D.Fitting, D.Records;
    forall i | 0 <= i < |events[1..]| ensures DirCall(k', events[1..][i], fd) {
      assert DirCall(k, events[i + 1], fd);
      var e := events[i + 1];
      forall x: nat | e.buffer <= x < e.buffer + e.count ensures UserLoad(k'.mem, k'.cr3, x).Some? {
        assert UserLoad(k.mem, k.cr3, x).Some? && x < USER_TOP;
      }
    }
  }

  /** However a program splits its reading of a directory into calls, what it finds in its buffers is the
      listing from where the descriptor stood, in order, without repetition or gap. */
  lemma {:induction false} DirectoryRead(k: Kernel, g: Ledger, chain: seq<nat>, events: seq<Event>, fd: nat)
    requires |k.archive| < WORD_LIMIT && KernelOk(k, g, chain) && !k.halted && FdsOk(k)
    requires fd < |Current(k).fds| && Current(k).fds[fd].kind == DirFd
    requires DirCalls(k, events, fd)
    ensures forall i :: 0 <= i < |events| ==> events[i].GetdentsCall?
    ensures var d := Current(k).fds[fd];
            var nodes := ListingOf(k.archive, d);
            d.offset <= |nodes| && AllSeen(k, events) == D.Delivered(nodes, d.offset, Counts(events))
    decreases |events|
  {
    hide Next, FdsOk, SafeArchive, MemoryOk, PidsOk, ChainOk, ListingOf, D.Fitting, D.Records, Sees, UserLoad, DirCall;
    assert forall i :: 0 <= i < |events| ==> events[i].GetdentsCall? by { AreCalls(k, events, fd); }
    var d := Current(k).fds[fd];
    OpenDirectory(k, fd);
    if events != [] {
      var e := events[0];
      assert DirCall(k, e, fd);
      var (k1, r) := Next(k, e);
      GetdentsDelivers(k, g, chain, e, fd);
      CallsRemain(k, events, fd, k1, r);
      CallKeeps(k, g, chain, e, fd);
      FdsStep(k, e);
      SameListing(k.archive, d, Current(k1).fds[fd]);
      DirectoryRead(k1, g, chain, events[1..], fd);
    }
  }

  lemma AreCalls(k: Kernel, events: seq<Event>, fd: nat)
    requires DirCalls(k, events, fd)
    ensures forall i :: 0 <= i < |events| ==> events[i].GetdentsCall?
  {
    forall i | 0 <= i < |events| ensures events[i].GetdentsCall? {
      assert DirCall(k, events[i], fd);
    }
  }

  lemma OpenDirectory(k: Kernel, fd: nat)
    requires Shape(k) && FdsOk(k) && fd < |Current(k).fds| && Current(k).fds[fd].kind == DirFd
    ensures 0 !in Current(k).fds[fd].file.path && Current(k).fds[fd].offset <= |ListingOf(k.archive, Current(k).fds[fd])|
  {
    CurrentFdOk(k, fd);
  }

  lemma SameListing(a: seq<Byte>, d: Fd, d': Fd)
    requires d.file == d'.file
    ensures ListingOf(a, d) == ListingOf(a, d')
  {
  }

  lemma CallKeeps(k: Kernel, g: Ledger, chain: seq<nat>, e: Event, fd: nat)
    requires KernelOk(k, g, chain) && DirCall(k, e, fd)
    ensures KernelOk(Next(k, e).0, g, chain)
  {
    hide KernelOk, Getdents;
    GetdentsKeeps(k, g, chain, e.frame, e.fd, e.buffer, e.count);
  }

  /** From boot, after any run: a directory opened by the running program is read faithfully from wherever
      its descriptor stands, and completely by adequate buffers. */
  lemma DirectoryReadFromBoot(m: Mem, ranges: seq<Boot.Range>, a: seq<Byte>, call: Invocation, before: seq<Event>, events: seq<Event>, fd: nat)
    requires |a| < WORD_LIMIT && Boot.Boots(m, ranges, a, call)
    requires var k := Run(Boot.Started(m, ranges, a, call), before);
             !k.halted && fd < |Current(k).fds| && Current(k).fds[fd].kind == DirFd && DirCalls(k, events, fd)
    ensures forall i :: 0 <= i < |events| ==> events[i].GetdentsCall?
    ensures var k := Run(Boot.Started(m, ranges, a, call), before);
            var d := Current(k).fds[fd];
            var nodes := ListingOf(a, d);
            && d.offset <= |nodes|
            && AllSeen(k, events) == D.Records(nodes, d.offset, D.Progress(nodes, d.offset, Counts(events)))
            && (D.Adequate(nodes, d.offset, Counts(events)) && |events| >= |nodes| - d.offset ==>
                  AllSeen(k, events) == D.Records(nodes, d.offset, |nodes| - d.offset))
  {
    hide Run, Boot.AddRanges, StartInit, KernelOk, FdsOk, DirCalls, AllSeen, ListingOf, D.Delivered, D.Records, D.Progress, D.Adequate, Counts;
    var k0 := Boot.Started(m, ranges, a, call);
    var k := Run(k0, before);
    var g, chain := Runs.RunFromBoot(m, ranges, a, call, before);
    StartFds(Boot.AddRanges(m, ranges), a, call);
    RunKeepsFds(k0, before);
    DirectoryRead(k, g, chain, events, fd);
    var d := Current(k).fds[fd];
    var nodes := ListingOf(a, d);
    D.DeliveredInOrder(nodes, d.offset, Counts(events));
    CountsLength(events);
    if D.Adequate(nodes, d.offset, Counts(events)) && |events| >= |nodes| - d.offset {
      D.DeliveredAll(nodes, d.offset, Counts(events));
    }
  }

  lemma {:induction false} CountsLength(events: seq<Event>)
    requires forall i :: 0 <= i < |events| ==> events[i].GetdentsCall?
    ensures |Counts(events)| == |events|
  {
    if events != [] {
      CountsLength(events[1..]);
    }
  }
}
