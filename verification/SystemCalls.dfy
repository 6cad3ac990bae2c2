/**
 What single system calls do for the program that makes them (kernel/process.c).
 */
module SystemCalls {
  import opened Wrappers
  import opened Paging
  import opened Ownership
  import opened PageTables
  import opened AddressSpaces
  import opened VirtualMemory
  import opened Programs
  import opened Loading
  import opened Images
  import opened Stacks
  import opened Files
  import opened Kernel
  import opened Processes
  import Runs

  // ----- vfork -----

  /** The child starts where the parent stands, with 0 as its result, a pid of its own, the same
      descriptors and break, and memory that it reads and may write exactly where the parent does, byte for byte. */
  lemma ChildIsCopy(k: Kernel, g: Ledger, chain: seq<nat>, f: Frame)
    requires KernelOk(k, g, chain) && !k.halted && Vfork(k, f).0.current != k.current
    ensures var (k', r) := Vfork(k, f);
            var child := Current(k');
            && r == f.(rax := 0) && child.status == Running && child.ppid == Current(k).pid
            && (forall i :: 0 <= i < MAX_PROCESSES && k.procs[i].status != Unused ==> k.procs[i].pid < child.pid)
            && child.fds == Current(k).fds && child.brk == Current(k).brk
            && child.entry == Current(k).entry && child.stack == Current(k).stack
            && forall va: nat :: UserLoad(k'.mem, k'.cr3, va) == UserLoad(k.mem, k.cr3, va) && (Usable(k'.mem, k'.cr3, va) <==> Usable(k.mem, k.cr3, va))
  {
    OnlyBelow(k.mem, k.cr3);
    OnlyBelow(Vfork(k, f).0.mem, Vfork(k, f).0.cr3);
    hide View, UserLoad, Usable, Allows, CreateRoot, CloneUserSpace, DestroyUserSpace, Inv, EmptyFds, StandardFds, Leaf, ChainOk, NoLoose, OthersKept;
    var k' := Vfork(k, f).0;
    var g', chain' := VforkKeeps(k, g, chain, f);
    RunningRoot(k, g, chain);
    assert Holder(k'.procs, k'.current, k'.cr3);
    forall va: nat | va < USER_TOP
      ensures UserLoad(k'.mem, k'.cr3, va) == UserLoad(k.mem, k.cr3, va)
      ensures Usable(k'.mem, k'.cr3, va) <==> Usable(k.mem, k.cr3, va)
    {
      UserLoadIsView(k.mem, g, k.cr3, va);
      UserLoadIsView(k'.mem, g', k'.cr3, va);
      SameCellAccess(View(k'.mem, g', Leaf(k'.cr3, va / 4096)), View(k.mem, g, Leaf(k.cr3, va / 4096)));
    }
  }

  lemma SameCellAccess(a: Option<Cell>, b: Option<Cell>)
    requires SameCell(a, b)
    ensures a.Some? <==> b.Some?
    ensures a.Some? ==> a.value.bytes == b.value.bytes && forall write :: Allows(a.value.entry, write) <==> Allows(b.value.entry, write)
  {
    if a.Some? {
      PermissionBits(a.value.entry);
      PermissionBits(b.value.entry);
    }
  }

  /** Permissions are in the flags of an entry. */
  lemma PermissionBits(e: Word)
    ensures e % 2 == FlagsOf(e) % 2 && e / 2 % 2 == FlagsOf(e) / 2 % 2 && e / 4 % 2 == FlagsOf(e) / 4 % 2
  {
    var q, r := e / 4096, e % 4096;
    assert e == 2 * (2048 * q) + r;
    EvenPart(2048 * q, r);
    EvenPart(1024 * q, r / 2);
    EvenPart(512 * q, r / 4);
    QuotientIs(e, 2, 2048 * q + r / 2, r % 2);
    QuotientIs(e, 4, 1024 * q + r / 4, r % 4);
  }

  // ----- brk -----

  function PageUp(a: nat): (r: nat) { (a + 4095) / 4096 * 4096 }

  /** The new break is granted exactly when brk returns it; then the pages between the rounded breaks,
      which were unmapped, read as zero and may be written, through an entry that is present, writable and
      user and has no other flag.  Granted or not, what was readable stays as it was, and no other page appears. */
  lemma BrkGrows(k: Kernel, g: Ledger, chain: seq<nat>, f: Frame, request: Word, va: nat)
    requires KernelOk(k, g, chain) && !k.halted && va < USER_TOP
    ensures var (k', r) := Brk(k, f, request);
            var low, high := PageUp(Current(k).brk), PageUp(request);
            && k'.cr3 == k.cr3 && r == f.(rax := Current(k').brk % WORD_LIMIT)
            && (Current(k').brk == request || Current(k').brk == Current(k).brk)
            && (request == 0 || request < Current(k).brk || request >= 0x1000_0000 ==> k' == k)
            && (Current(k').brk != Current(k).brk && low <= va < high ==>
                  && Load(k.mem, k.cr3, va).None? && UserLoad(k'.mem, k.cr3, va) == Some(0) && Usable(k'.mem, k.cr3, va)
                  && Lookup(k'.mem, k.cr3, va / 4096).Some? && FlagsOf(Lookup(k'.mem, k.cr3, va / 4096).value) == 7)
            && (Load(k.mem, k.cr3, va).Some? || !(low <= va < high) ==>
                  && Load(k'.mem, k.cr3, va) == Load(k.mem, k.cr3, va)
                  && UserLoad(k'.mem, k.cr3, va) == UserLoad(k.mem, k.cr3, va) && (Usable(k'.mem, k.cr3, va) <==> Usable(k.mem, k.cr3, va)))
  {
    hide MapPages, View, Load, UserLoad, Usable, Allows, Lookup, FlagsOf, UserFlags, LeafFlags, Leaf, PidsOk, ChainOk, NoLoose, RootsOk, Inv, ZeroPage, PageByte;
    var p := Current(k);
    RunningRoot(k, g, chain);
    var first, end := (p.brk + 4095) / 4096, (request + 4095) / 4096;
    if request != 0 && p.brk <= request < BRK_LIMIT {
      assert Inv(k.mem, g);
      var g' := MapPagesKeeps(k.mem, g, p.cr3, first, end, 2);
      var (m', ok) := MapPages(k.mem, p.cr3, first, end, 2);
      LoadIsView(k.mem, g, p.cr3, va);
      LoadIsView(m', g', p.cr3, va);
      UserLoadIsView(k.mem, g, p.cr3, va);
      UserLoadIsView(m', g', p.cr3, va);
      LookupAgrees(m', g', p.cr3, va / 4096);
      assert MapsAt(k.mem, g, m', g', p.cr3, first, end, ok, va / 4096, 2);
      ZeroPageByte(va % 4096);
      UserFlagsBits(2);
      if ok && first <= va / 4096 < end {
        SevenAllows(View(m', g', Leaf(p.cr3, va / 4096)).value.entry, false);
        SevenAllows(View(m', g', Leaf(p.cr3, va / 4096)).value.entry, true);
      }
    }
  }

  // ----- execve -----

  /** On success the program finds itself, under its old pid and with its old descriptors, in a space
      that shows every segment of the file; it enters at e_entry, and its stack decodes to argv and envp. */
  lemma ExecveLoads(k: Kernel, g: Ledger, chain: seq<nat>, f: Frame, call: Invocation)
    requires KernelOk(k, g, chain) && !k.halted && Copied31(call.argv) && Copied31(call.envp)
    requires LoadProgram(k.mem, Resolve(k.archive, call)).1.Some?
    requires FileAt(k.archive, call.path).Some? ==> NoWrap(FileAt(k.archive, call.path).value)
    ensures FileAt(k.archive, call.path).Some? && ValidElf(FileAt(k.archive, call.path).value)
    ensures var (k', r) := Execve(k, f, Some(call));
            var file := FileAt(k.archive, call.path).value;
            && r.rax == 0 && r.rip == Field(file.data, 24, 8) % WORD_LIMIT && r.rsp == Current(k').stack % WORD_LIMIT
            && Current(k').pid == Current(k).pid && Current(k').fds == Current(k).fds && k'.cr3 == Current(k').cr3
            && Current(k').brk == INITIAL_BRK && Current(k').entry == Field(file.data, 24, 8)
            && Shows(k'.mem, k'.cr3, file, 0) && DisjointFrom(file, 0)
            && ReadStack(k'.mem, k'.cr3, Current(k').stack) == Some(Arguments(|call.argv|, call.argv, call.envp))
            && forall va: nat :: STACK_BASE <= va < STACK_TOP ==> Usable(k'.mem, k'.cr3, va)
  {
    hide View, UserLoad, Usable, LoadProgram, DestroyUserSpace, PidsOk, ChainOk, NoLoose, Inv, Field, ReadStack, Shows, DisjointFrom, ValidElf,
      Confined, NoWrap, FileAt, Harmless, SafeArchive;
    var req := Resolve(k.archive, call);
    SafeResolve(k.archive, call);
    assert Inv(k.mem, g);
    RunningRoot(k, g, chain);
    LoadedBreak(k.mem, req);
    ProgramLoaded(k.mem, g, req);
    var (m1, l) := LoadProgram(k.mem, req);
    var g1 := LoadProgramKeeps(k.mem, g, req);
    var root := l.value.cr3;
    OldRootStays(k.mem, g, m1, g1, k.cr3, root);
    var m2 := DestroyUserSpace(m1, k.cr3);
    SpaceSurvives(m1, g1, k.cr3, root);
    ShowsRetained(m1, m2, root, req.file.value);
    StackSame(m1, m2, root, l.value.stack);
  }

  /** A space looks the same to user code after another one has been destroyed. */
  lemma SpaceSurvives(m: Mem, g: Ledger, dead: nat, root: nat)
    requires Inv(m, g) && Root(dead) in g.at && Root(root) in g.at && root != dead
    ensures SameLoads(m, DestroyUserSpace(m, dead), root) && Retains(m, DestroyUserSpace(m, dead), root)
  {
    hide UserLoad, Usable, Inv, DestroyUserSpace;
    var m' := DestroyUserSpace(m, dead);
    OnlyBelow(m, root);
    OnlyBelow(m', root);
    forall va: nat ensures UserLoad(m', root, va) == UserLoad(m, root, va) && Usable(m', root, va) == Usable(m, root, va) {
      if va < USER_TOP {
        Runs.UserLoadAfterDestroy(m, g, dead, root, va);
      }
    }
  }

  lemma LoadedBreak(m: Mem, req: Request)
    requires LoadProgram(m, req).1.Some?
    ensures LoadProgram(m, req).1.value.brk == INITIAL_BRK
  {
    hide CreateRoot, LoadElf, BuildStack, Field;
  }

  lemma OldRootStays(m: Mem, g: Ledger, m1: Mem, g1: Ledger, former: nat, root: nat)
    requires Root(former) in g.at && NoSuchSpace(g, root) && Confined(m, g, m1, g1, root)
    ensures Root(former) in g1.at && former != root
  {
    assert SpaceOf(Root(former)) == former;
  }

  // ----- reading the stack needs only what user code can load -----

  ghost predicate SameLoads(m: Mem, m': Mem, root: nat) {
    forall va: nat :: UserLoad(m', root, va) == UserLoad(m, root, va)
  }

  lemma {:induction false} WordSame(m: Mem, m': Mem, root: nat, va: nat, n: nat)
    requires SameLoads(m, m', root)
    ensures ReadLE(m', root, va, n) == ReadLE(m, root, va, n)
    decreases n
  {
    hide UserLoad;
    if n > 0 {
      WordSame(m, m', root, va + 1, n - 1);
    }
  }

  lemma {:induction false} StringSame(m: Mem, m': Mem, root: nat, va: nat, n: nat)
    requires SameLoads(m, m', root)
    ensures ReadString(m', root, va, n) == ReadString(m, root, va, n)
    decreases n
  {
    hide UserLoad;
    if n > 0 {
      StringSame(m, m', root, va + 1, n - 1);
    }
  }

  lemma {:induction false} VectorSame(m: Mem, m': Mem, root: nat, va: nat, n: nat)
    requires SameLoads(m, m', root)
    ensures ReadVector(m', root, va, n) == ReadVector(m, root, va, n)
    decreases n
  {
    hide UserLoad, ReadLE, ReadString;
    WordSame(m, m', root, va, 8);
    var p := ReadWord(m, root, va);
    if p.Some? && n > 0 {
      StringSame(m, m', root, p.value, 256);
      VectorSame(m, m', root, va + 8, n - 1);
    }
  }

  lemma StackSame(m: Mem, m': Mem, root: nat, sp: nat)
    requires SameLoads(m, m', root)
    ensures ReadStack(m', root, sp) == ReadStack(m, root, sp)
  {
    hide UserLoad, ReadLE, ReadVector;
    WordSame(m, m', root, sp, 8);
    VectorSame(m, m', root, sp + 8, 31);
    var argv := ReadVector(m, root, sp + 8, 31);
    if argv.Some? {
      VectorSame(m, m', root, argv.value.next, 31);
    }
  }

  // ----- read -----

  predicate ReadableFile(k: Kernel, fd: nat) {
    && Shape(k) && fd < |Current(k).fds| && Current(k).fds[fd].kind == FileFd
    && |Current(k).fds[fd].file.data| < WORD_LIMIT
  }

  /** The bytes from the descriptor's offset on. */
  function Remaining(k: Kernel, fd: nat): (s: seq<Byte>)
    requires ReadableFile(k, fd)
  {
    var d := Current(k).fds[fd];
    if d.offset >= |d.file.data| then [] else d.file.data[d.offset..]
  }

  /** n of them have been stored at `buffer`. */
  function Consumed(k: Kernel, fd: nat, buffer: nat, n: nat): (k': Kernel)
    requires ReadableFile(k, fd) && n <= |Remaining(k, fd)|
    ensures ReadableFile(k', fd)
  {
    var d := Current(k).fds[fd];
    SetFd(k, fd, d.(offset := if n == 0 then d.offset else d.offset + n)).(mem := StoreAll(k.mem, k.cr3, buffer, Remaining(k, fd)[..n]))
  }

  lemma ConsumedNothing(k: Kernel, fd: nat, buffer: nat)
    requires ReadableFile(k, fd)
    ensures Consumed(k, fd, buffer, 0) == k
  {
    var fds := Current(k).fds;
    assert fds[fd := fds[fd]] == fds;
    assert k.procs[k.current := Current(k)] == k.procs;
  }

  lemma ReadConsumes(k: Kernel, f: Frame, fd: Word, buffer: Word, count: Word)
    requires ReadableFile(k, fd) && UserRange(buffer, count)
    ensures var n := Min(count, |Remaining(k, fd)|);
            Read(k, f, fd, buffer, count, []) == (Consumed(k, fd, buffer, n), f.(rax := n))
  {
    hide Read, Consumed;
    var d := Current(k).fds[fd];
    if d.offset < |d.file.data| {
      ReadInside(k, f, fd, buffer, count);
    } else {
      ReadAtEnd(k, f, fd, buffer, count);
      ConsumedNothing(k, fd, buffer);
    }
  }

  lemma ReadAtEnd(k: Kernel, f: Frame, fd: Word, buffer: Word, count: Word)
    requires ReadableFile(k, fd) && UserRange(buffer, count) && Current(k).fds[fd].offset >= |Current(k).fds[fd].file.data|
    ensures Read(k, f, fd, buffer, count, []) == (k, f.(rax := 0))
  {
    hide StoreAll, UserRange, SetFd;
  }

  lemma ReadInside(k: Kernel, f: Frame, fd: Word, buffer: Word, count: Word)
    requires ReadableFile(k, fd) && UserRange(buffer, count) && Current(k).fds[fd].offset < |Current(k).fds[fd].file.data|
    ensures var n := Min(count, |Remaining(k, fd)|);
            Read(k, f, fd, buffer, count, []) == (Consumed(k, fd, buffer, n), f.(rax := n))
  {
    hide StoreAll, UserRange, SetFd;
    var d := Current(k).fds[fd];
    var n := Min(count, |d.file.data| - d.offset);
    assert |Remaining(k, fd)| == |d.file.data| - d.offset;
    assert d.file.data[d.offset..d.offset + n] == Remaining(k, fd)[..n];
    assert (d.offset + n) % WORD_LIMIT == d.offset + n && n % WORD_LIMIT == n;
    assert d.(offset := (d.offset + n) % WORD_LIMIT) == d.(offset := if n == 0 then d.offset else d.offset + n);
  }

  lemma ConsumedRemains(k: Kernel, fd: nat, buffer: nat, n: nat)
    requires ReadableFile(k, fd) && n <= |Remaining(k, fd)|
    ensures Remaining(Consumed(k, fd, buffer, n), fd) == Remaining(k, fd)[n..]
  {
    hide StoreAll;
  }

  lemma ConsumedTwice(k: Kernel, fd: nat, buffer: nat, a: nat, b: nat)
    requires ReadableFile(k, fd) && a + b <= |Remaining(k, fd)|
    ensures var k1 := Consumed(k, fd, buffer, a);
            b <= |Remaining(k1, fd)| && Consumed(k1, fd, buffer + a, b) == Consumed(k, fd, buffer, a + b)
  {
    hide StoreAll, Remaining;
    ConsumedRemains(k, fd, buffer, a);
    var s := Remaining(k, fd);
    assert s[..a] + s[a..][..b] == s[..a + b];
    StoreAllConcat(k.mem, k.cr3, buffer, s[..a], s[a..][..b]);
    var k1 := Consumed(k, fd, buffer, a);
    assert Current(Consumed(k1, fd, buffer + a, b)).fds == Current(Consumed(k, fd, buffer, a + b)).fds;
    assert Consumed(k1, fd, buffer + a, b).procs == Consumed(k, fd, buffer, a + b).procs;
  }

  lemma RangeParts(buffer: Word, a: nat, b: nat, n: nat)
    requires UserRange(buffer, a + b) && n <= a
    ensures UserRange(buffer, a) && buffer + n < WORD_LIMIT && UserRange(buffer + n, b)
  {
  }

  /** Reading a file in two pieces, the second where the first ended, is reading it in one. */
  lemma ReadsCompose(k: Kernel, f: Frame, fd: Word, buffer: Word, a: Word, b: Word)
    requires ReadableFile(k, fd) && a + b < WORD_LIMIT && UserRange(buffer, a + b)
    ensures var (k1, r1) := Read(k, f, fd, buffer, a, []);
            && buffer + r1.rax < WORD_LIMIT
            && var (k2, r2) := Read(k1, f, fd, buffer + r1.rax, b, []);
            var (k', r) := Read(k, f, fd, buffer, a + b, []);
            k2 == k' && r1.rax + r2.rax == r.rax
  {
    hide Consumed, Remaining, Read, UserRange, ReadableFile;
    var n := Min(a, |Remaining(k, fd)|);
    RangeParts(buffer, a, b, n);
    ReadConsumes(k, f, fd, buffer, a);
    ConsumedRemains(k, fd, buffer, n);
    var k1 := Consumed(k, fd, buffer, n);
    ReadConsumes(k1, f, fd, buffer + n, b);
    ReadConsumes(k, f, fd, buffer, a + b);
    ConsumedTwice(k, fd, buffer, n, Min(b, |Remaining(k1, fd)|));
  }
}
