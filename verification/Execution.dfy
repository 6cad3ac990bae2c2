/**
 From the archive to the running program: what execve does with a program written with the ELF layout into an
 archive written with the ustar layout, said of the lists both were written from.
 */
module Execution {
  import opened Wrappers
  import opened Paging
  import opened Ownership
  import opened VirtualMemory
  import opened Programs
  import opened Loading
  import opened Images
  import opened Stacks
  import opened Files
  import opened Kernel
  import opened Processes
  import opened ElfFormat
  import Admission
  import SystemCalls
  import Boot
  import U = Ustar
  import R = Ramdisk

  // ----- programs as lists of headers -----

  const PT_LOAD: nat := 1

  predicate Within(h: ProgramHeader, va: nat) { h.kind == PT_LOAD && h.vaddr <= va < h.vaddr + h.memsz }

  /** The pages the segment touches. */
  predicate Touches(h: ProgramHeader, page: nat) {
    h.kind == PT_LOAD && h.vaddr / 4096 <= page < (h.vaddr + h.memsz + 4095) / 4096
  }

  predicate Placed(size: nat, h: ProgramHeader) {
    h.filesz <= h.memsz && h.offset + h.filesz <= size && 0x1_0000 <= h.vaddr && h.vaddr + h.memsz < 0x8000_0000_0000
  }

  /** Every loaded segment lies in the file and in the user half, and no page is wanted twice, counting those of
      the stack. */
  ghost predicate Sound(size: nat, headers: seq<ProgramHeader>) {
    && (forall j :: 0 <= j < |headers| && headers[j].kind == PT_LOAD ==> Placed(size, headers[j]))
    && (forall i, j, p: nat {:trigger Touches(headers[i], p), Touches(headers[j], p)} ::
          0 <= i < j < |headers| && Touches(headers[i], p) ==> !Touches(headers[j], p))
    && (forall j, p: nat {:trigger Touches(headers[j], p)} ::
          0 <= j < |headers| && Touches(headers[j], p) ==> !(0x7_ffff_ffee <= p < 0x7_ffff_fffe))
  }

  /** No sum of a loaded segment reaches 2^64. */
  ghost predicate Unwrapped(size: nat, headers: seq<ProgramHeader>) {
    && size < WORD_LIMIT
    && forall j :: 0 <= j < |headers| && headers[j].kind == PT_LOAD ==>
         headers[j].offset + headers[j].filesz < WORD_LIMIT && headers[j].vaddr + headers[j].memsz < WORD_LIMIT
  }

  function PagesWanted(headers: seq<ProgramHeader>): (n: nat) {
    if headers == [] then 0 else Admission.PageCount(SegmentOf(headers[0])) + PagesWanted(headers[1..])
  }

  /** What user code should find at an address of a segment: the file's bytes, then zeroes. */
  function ImageByte(data: seq<Byte>, h: ProgramHeader, va: nat): (b: Byte)
    requires Placed(|data|, h) && h.vaddr <= va
  {
    if va < h.vaddr + h.filesz then data[h.offset + (va - h.vaddr)] else 0
  }

  /** User code reads every loaded segment, byte for byte, and may write it. */
  ghost predicate ShowsImage(m: Mem, root: nat, data: seq<Byte>, headers: seq<ProgramHeader>) {
    forall j: nat, va: nat {:trigger Within(headers[j], va)} :: j < |headers| && Within(headers[j], va) ==>
      Placed(|data|, headers[j]) && UserLoad(m, root, va) == Some(ImageByte(data, headers[j], va)) && Usable(m, root, va)
  }

  // ----- the same said of the file -----

  lemma {:induction false} WantedIsTotal(file: File, e: Elf, headers: seq<ProgramHeader>, i: nat)
    requires Describes(file.data, e, headers) && ValidElf(file) && PhNum(file) == |headers| && i <= |headers|
    requires forall j :: 0 <= j < |headers| ==> SegmentAt(file, j) == SegmentOf(headers[j])
    ensures Admission.TotalPages(file, i) == PagesWanted(headers[i..])
    decreases |headers| - i
  {
    hide SegmentAt, Field, Admission.PageCount, HeaderBytes, FileHeader;
    if i < |headers| {
      WantedIsTotal(file, e, headers, i + 1);
      assert headers[i..][1..] == headers[i + 1..];
    }
  }

  lemma CoversIsTouches(h: ProgramHeader, size: nat, page: nat)
    requires h.kind == PT_LOAD ==> Placed(size, h)
    ensures Admission.Covers(SegmentOf(h), page) <==> Touches(h, page)
  {
  }

  lemma FitsIsPlaced(file: File, h: ProgramHeader)
    ensures SegmentFits(file, SegmentOf(h)) <==> Placed(|file.data|, h)
  {
  }

  lemma StackPages(page: nat)
    ensures Admission.OnStack(page) <==> 0x7_ffff_ffee <= page < 0x7_ffff_fffe
  {
  }

  lemma SoundIsLoadable(file: File, headers: seq<ProgramHeader>)
    requires ValidElf(file) && PhNum(file) == |headers|
    requires forall j :: 0 <= j < |headers| ==> SegmentAt(file, j) == SegmentOf(headers[j])
    ensures Sound(|file.data|, headers) <==> Admission.Loadable(file, 0) && Admission.OffStack(file)
  {
    hide SegmentAt, Field, Admission.Covers, Touches, SegmentFits, Placed, SegmentOf, Admission.OnStack;
    forall j | 0 <= j < |headers| ensures SegmentFits(file, SegmentOf(headers[j])) <==> Placed(|file.data|, headers[j]) {
      FitsIsPlaced(file, headers[j]);
    }
    forall j | 0 <= j < |headers| ensures SegmentAt(file, j).kind == headers[j].kind {
      SegmentKind(headers[j]);
    }
    if forall j :: 0 <= j < |headers| && headers[j].kind == PT_LOAD ==> Placed(|file.data|, headers[j]) {
      forall j, p: nat | 0 <= j < |headers| ensures Admission.Covers(SegmentAt(file, j), p) <==> Touches(headers[j], p) {
        CoversIsTouches(headers[j], |file.data|, p);
      }
      forall p: nat ensures Admission.OnStack(p) <==> 0x7_ffff_ffee <= p < 0x7_ffff_fffe {
        StackPages(p);
      }
    }
  }

  lemma SegmentKind(h: ProgramHeader)
    ensures SegmentOf(h).kind == h.kind
  {
  }

  lemma UnwrappedIsNoWrap(file: File, headers: seq<ProgramHeader>)
    requires Unwrapped(|file.data|, headers) && ValidElf(file) && PhNum(file) == |headers|
    requires forall j :: 0 <= j < |headers| ==> SegmentAt(file, j) == SegmentOf(headers[j])
    ensures NoWrap(file)
  {
    hide SegmentAt, Field;
  }

  /** Loading a written program, said of its headers: a load that succeeds shows every segment. */
  lemma HeadersLoad(m: Mem, g: Ledger, root: nat, file: File, e: Elf, headers: seq<ProgramHeader>)
    requires Inv(m, g) && Root(root) in g.at && Describes(file.data, e, headers) && !file.directory
    requires Unwrapped(|file.data|, headers) && LoadElf(m, root, file).1
    ensures ShowsImage(LoadElf(m, root, file).0, root, file.data, headers)
  {
    hide SegmentAt, Field, UserLoad, Usable, LoadSegments, Describes, Shows, NoWrap, Sound, Inv, ShowsImage, Admission.Loadable,
      Admission.OffStack, DisjointFrom, Unmapped, Retains;
    WrittenIsRead(file, e, headers);
    UnwrappedIsNoWrap(file, headers);
    SegmentsLoad(m, g, root, file, 0);
    var _ := Admission.SegmentsLoaded(m, g, root, file, 0);
    ShownLoaded(LoadElf(m, root, file).0, root, file, headers);
  }

  lemma ShownLoaded(m: Mem, root: nat, file: File, headers: seq<ProgramHeader>)
    requires ValidElf(file) && PhNum(file) == |headers| && Shows(m, root, file, 0) && Admission.Loadable(file, 0)
    requires forall j :: 0 <= j < |headers| ==> SegmentAt(file, j) == SegmentOf(headers[j])
    ensures ShowsImage(m, root, file.data, headers)
  {
    hide SegmentAt, Field, UserLoad, Usable;
    forall j: nat, va: nat | j < |headers| && Within(headers[j], va)
      ensures Placed(|file.data|, headers[j]) && UserLoad(m, root, va) == Some(ImageByte(file.data, headers[j], va)) && Usable(m, root, va)
    {
      assert SegmentFits(file, SegmentAt(file, j));
      assert InSegment(SegmentAt(file, j), va);
    }
  }

  // ----- execve -----

  /** The program runs: same pid and descriptors, entry and break as they should be, the image in place, the stack
      writable and holding the arguments. */
  ghost predicate RunsProgram(k: Kernel, k': Kernel, r: Frame, e: Elf, data: seq<Byte>, headers: seq<ProgramHeader>, argv: seq<seq<Byte>>, envp: seq<seq<Byte>>)
    requires Shape(k) && Shape(k')
  {
    && r.rip == e.entry && r.rsp == Current(k').stack % WORD_LIMIT
    && Current(k').pid == Current(k).pid && Current(k').fds == Current(k).fds && Current(k').brk == 0x80_0000 && k'.cr3 == Current(k').cr3
    && ShowsImage(k'.mem, k'.cr3, data, headers)
    && ReadStack(k'.mem, k'.cr3, Current(k').stack) == Some(Arguments(|argv|, argv, envp))
    && forall va: nat :: 0x7fff_fffe_e000 <= va < 0x7fff_ffff_e000 ==> Usable(k'.mem, k'.cr3, va)
  }

  /** With frames enough, execve runs a program exactly when its file may be executed and its headers are sound;
      otherwise it fails with ENOEXEC and the process table is as it was. */
  lemma ExecveDecides(k: Kernel, g: Ledger, chain: seq<nat>, f: Frame, call: Invocation, e: Elf, headers: seq<ProgramHeader>)
    requires KernelOk(k, g, chain) && !k.halted && Copied31(call.argv) && Copied31(call.envp)
    requires FileAt(k.archive, call.path).Some? && Describes(FileAt(k.archive, call.path).value.data, e, headers)
    requires Unwrapped(|FileAt(k.archive, call.path).value.data|, headers)
    requires k.mem.count >= 65 + 4 * PagesWanted(headers)
    ensures var file := FileAt(k.archive, call.path).value;
            var (k', r) := Execve(k, f, Some(call));
            var runs := !file.directory && file.executable && Sound(|file.data|, headers);
            && r.rax == (if runs then 0 else WORD_LIMIT - 8)
            && (runs ==> RunsProgram(k, k', r, e, file.data, headers, call.argv, call.envp))
            && (!runs ==> r == f.(rax := WORD_LIMIT - 8) && k' == k.(mem := k'.mem))
  {
    hide SegmentAt, Field, UserLoad, Usable, LoadProgram, Describes, Shows, NoWrap, Sound, Inv, ShowsImage, Admission.Loadable,
      Admission.OffStack, DisjointFrom, FileAt, PidsOk, ChainOk, NoLoose, RootsOk, SafeArchive, ReadStack, DestroyUserSpace, PagesWanted, Unwrapped;
    var file := FileAt(k.archive, call.path).value;
    assert Inv(k.mem, g);
    Decides(k.mem, g, Resolve(k.archive, call), e, headers);
    if LoadProgram(k.mem, Resolve(k.archive, call)).1.Some? {
      WrittenIsRead(file, e, headers);
      UnwrappedIsNoWrap(file, headers);
      SystemCalls.ExecveLoads(k, g, chain, f, call);
      SoundIsLoadable(file, headers);
      ShownLoaded(Execve(k, f, Some(call)).0.mem, Execve(k, f, Some(call)).0.cr3, file, headers);
      assert e.entry % WORD_LIMIT == e.entry;
    }
  }

  lemma Decides(m: Mem, g: Ledger, req: Request, e: Elf, headers: seq<ProgramHeader>)
    requires Inv(m, g) && Copied31(req.argv) && Copied31(req.envp)
    requires req.file.Some? && Describes(req.file.value.data, e, headers) && Unwrapped(|req.file.value.data|, headers)
    requires m.count >= 65 + 4 * PagesWanted(headers)
    ensures LoadProgram(m, req).1.Some? <==>
            !req.file.value.directory && req.file.value.executable && Sound(|req.file.value.data|, headers)
  {
    hide SegmentAt, Field, LoadProgram, Describes, NoWrap, Sound, Inv, Admission.Loadable, Admission.OffStack, PagesWanted, Unwrapped,
      Admission.TotalPages;
    var file := req.file.value;
    if file.directory {
      NoDirectory(m, req);
    } else {
      WrittenIsRead(file, e, headers);
      UnwrappedIsNoWrap(file, headers);
      SoundIsLoadable(file, headers);
      WantedIsTotal(file, e, headers, 0);
      assert headers[0..] == headers;
      Admission.AdmitsExactly(m, g, req);
    }
  }

  lemma NoDirectory(m: Mem, req: Request)
    requires req.file.Some? && req.file.value.directory
    ensures LoadProgram(m, req).1.None?
  {
  }

  /** The path a member is called by. */
  function PathTo(m: U.Member): (p: CString)
    requires U.Writable(m)
  {
    U.PathProper(m);
    [R.SLASH] + U.PathOf(m)
  }

  ghost predicate Runnable(m: U.Member, headers: seq<ProgramHeader>) {
    && m.typeflag != '5' as int && (m.user.execute || m.group.execute || m.other.execute)
    && Sound(|m.data|, headers)
  }

  /** An archive member that holds a written program: execve of its path runs it exactly when it is a file that
      someone may execute and its headers are sound. */
  lemma MemberRuns(k: Kernel, g: Ledger, chain: seq<nat>, f: Frame, ms: seq<U.Member>, rest: seq<Byte>, i: nat,
                   e: Elf, headers: seq<ProgramHeader>, argv: seq<seq<Byte>>, envp: seq<seq<Byte>>)
    requires KernelOk(k, g, chain) && !k.halted && Copied31(argv) && Copied31(envp)
    requires U.AllWritable(ms) && U.Reachable(ms, i) && k.archive == U.Archive(ms, rest)
    requires Describes(ms[i].data, e, headers) && Unwrapped(|ms[i].data|, headers) && k.mem.count >= 65 + 4 * PagesWanted(headers)
    ensures var (k', r) := Execve(k, f, Some(Invocation(PathTo(ms[i]), argv, envp)));
            var runs := Runnable(ms[i], headers);
            && r.rax == (if runs then 0 else WORD_LIMIT - 8)
            && (runs ==> RunsProgram(k, k', r, e, ms[i].data, headers, argv, envp))
            && (!runs ==> r == f.(rax := WORD_LIMIT - 8) && k' == k.(mem := k'.mem))
  {
    hide Describes, Sound, RunsProgram, Execve, FileAt, U.PathOf, U.Archive, PagesWanted, Unwrapped, KernelOk;
    U.MemberFound(ms, rest, i);
    ExecveDecides(k, g, chain, f, Invocation(PathTo(ms[i]), argv, envp), e, headers);
  }

  // ----- init -----

  /** Booting from a written archive: init begins as process 1 at the entry of the member it was started from, with the
      image, the arguments and the break in place; the next pid is 2. */
  lemma InitRuns(m: Mem, ranges: seq<Boot.Range>, ms: seq<U.Member>, rest: seq<Byte>, i: nat,
                 e: Elf, headers: seq<ProgramHeader>, argv: seq<seq<Byte>>, envp: seq<seq<Byte>>)
    requires U.AllWritable(ms) && U.Reachable(ms, i) && Copied31(argv) && Copied31(envp)
    requires Boot.Boots(m, ranges, U.Archive(ms, rest), Invocation(PathTo(ms[i]), argv, envp))
    requires Describes(ms[i].data, e, headers) && Unwrapped(|ms[i].data|, headers)
    ensures Runnable(ms[i], headers)
    ensures var k := Boot.Started(m, ranges, U.Archive(ms, rest), Invocation(PathTo(ms[i]), argv, envp));
            && k.current == 0 && Current(k).pid == 1 && Current(k).status == Running && k.nextPid == 2 && k.cr3 == Current(k).cr3
            && Current(k).entry == e.entry && Current(k).brk == 0x80_0000
            && ShowsImage(k.mem, k.cr3, ms[i].data, headers)
            && ReadStack(k.mem, k.cr3, Current(k).stack) == Some(Arguments(|argv|, argv, envp))
            && forall va: nat :: 0x7fff_fffe_e000 <= va < 0x7fff_ffff_e000 ==> Usable(k.mem, k.cr3, va)
  {
    hide SegmentAt, Field, UserLoad, Usable, LoadProgram, Describes, Shows, NoWrap, Sound, Inv, ShowsImage, Admission.Loadable,
      Admission.OffStack, DisjointFrom, FileAt, SafeArchive, ReadStack, Unwrapped, Boot.AddRanges, Boot.BootMem, Boot.MapOk, U.Archive,
      U.PathOf, StandardFds, EmptyFds;
    var a, call := U.Archive(ms, rest), Invocation(PathTo(ms[i]), argv, envp);
    var m0 := Boot.AddRanges(m, ranges);
    var g0 := Boot.InitialFreeList(m, ranges);
    U.MemberFound(ms, rest, i);
    var req := Resolve(a, call);
    var file := req.file.value;
    NotADirectory(m0, req);
    WrittenIsRead(file, e, headers);
    UnwrappedIsNoWrap(file, headers);
    ProgramLoaded(m0, g0, req);
    SystemCalls.LoadedBreak(m0, req);
    Admission.LoadsOnly(m0, g0, req);
    SoundIsLoadable(file, headers);
    var (m1, l) := LoadProgram(m0, req);
    ShownLoaded(m1, l.value.cr3, file, headers);
  }

  lemma NotADirectory(m: Mem, req: Request)
    requires LoadProgram(m, req).1.Some?
    ensures req.file.Some? && !req.file.value.directory && req.file.value.executable
  {
  }
}
