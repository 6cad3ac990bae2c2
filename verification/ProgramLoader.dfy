/**
 The loader of kernel/process.c as it is written, over a memory manager updated in place.
 */
module ProgramLoader {
  import opened Wrappers
  import opened Paging
  import opened Ownership
  import opened AddressSpaces
  import opened VirtualMemory
  import P = Programs
  import opened Loading
  import opened MemoryManager

  method MapUserPage(mm: Manager, root: nat, page: nat, flags: nat) returns (ok: bool)
    modifies mm
    ensures (mm.State(), ok) == P.MapUserPage(old(mm.State()), root, page, flags)
  {
    hide MapPage;
    var f := mm.AllocFrame();
    if f == 0 {
      return false;
    }
    assert mm.ram[f := ZeroPage()] == mm.ram;
    ok := mm.MapPage(root, 4096 * page, 4096 * f, P.UserFlags(flags));
    if !ok {
      mm.FreeFrame(f);
    }
  }

  method MapPages(mm: Manager, root: nat, first: nat, end: nat, flags: nat) returns (ok: bool)
    modifies mm
    ensures (mm.State(), ok) == P.MapPages(old(mm.State()), root, first, end, flags)
  {
    hide P.MapUserPage;
    var page := first;
    while page < end
      invariant P.MapPages(mm.State(), root, page, end, flags) == P.MapPages(old(mm.State()), root, first, end, flags)
    {
      ok := MapUserPage(mm, root, page, flags);
      if !ok {
        return;
      }
      page := page + 1;
    }
    ok := true;
  }

  method MapUserRange(mm: Manager, root: nat, base: nat, size: nat, flags: nat) returns (ok: bool)
    modifies mm
    ensures (mm.State(), ok) == P.MapRange(old(mm.State()), root, base, size, flags)
  {
    var end := (base + size) % WORD_LIMIT;
    ok := MapPages(mm, root, base / 4096, (end + 4095) % WORD_LIMIT / 4096, flags);
  }

  method WriteProcessMemory(mm: Manager, root: nat, va: nat, bytes: seq<Byte>) returns (ok: bool)
    modifies mm
    ensures (mm.State(), ok) == WriteProcess(old(mm.State()), root, va, bytes)
  {
    hide Translate, PutBytes, Min;
    var written := 0;
    while written < |bytes|
      invariant written <= |bytes|
      invariant WriteProcess(mm.State(), root, va + written, bytes[written..]) == WriteProcess(old(mm.State()), root, va, bytes)
    {
      var at := va + written;
      ChunkFits(at, |bytes| - written);
      var chunk := Min(4096 - at % 4096, |bytes| - written);
      var pa := mm.Translate(root, at);
      if pa.None? {
        return false;
      }
      assert bytes[written..][..chunk] == bytes[written..written + chunk];
      assert bytes[written..][chunk..] == bytes[written + chunk..];
      mm.CopyBytes(pa.value, bytes[written..written + chunk]);
      written := written + chunk;
    }
    ok := true;
  }

  method LoadElf(mm: Manager, root: nat, file: P.File) returns (ok: bool)
    modifies mm
    ensures (mm.State(), ok) == P.LoadElf(old(mm.State()), root, file)
  {
    hide P.SegmentAt, P.MapRange, WriteProcess, P.Field, P.FileBytes;
    if !P.ValidElf(file) {
      return false;
    }
    var i := 0;
    while i < P.PhNum(file)
      invariant i <= P.PhNum(file)
      invariant P.LoadSegments(mm.State(), root, file, i) == P.LoadSegments(old(mm.State()), root, file, 0)
    {
      var s := P.SegmentAt(file, i);
      if s.kind == 1 {
        if !P.Accepted(file, s) {
          return false;
        }
        ok := MapUserRange(mm, root, s.vaddr, s.memsz, 2);
        if !ok {
          return;
        }
        ok := WriteProcessMemory(mm, root, s.vaddr, P.FileBytes(file, s.offset, s.filesz));
        if !ok {
          return;
        }
      }
      i := i + 1;
    }
    ok := true;
  }

  method PushBytes(mm: Manager, root: nat, sp: nat, bytes: seq<Byte>) returns (sp': Option<nat>)
    modifies mm
    ensures (mm.State(), sp') == P.PushBytes(old(mm.State()), root, sp, bytes)
  {
    hide WriteProcess;
    if |bytes| > sp || !P.UserRange(sp - |bytes|, |bytes|) {
      return None;
    }
    var ok := WriteProcessMemory(mm, root, sp - |bytes|, bytes);
    sp' := if ok then Some(sp - |bytes|) else None;
  }

  method PushStrings(mm: Manager, root: nat, top: nat, strings: seq<seq<Byte>>)
    returns (sp: Option<nat>, addresses: seq<Word>)
    modifies mm
    ensures var r := P.PushStrings(old(mm.State()), root, top, strings);
            mm.State() == r.mem && sp == r.sp && (sp.Some? ==> addresses == r.addresses)
  {
    hide P.PushBytes;
    var i, at: nat := |strings|, top;
    addresses := [];
    assert strings[..i] == strings;
    while i > 0
      invariant i <= |strings|
      invariant var r, rest := P.PushStrings(old(mm.State()), root, top, strings), P.PushStrings(mm.State(), root, at, strings[..i]);
                r.mem == rest.mem && r.sp == rest.sp && (r.sp.Some? ==> r.addresses == rest.addresses + addresses)
    {
      i := i - 1;
      assert strings[..i + 1][..i] == strings[..i] && strings[..i + 1][i] == strings[i];
      sp := PushBytes(mm, root, at, strings[i] + [0]);
      if sp.None? {
        return;
      }
      at := sp.value;
      addresses := [at % WORD_LIMIT] + addresses;
    }
    sp := Some(at);
  }

  method PushWords(mm: Manager, root: nat, top: nat, words: seq<Word>) returns (sp: Option<nat>)
    modifies mm
    ensures (mm.State(), sp) == P.PushWords(old(mm.State()), root, top, words)
  {
    hide P.PushBytes, P.WordBytesOf;
    var i, at: nat := |words|, top;
    assert words[..i] == words;
    while i > 0
      invariant i <= |words|
      invariant P.PushWords(old(mm.State()), root, top, words) == P.PushWords(mm.State(), root, at, words[..i])
    {
      i := i - 1;
      assert words[..i + 1][..i] == words[..i] && words[..i + 1][i] == words[i];
      sp := PushBytes(mm, root, at, P.WordBytesOf(words[i]));
      if sp.None? {
        return;
      }
      at := sp.value;
    }
    sp := Some(at);
  }

  method BuildUserStack(mm: Manager, root: nat, argv: seq<seq<Byte>>, envp: seq<seq<Byte>>) returns (sp: Option<nat>)
    modifies mm
    ensures (mm.State(), sp) == P.BuildStack(old(mm.State()), root, argv, envp)
  {
    hide P.MapRange, P.PushStrings, P.PushWords;
    var ok := MapUserRange(mm, root, P.STACK_BASE, P.STACK_PAGES * 4096, 2);
    if !ok {
      return None;
    }
    var envAt, envAddresses := PushStrings(mm, root, P.STACK_TOP, envp);
    if envAt.None? {
      return None;
    }
    var argAt, argAddresses := PushStrings(mm, root, envAt.value, argv);
    if argAt.None? {
      return None;
    }
    sp := PushWords(mm, root, P.AlignStack(argAt.value), P.StackVector(|argv|, argAddresses, envAddresses));
  }

  lemma LoadedIsElf(m: Mem, root: nat, file: P.File)
    ensures P.LoadElf(m, root, file).1 ==> |file.data| >= 64
  {
  }

  /** The ledger proves that a failed load tears down a well-formed space. */
  method LoadProgram(mm: Manager, req: P.Request, ghost g: Ledger) returns (l: Option<P.Loaded>)
    requires Inv(mm.State(), g) && P.Harmless(req)
    modifies mm
    ensures (mm.State(), l) == P.LoadProgram(old(mm.State()), req)
  {
    hide CreateRoot, P.LoadElf, P.BuildStack, P.Field, DestroyUserSpace, Inv, P.UserOnly;
    if req.file.None? || !req.file.value.executable || req.file.value.directory {
      return None;
    }
    ghost var g1 := CreateKeeps(mm.State(), g);
    var root := mm.CreateKernelMappedPml4();
    if root == 0 {
      return None;
    }
    ghost var g2 := LoadElfKeeps(mm.State(), g1, root, req.file.value);
    LoadedIsElf(mm.State(), root, req.file.value);
    var ok := LoadElf(mm, root, req.file.value);
    if !ok {
      ghost var _ := mm.DestroyUserSpace(root, g2);
      return None;
    }
    ghost var g3 := BuildStackKeeps(mm.State(), g2, root, req.argv, req.envp);
    var sp := BuildUserStack(mm, root, req.argv, req.envp);
    if sp.None? {
      ghost var _ := mm.DestroyUserSpace(root, g3);
      return None;
    }
    l := Some(P.Loaded(root, P.Field(req.file.value.data, 24, 8), sp.value, P.INITIAL_BRK));
  }
}
