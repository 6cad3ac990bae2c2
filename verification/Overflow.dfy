/**
 What the unchecked sums of the program loader let through (kernel/process.c:322-325): a header whose
 p_vaddr + p_memsz wraps around makes it copy file bytes over kernel memory.
 */
module Overflow {
  import opened Wrappers
  import opened Paging
  import opened Ownership
  import opened PageTables
  import opened AddressSpaces
  import opened VirtualMemory
  import opened Programs
  import opened Loading
  import opened Census

  /** A segment in the kernel's image whose end wraps around to 0. */
  const KERNEL_PAGE: nat := 0xf_ffff_fff8_0100
  const KERNEL_ADDRESS: Word := 0xffff_ffff_8010_0000

  function WrappingSegment(offset: Word): (s: Segment) {
    Segment(1, offset, KERNEL_ADDRESS, 16, 0x7ff0_0000)
  }

  lemma WrapsToZero(file: File, offset: Word)
    requires offset + 16 <= |file.data| && offset + 16 < WORD_LIMIT
    ensures Accepted(file, WrappingSegment(offset)) && !SegmentFits(file, WrappingSegment(offset))
    ensures EndPage(KERNEL_ADDRESS, WrappingSegment(offset).memsz) == 0
    ensures KERNEL_ADDRESS / 4096 == KERNEL_PAGE && KERNEL_ADDRESS % 4096 == 0 && Index(KERNEL_PAGE, 0) == 511
  {
  }

  /** The same for the file: this segment would be read from before the file's first byte. */
  lemma OffsetWraps(file: File, vaddr: Word)
    requires 16 <= |file.data| < WORD_LIMIT - 16 && USER_IMAGE_MIN <= vaddr && vaddr + 32 < USER_TOP
    ensures var s := Segment(1, WORD_LIMIT - 16, vaddr, 32, 32);
            Accepted(file, s) && !SegmentFits(file, s) && FileBytes(file, s.offset, 32)[16..] == file.data[..16]
  {
    var s := FileBytes(file, WORD_LIMIT - 16, 32);
    forall i | 16 <= i < 32 ensures s[i] == file.data[i - 16] {
      assert (WORD_LIMIT - 16 + i) % WORD_LIMIT == i - 16;
    }
  }

  /** The sum of the header check cannot wrap for a file that leaves 4 MB of the address space free, so both
      checks together mean that the program headers lie in the file. */
  lemma HeaderSumExact(file: File)
    requires 64 <= |file.data| <= WORD_LIMIT - 0x40_0000
    ensures PhOff(file) <= |file.data| && (PhOff(file) + 56 * PhNum(file)) % WORD_LIMIT <= |file.data|
       <==> PhOff(file) + 56 * PhNum(file) <= |file.data|
  {
    hide Field;
    FieldBound(file.data, 56, 2);
    assert Pow256(2) == 65536;
  }

  /** Two memories that differ in the contents of frame f only. */
  ghost predicate OnlyFrame(m: Mem, m': Mem, f: nat) {
    && m'.head == m.head && m'.count == m.count && m'.hhdm == m.hhdm && m'.kernel == m.kernel
    && forall x: nat {:trigger Get(m', x)} :: x != f ==> Get(m', x) == Get(m, x)
  }

  lemma {:induction false} PutBytesGives(m: Mem, pa: nat, bytes: seq<Byte>, i: nat)
    requires pa % 4096 + |bytes| <= 4096 && i < 4096
    ensures var m', o := PutBytes(m, pa, bytes), pa % 4096;
            && OnlyFrame(m, m', pa / 4096)
            && PageByte(Get(m', pa / 4096), i) == if o <= i < o + |bytes| then bytes[i - o] else PageByte(Get(m, pa / 4096), i)
    decreases |bytes|
  {
    hide PageByte, SetPageByte;
    if bytes != [] {
      var m1 := SetByteAt(m, pa, bytes[0]);
      if |bytes| > 1 {
        assert (pa + 1) / 4096 == pa / 4096 && (pa + 1) % 4096 == pa % 4096 + 1;
        PutBytesGives(m1, pa + 1, bytes[1..], i);
      }
    }
  }

  /** A write to memory that is neither the allocator's nor the boot PML4 breaks nothing the ledger knows. */
  lemma OutsideKeeps(m: Mem, g: Ledger, m': Mem, f: nat)
    requires Inv(m, g) && f !in g.owner && f != m.kernel && OnlyFrame(m, m', f)
    ensures Inv(m', g)
  {
    forall x | x in g.owner ensures Addressable(m.hhdm, x) && OwnsBack(g, x) {
      assert OwnsBack(g, x);
    }
    forall i | 0 <= i < |g.stack| ensures FreeAt(m', g, i) {
      assert FreeAt(m, g, i);
    }
    forall n | n in g.at ensures g.at[n] in g.owner && g.owner[g.at[n]] == Tree(n) {
      assert NodeOk(m, g, n);
    }
    TreeFrame(m, g, m', g);
  }

  /** The loader maps nothing for this segment and copies its 16 bytes to wherever the kernel's half of the
      space leads. */
  lemma WrappingSegmentWrites(m: Mem, root: nat, file: File, offset: Word, f: nat)
    requires offset + 16 <= |file.data| < WORD_LIMIT
    requires Lookup(m, root, KERNEL_PAGE).Some? && FrameOf(Lookup(m, root, KERNEL_PAGE).value) == f
    ensures var (m', ok) := LoadSegment(m, root, file, WrappingSegment(offset));
            && ok && OnlyFrame(m, m', f)
            && forall i :: 0 <= i < 16 ==> PageByte(Get(m', f), i) == file.data[offset + i]
  {
    hide Lookup, Index, PageByte, FileBytes, OnlyFrame, PutBytes;
    var s := WrappingSegment(offset);
    WrapsToZero(file, offset);
    assert MapRange(m, root, s.vaddr, s.memsz, 2) == (m, true);
    var bytes := FileBytes(file, offset, 16);
    assert bytes == file.data[offset..offset + 16];
    assert Translate(m, root, KERNEL_ADDRESS) == Some(4096 * f);
    OneChunk(m, root, KERNEL_ADDRESS, bytes, 4096 * f);
    var m' := LoadSegment(m, root, file, s).0;
    PutBytesGives(m, 4096 * f, bytes, 0);
    forall i | 0 <= i < 16 ensures PageByte(Get(m', f), i) == file.data[offset + i] {
      PutBytesGives(m, 4096 * f, bytes, i);
    }
  }

  lemma OneChunk(m: Mem, root: nat, va: nat, bytes: seq<Byte>, pa: nat)
    requires bytes != [] && va % 4096 + |bytes| <= 4096 && Translate(m, root, va) == Some(pa)
    ensures WriteProcess(m, root, va, bytes) == (PutBytes(m, pa, bytes), true)
  {
    hide Translate, PutBytes;
    assert bytes[..|bytes|] == bytes && bytes[|bytes|..] == [];
  }

  /** A program with this one segment, 16 bytes of which differ from what the kernel has there. */
  ghost predicate Misplaced(m: Mem, file: File, offset: Word, f: nat) {
    && ValidElf(file) && file.executable && |file.data| < WORD_LIMIT
    && PhNum(file) == 1 && SegmentAt(file, 0) == WrappingSegment(offset) && offset + 16 <= |file.data|
    && exists i :: 0 <= i < 16 && file.data[offset + i] != PageByte(Get(m, f), i)
  }

  /** Loading it changes memory outside the usable frames: a page of the kernel.  So what Runs proves of all
      runs needs its hypothesis on the archive. */
  lemma LoadOverwritesKernel(m: Mem, g: Ledger, req: Request, offset: Word, f: nat)
    requires Inv(m, g) && g.stack != [] && f !in g.owner && f != m.kernel
    requires WalkReserved(m, KERNEL_PAGE, g.owner.Keys)
    requires Lookup(m, m.kernel, KERNEL_PAGE).Some? && FrameOf(Lookup(m, m.kernel, KERNEL_PAGE).value) == f
    requires req.file.Some? && Misplaced(m, req.file.value, offset, f)
    ensures Get(LoadProgram(m, req).0, f) != Get(m, f)
    ensures !UserOnly(req.file.value) && !NoWrap(req.file.value)
  {
    hide Lookup, Index, PageByte, FrameOf, View, CreateRoot, LoadSegment, BuildStack, DestroyUserSpace, SegmentAt, Field, Inv, WalkReserved, Accepted;
    var file := req.file.value;
    WrapsToZero(file, offset);
    var (m1, root) := CreateRoot(m);
    var g1 := CreateKeeps(m, g);
    KernelWalkKept(m, m1, g1, root, KERNEL_PAGE);
    WrappingSegmentWrites(m1, root, file, offset, f);
    var m2 := LoadSegment(m1, root, file, WrappingSegment(offset)).0;
    OnlySegment(m1, root, file, offset);
    OutsideKeeps(m1, g1, m2, f);
    var g2 := BuildStackKeeps(m2, g1, root, req.argv, req.envp);
    var (m3, sp) := BuildStack(m2, root, req.argv, req.envp);
    var g3 := DestroyKeeps(m3, g2, root);
    assert Get(m3, f) == Get(m2, f) && Get(DestroyUserSpace(m3, root), f) == Get(m2, f);
  }

  lemma OnlySegment(m: Mem, root: nat, file: File, offset: Word)
    requires ValidElf(file) && PhNum(file) == 1 && SegmentAt(file, 0) == WrappingSegment(offset)
    requires LoadSegment(m, root, file, WrappingSegment(offset)).1
    ensures LoadElf(m, root, file) == (LoadSegment(m, root, file, WrappingSegment(offset)).0, true)
  {
    hide LoadSegment, SegmentAt;
    var m1 := LoadSegment(m, root, file, WrappingSegment(offset)).0;
    assert LoadSegments(m1, root, file, 1) == (m1, true);
  }
}
