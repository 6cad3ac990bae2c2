/**
 Loading a program into a fresh address space: user mappings, ELF segments and the
 initial stack of kernel/process.c.
 */
module Programs {
  import opened Wrappers
  import opened Paging
  import opened VirtualMemory

  const USER_IMAGE_MIN: nat := 0x10000
  const STACK_TOP: nat := 0x7fff_ffff_e000
  const STACK_PAGES: nat := 16
  const STACK_BASE: nat := 0x7fff_fffe_e000   // STACK_TOP - 16 pages

  // ----- user mappings -----

  /** flags | USER. */
  function UserFlags(flags: nat): (r: nat) { flags / 8 * 8 + 4 + flags % 4 }

  function MapUserPage(m: Mem, root: nat, page: nat, flags: nat): (r: (Mem, bool)) {
    MapFresh(m, root, page, ZeroPage(), UserFlags(flags))
  }

  /** The pages from `page` up to `end`, stopping at the first failure. */
  function MapPages(m: Mem, root: nat, page: nat, end: nat, flags: nat): (r: (Mem, bool))
    decreases end - page
  {
    if page >= end then (m, true)
    else
      var (m1, ok) := MapUserPage(m, root, page, flags);
      if ok then MapPages(m1, root, page + 1, end, flags) else (m1, false)
  }

  /** align_up(base + size), as a page number; both additions wrap around at 2^64. */
  function EndPage(base: nat, size: nat): (p: nat) {
    ((base + size) % WORD_LIMIT + 4095) % WORD_LIMIT / 4096
  }

  function MapRange(m: Mem, root: nat, base: nat, size: nat, flags: nat): (r: (Mem, bool)) {
    MapPages(m, root, base / 4096, EndPage(base, size), flags)
  }

  // ----- ELF images -----

  datatype File = File(path: seq<Byte>, data: seq<Byte>, directory: bool, executable: bool)

  /** An n-byte little-endian field. */
  function Field(data: seq<Byte>, offset: nat, n: nat): (v: nat)
    requires offset + n <= |data|
    decreases n
  {
    if n == 0 then 0 else data[offset] + 256 * Field(data, offset + 1, n - 1)
  }

  predicate ValidElf(file: File) {
    && !file.directory && |file.data| >= 64
    && file.data[0] == 0x7f && file.data[1] == 0x45 && file.data[2] == 0x4c && file.data[3] == 0x46
    && file.data[4] == 2 && file.data[5] == 1
    && Field(file.data, 18, 2) == 62
    && Field(file.data, 54, 2) == 56
    && PhNum(file) != 0
    && PhOff(file) + 56 * PhNum(file) <= |file.data|
  }

  function PhOff(file: File): nat requires |file.data| >= 64 { Field(file.data, 32, 8) }
  function PhNum(file: File): nat requires |file.data| >= 64 { Field(file.data, 56, 2) }

  datatype Segment = Segment(kind: nat, offset: Word, vaddr: Word, filesz: Word, memsz: Word)

  lemma {:induction false} FieldBound(data: seq<Byte>, offset: nat, n: nat)
    requires offset + n <= |data|
    ensures Field(data, offset, n) < Pow256(n)
    decreases n
  {
    if n > 0 {
      FieldBound(data, offset + 1, n - 1);
    }
  }

  function U64(data: seq<Byte>, offset: nat): (v: Word)
    requires offset + 8 <= |data|
    ensures v == Field(data, offset, 8)
  {
    FieldBound(data, offset, 8);
    WordBytes();
    Field(data, offset, 8)
  }

  function SegmentAt(file: File, i: nat): (s: Segment)
    requires ValidElf(file) && i < PhNum(file)
  {
    var p := PhOff(file) + 56 * i;
    Segment(Field(file.data, p, 4), U64(file.data, p + 8), U64(file.data, p + 16), U64(file.data, p + 32), U64(file.data, p + 40))
  }

  /** The checks of the loader, whose sums wrap around at 2^64. */
  predicate Accepted(file: File, s: Segment) {
    && s.filesz <= s.memsz && (s.offset + s.filesz) % WORD_LIMIT <= |file.data|
    && USER_IMAGE_MIN <= s.vaddr && (s.vaddr + s.memsz) % WORD_LIMIT < USER_TOP
  }

  /** What the checks are for: the segment lies in the file and in the user half. */
  predicate SegmentFits(file: File, s: Segment) {
    && s.filesz <= s.memsz && s.offset + s.filesz <= |file.data|
    && USER_IMAGE_MIN <= s.vaddr && s.vaddr + s.memsz < USER_TOP
  }

  /** The n bytes from file->data + offset on.  A wrapped offset points in front of the file, at memory this
      model does not know, which reads as zero here. */
  function FileBytes(file: File, offset: Word, n: nat): (s: seq<Byte>)
    ensures |s| == n
    ensures offset + n <= |file.data| && |file.data| < WORD_LIMIT ==> s == file.data[offset..offset + n]
  {
    seq(n, i requires 0 <= i < n =>
      if (offset + i) % WORD_LIMIT < |file.data| then file.data[(offset + i) % WORD_LIMIT] else 0)
  }

  function LoadSegment(m: Mem, root: nat, file: File, s: Segment): (r: (Mem, bool)) {
    if s.kind != 1 then (m, true)
    else if !Accepted(file, s) then (m, false)
    else
      var (m1, ok) := MapRange(m, root, s.vaddr, s.memsz, 2);
      if ok then WriteProcess(m1, root, s.vaddr, FileBytes(file, s.offset, s.filesz)) else (m1, false)
  }

  /** No PT_LOAD sum reaches 2^64; files are shorter than that. */
  predicate NoWrap(file: File) {
    |file.data| < WORD_LIMIT && (ValidElf(file) ==>
      forall i :: 0 <= i < PhNum(file) && SegmentAt(file, i).kind == 1 ==>
        SegmentAt(file, i).offset + SegmentAt(file, i).filesz < WORD_LIMIT && SegmentAt(file, i).vaddr + SegmentAt(file, i).memsz < WORD_LIMIT)
  }

  /** What is copied for a segment stays in the user half. */
  predicate Contained(file: File, s: Segment) {
    s.kind == 1 && Accepted(file, s) ==> s.vaddr + s.filesz <= USER_TOP
  }

  /** What is copied for any segment stays in the user half. */
  predicate UserOnly(file: File) {
    ValidElf(file) ==> forall i :: 0 <= i < PhNum(file) ==> Contained(file, SegmentAt(file, i))
  }

  /** Program headers i and up. */
  function LoadSegments(m: Mem, root: nat, file: File, i: nat): (r: (Mem, bool))
    requires ValidElf(file) && i <= PhNum(file)
    decreases PhNum(file) - i
  {
    if i == PhNum(file) then (m, true)
    else
      var (m1, ok) := LoadSegment(m, root, file, SegmentAt(file, i));
      if ok then LoadSegments(m1, root, file, i + 1) else (m1, false)
  }

  function LoadElf(m: Mem, root: nat, file: File): (r: (Mem, bool)) {
    if ValidElf(file) then LoadSegments(m, root, file, 0) else (m, false)
  }

  // ----- the initial stack -----

  predicate UserRange(address: nat, length: nat) {
    length == 0 || (USER_IMAGE_MIN <= address < USER_TOP && length - 1 < USER_TOP - address)
  }

  /** The new stack pointer, or None. */
  function PushBytes(m: Mem, root: nat, sp: nat, bytes: seq<Byte>): (r: (Mem, Option<nat>)) {
    if |bytes| > sp || !UserRange(sp - |bytes|, |bytes|) then (m, None)
    else
      var (m1, ok) := WriteProcess(m, root, sp - |bytes|, bytes);
      (m1, if ok then Some(sp - |bytes|) else None)
  }

  /** The eight bytes of a word, least significant first. */
  function WordBytesOf(w: Word): (s: seq<Byte>)
    ensures |s| == 8 && forall i :: 0 <= i < 8 ==> s[i] == Digit(w, i)
  {
    [Digit(w, 0), Digit(w, 1), Digit(w, 2), Digit(w, 3), Digit(w, 4), Digit(w, 5), Digit(w, 6), Digit(w, 7)]
  }

  /** Pushes the words last to first, so that they end up in order at the new pointer. */
  function PushWords(m: Mem, root: nat, sp: nat, words: seq<Word>): (r: (Mem, Option<nat>))
    decreases |words|
  {
    if words == [] then (m, Some(sp))
    else
      var n := |words| - 1;
      var (m1, sp1) := PushBytes(m, root, sp, WordBytesOf(words[n]));
      if sp1.None? then (m1, None) else PushWords(m1, root, sp1.value, words[..n])
  }

  datatype Pushed = Pushed(mem: Mem, sp: Option<nat>, addresses: seq<Word>)

  /** Pushes the strings last to first, each with its terminator, and collects their addresses. */
  function PushStrings(m: Mem, root: nat, sp: nat, strings: seq<seq<Byte>>): (r: Pushed)
    ensures r.sp.Some? ==> |r.addresses| == |strings|
    decreases |strings|
  {
    if strings == [] then Pushed(m, Some(sp), [])
    else
      var n := |strings| - 1;
      var (m1, sp1) := PushBytes(m, root, sp, strings[n] + [0]);
      if sp1.None? then Pushed(m1, None, [])
      else
        var rest := PushStrings(m1, root, sp1.value, strings[..n]);
        Pushed(rest.mem, rest.sp, rest.addresses + [sp1.value % WORD_LIMIT])
  }

  /** argc, the argument pointers, NULL, the environment pointers, NULL. */
  function StackVector(argc: nat, args: seq<Word>, envs: seq<Word>): (v: seq<Word>) {
    [argc % WORD_LIMIT] + args + [0] + envs + [0]
  }

  /** stack & ~0xf. */
  function AlignStack(sp: nat): (r: nat) { sp / 16 * 16 }

  function FillStack(m: Mem, root: nat, argv: seq<seq<Byte>>, envp: seq<seq<Byte>>): (r: (Mem, Option<nat>)) {
    var env := PushStrings(m, root, STACK_TOP, envp);
    if env.sp.None? then (env.mem, None) else
    var arg := PushStrings(env.mem, root, env.sp.value, argv);
    if arg.sp.None? then (arg.mem, None)
    else PushWords(arg.mem, root, AlignStack(arg.sp.value), StackVector(|argv|, arg.addresses, env.addresses))
  }

  function BuildStack(m: Mem, root: nat, argv: seq<seq<Byte>>, envp: seq<seq<Byte>>): (r: (Mem, Option<nat>)) {
    var (m1, ok) := MapRange(m, root, STACK_BASE, STACK_PAGES * 4096, 2);
    if ok then FillStack(m1, root, argv, envp) else (m1, None)
  }

  // ----- load_program -----

  datatype Loaded = Loaded(cr3: nat, entry: nat, stack: nat, brk: nat)

  datatype Request = Request(file: Option<File>, argv: seq<seq<Byte>>, envp: seq<seq<Byte>>)

  const INITIAL_BRK: nat := 0x80_0000

  /** Loading this program writes to the user half only. */
  predicate Harmless(req: Request) { req.file.Some? ==> UserOnly(req.file.value) }

  function LoadProgram(m: Mem, req: Request): (r: (Mem, Option<Loaded>)) {
    if req.file.None? || !req.file.value.executable || req.file.value.directory then (m, None) else
    var (m1, root) := CreateRoot(m);
    if root == 0 then (m1, None) else
    var (m2, ok) := LoadElf(m1, root, req.file.value);
    if !ok then (DestroyUserSpace(m2, root), None) else
    var (m3, sp) := BuildStack(m2, root, req.argv, req.envp);
    if sp.None? then (DestroyUserSpace(m3, root), None)
    else (m3, Some(Loaded(root, Field(req.file.value.data, 24, 8), sp.value, INITIAL_BRK)))
  }
}
