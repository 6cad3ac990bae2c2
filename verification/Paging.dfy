/**
 Physical memory, the intrusive free list and the four-level page tables of mm/mm.c,
 as functions from one memory to the next.

 One memory holds everything: the links of the free list live in word 0 of each free
 frame, page tables are frames of 512 words, and user data are frames too.  Nothing in
 these functions knows which frame plays which part; that knowledge is the ledger of
 module Ownership.
 */
module Paging {
  import opened Wrappers

  const WORD_LIMIT: nat := 0x1_0000_0000_0000_0000   // 2^64
  const FRAME_LIMIT: nat := 0x100_0000_0000          // 2^40 frames, addresses below 2^52
  const USER_PAGES: nat := 0x8_0000_0000             // 2^35 pages, addresses below 2^47

  type Word = w: nat | w < 0x1_0000_0000_0000_0000
  type Page = p: seq<Word> | |p| == 512 witness seq(512, _ => 0)

  function ZeroPage(): (p: Page)
    ensures forall i :: 0 <= i < 512 ==> p[i] == 0
  {
    seq(512, _ => 0)
  }

  /** `ram` is indexed by frame number, so frame f is the physical address range
      [4096*f, 4096*f + 4096).  `head` is the free_frames pointer, a virtual address
      in the direct map at `hhdm`; `kernel` is the frame of the boot PML4. */
  datatype Mem = Mem(ram: map<nat, Page>, head: Word, count: int, hhdm: Word, kernel: nat)

  function Get(m: Mem, f: nat): (p: Page) {
    if f in m.ram then m.ram[f] else ZeroPage()
  }

  function Put(m: Mem, f: nat, p: Page): (m': Mem)
    ensures forall x: nat :: Get(m', x) == if x == f then p else Get(m, x)
  {
    Mem(m.ram[f := p], m.head, m.count, m.hhdm, m.kernel)
  }

  function PutWord(m: Mem, f: nat, i: nat, w: Word): (m': Mem)
    requires i < 512
  {
    Put(m, f, Get(m, f)[i := w])
  }

  // ----- direct map -----

  function PhysToVirt(hhdm: Word, f: nat): (w: Word) {
    (4096 * f + hhdm) % WORD_LIMIT
  }

  function VirtToPhys(hhdm: Word, w: Word): (f: nat) {
    (w + WORD_LIMIT - hhdm) % WORD_LIMIT / 4096
  }

  // ----- frame allocator -----

  /** Frame 0 is the failure result. */
  function AllocFrame(m: Mem): (r: (Mem, nat)) {
    if m.head == 0 then (m, 0)
    else
      var f := VirtToPhys(m.hhdm, m.head);
      (Mem(m.ram[f := ZeroPage()], Get(m, f)[0], m.count - 1, m.hhdm, m.kernel), f)
  }

  function FreeFrame(m: Mem, f: nat): (m': Mem) {
    if f == 0 then m
    else Mem(m.ram[f := Get(m, f)[0 := m.head]], PhysToVirt(m.hhdm, f), m.count + 1, m.hhdm, m.kernel)
  }

  /** add_usable_range between two frame numbers. */
  function AddFrames(m: Mem, first: nat, end: nat): (m': Mem)
    decreases end - first
  {
    if first >= end then m else AddFrames(FreeFrame(m, first), first + 1, end)
  }

  // ----- table entries -----

  predicate Present(entry: Word) { entry % 2 == 1 }

  function FrameOf(entry: Word): (f: nat) { entry / 4096 % FRAME_LIMIT }

  function FlagsOf(entry: Word): (f: nat) { entry % 4096 }

  /** address | flags, for a page-aligned address. */
  function Entry(f: nat, flags: nat): (e: Word) { (4096 * f + flags) % WORD_LIMIT }

  /** flags | PRESENT | WRITABLE | USER: bits 0 to 2. */
  function TableFlags(flags: nat): (r: nat) { flags / 8 * 8 + 7 }

  /** flags | PRESENT. */
  function LeafFlags(flags: nat): (r: nat) { flags / 2 * 2 + 1 }

  // ----- four-level walk -----

  /** (virtual_address >> 39, 30, 21, 12) & 0x1ff for the page of that address. */
  function Index(page: nat, level: nat): (i: nat)
    requires level < 4
    ensures i < 512
  {
    match level
    case 0 => page / 0x800_0000 % 512
    case 1 => page / 0x4_0000 % 512
    case 2 => page / 512 % 512
    case 3 => page % 512
  }

  /** The leaf entry that the hardware walk finds for a page. */
  function Lookup(m: Mem, root: nat, page: nat): (r: Option<Word>) {
    var e0 := Get(m, root)[Index(page, 0)];
    if !Present(e0) then None else
    var e1 := Get(m, FrameOf(e0))[Index(page, 1)];
    if !Present(e1) then None else
    var e2 := Get(m, FrameOf(e1))[Index(page, 2)];
    if !Present(e2) then None else
    var e3 := Get(m, FrameOf(e2))[Index(page, 3)];
    if !Present(e3) then None else Some(e3)
  }

  /** The physical byte address of a virtual address. */
  function Translate(m: Mem, root: nat, va: nat): (r: Option<nat>) {
    match Lookup(m, root, va / 4096)
    case None => None
    case Some(e) => Some(4096 * FrameOf(e) + va % 4096)
  }

  // ----- building tables -----

  function CreateRoot(m: Mem): (r: (Mem, nat)) {
    var (m1, f) := AllocFrame(m);
    if f == 0 then (m1, 0)
    else (Put(m1, f, Get(m1, f)[..256] + Get(m1, m1.kernel)[256..]), f)
  }

  /** The next table, or None when its frame cannot be allocated. */
  function EnsureNext(m: Mem, table: nat, i: nat, flags: nat): (r: (Mem, Option<nat>))
    requires i < 512
  {
    if Present(Get(m, table)[i]) then (m, Some(FrameOf(Get(m, table)[i])))
    else
      var (m1, f) := AllocFrame(m);
      if f == 0 then (m1, None)
      else
        var m2 := PutWord(m1, table, i, Entry(f, TableFlags(flags)));
        (m2, Some(FrameOf(Get(m2, table)[i])))
  }

  /** The table at `level` on the walk for `page`, with missing tables created on the way:
      ensure_next_table for each level in turn, stopping at the first failure. */
  function Descend(m: Mem, root: nat, page: nat, level: nat, flags: nat): (r: (Mem, Option<nat>))
    requires level < 4
  {
    if level == 0 then (m, Some(root))
    else
      var (m1, t) := Descend(m, root, page, level - 1, flags);
      if t.None? then (m1, None) else EnsureNext(m1, t.value, Index(page, level - 1), flags)
  }

  function MapPage(m: Mem, root: nat, va: nat, pa: nat, flags: nat): (r: (Mem, bool)) {
    if va % 4096 != 0 || pa % 4096 != 0 then (m, false) else
    var page := va / 4096;
    var (m3, t) := Descend(m, root, page, 3, flags);
    if t.None? || Present(Get(m3, t.value)[Index(page, 3)]) then (m3, false)
    else (PutWord(m3, t.value, Index(page, 3), Entry(pa / 4096, LeafFlags(flags))), true)
  }

  /** Slots of a table that belong to user space: the lower half of a PML4. */
  function Fanout(level: nat): (n: nat)
    ensures n <= 512
  {
    if level == 0 then 256 else 512
  }

  /** The clone loop at one level from slot i on; level 0 is the PML4, level 3 a page
      table, and `base` the page number of the table's first page divided by 512^(4-level). */
  function CloneFrom(m: Mem, level: nat, table: nat, base: nat, i: nat, dest: nat): (r: (Mem, bool))
    requires level < 4 && i <= Fanout(level)
    decreases 4 - level, Fanout(level) - i
  {
    if i == Fanout(level) then (m, true)
    else if !Present(Get(m, table)[i]) then CloneFrom(m, level, table, base, i + 1, dest)
    else
      var (m1, ok) := if level == 3 then ClonePage(m, Get(m, table)[i], base * 512 + i, dest)
                      else CloneFrom(m, level + 1, FrameOf(Get(m, table)[i]), base * 512 + i, 0, dest);
      if ok then CloneFrom(m1, level, table, base, i + 1, dest) else (m1, false)
  }

  function ClonePage(m: Mem, entry: Word, page: nat, dest: nat): (r: (Mem, bool)) {
    MapFresh(m, dest, page, Get(AllocFrame(m).0, FrameOf(entry)), FlagsOf(entry))
  }

  /** Allocate a frame, give it these contents, and map it or hand it back. */
  function MapFresh(m: Mem, root: nat, page: nat, bytes: Page, flags: nat): (r: (Mem, bool)) {
    var (m1, f) := AllocFrame(m);
    if f == 0 then (m1, false)
    else
      var (m3, ok) := MapPage(Put(m1, f, bytes), root, 4096 * page, 4096 * f, flags);
      if ok then (m3, true) else (FreeFrame(m3, f), false)
  }

  function CloneUserSpace(m: Mem, source: nat, dest: nat): (r: (Mem, bool)) {
    CloneFrom(m, 0, source, 0, 0, dest)
  }

  /** The destroy loop at one level from slot i on. */
  function DestroyFrom(m: Mem, level: nat, table: nat, i: nat): (m': Mem)
    requires level < 4 && i <= Fanout(level)
    decreases 4 - level, Fanout(level) - i
  {
    if i == Fanout(level) then m
    else if !Present(Get(m, table)[i]) then DestroyFrom(m, level, table, i + 1)
    else
      var m1 := if level == 3 then m else DestroyFrom(m, level + 1, FrameOf(Get(m, table)[i]), 0);
      var m2 := FreeFrame(m1, FrameOf(Get(m1, table)[i]));
      DestroyFrom(PutWord(m2, table, i, 0), level, table, i + 1)
  }

  function DestroyUserSpace(m: Mem, root: nat): (m': Mem) {
    if root == 0 then m else FreeFrame(DestroyFrom(m, 0, root, 0), root)
  }
}
