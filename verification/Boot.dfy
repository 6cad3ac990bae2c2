/**
 From the boot memory map to init: the free list is built from the usable ranges, and the
 process machine starts in its invariant.
 */
module Boot {
  import opened Paging
  import opened Ownership
  import opened PageTables
  import opened Programs
  import opened Loading
  import opened VirtualMemory
  import opened Files
  import opened Kernel
  import opened Processes
  import opened Census

  /** An entry of the memory map; base and length are in bytes. */
  datatype Range = Range(base: nat, length: nat, usable: bool)

  function FirstFrame(r: Range): (f: nat) { (r.base + 4095) / 4096 }
  function EndFrame(r: Range): (f: nat) { (r.base + r.length) / 4096 }

  /** The frames that lie wholly inside a usable range; frame 0 is never handed out. */
  ghost predicate Whole(r: Range, f: nat) {
    r.usable && 0 < f && FirstFrame(r) <= f < EndFrame(r)
  }

  ghost predicate Listed(ranges: seq<Range>, f: nat) {
    exists i :: 0 <= i < |ranges| && Whole(ranges[i], f)
  }

  ghost function UsableFrames(ranges: seq<Range>): (s: set<nat>) {
    set f: nat | f < FRAME_LIMIT && Listed(ranges, f)
  }

  /** The loop of xbks_mm_init. */
  function AddRanges(m: Mem, ranges: seq<Range>): (m': Mem)
    decreases |ranges|
  {
    if ranges == [] then m
    else AddRanges(if ranges[0].usable then AddFrames(m, FirstFrame(ranges[0]), EndFrame(ranges[0])) else m, ranges[1..])
  }

  /** What the boot protocol guarantees of its memory map: usable memory lies in the direct map, holds
      neither the boot PML4 nor anything twice. */
  ghost predicate MapOk(m: Mem, ranges: seq<Range>) {
    && (forall i :: 0 <= i < |ranges| && ranges[i].usable ==>
          EndFrame(ranges[i]) <= FRAME_LIMIT && 4096 * EndFrame(ranges[i]) + m.hhdm <= WORD_LIMIT)
    && (forall i :: 0 <= i < |ranges| ==> !Whole(ranges[i], m.kernel))
    && (forall i, j, f: nat :: 0 <= i < j < |ranges| ==> !(Whole(ranges[i], f) && Whole(ranges[j], f)))
  }

  ghost predicate BootMem(m: Mem) {
    m.head == 0 && m.count == 0
  }

  /** The machine this kernel boots on: 4-level paging puts the direct map at the start of the upper half. */
  const UPPER_HALF: Word := 0xffff_8000_0000_0000

  /** Any disjoint map of memory below 2^47 is admitted there. */
  lemma UpperHalfBoots(m: Mem, ranges: seq<Range>)
    requires m.head == 0 && m.count == 0 && m.hhdm == UPPER_HALF
    requires forall i :: 0 <= i < |ranges| && ranges[i].usable ==> ranges[i].base + ranges[i].length <= 0x8000_0000_0000
    requires forall i :: 0 <= i < |ranges| ==> !Whole(ranges[i], m.kernel)
    requires forall i, j, f: nat :: 0 <= i < j < |ranges| ==> !(Whole(ranges[i], f) && Whole(ranges[j], f))
    ensures BootMem(m) && MapOk(m, ranges)
  {
    forall i | 0 <= i < |ranges| && ranges[i].usable
      ensures EndFrame(ranges[i]) <= FRAME_LIMIT && 4096 * EndFrame(ranges[i]) + m.hhdm <= WORD_LIMIT
    {
      assert 4096 * EndFrame(ranges[i]) <= ranges[i].base + ranges[i].length;
    }
  }

  ghost function EmptyLedger(): Ledger { Ledger([], map[], map[]) }

  /** A frame that no one knows about yet may be handed to the allocator. */
  lemma Introduce(m: Mem, g: Ledger, f: nat)
    requires Inv(m, g) && f !in g.owner && Addressable(m.hhdm, f) && f != m.kernel
    ensures Inv(m, Ledger(g.stack, g.at, g.owner[f := Loose]))
  {
    var g' := Ledger(g.stack, g.at, g.owner[f := Loose]);
    forall i | 0 <= i < |g'.stack| ensures FreeAt(m, g', i) {
      assert FreeAt(m, g, i);
    }
    forall x | x in g'.owner ensures Addressable(m.hhdm, x) && OwnsBack(g', x) {
      assert x != f ==> OwnsBack(g, x);
    }
    forall n | n in g.at ensures g.at[n] in g'.owner && g'.owner[g.at[n]] == Tree(n) {
      assert NodeOk(m, g, n);
    }
    TreeFrame(m, g, m, g');
  }

  /** All frames are on the free list and no space exists. */
  ghost predicate AllFree(g: Ledger) {
    g.at == map[] && forall f <- g.owner :: g.owner[f].Free?
  }

  lemma {:induction false} AddFramesKeeps(m: Mem, g: Ledger, first: nat, end: nat) returns (g': Ledger)
    requires Inv(m, g) && AllFree(g) && end <= FRAME_LIMIT && 4096 * end + m.hhdm <= WORD_LIMIT
    requires forall f :: first <= f < end && f > 0 ==> f !in g.owner && f != m.kernel
    ensures var m' := AddFrames(m, first, end);
            && Inv(m', g') && AllFree(g') && m'.kernel == m.kernel && m'.hhdm == m.hhdm
            && (forall f :: f in g'.owner <==> f in g.owner || (0 < f && first <= f < end))
            && Untouched(m, m', g'.owner.Keys)
    decreases end - first
  {
    g' := g;
    if first < end {
      if first == 0 {
        g' := AddFramesKeeps(m, g, 1, end);
      } else {
        Introduce(m, g, first);
        var g1 := Ledger(g.stack, g.at, g.owner[first := Loose]);
        FreeKeeps(m, g1, first);
        g' := AddFramesKeeps(FreeFrame(m, first), Given(g1, first), first + 1, end);
      }
    }
  }

  lemma {:induction false} AddRangesKeeps(m: Mem, g: Ledger, ranges: seq<Range>) returns (g': Ledger)
    requires Inv(m, g) && AllFree(g) && MapOk(m, ranges)
    requires forall f: nat :: Listed(ranges, f) ==> f !in g.owner
    ensures Inv(AddRanges(m, ranges), g') && AllFree(g')
    ensures forall f :: f in g'.owner <==> f in g.owner || (f >= 0 && Listed(ranges, f))
    ensures Untouched(m, AddRanges(m, ranges), g'.owner.Keys)
    ensures AddRanges(m, ranges).kernel == m.kernel
    decreases |ranges|
  {
    hide AddFrames, Inv;
    g' := g;
    if ranges != [] {
      var r, rest := ranges[0], ranges[1..];
      var m1, g1 := m, g;
      forall f: nat ensures Listed(ranges, f) <==> Whole(r, f) || Listed(rest, f) {
        ListedCons(ranges, f);
      }
      if r.usable {
        forall f | FirstFrame(r) <= f < EndFrame(r) && f > 0 ensures f !in g.owner && f != m.kernel {
          assert Whole(ranges[0], f);
        }
        m1 := AddFrames(m, FirstFrame(r), EndFrame(r));
        g1 := AddFramesKeeps(m, g, FirstFrame(r), EndFrame(r));
      }
      RestOk(m, m1, ranges);
      forall f: nat | Listed(rest, f) ensures f !in g1.owner {
        var i :| 0 <= i < |rest| && Whole(rest[i], f);
        assert rest[i] == ranges[i + 1] && Whole(ranges[i + 1], f);
        assert !Whole(ranges[0], f);
      }
      g' := AddRangesKeeps(m1, g1, rest);
    }
  }

  lemma RestOk(m: Mem, m1: Mem, ranges: seq<Range>)
    requires ranges != [] && MapOk(m, ranges) && m1.kernel == m.kernel && m1.hhdm == m.hhdm
    ensures MapOk(m1, ranges[1..])
  {
    var rest := ranges[1..];
    forall i, j, f: nat | 0 <= i < j < |rest| ensures !(Whole(rest[i], f) && Whole(rest[j], f)) {
      assert rest[i] == ranges[i + 1] && rest[j] == ranges[j + 1];
      assert !(Whole(ranges[i + 1], f) && Whole(ranges[j + 1], f));
    }
  }

  lemma ListedCons(ranges: seq<Range>, f: nat)
    requires ranges != []
    ensures Listed(ranges, f) <==> Whole(ranges[0], f) || Listed(ranges[1..], f)
  {
    if Listed(ranges, f) && !Whole(ranges[0], f) {
      var i :| 0 <= i < |ranges| && Whole(ranges[i], f);
      assert Whole(ranges[1..][i - 1], f);
    }
    if Listed(ranges[1..], f) {
      var i :| 0 <= i < |ranges[1..]| && Whole(ranges[1..][i], f);
      assert Whole(ranges[i + 1], f);
    }
  }

  /** Initialisation puts each whole non-zero usable frame on the list exactly once. */
  lemma InitialFreeList(m: Mem, ranges: seq<Range>) returns (g: Ledger)
    requires BootMem(m) && MapOk(m, ranges)
    ensures Inv(AddRanges(m, ranges), g) && AllFree(g) && g.owner.Keys == UsableFrames(ranges)
    ensures Untouched(m, AddRanges(m, ranges), UsableFrames(ranges)) && AddRanges(m, ranges).kernel == m.kernel
    ensures forall f: nat :: f in FreeList(AddRanges(m, ranges)) <==> f in UsableFrames(ranges)
    ensures |FreeList(AddRanges(m, ranges))| == |UsableFrames(ranges)| == AddRanges(m, ranges).count
  {
    hide AddRanges, FreeList, LinkAfter;
    g := AddRangesKeeps(m, EmptyLedger(), ranges);
    var m' := AddRanges(m, ranges);
    assert g.owner.Keys == UsableFrames(ranges) by { OwnersAreUsable(m', g, ranges); }
    forall f: nat ensures f in FreeList(m') <==> f in UsableFrames(ranges) {
      OnListIsLedger(m', g, f);
    }
    OnListIsLedger(m', g, 0);
    DistinctCount(FreeList(m'), UsableFrames(ranges));
  }

  lemma OwnersAreUsable(m: Mem, g: Ledger, ranges: seq<Range>)
    requires Inv(m, g) && forall f :: f in g.owner <==> f >= 0 && Listed(ranges, f)
    ensures g.owner.Keys == UsableFrames(ranges)
  {
    forall f ensures f in g.owner <==> f in UsableFrames(ranges) {
      assert f in g.owner ==> OwnsBack(g, f);
    }
  }

  lemma {:induction false} DistinctCount(s: seq<nat>, t: set<nat>)
    requires forall f: nat :: f in s <==> f in t
    requires forall i, j :: 0 <= i < j < |s| ==> s[i] != s[j]
    ensures |s| == |t|
  {
    if s == [] {
      assert t == {};
    } else {
      var rest := s[1..];
      forall f: nat ensures f in rest <==> f in t - {s[0]} {
        if f in t - {s[0]} {
          var i :| 0 <= i < |s| && s[i] == f;
          assert rest[i - 1] == f;
        }
      }
      DistinctCount(rest, t - {s[0]});
    }
  }

  /** init enters user mode in a state that satisfies the machine's invariant. */
  lemma StartInitOk(m: Mem, g: Ledger, a: seq<Byte>, call: Invocation) returns (g': Ledger)
    requires Inv(m, g) && AllFree(g) && SafeArchive(a) && StartInit(m, a, call).Some?
    ensures KernelOk(StartInit(m, a, call).value, g', [0]) && SameFrames(m, g, StartInit(m, a, call).value.mem, g')
    ensures !StartInit(m, a, call).value.halted
  {
    hide LoadProgram, View, EmptyFds, StandardFds, Inv, Resolve, SafeArchive, Harmless;
    SafeResolve(a, call);
    var (m1, l) := LoadProgram(m, Resolve(a, call));
    g' := LoadProgramKeeps(m, g, Resolve(a, call));
    var k := StartInit(m, a, call).value;
    LooseKeptKeepsNone(m, g, m1, g');
    forall f: nat ensures Root(f) in g'.at <==> f == l.value.cr3 {
      assert SpaceOf(Root(f)) == f;
    }
    forall i: nat, f: nat ensures Holder(k.procs, i, f) <==> i == 0 && f == l.value.cr3 {
    }
    assert Holder(k.procs, 0, l.value.cr3);
    assert RootsOk(k.procs, g');
    assert PidsOk(k);
    forall j | 0 <= j < |[0]| ensures Link(k.procs, [0], j) {
    }
  }

  /** A machine that comes up: its memory map is in order, and init can be loaded from an archive whose
      programs keep to the user half. */
  ghost predicate Boots(m: Mem, ranges: seq<Range>, a: seq<Byte>, call: Invocation) {
    BootMem(m) && MapOk(m, ranges) && SafeArchive(a) && StartInit(AddRanges(m, ranges), a, call).Some?
  }

  /** The state in which init begins. */
  ghost function Started(m: Mem, ranges: seq<Range>, a: seq<Byte>, call: Invocation): (k: Kernel)
    requires Boots(m, ranges, a, call)
    ensures Shape(k)
  {
    StartInit(AddRanges(m, ranges), a, call).value
  }

  /** init begins in a good state, with all usable frames accounted for and no other memory touched. */
  lemma StartedOk(m: Mem, ranges: seq<Range>, a: seq<Byte>, call: Invocation) returns (g: Ledger)
    requires Boots(m, ranges, a, call)
    ensures var k := Started(m, ranges, a, call);
            && KernelOk(k, g, [0]) && !k.halted && k.archive == a && k.nextPid == 2
            && g.owner.Keys == UsableFrames(ranges) && Untouched(m, k.mem, UsableFrames(ranges)) && k.mem.kernel == m.kernel
  {
    hide AddRanges, LoadProgram, Inv, KernelOk, Resolve, FreeList;
    var m0 := AddRanges(m, ranges);
    var g0 := InitialFreeList(m, ranges);
    g := StartInitOk(m0, g0, a, call);
    UntouchedTrans(m, m0, Started(m, ranges, a, call).mem, UsableFrames(ranges));
  }
}
