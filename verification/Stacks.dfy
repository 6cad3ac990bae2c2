/**
 The initial user stack: decoding memory from the stack pointer gives back the argument
 and environment strings.
 */
module Stacks {
  import opened Wrappers
  import opened Paging
  import opened Ownership
  import opened PageTables
  import opened AddressSpaces
  import opened VirtualMemory
  import opened Programs
  import opened Loading
  import opened Images

  // ----- decoding, as the program's startup code does it -----

  /** n bytes from `va`, as a little-endian number. */
  function ReadLE(m: Mem, root: nat, va: nat, n: nat): (r: Option<nat>)
    decreases n
  {
    if n == 0 then Some(0) else
    var low, high := UserLoad(m, root, va), ReadLE(m, root, va + 1, n - 1);
    if low.Some? && high.Some? then Some(low.value + 256 * high.value) else None
  }

  function ReadWord(m: Mem, root: nat, va: nat): (r: Option<nat>) {
    ReadLE(m, root, va, 8)
  }

  /** The NUL-terminated string at `va`, if it ends within n bytes. */
  function ReadString(m: Mem, root: nat, va: nat, n: nat): (r: Option<seq<Byte>>)
    decreases n
  {
    if n == 0 || UserLoad(m, root, va).None? then None
    else if UserLoad(m, root, va).value == 0 then Some([])
    else
      var rest := ReadString(m, root, va + 1, n - 1);
      if rest.None? then None else Some([UserLoad(m, root, va).value] + rest.value)
  }

  datatype Vector = Vector(strings: seq<seq<Byte>>, next: nat)

  /** The strings of a NULL-terminated vector of at most n pointers, and the address after it. */
  function ReadVector(m: Mem, root: nat, va: nat, n: nat): (r: Option<Vector>)
    decreases n
  {
    var p := ReadWord(m, root, va);
    if p.None? then None
    else if p.value == 0 then Some(Vector([], va + 8))
    else if n == 0 then None
    else
      var s, rest := ReadString(m, root, p.value, 256), ReadVector(m, root, va + 8, n - 1);
      if s.None? || rest.None? then None else Some(Vector([s.value] + rest.value.strings, rest.value.next))
  }

  datatype Arguments = Arguments(argc: nat, argv: seq<seq<Byte>>, envp: seq<seq<Byte>>)

  function ReadStack(m: Mem, root: nat, sp: nat): (r: Option<Arguments>) {
    var argc, argv := ReadWord(m, root, sp), ReadVector(m, root, sp + 8, 31);
    if argc.None? || argv.None? then None else
    var envp := ReadVector(m, root, argv.value.next, 31);
    if envp.None? then None else Some(Arguments(argc.value, argv.value.strings, envp.value.strings))
  }

  // ----- what a push writes -----

  /** Memory changed exactly on [at, at + |bytes|). */
  ghost predicate Wrote(m: Mem, m': Mem, root: nat, at: nat, bytes: seq<Byte>) {
    forall a: nat {:trigger UserLoad(m', root, a)} :: a < USER_TOP ==>
      UserLoad(m', root, a) == if at <= a < at + |bytes| then Some(bytes[a - at]) else UserLoad(m, root, a)
  }

  ghost predicate Holds(m: Mem, root: nat, at: nat, bytes: seq<Byte>) {
    at + |bytes| <= USER_TOP && forall a: nat :: at <= a < at + |bytes| ==> UserLoad(m, root, a) == Some(bytes[a - at])
  }

  /** Nothing changed at or above `bound`, or below the stack area. */
  ghost predicate KeptOutside(m: Mem, m': Mem, root: nat, bound: nat) {
    forall a: nat {:trigger UserLoad(m', root, a)} :: bound <= a < USER_TOP || a < STACK_BASE ==>
      UserLoad(m', root, a) == UserLoad(m, root, a)
  }

  ghost predicate StackMapped(m: Mem, g: Ledger, root: nat) {
    && (forall a: nat {:trigger Mapped(g, root, a)} :: STACK_BASE <= a < STACK_TOP ==> Mapped(g, root, a))
    && (forall a: nat :: STACK_BASE <= a < STACK_TOP ==> UserLoad(m, root, a).Some?)
  }

  /** What user code may write stays the same. */
  ghost predicate SameAccess(m: Mem, m': Mem, root: nat) {
    forall a: nat {:trigger Usable(m', root, a)} :: Usable(m', root, a) == Usable(m, root, a)
  }

  lemma PushBytesEffect(m: Mem, g: Ledger, root: nat, sp: nat, bytes: seq<Byte>)
    requires Inv(m, g) && Root(root) in g.at && StackMapped(m, g, root)
    requires STACK_BASE + |bytes| <= sp <= STACK_TOP
    ensures var (m', r) := PushBytes(m, root, sp, bytes);
            r == Some(sp - |bytes|) && Inv(m', g) && Wrote(m, m', root, sp - |bytes|, bytes) && StackMapped(m', g, root) && SameAccess(m, m', root)
  {
    hide UserLoad, WriteProcess, StoreAll, Mapped, Usable;
    var at := sp - |bytes|;
    var n := WriteProcessIsStores(m, g, root, at, bytes);
    assert bytes[..n] == bytes;
    var m' := StoreAll(m, root, at, bytes);
    StoreAllInv(m, g, root, at, bytes);
    forall a: nat | a < USER_TOP
      ensures UserLoad(m', root, a) == if at <= a < at + |bytes| then Some(bytes[a - at]) else UserLoad(m, root, a)
    {
      UserLoadAfterStoreAll(m, g, root, at, bytes, root, a);
    }
    forall a: nat ensures Usable(m', root, a) == Usable(m, root, a) {
      UserLoadAfterStoreAll(m, g, root, at, bytes, root, a);
    }
  }

  // ----- words -----

  ghost predicate HoldsWords(m: Mem, root: nat, at: nat, words: seq<Word>) {
    forall k :: 0 <= k < |words| ==> Holds(m, root, at + 8 * k, WordBytesOf(words[k]))
  }

  lemma {:induction false} PushWordsEffect(m: Mem, g: Ledger, root: nat, sp: nat, words: seq<Word>)
    requires Inv(m, g) && Root(root) in g.at && StackMapped(m, g, root)
    requires STACK_BASE + 8 * |words| <= sp <= STACK_TOP
    ensures var (m', r) := PushWords(m, root, sp, words);
            && r == Some(sp - 8 * |words|) && Inv(m', g)
            && HoldsWords(m', root, sp - 8 * |words|, words) && KeptOutside(m, m', root, sp) && SameAccess(m, m', root)
    decreases |words|
  {
    hide UserLoad, PushBytes, WordBytesOf, StackMapped, Usable;
    if words != [] {
      var n := |words| - 1;
      var last := WordBytesOf(words[n]);
      var (m1, sp1) := PushBytes(m, root, sp, last);
      PushBytesEffect(m, g, root, sp, last);
      PushWordsEffect(m1, g, root, sp - 8, words[..n]);
      var m' := PushWords(m, root, sp, words).0;
      assert Holds(m', root, sp - 8, last);
      forall k | 0 <= k < |words| ensures Holds(m', root, sp - 8 * |words| + 8 * k, WordBytesOf(words[k])) {
        if k < n {
          assert words[..n][k] == words[k];
        }
      }
    }
  }

  // ----- strings -----

  function TotalSize(strings: seq<seq<Byte>>): (n: nat) {
    if strings == [] then 0 else TotalSize(strings[..|strings| - 1]) + |strings[|strings| - 1]| + 1
  }

  ghost predicate HoldsStrings(m: Mem, root: nat, low: nat, high: nat, addresses: seq<Word>, strings: seq<seq<Byte>>) {
    |addresses| == |strings| && forall k :: 0 <= k < |strings| ==>
      && low <= addresses[k] && addresses[k] + |strings[k]| + 1 <= high
      && Holds(m, root, addresses[k], strings[k] + [0])
  }

  lemma {:induction false} PushStringsEffect(m: Mem, g: Ledger, root: nat, sp: nat, strings: seq<seq<Byte>>)
    requires Inv(m, g) && Root(root) in g.at && StackMapped(m, g, root)
    requires STACK_BASE + TotalSize(strings) <= sp <= STACK_TOP
    ensures var r := PushStrings(m, root, sp, strings);
            && r.sp == Some(sp - TotalSize(strings)) && Inv(r.mem, g)
            && HoldsStrings(r.mem, root, sp - TotalSize(strings), sp, r.addresses, strings)
            && KeptOutside(m, r.mem, root, sp) && StackMapped(r.mem, g, root) && SameAccess(m, r.mem, root)
    decreases |strings|
  {
    hide UserLoad, PushBytes, Inv, StackMapped, Usable;
    if strings != [] {
      var n := |strings| - 1;
      var last := strings[n] + [0];
      var (m1, sp1) := PushBytes(m, root, sp, last);
      PushBytesEffect(m, g, root, sp, last);
      var rest := PushStrings(m1, root, sp - |last|, strings[..n]);
      PushStringsEffect(m1, g, root, sp - |last|, strings[..n]);
      var r := PushStrings(m, root, sp, strings);
      assert Holds(r.mem, root, sp - |last|, last);
      forall k | 0 <= k < |strings|
        ensures sp - TotalSize(strings) <= r.addresses[k] && r.addresses[k] + |strings[k]| + 1 <= sp
        ensures Holds(r.mem, root, r.addresses[k], strings[k] + [0])
      {
        if k < n {
          assert strings[..n][k] == strings[k] && r.addresses[k] == rest.addresses[k];
        }
      }
    }
  }

  // ----- reading back -----

  lemma {:induction false} ReadLEGives(m: Mem, root: nat, va: nat, w: nat, n: nat)
    requires w < Pow256(n) && va + n <= USER_TOP
    requires forall i :: 0 <= i < n ==> UserLoad(m, root, va + i) == Some(Digit(w, i))
    ensures ReadLE(m, root, va, n) == Some(w)
    decreases n
  {
    hide UserLoad;
    if n > 0 {
      assert UserLoad(m, root, va + 0) == Some(Digit(w, 0));
      forall i | 0 <= i < n - 1 ensures UserLoad(m, root, va + 1 + i) == Some(Digit(w / 256, i)) {
        assert UserLoad(m, root, va + (i + 1)) == Some(Digit(w, i + 1));
      }
      ReadLEGives(m, root, va + 1, w / 256, n - 1);
    }
  }

  lemma ReadWordGives(m: Mem, root: nat, va: nat, w: Word)
    requires Holds(m, root, va, WordBytesOf(w))
    ensures ReadWord(m, root, va) == Some(w)
  {
    hide UserLoad;
    WordBytes();
    ReadLEGives(m, root, va, w, 8);
  }

  lemma {:induction false} ReadStringGives(m: Mem, root: nat, va: nat, s: seq<Byte>, n: nat)
    requires Holds(m, root, va, s + [0]) && 0 !in s && |s| < n
    ensures ReadString(m, root, va, n) == Some(s)
    decreases n
  {
    hide UserLoad;
    assert UserLoad(m, root, va) == Some((s + [0])[0]);
    if s != [] {
      assert s == [s[0]] + s[1..] && s[0] in s;
      ReadStringGives(m, root, va + 1, s[1..], n - 1);
    }
  }

  lemma {:induction false} ReadVectorGives(m: Mem, root: nat, va: nat, addresses: seq<Word>, strings: seq<seq<Byte>>, n: nat)
    requires |addresses| == |strings| <= n && HoldsWords(m, root, va, addresses + [0])
    requires forall k :: 0 <= k < |strings| ==> addresses[k] != 0 && ReadString(m, root, addresses[k], 256) == Some(strings[k])
    ensures ReadVector(m, root, va, n) == Some(Vector(strings, va + 8 * |strings| + 8))
    decreases n
  {
    hide UserLoad, ReadString, ReadWord, WordBytesOf;
    var words := addresses + [0];
    assert Holds(m, root, va + 8 * 0, WordBytesOf(words[0]));
    ReadWordGives(m, root, va, words[0]);
    if strings != [] {
      var rest := addresses[1..] + [0];
      forall k | 0 <= k < |rest| ensures Holds(m, root, va + 8 + 8 * k, WordBytesOf(rest[k])) {
        assert rest[k] == words[k + 1] && Holds(m, root, va + 8 * (k + 1), WordBytesOf(words[k + 1]));
      }
      ReadVectorGives(m, root, va + 8, addresses[1..], strings[1..], n - 1);
      assert strings == [strings[0]] + strings[1..];
    }
  }

  // ----- the round trip -----

  /** What copy_user_string_array delivers: at most 31 strings of at most 255 bytes. */
  ghost predicate Copied31(strings: seq<seq<Byte>>) {
    |strings| <= 31 && forall k :: 0 <= k < |strings| ==> |strings[k]| <= 255 && 0 !in strings[k]
  }

  lemma {:induction false} TotalSizeBound(strings: seq<seq<Byte>>)
    requires forall k :: 0 <= k < |strings| ==> |strings[k]| <= 255
    ensures TotalSize(strings) <= 256 * |strings|
  {
    if strings != [] {
      TotalSizeBound(strings[..|strings| - 1]);
    }
  }

  lemma HoldsKept(m: Mem, m': Mem, root: nat, bound: nat, at: nat, bytes: seq<Byte>)
    requires Holds(m, root, at, bytes) && KeptOutside(m, m', root, bound) && bound <= at
    ensures Holds(m', root, at, bytes)
  {
  }

  lemma StringsRead(m: Mem, m': Mem, root: nat, bound: nat, high: nat, addresses: seq<Word>, strings: seq<seq<Byte>>)
    requires 0 < bound && HoldsStrings(m, root, bound, high, addresses, strings) && KeptOutside(m, m', root, bound)
    requires Copied31(strings)
    ensures forall k :: 0 <= k < |strings| ==> addresses[k] != 0 && ReadString(m', root, addresses[k], 256) == Some(strings[k])
  {
    forall k | 0 <= k < |strings| ensures addresses[k] != 0 && ReadString(m', root, addresses[k], 256) == Some(strings[k]) {
      HoldsKept(m, m', root, bound, addresses[k], strings[k] + [0]);
      ReadStringGives(m', root, addresses[k], strings[k], 256);
    }
  }

  lemma SplitVector(m: Mem, root: nat, sp: nat, argc: nat, args: seq<Word>, envs: seq<Word>)
    requires argc < WORD_LIMIT && HoldsWords(m, root, sp, StackVector(argc, args, envs))
    ensures ReadWord(m, root, sp) == Some(argc)
    ensures HoldsWords(m, root, sp + 8, args + [0]) && HoldsWords(m, root, sp + 8 * |args| + 16, envs + [0])
  {
    hide UserLoad, WordBytesOf, Holds;
    var v := StackVector(argc, args, envs);
    assert v[0] == argc;
    assert Holds(m, root, sp + 8 * 0, WordBytesOf(v[0]));
    ReadWordGives(m, root, sp, v[0]);
    HoldsSlice(m, root, sp, v, 1, args + [0]);
    HoldsSlice(m, root, sp, v, |args| + 2, envs + [0]);
  }

  lemma HoldsSlice(m: Mem, root: nat, sp: nat, v: seq<Word>, i: nat, part: seq<Word>)
    requires HoldsWords(m, root, sp, v) && i + |part| <= |v| && v[i..i + |part|] == part
    ensures HoldsWords(m, root, sp + 8 * i, part)
  {
    hide UserLoad, WordBytesOf, Holds;
    forall k | 0 <= k < |part| ensures Holds(m, root, sp + 8 * i + 8 * k, WordBytesOf(part[k])) {
      assert part[k] == v[i + k] && Holds(m, root, sp + 8 * (i + k), WordBytesOf(v[i + k]));
    }
  }

  /** Reading back, from what the three rounds of pushes left in memory. */
  lemma ReadBack(env: Pushed, arg: Pushed, m': Mem, root: nat, e: nat, a: nat, sp: nat,
                 argv: seq<seq<Byte>>, envp: seq<seq<Byte>>)
    requires Copied31(argv) && Copied31(envp) && 0 < a <= e
    requires HoldsStrings(env.mem, root, e, STACK_TOP, env.addresses, envp) && KeptOutside(env.mem, arg.mem, root, e)
    requires HoldsStrings(arg.mem, root, a, e, arg.addresses, argv) && KeptOutside(arg.mem, m', root, a)
    requires HoldsWords(m', root, sp, StackVector(|argv|, arg.addresses, env.addresses))
    ensures ReadStack(m', root, sp) == Some(Arguments(|argv|, argv, envp))
  {
    hide UserLoad, ReadVector, ReadWord, StackVector;
    StringsRead(arg.mem, m', root, a, e, arg.addresses, argv);
    KeptTwice(env.mem, arg.mem, m', root, e, a);
    StringsRead(env.mem, m', root, e, STACK_TOP, env.addresses, envp);
    SplitVector(m', root, sp, |argv|, arg.addresses, env.addresses);
    ReadVectorGives(m', root, sp + 8, arg.addresses, argv, 31);
    ReadVectorGives(m', root, sp + 8 * |argv| + 16, env.addresses, envp, 31);
  }

  /** On a mapped stack the pushes always fit, and reading back gives argc and exactly the strings. */
  lemma FillStackRoundTrip(m: Mem, g: Ledger, root: nat, argv: seq<seq<Byte>>, envp: seq<seq<Byte>>)
    requires Inv(m, g) && Root(root) in g.at && StackMapped(m, g, root) && Copied31(argv) && Copied31(envp)
    ensures var (m', sp) := FillStack(m, root, argv, envp);
            && sp.Some? && sp.value % 8 == 0 && STACK_BASE < sp.value < STACK_TOP
            && ReadStack(m', root, sp.value) == Some(Arguments(|argv|, argv, envp))
            && KeptOutside(m, m', root, STACK_TOP) && SameAccess(m, m', root)
  {
    hide UserLoad, Usable, PushStrings, PushWords, ReadStack, StackVector, HoldsStrings, HoldsWords, Inv, TotalSize, StackMapped, AlignStack;
    TotalSizeBound(envp);
    TotalSizeBound(argv);
    var e := STACK_TOP - TotalSize(envp);
    var a := e - TotalSize(argv);
    var top := AlignStack(a);
    var env := PushStrings(m, root, STACK_TOP, envp);
    PushStringsEffect(m, g, root, STACK_TOP, envp);
    var arg := PushStrings(env.mem, root, e, argv);
    PushStringsEffect(env.mem, g, root, e, argv);
    var v := StackVector(|argv|, arg.addresses, env.addresses);
    StackAlignment(a, |v|);
    StackVectorLength(|argv|, arg.addresses, env.addresses);
    PushWordsEffect(arg.mem, g, root, top, v);
    KeptLess(arg.mem, PushWords(arg.mem, root, top, v).0, root, top, a);
    KeptTwice(env.mem, arg.mem, PushWords(arg.mem, root, top, v).0, root, e, a);
    KeptTwice(m, env.mem, PushWords(arg.mem, root, top, v).0, root, STACK_TOP, e);
    ReadBack(env, arg, PushWords(arg.mem, root, top, v).0, root, e, a, top - 8 * |v|, argv, envp);
  }

  lemma StackAlignment(a: nat, n: nat)
    ensures a - 15 <= AlignStack(a) <= a && (AlignStack(a) - 8 * n) % 8 == 0
  {
    assert AlignStack(a) - 8 * n == 8 * (a / 16 * 2 - n);
  }

  lemma KeptLess(m: Mem, m': Mem, root: nat, low: nat, high: nat)
    requires KeptOutside(m, m', root, low) && low <= high
    ensures KeptOutside(m, m', root, high)
  {
  }

  lemma StackVectorLength(argc: nat, args: seq<Word>, envs: seq<Word>)
    ensures |StackVector(argc, args, envs)| == |args| + |envs| + 3
  {
  }

  lemma KeptTwice(m0: Mem, m1: Mem, m2: Mem, root: nat, high: nat, low: nat)
    requires KeptOutside(m0, m1, root, high) && KeptOutside(m1, m2, root, low) && low <= high
    ensures KeptOutside(m0, m2, root, high)
  {
    forall a: nat | high <= a < USER_TOP || a < STACK_BASE ensures UserLoad(m2, root, a) == UserLoad(m0, root, a) {
      assert UserLoad(m1, root, a) == UserLoad(m0, root, a);
    }
  }

  /** build_user_stack fails only when its sixteen pages cannot be mapped. */
  lemma BuildStackRoundTrip(m: Mem, g: Ledger, root: nat, argv: seq<seq<Byte>>, envp: seq<seq<Byte>>)
    requires Inv(m, g) && Root(root) in g.at && Copied31(argv) && Copied31(envp)
    ensures var (m', sp) := BuildStack(m, root, argv, envp);
            && (sp.Some? <==> MapRange(m, root, STACK_BASE, STACK_PAGES * 4096, 2).1)
            && (sp.Some? ==> && ReadStack(m', root, sp.value) == Some(Arguments(|argv|, argv, envp))
                             && (forall va: nat :: STACK_BASE <= va < STACK_TOP ==> Usable(m', root, va))
                             && Retains(m, m', root))
  {
    OnlyBelow(m, root);
    hide UserLoad, MapRange, FillStack, ReadStack, Mapped, Usable;
    var (m1, ok) := MapRange(m, root, STACK_BASE, STACK_PAGES * 4096, 2);
    if ok {
      var g1 := MappedRange(m, g, root, STACK_BASE, STACK_PAGES * 4096);
      FillStackRoundTrip(m1, g1, root, argv, envp);
      var m' := FillStack(m1, root, argv, envp).0;
      forall va: nat | va < USER_TOP
        ensures UserLoad(m, root, va).Some? ==> UserLoad(m', root, va) == UserLoad(m, root, va)
        ensures Usable(m, root, va) || STACK_BASE <= va < STACK_TOP ==> Usable(m', root, va)
      {
        UserLoadIsLoad(m, root, va);
        var _ := MappedRangeStep(m, g, root, STACK_BASE, STACK_PAGES * 4096, va);
      }
    }
  }

  /** execve hands over exactly the image and the strings it was given: on success the new space
      shows every segment of the file, entry is e_entry, and the stack decodes to argv and envp. */
  lemma ProgramLoaded(m: Mem, g: Ledger, req: Request)
    requires Inv(m, g) && Copied31(req.argv) && Copied31(req.envp) && LoadProgram(m, req).1.Some?
    requires req.file.Some? ==> NoWrap(req.file.value)
    ensures req.file.Some? && ValidElf(req.file.value)
    ensures var (m', r) := LoadProgram(m, req);
            && Shows(m', r.value.cr3, req.file.value, 0) && DisjointFrom(req.file.value, 0)
            && r.value.entry == Field(req.file.value.data, 24, 8)
            && ReadStack(m', r.value.cr3, r.value.stack) == Some(Arguments(|req.argv|, req.argv, req.envp))
            && forall va: nat :: STACK_BASE <= va < STACK_TOP ==> Usable(m', r.value.cr3, va)
  {
    hide UserLoad, Usable, CreateRoot, LoadSegments, BuildStack, ReadStack, Field, SegmentAt, SegmentByte, SegmentFits, NoWrap, UserOnly;
    var file := req.file.value;
    NoWrapIsUserOnly(file);
    var (m1, root) := CreateRoot(m);
    var g1 := CreateKeeps(m, g);
    assert ValidElf(file);
    var m2 := LoadSegments(m1, root, file, 0).0;
    var g2 := LoadSegmentsKeeps(m1, g1, root, file, 0);
    SegmentsLoad(m1, g1, root, file, 0);
    BuildStackRoundTrip(m2, g2, root, req.argv, req.envp);
    ShowsRetained(m2, BuildStack(m2, root, req.argv, req.envp).0, root, file);
  }

  lemma ShowsRetained(m: Mem, m': Mem, root: nat, file: File)
    requires ValidElf(file) && Shows(m, root, file, 0) && Retains(m, m', root)
    ensures Shows(m', root, file, 0)
  {
    hide UserLoad, Usable, SegmentAt, SegmentByte, SegmentFits, Field;
  }

  lemma MappedRange(m: Mem, g: Ledger, root: nat, base: nat, size: nat) returns (g': Ledger)
    requires Inv(m, g) && Root(root) in g.at && base + size < USER_TOP && MapRange(m, root, base, size, 2).1
    ensures Inv(MapRange(m, root, base, size, 2).0, g') && Root(root) in g'.at
    ensures forall va: nat {:trigger Mapped(g', root, va)} :: base <= va < base + size ==> Mapped(g', root, va)
    ensures forall va: nat :: base <= va < base + size ==> UserLoad(MapRange(m, root, base, size, 2).0, root, va).Some?
  {
    hide MapPages, View, UserLoad, Allows, FlagsOf, UserFlags, LeafFlags;
    UserFlagsBits(2);
    var first, end := base / 4096, EndPage(base, size);
    assert end == (base + size + 4095) / 4096;
    g' := MapPagesKeeps(m, g, root, first, end, 2);
    var m' := MapRange(m, root, base, size, 2).0;
    forall va: nat | base <= va < base + size ensures Mapped(g', root, va) && UserLoad(m', root, va).Some? {
      assert MapsAt(m, g, m', g', root, first, end, true, va / 4096, 2);
      ViewNone(m', g', Leaf(root, va / 4096));
      UserLoadIsView(m', g', root, va);
      SevenAllows(View(m', g', Leaf(root, va / 4096)).value.entry, false);
    }
  }
}
