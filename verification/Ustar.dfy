/**
 ustar archives written out as the pax Interchange Format section of IEEE Std 1003.1 lays them out, and read back
 by the walk of fs/ramdisk.c.
 */
module Ustar {
  import opened Wrappers
  import opened VirtualMemory
  import opened Ramdisk
  import opened Directories
  import Programs
  import Files
  import D = Dirents

  // ----- members -----

  datatype Access = Access(read: bool, write: bool, execute: bool)

  /** One archive member.  `owner` is uid and gid, `stamp` mtime and checksum, `link` the fields from linkname to
      devminor, `padding` what ends the header: the walk looks at none of them. */
  datatype Member = Member(
    name: Path, prefix: Path, special: nat, user: Access, group: Access, other: Access, typeflag: Byte, data: seq<Byte>,
    owner: seq<Byte>, stamp: seq<Byte>, link: seq<Byte>, padding: seq<Byte>)

  predicate Writable(m: Member) {
    && |m.name| <= 100 && 0 !in m.name && |m.prefix| <= 155 && 0 !in m.prefix
    && m.special < 4096 && |m.data| < Pow8(11)
    && |m.owner| == 16 && |m.stamp| == 20 && |m.link| == 188 && |m.padding| == 12
  }

  function Bits(a: Access): (n: nat)
    ensures n < 8
  {
    (if a.read then 4 else 0) + (if a.write then 2 else 0) + (if a.execute then 1 else 0)
  }

  function Mode(m: Member): (n: nat) {
    512 * m.special + 64 * Bits(m.user) + 8 * Bits(m.group) + Bits(m.other)
  }

  function Zeros(n: nat): (s: seq<Byte>)
    ensures |s| == n && forall i :: 0 <= i < n ==> s[i] == 0
  {
    seq(n, _ => 0)
  }

  function Padded(s: seq<Byte>, n: nat): (r: seq<Byte>)
    requires |s| <= n
    ensures |r| == n
  {
    s + Zeros(n - |s|)
  }

  function OctalField(v: nat, n: nat): (s: seq<Byte>)
    requires n > 0
    ensures |s| == n
  {
    OctalText(v, n - 1) + [0]
  }

  function Header(m: Member): (s: seq<Byte>)
    requires Writable(m)
    ensures |s| == BLOCK
  {
    Padded(m.name, 100) + OctalField(Mode(m), 8) + m.owner + OctalField(|m.data|, 12) + m.stamp + [m.typeflag]
    + m.link + Padded(m.prefix, 155) + m.padding
  }

  /** Header, data, and zeroes up to the next block. */
  function MemberBytes(m: Member): (s: seq<Byte>)
    requires Writable(m)
    ensures |s| == BLOCK + AlignBlock(|m.data|)
  {
    Header(m) + Padded(m.data, AlignBlock(|m.data|))
  }

  ghost predicate AllWritable(ms: seq<Member>) {
    forall i :: 0 <= i < |ms| ==> Writable(ms[i])
  }

  function Blocks(ms: seq<Member>): (s: seq<Byte>)
    requires AllWritable(ms)
  {
    if ms == [] then [] else MemberBytes(ms[0]) + Blocks(ms[1..])
  }

  /** The members, two zero blocks, and whatever follows them. */
  function Archive(ms: seq<Member>, rest: seq<Byte>): (a: seq<Byte>)
    requires AllWritable(ms)
  {
    Blocks(ms) + Zeros(2 * BLOCK) + rest
  }

  // ----- what the walk should make of them -----

  function FullName(m: Member): (p: Path) {
    if m.prefix == [] then m.name else m.prefix + [SLASH] + m.name
  }

  /** The path it is found under; none without a name. */
  function PathOf(m: Member): (p: Path) {
    if m.name == [] then [] else Normalize(Clip(FullName(m)))
  }

  function EntryOf(m: Member, at: nat): (e: Entry) {
    Entry(at, PathOf(m), |m.data|, m.typeflag == '5' as int,
      m.user.execute || m.group.execute || m.other.execute)
  }

  function Entries(ms: seq<Member>, at: nat): (es: seq<Entry>)
    ensures |es| == |ms|
  {
    if ms == [] then [] else [EntryOf(ms[0], at)] + Entries(ms[1..], at + BLOCK + AlignBlock(|ms[0].data|))
  }

  // ----- fields -----

  lemma {:induction false} UpToNulPadded(s: seq<Byte>, t: seq<Byte>)
    requires 0 !in s && (t == [] || t[0] == 0)
    ensures UpToNul(s + t) == s
  {
    if s == [] {
      assert s + t == t;
    } else {
      assert s[0] in s && (s + t)[1..] == s[1..] + t;
      UpToNulPadded(s[1..], t);
    }
  }

  lemma HeaderFields(m: Member)
    requires Writable(m)
    ensures var s := Header(m);
            && s[0..100] == Padded(m.name, 100) && s[100..108] == OctalField(Mode(m), 8) && s[124..136] == OctalField(|m.data|, 12)
            && s[156] == m.typeflag && s[345..500] == Padded(m.prefix, 155)
  {
    hide Padded, OctalField, Mode;
  }

  lemma Octals()
    ensures Pow8(7) == 0x20_0000 && Pow8(11) == 0x2_0000_0000
  {
    assert Pow8(4) == 4096;
  }

  lemma ModeReads(m: Member)
    requires Writable(m)
    ensures Octal(OctalField(Mode(m), 8)) == Mode(m)
    ensures HasExecuteBit(Mode(m)) <==> m.user.execute || m.group.execute || m.other.execute
  {
    hide Bits, Octal, OctalText, Pow8;
    Octals();
    OctalRoundTrip(Mode(m), 7, [0]);
    LowBits(m.special, Bits(m.user), Bits(m.group), Bits(m.other));
    ExecuteBit(m.user);
    ExecuteBit(m.group);
    ExecuteBit(m.other);
  }

  lemma ExecuteBit(a: Access)
    ensures Bits(a) % 2 == 1 <==> a.execute
  {
  }

  lemma LowBits(s: nat, u: nat, g: nat, o: nat)
    requires u < 8 && g < 8 && o < 8
    ensures var mode := 512 * s + 64 * u + 8 * g + o;
            mode % 2 == o % 2 && mode / 8 % 2 == g % 2 && mode / 64 % 2 == u % 2
  {
    var h := 8 * s + u;
    Split(8 * h + g, o);
    Split(h, g);
    assert 512 * s + 64 * u + 8 * g + o == 8 * (8 * h + g) + o;
    EvenPart(4 * (8 * h + g), o);
    EvenPart(4 * h, g);
    EvenPart(4 * s, u);
    Split64(h, 8 * g + o);
  }

  lemma Split(x: nat, y: nat)
    requires y < 8
    ensures (8 * x + y) / 8 == x
  {
  }

  lemma Split64(x: nat, y: nat)
    requires y < 64
    ensures (64 * x + y) / 64 == x
  {
  }

  lemma HeaderSlices(a: seq<Byte>, at: nat, m: Member)
    requires Writable(m) && at + BLOCK <= |a| && a[at..at + BLOCK] == Header(m)
    ensures a[at..at + 100] == Padded(m.name, 100) && a[at + 100..at + 108] == OctalField(Mode(m), 8)
    ensures a[at + 124..at + 136] == OctalField(|m.data|, 12) && a[at + 345..at + 500] == Padded(m.prefix, 155)
    ensures a[at + 156] == m.typeflag
  {
    hide Header, Mode, OctalText, Padded, OctalField;
    var s := Header(m);
    HeaderFields(m);
    SliceInside(a, at, s, 0, 100);
    SliceInside(a, at, s, 100, 8);
    SliceInside(a, at, s, 124, 12);
    SliceInside(a, at, s, 345, 155);
    assert a[at + 156] == a[at..at + BLOCK][156];
  }

  lemma ReadsPath(a: seq<Byte>, at: nat, m: Member)
    requires Writable(m) && at + BLOCK <= |a| && a[at..at + 100] == Padded(m.name, 100) && a[at + 345..at + 500] == Padded(m.prefix, 155)
    ensures TarPath(a, at) == PathOf(m)
  {
    hide UpToNul, Normalize, Clip;
    UpToNulPadded(m.name, Zeros(100 - |m.name|));
    UpToNulPadded(m.prefix, Zeros(155 - |m.prefix|));
  }

  /** Where a member's header stands, the walk reads the member. */
  lemma ReadsMember(a: seq<Byte>, at: nat, m: Member)
    requires Writable(m) && at + BLOCK + |m.data| <= |a| && a[at..at + BLOCK] == Header(m)
    ensures HeaderAt(a, at) && EntryAt(a, at) == EntryOf(m, at)
  {
    hide Header, Octal, Mode, TarPath, PathOf, HasExecuteBit, OctalText, Pow8;
    HeaderSlices(a, at, m);
    ReadsPath(a, at, m);
    ModeReads(m);
    OctalRoundTrip(|m.data|, 11, [0]);
    NotZero(a, at, m);
  }

  lemma NotZero(a: seq<Byte>, at: nat, m: Member)
    requires at + BLOCK <= |a| && a[at + 100..at + 108] == OctalField(Mode(m), 8)
    ensures !ZeroBlock(a, at)
  {
    assert a[at + 100] == a[at + 100..at + 108][0];
    assert IsOctal(OctalText(Mode(m), 7)[0]);
  }

  // ----- the walk -----

  /** Nothing more is found here. */
  predicate Ends(tail: seq<Byte>) {
    |tail| < BLOCK || forall i :: 0 <= i < BLOCK ==> tail[i] == 0
  }

  /** The walk over written members finds them one by one, each at its place. */
  lemma {:induction false} WalkMembers(front: seq<Byte>, ms: seq<Member>, tail: seq<Byte>)
    requires AllWritable(ms) && Ends(tail)
    ensures Walk(front + Blocks(ms) + tail, |front|) == Entries(ms, |front|)
    decreases |ms|
  {
    hide MemberBytes, EntryAt, HeaderAt, EntryOf, AlignBlock, Walk, Blocks, Entries, NextHeader, Ends;
    if ms == [] {
      NoMembers(front, tail);
    } else {
      var b, later := MemberBytes(ms[0]), Blocks(ms[1..]);
      var a, at := front + b + (later + tail), |front|;
      BlocksFirst(ms);
      Regrouped(front, b, later, tail);
      MemberIn(front, ms[0], later + tail);
      WalkMembers(front + b, ms[1..], tail);
      SizeRead(a, at, ms[0]);
      WalkHere(a, at);
      EntriesFirst(ms, at);
    }
  }

  lemma NoMembers(front: seq<Byte>, tail: seq<Byte>)
    requires Ends(tail)
    ensures Walk(front + Blocks([]) + tail, |front|) == Entries([], |front|)
  {
    hide Walk, Ends;
    assert front + Blocks([]) + tail == front + tail;
    EndOfWalk(front, tail);
  }

  lemma Regrouped(a: seq<Byte>, b: seq<Byte>, c: seq<Byte>, d: seq<Byte>)
    ensures a + (b + c) + d == a + b + (c + d) == (a + b) + c + d
  {
  }

  lemma WalkHere(a: seq<Byte>, at: nat)
    requires HeaderAt(a, at)
    ensures Walk(a, at) == [EntryAt(a, at)] + Walk(a, NextHeader(a, at))
  {
    hide EntryAt, FileSize, ZeroBlock;
  }

  lemma SizeRead(a: seq<Byte>, at: nat, m: Member)
    requires HeaderAt(a, at) && EntryAt(a, at) == EntryOf(m, at)
    ensures NextHeader(a, at) == at + BLOCK + AlignBlock(|m.data|)
  {
    hide TarPath, FileSize, AlignBlock, Normalize, Octal, HasExecuteBit;
  }

  lemma EndOfWalk(front: seq<Byte>, tail: seq<Byte>)
    requires Ends(tail)
    ensures Walk(front + tail, |front|) == []
  {
    hide EntryAt, FileSize, NextHeader;
    var a := front + tail;
    if |tail| >= BLOCK {
      assert ZeroBlock(a, |front|);
    }
  }

  lemma MemberIn(front: seq<Byte>, m: Member, rest: seq<Byte>)
    requires Writable(m)
    ensures var a := front + MemberBytes(m) + rest;
            && HeaderAt(a, |front|) && EntryAt(a, |front|) == EntryOf(m, |front|)
            && |front| + BLOCK + |m.data| <= |a| && a[|front| + BLOCK..|front| + BLOCK + |m.data|] == m.data
  {
    hide Header, EntryAt, HeaderAt, EntryOf, AlignBlock;
    var a, at := front + MemberBytes(m) + rest, |front|;
    assert a[at..at + |MemberBytes(m)|] == MemberBytes(m);
    SliceInside(a, at, MemberBytes(m), 0, BLOCK);
    SliceInside(a, at, MemberBytes(m), BLOCK, |m.data|);
    assert MemberBytes(m)[0..BLOCK] == Header(m);
    assert MemberBytes(m)[BLOCK..BLOCK + |m.data|] == m.data;
    ReadsMember(a, at, m);
  }

  /** An archive reads as the members it was written from. */
  lemma ArchiveRoundTrip(ms: seq<Member>, rest: seq<Byte>)
    requires AllWritable(ms)
    ensures Walk(Archive(ms, rest), 0) == Entries(ms, 0)
  {
    hide Blocks, Walk, Entries;
    var tail := Zeros(2 * BLOCK) + rest;
    assert Archive(ms, rest) == [] + Blocks(ms) + tail;
    WalkMembers([], ms, tail);
  }

  // ----- lookup -----

  /** Entry i stands for member i and its data lies where the entry says. */
  lemma {:induction false} DataInPlace(front: seq<Byte>, ms: seq<Member>, tail: seq<Byte>, i: nat)
    requires AllWritable(ms) && i < |ms|
    ensures var e := Entries(ms, |front|)[i];
            var a := front + Blocks(ms) + tail;
            && e == EntryOf(ms[i], e.offset)
            && e.offset + BLOCK + |ms[i].data| <= |a| && a[e.offset + BLOCK..e.offset + BLOCK + |ms[i].data|] == ms[i].data
    decreases |ms|
  {
    hide MemberBytes, EntryOf, AlignBlock, HeaderAt, EntryAt, Blocks, Entries;
    var a, b := front + Blocks(ms) + tail, MemberBytes(ms[0]);
    BlocksFirst(ms);
    EntriesFirst(ms, |front|);
    if i == 0 {
      assert a == front + b + (Blocks(ms[1..]) + tail);
      MemberIn(front, ms[0], Blocks(ms[1..]) + tail);
      EntryPlace(ms[0], |front|);
    } else {
      assert a == (front + b) + Blocks(ms[1..]) + tail;
      DataInPlace(front + b, ms[1..], tail, i - 1);
      assert ms[i] == ms[1..][i - 1];
    }
  }

  lemma BlocksFirst(ms: seq<Member>)
    requires AllWritable(ms) && ms != []
    ensures Blocks(ms) == MemberBytes(ms[0]) + Blocks(ms[1..])
  {
    hide MemberBytes;
  }

  lemma EntriesFirst(ms: seq<Member>, at: nat)
    requires ms != []
    ensures Entries(ms, at) == [EntryOf(ms[0], at)] + Entries(ms[1..], at + BLOCK + AlignBlock(|ms[0].data|))
    ensures Entries(ms, at)[0] == EntryOf(ms[0], at)
    ensures forall i :: 0 < i < |ms| ==> Entries(ms, at)[i] == Entries(ms[1..], at + BLOCK + AlignBlock(|ms[0].data|))[i - 1]
  {
    hide EntryOf, AlignBlock;
  }

  lemma EntryPlace(m: Member, at: nat)
    ensures EntryOf(m, at).offset == at
  {
  }

  /** A member called n, n/ or ./n is found under n. */
  lemma PlainPath(m: Member, n: Path)
    requires m.name != [] && n != [] && Normal(n) && |n| + 2 <= 255
    requires FullName(m) == n || FullName(m) == n + [SLASH] || FullName(m) == [DOT, SLASH] + n
    ensures PathOf(m) == n
  {
    var s := FullName(m);
    if s == n + [SLASH] {
      assert !DotFirst(s) by { assert s[0] == n[0] && (|n| > 1 ==> s[1] == n[1]); }
      assert s[..|s| - 1] == n;
      assert TrimSlashes(s) == TrimSlashes(n) == n;
    } else if s == [DOT, SLASH] + n {
      assert s[1..] == [SLASH] + n && s[1..][1..] == n;
      assert SkipSlashes(s[1..]) == SkipSlashes(n) == n;
      assert SkipDots(s) == SkipDots(n) == n;
    }
  }

  /** Member i is the first with its path. */
  ghost predicate Reachable(ms: seq<Member>, i: nat) {
    && i < |ms| && PathOf(ms[i]) != [] && |PathOf(ms[i])| < 255
    && forall j :: 0 <= j < i ==> PathOf(ms[j]) != PathOf(ms[i])
  }

  /** Opening a member's path yields the member: its own bytes, a directory exactly when the type is '5', executable
      exactly when someone may execute it. */
  lemma MemberFound(ms: seq<Member>, rest: seq<Byte>, i: nat)
    requires AllWritable(ms) && Reachable(ms, i)
    ensures 0 !in [SLASH] + PathOf(ms[i])
    ensures Files.FileAt(Archive(ms, rest), [SLASH] + PathOf(ms[i])) ==
            Some(Programs.File([SLASH] + PathOf(ms[i]), ms[i].data, ms[i].typeflag == '5' as int,
              ms[i].user.execute || ms[i].group.execute || ms[i].other.execute))
  {
    hide Blocks, Walk, Normal, Entries, PathOf, Find;
    var m, a := ms[i], Archive(ms, rest);
    var n := PathOf(m);
    PathProper(m);
    var es := Entries(ms, 0);
    ArchiveRoundTrip(ms, rest);
    var tail := Zeros(2 * BLOCK) + rest;
    assert a == [] + Blocks(ms) + tail;
    DataInPlace([], ms, tail, i);
    forall j | 0 <= j < i ensures es[j].path != n {
      DataInPlace([], ms, tail, j);
    }
    FindFirst(es, n, i);
  }

  lemma PathProper(m: Member)
    requires Writable(m)
    ensures Normal(PathOf(m)) && 0 !in PathOf(m)
  {
    hide Normalize;
    NormalizeIsNormal(Clip(FullName(m)));
    D.NormalizeIn(Clip(FullName(m)));
  }

  lemma FindFirst(es: seq<Entry>, n: Path, i: nat)
    requires Normal(n) && n != [] && |n| < PATH_MAX && i < |es| && es[i].path == n && forall j :: 0 <= j < i ==> es[j].path != n
    ensures Find(es, [SLASH] + n) == Some(Node([SLASH] + n, Some((es[i].offset + BLOCK, es[i].size)), es[i].dir, es[i].exec))
  {
    hide Normalize, Normal;
    NormalIsFixed(n);
    assert FirstNamed(es, n, 0) == i;
  }

  lemma FindOthers(es: seq<Entry>, n: Path)
    requires Normal(n) && |n| < PATH_MAX && (n == [] || forall i :: 0 <= i < |es| ==> es[i].path != n)
    ensures Find(es, [SLASH] + n) == if n == [] || IsPrefix(es, n) then Some(Node([SLASH] + n, None, true, false)) else None
  {
    hide Normal, Normalize, IsPrefix;
    NormalIsFixed(n);
    assert n == [] ==> [SLASH] + n == [SLASH];
    assert n != [] ==> FirstNamed(es, n, 0) == |es|;
  }

  ghost predicate HasBelow(ms: seq<Member>, n: Path) {
    exists i :: 0 <= i < |ms| && Under(PathOf(ms[i]), n)
  }

  /** A path no member has is a directory if some member lies below it, as the root always is, and else nothing. */
  lemma OthersFound(ms: seq<Member>, rest: seq<Byte>, n: Path)
    requires AllWritable(ms) && Normal(n) && 0 !in n && |n| < 255 && (n == [] || forall i :: 0 <= i < |ms| ==> PathOf(ms[i]) != n)
    ensures Files.FileAt(Archive(ms, rest), [SLASH] + n) ==
            if n == [] || HasBelow(ms, n) then Some(Programs.File([SLASH] + n, [], true, false)) else None
  {
    hide Blocks, Walk, Normal, Entries, PathOf, Under, Find;
    var es := Entries(ms, 0);
    ArchiveRoundTrip(ms, rest);
    forall i | 0 <= i < |ms| ensures es[i].path == PathOf(ms[i]) {
      DataInPlace([], ms, Zeros(2 * BLOCK) + rest, i);
    }
    assert IsPrefix(es, n) <==> HasBelow(ms, n) by {
      forall i | 0 <= i < |ms| ensures Under(es[i].path, n) <==> Under(PathOf(ms[i]), n) {
      }
    }
    FindOthers(es, n);
  }
}
