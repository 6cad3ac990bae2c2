/**
 The ustar ramdisk of fs/ramdisk.c: paths, the walk over the archive, lookup and directory
 listing, each as a simple function of the list of entries.
 */
module Ramdisk {
  import opened VirtualMemory
  import opened Wrappers

  const SLASH: Byte := 47
  const DOT: Byte := 46
  const BLOCK: nat := 512
  const PATH_MAX: nat := 255   // characters that fit a 256-byte path buffer

  type Path = seq<Byte>

  // ----- text fields -----

  /** The bytes before the first NUL. */
  function UpToNul(s: seq<Byte>): (r: seq<Byte>) {
    if s == [] || s[0] == 0 then [] else [s[0]] + UpToNul(s[1..])
  }

  function SkipPadding(s: seq<Byte>): (r: seq<Byte>)
    ensures |r| <= |s|
  {
    if s != [] && (s[0] == 32 || s[0] == 0) then SkipPadding(s[1..]) else s
  }

  predicate IsOctal(b: Byte) { 48 <= b <= 55 }

  function OctalDigits(s: seq<Byte>, value: nat): (v: nat)
    decreases |s|
  {
    if s == [] || !IsOctal(s[0]) then value else OctalDigits(s[1..], value * 8 + (s[0] - 48))
  }

  function Octal(s: seq<Byte>): (v: nat) {
    OctalDigits(SkipPadding(s), 0)
  }

  // ----- paths -----

  function Clip(s: Path): (r: Path)
    ensures |r| <= PATH_MAX && (|s| <= PATH_MAX ==> r == s)
  {
    if |s| <= PATH_MAX then s else s[..PATH_MAX]
  }

  function SkipSlashes(s: Path): (r: Path)
    ensures |r| <= |s| && (r == [] || r[0] != SLASH)
  {
    if s != [] && s[0] == SLASH then SkipSlashes(s[1..]) else s
  }

  /** The path begins with a `.` component. */
  predicate DotFirst(s: Path) {
    s != [] && s[0] == DOT && (|s| == 1 || s[1] == SLASH)
  }

  function SkipDots(s: Path): (r: Path)
    requires s == [] || s[0] != SLASH
    ensures !DotFirst(r) && (r == [] || r[0] != SLASH)
    decreases |s|
  {
    if DotFirst(s) then SkipDots(SkipSlashes(s[1..])) else s
  }

  function TrimSlashes(s: Path): (r: Path)
    ensures r <= s && (r == [] || r[|r| - 1] != SLASH)
  {
    if s != [] && s[|s| - 1] == SLASH then TrimSlashes(s[..|s| - 1]) else s
  }

  function Normalize(s: Path): (r: Path) {
    TrimSlashes(Clip(SkipDots(SkipSlashes(s))))
  }

  function Public(n: Path): (r: Path) {
    if n == [] then [SLASH] else Clip([SLASH] + n)
  }

  /** What normalisation produces. */
  predicate Normal(s: Path) {
    |s| <= PATH_MAX && !DotFirst(s) && (s != [] ==> s[0] != SLASH && s[|s| - 1] != SLASH)
  }

  lemma TrimKeepsHead(t: Path)
    requires !DotFirst(t) && (t == [] || t[0] != SLASH)
    ensures !DotFirst(TrimSlashes(t))
  {
    var r := TrimSlashes(t);
    if r == [DOT] && |t| > 1 {
      TrimmedAreSlashes(t, 1);
    }
  }

  lemma {:induction false} TrimmedAreSlashes(t: Path, i: nat)
    requires |TrimSlashes(t)| <= i < |t|
    ensures t[i] == SLASH
  {
    if i < |t| - 1 {
      TrimmedAreSlashes(t[..|t| - 1], i);
    }
  }

  lemma NormalizeIsNormal(s: Path)
    ensures Normal(Normalize(s))
  {
    var t := Clip(SkipDots(SkipSlashes(s)));
    TrimKeepsHead(t);
  }

  /** Normal paths are fixed, with or without the leading slash of their public form. */
  lemma NormalIsFixed(n: Path)
    requires Normal(n)
    ensures Normalize(n) == n && Normalize([SLASH] + n) == n
  {
    assert ([SLASH] + n)[1..] == n;
    assert SkipSlashes([SLASH] + n) == SkipSlashes(n) == n;
  }

  // ----- entries -----

  /** `path` is normalised and empty when the header has no usable name. */
  datatype Entry = Entry(offset: nat, path: Path, size: nat, dir: bool, exec: bool)

  predicate ZeroBlock(a: seq<Byte>, at: nat)
    requires at + BLOCK <= |a|
  {
    forall i :: at <= i < at + BLOCK ==> a[i] == 0
  }

  function AlignBlock(n: nat): (r: nat)
    ensures n <= r < n + BLOCK && r % BLOCK == 0
  {
    (n + BLOCK - 1) / BLOCK * BLOCK
  }

  function TarPath(a: seq<Byte>, at: nat): (p: Path)
    requires at + BLOCK <= |a|
  {
    var name, prefix := UpToNul(a[at..at + 100]), UpToNul(a[at + 345..at + 500]);
    if name == [] then [] else Normalize(Clip(if prefix == [] then name else prefix + [SLASH] + name))
  }

  function FileSize(a: seq<Byte>, at: nat): (n: nat)
    requires at + BLOCK <= |a|
  {
    Octal(a[at + 124..at + 136])
  }

  function EntryAt(a: seq<Byte>, at: nat): (e: Entry)
    requires at + BLOCK <= |a|
  {
    Entry(at, TarPath(a, at), FileSize(a, at), a[at + 156] == 53, HasExecuteBit(Octal(a[at + 100..at + 108])))
  }

  /** mode & 0111. */
  predicate HasExecuteBit(mode: nat) {
    mode % 2 == 1 || mode / 8 % 2 == 1 || mode / 64 % 2 == 1
  }

  /** A header stands at this offset and its data lies in the archive. */
  predicate HeaderAt(a: seq<Byte>, at: nat) {
    at + BLOCK <= |a| && !ZeroBlock(a, at) && FileSize(a, at) <= |a| - (at + BLOCK)
  }

  function NextHeader(a: seq<Byte>, at: nat): (r: nat)
    requires at + BLOCK <= |a|
    ensures r >= at + BLOCK
  {
    at + BLOCK + AlignBlock(FileSize(a, at))
  }

  function Walk(a: seq<Byte>, at: nat): (es: seq<Entry>)
    decreases |a| - at
  {
    if HeaderAt(a, at) then [EntryAt(a, at)] + Walk(a, NextHeader(a, at)) else []
  }

  lemma {:induction false} WalkedEntry(a: seq<Byte>, at: nat, i: nat)
    requires i < |Walk(a, at)|
    ensures Normal(Walk(a, at)[i].path) && Walk(a, at)[i].offset + BLOCK + Walk(a, at)[i].size <= |a|
    decreases i
  {
    hide TarPath, FileSize, ZeroBlock, Octal;
    if i == 0 {
      TarPathNormal(a, at);
    } else {
      WalkedEntry(a, NextHeader(a, at), i - 1);
    }
  }

  lemma TarPathNormal(a: seq<Byte>, at: nat)
    requires at + BLOCK <= |a|
    ensures Normal(TarPath(a, at))
  {
    var name, prefix := UpToNul(a[at..at + 100]), UpToNul(a[at + 345..at + 500]);
    NormalizeIsNormal(Clip(if prefix == [] then name else prefix + [SLASH] + name));
  }

  // ----- lookup -----

  predicate Under(p: Path, d: Path) {
    d < p && p[|d|] == SLASH
  }

  /** What a path names: data position and size, None for a directory known only as a prefix. */
  datatype Node = Node(path: Path, data: Option<(nat, nat)>, dir: bool, exec: bool)

  function DirNode(n: Path): (f: Node) { Node(Public(n), None, true, false) }

  function FileNode(e: Entry): (f: Node) {
    Node(Public(e.path), Some((e.offset + BLOCK, e.size)), e.dir, e.exec)
  }

  /** The first entry from i on with this path, or |es|. */
  function FirstNamed(es: seq<Entry>, n: Path, i: nat): (r: nat)
    requires i <= |es|
    ensures i <= r <= |es| && (r < |es| ==> es[r].path == n)
    ensures forall j :: i <= j < r ==> es[j].path != n
    decreases |es| - i
  {
    if i == |es| || es[i].path == n then i else FirstNamed(es, n, i + 1)
  }

  predicate IsPrefix(es: seq<Entry>, n: Path) {
    exists i :: 0 <= i < |es| && Under(es[i].path, n)
  }

  function Find(es: seq<Entry>, path: Path): (r: Option<Node>) {
    var n := Normalize(path);
    if n == [] then Some(DirNode([]))
    else
      var i := FirstNamed(es, n, 0);
      if i < |es| then Some(FileNode(es[i]))
      else if IsPrefix(es, n) then Some(DirNode(n))
      else None
  }

  // ----- directories -----

  function ComponentLength(s: Path): (n: nat)
    ensures n <= |s| && (n < |s| ==> s[n] == SLASH) && forall i :: 0 <= i < n ==> s[i] != SLASH
  {
    if s == [] || s[0] == SLASH then 0 else 1 + ComponentLength(s[1..])
  }

  datatype Child = Child(name: Path, nested: bool)

  /** The component of p just below directory d. */
  function ChildOf(p: Path, d: Path): (c: Option<Child>) {
    if d != [] && !Under(p, d) then None
    else
      var rel := if d == [] then p else p[|d| + 1..];
      var n := ComponentLength(rel);
      if n == 0 then None else Some(Child(rel[..n], n < |rel|))
  }

  predicate Names(es: seq<Entry>, d: Path, i: nat, name: Path)
    requires i < |es|
  {
    ChildOf(es[i].path, d).Some? && ChildOf(es[i].path, d).value.name == name
  }

  /** Entry i is the first to show its child of d. */
  predicate FirstShown(es: seq<Entry>, d: Path, i: nat)
    requires i < |es|
  {
    ChildOf(es[i].path, d).Some? && forall j :: 0 <= j < i ==> !Names(es, d, j, ChildOf(es[i].path, d).value.name)
  }

  /** The entries among the first n that first show a child of d, in order: one for each distinct child. */
  function Shown(es: seq<Entry>, d: Path, n: nat): (r: seq<nat>)
    requires n <= |es|
    ensures forall k :: 0 <= k < |r| ==> r[k] < n
  {
    if n == 0 then []
    else Shown(es, d, n - 1) + (if FirstShown(es, d, n - 1) then [n - 1] else [])
  }

  function ChildPath(d: Path, name: Path): (p: Path) {
    Clip(if d == [] then name else d + [SLASH] + name)
  }

  function ChildNode(e: Entry, d: Path): (f: Node)
    requires ChildOf(e.path, d).Some?
  {
    var c := ChildOf(e.path, d).value;
    var dir := c.nested || e.dir;
    Node(Public(ChildPath(d, c.name)), if c.nested then None else Some((e.offset + BLOCK, e.size)), dir, !dir && e.exec)
  }

  function ReadDir(es: seq<Entry>, path: Path, index: nat): (r: Option<Node>) {
    var d := Normalize(path);
    var shown := Shown(es, d, |es|);
    if index < |shown| then ShownFirst(es, d, |es|, index); Some(ChildNode(es[shown[index]], d)) else None
  }

  // ----- what a listing is -----

  lemma {:induction false} ShownFirst(es: seq<Entry>, d: Path, n: nat, k: nat)
    requires n <= |es| && k < |Shown(es, d, n)|
    ensures FirstShown(es, d, Shown(es, d, n)[k])
    decreases n
  {
    hide FirstShown;
    if k < |Shown(es, d, n - 1)| {
      ShownFirst(es, d, n - 1, k);
    }
  }

  lemma {:induction false} ShownOrdered(es: seq<Entry>, d: Path, n: nat, j: nat, k: nat)
    requires n <= |es| && j < k < |Shown(es, d, n)|
    ensures Shown(es, d, n)[j] < Shown(es, d, n)[k]
    decreases n
  {
    hide FirstShown;
    if k < |Shown(es, d, n - 1)| {
      ShownOrdered(es, d, n - 1, j, k);
    }
  }

  lemma {:induction false} ShownAll(es: seq<Entry>, d: Path, n: nat, i: nat) returns (k: nat)
    requires i < n <= |es| && FirstShown(es, d, i)
    ensures k < |Shown(es, d, n)| && Shown(es, d, n)[k] == i
    decreases n
  {
    hide FirstShown;
    if i == n - 1 {
      k := |Shown(es, d, n - 1)|;
    } else {
      k := ShownAll(es, d, n - 1, i);
    }
  }

  lemma {:induction false} FirstOf(es: seq<Entry>, d: Path, i: nat) returns (j: nat)
    requires i < |es| && ChildOf(es[i].path, d).Some?
    ensures j <= i && FirstShown(es, d, j) && Names(es, d, j, ChildOf(es[i].path, d).value.name)
  {
    hide ChildOf;
    if FirstShown(es, d, i) {
      j := i;
    } else {
      var k :| 0 <= k < i && Names(es, d, k, ChildOf(es[i].path, d).value.name);
      j := FirstOf(es, d, k);
    }
  }

  ghost predicate HasChild(es: seq<Entry>, d: Path, name: Path) {
    exists i :: 0 <= i < |es| && Names(es, d, i, name)
  }

  function NameAt(es: seq<Entry>, d: Path, k: nat): (name: Path)
    requires k < |Shown(es, d, |es|)|
  {
    ShownFirst(es, d, |es|, k);
    ChildOf(es[Shown(es, d, |es|)[k]].path, d).value.name
  }

  /** A listing shows every child name exactly once, in the order of first appearance. */
  lemma ListingIsExact(es: seq<Entry>, d: Path)
    ensures forall name: Path :: HasChild(es, d, name) <==> exists k :: 0 <= k < |Shown(es, d, |es|)| && NameAt(es, d, k) == name
    ensures forall j, k :: 0 <= j < k < |Shown(es, d, |es|)| ==> NameAt(es, d, j) != NameAt(es, d, k)
    ensures forall j, k :: 0 <= j < k < |Shown(es, d, |es|)| ==> Shown(es, d, |es|)[j] < Shown(es, d, |es|)[k]
  {
    hide ChildOf, Shown;
    forall name: Path ensures HasChild(es, d, name) <==> exists k :: 0 <= k < |Shown(es, d, |es|)| && NameAt(es, d, k) == name {
      if HasChild(es, d, name) {
        var i :| 0 <= i < |es| && Names(es, d, i, name);
        var j := FirstOf(es, d, i);
        var k := ShownAll(es, d, |es|, j);
        assert NameAt(es, d, k) == name;
      }
      if exists k :: 0 <= k < |Shown(es, d, |es|)| && NameAt(es, d, k) == name {
        var k :| 0 <= k < |Shown(es, d, |es|)| && NameAt(es, d, k) == name;
        ShownFirst(es, d, |es|, k);
        assert Names(es, d, Shown(es, d, |es|)[k], name);
      }
    }
    forall j, k | 0 <= j < k < |Shown(es, d, |es|)|
      ensures NameAt(es, d, j) != NameAt(es, d, k) && Shown(es, d, |es|)[j] < Shown(es, d, |es|)[k]
    {
      ShownOrdered(es, d, |es|, j, k);
      ShownFirst(es, d, |es|, j);
      ShownFirst(es, d, |es|, k);
      assert Names(es, d, Shown(es, d, |es|)[j], NameAt(es, d, j));
    }
  }
}
