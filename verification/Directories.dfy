/**
 Lookup agrees with listing, and the archive walks of fs/ramdisk.c as they are written.
 */
module Directories {
  import opened VirtualMemory
  import opened Wrappers
  import opened Ramdisk

  // ----- octal fields -----

  /** n octal digits, most significant first. */
  function OctalText(v: nat, n: nat): (s: seq<Byte>)
    ensures |s| == n && forall i :: 0 <= i < n ==> IsOctal(s[i])
  {
    if n == 0 then [] else OctalText(v / 8, n - 1) + [48 + v % 8]
  }

  function Pow8(n: nat): (r: nat) { if n == 0 then 1 else 8 * Pow8(n - 1) }

  lemma {:induction false} OctalDigitsConcat(s: seq<Byte>, t: seq<Byte>, v: nat)
    requires forall i :: 0 <= i < |s| ==> IsOctal(s[i])
    ensures OctalDigits(s + t, v) == OctalDigits(t, OctalDigits(s, v))
    decreases |s|
  {
    if s == [] {
      assert s + t == t;
    } else {
      assert (s + t)[1..] == s[1..] + t;
      OctalDigitsConcat(s[1..], t, v * 8 + (s[0] - 48));
    }
  }

  /** A field that holds n octal digits and then a terminator reads back as its value. */
  lemma {:induction false} OctalRoundTrip(v: nat, n: nat, tail: seq<Byte>)
    requires v < Pow8(n) && (tail == [] || !IsOctal(tail[0]))
    ensures n > 0 ==> Octal(OctalText(v, n) + tail) == v
    ensures OctalDigits(OctalText(v, n), 0) == v
    decreases n
  {
    if n > 0 {
      OctalRoundTrip(v / 8, n - 1, []);
      var head, last := OctalText(v / 8, n - 1), [48 + v % 8];
      OctalDigitsConcat(head, last, 0);
      assert last[1..] == [];
      OctalDigitsConcat(OctalText(v, n), tail, 0);
      assert SkipPadding(OctalText(v, n) + tail) == OctalText(v, n) + tail;
    }
  }

  /** Spaces and NULs in front of the digits do not matter. */
  lemma {:induction false} PaddingSkipped(pad: seq<Byte>, v: nat, n: nat, tail: seq<Byte>)
    requires 0 < n && v < Pow8(n) && (tail == [] || !IsOctal(tail[0])) && forall i :: 0 <= i < |pad| ==> pad[i] == 32 || pad[i] == 0
    ensures Octal(pad + OctalText(v, n) + tail) == v
    decreases |pad|
  {
    hide OctalText, OctalDigits;
    var s := pad + OctalText(v, n) + tail;
    if pad == [] {
      assert s == OctalText(v, n) + tail;
      OctalRoundTrip(v, n, tail);
    } else {
      assert s[1..] == pad[1..] + OctalText(v, n) + tail;
      PaddingSkipped(pad[1..], v, n, tail);
    }
  }

  // ----- every listed path is found -----

  ghost predicate AllNormal(es: seq<Entry>) {
    forall i :: 0 <= i < |es| ==> Normal(es[i].path)
  }

  function FullPath(d: Path, name: Path): (p: Path) {
    if d == [] then name else d + [SLASH] + name
  }

  /** The child's path is the entry's own, or the part of it before a slash. */
  lemma ChildIsPrefix(p: Path, d: Path)
    requires ChildOf(p, d).Some?
    ensures var c := ChildOf(p, d).value;
            var cp := FullPath(d, c.name);
            && cp <= p && cp != [] && cp[|cp| - 1] != SLASH
            && (if c.nested then Under(p, cp) else cp == p)
  {
    var c := ChildOf(p, d).value;
    var rel := if d == [] then p else p[|d| + 1..];
    var n := ComponentLength(rel);
    hide ComponentLength;
    if d != [] {
      assert p[..|d| + 1] == d + [SLASH];
      assert p == d + [SLASH] + rel;
      assert FullPath(d, c.name) == p[..|d| + 1 + n];
    }
  }

  /** An entry shows a child of d exactly when its path is d/name, or goes on below that. */
  lemma ChildExactly(p: Path, d: Path, name: Path, nested: bool)
    ensures ChildOf(p, d) == Some(Child(name, nested)) <==>
            && name != [] && SLASH !in name
            && (if nested then Under(p, FullPath(d, name)) else p == FullPath(d, name))
  {
    if ChildOf(p, d).Some? {
      ChildIsPrefix(p, d);
      ChildName(p, d);
    }
    if name != [] && SLASH !in name && (if nested then Under(p, FullPath(d, name)) else p == FullPath(d, name)) {
      ChildShown(p, d, name, nested);
    }
  }

  lemma ChildName(p: Path, d: Path)
    requires ChildOf(p, d).Some?
    ensures ChildOf(p, d).value.name != [] && SLASH !in ChildOf(p, d).value.name
  {
  }

  lemma {:induction false} ComponentIs(s: Path, name: Path)
    requires name <= s && SLASH !in name && (|name| < |s| ==> s[|name|] == SLASH)
    ensures ComponentLength(s) == |name|
  {
    if name != [] {
      assert name[0] in name && s[0] == name[0];
      ComponentIs(s[1..], name[1..]);
    }
  }

  lemma ChildShown(p: Path, d: Path, name: Path, nested: bool)
    requires name != [] && SLASH !in name && (if nested then Under(p, FullPath(d, name)) else p == FullPath(d, name))
    ensures ChildOf(p, d) == Some(Child(name, nested))
  {
    hide ComponentLength;
    var cp := FullPath(d, name);
    assert cp <= p;
    var rel := if d == [] then p else p[|d| + 1..];
    if d != [] {
      assert cp[..|d|] == d && cp[|d|] == SLASH && cp[|d| + 1..] == name;
      assert p[..|d|] == d && p[|d|] == SLASH;
      assert p[|d| + 1..|cp|] == name;
    }
    assert rel[..|name|] == name;
    ComponentIs(rel, name);
  }

  // ----- normalising -----

  /** A run of slashes and `./` in front of a path. */
  function Leading(dots: seq<bool>): (s: Path) {
    if dots == [] then [] else (if dots[0] then [DOT, SLASH] else [SLASH]) + Leading(dots[1..])
  }

  function Slashes(n: nat): (s: Path)
    ensures |s| == n
  {
    if n == 0 then [] else Slashes(n - 1) + [SLASH]
  }

  /** Normalising takes leading slashes and `./` and trailing slashes off, and nothing else. */
  lemma NormalizeStrips(dots: seq<bool>, n: Path, k: nat)
    requires n != [] && Normal(n) && |n| + k <= 255
    ensures Normalize(Leading(dots) + n + Slashes(k)) == n
  {
    hide TrimSlashes, SkipDots, SkipSlashes;
    var t := n + Slashes(k);
    assert Leading(dots) + n + Slashes(k) == Leading(dots) + t;
    assert t[0] == n[0] && (|n| > 1 ==> t[1] == n[1]);
    FirstTrailing(n, k);
    SkipLeading(dots, t);
    TrimTrailing(n, k);
  }

  lemma FirstTrailing(n: Path, k: nat)
    requires n != [] && Normal(n)
    ensures !DotFirst(n + Slashes(k))
  {
  }

  lemma {:induction false} SkipLeading(dots: seq<bool>, t: Path)
    requires t != [] && t[0] != SLASH && !DotFirst(t)
    ensures SkipDots(SkipSlashes(Leading(dots) + t)) == t
  {
    var s := Leading(dots) + t;
    if dots == [] {
      assert s == t;
    } else {
      var rest := Leading(dots[1..]) + t;
      SkipLeading(dots[1..], t);
      hide SkipDots, SkipSlashes;
      SlashSkipped(rest);
      if dots[0] {
        assert s == [DOT, SLASH] + rest;
        DotSkipped(rest);
      } else {
        assert s == [SLASH] + rest;
      }
    }
  }

  lemma SlashSkipped(s: Path)
    ensures SkipSlashes([SLASH] + s) == SkipSlashes(s)
  {
    assert ([SLASH] + s)[1..] == s;
  }

  lemma DotSkipped(s: Path)
    ensures SkipDots(SkipSlashes([DOT, SLASH] + s)) == SkipDots(SkipSlashes(s))
  {
    assert ([DOT, SLASH] + s)[1..] == [SLASH] + s;
    SlashSkipped(s);
  }

  lemma {:induction false} TrimTrailing(n: Path, k: nat)
    requires n != [] && n[|n| - 1] != SLASH
    ensures TrimSlashes(n + Slashes(k)) == n
  {
    var s := n + Slashes(k);
    if k > 0 {
      assert s[..|s| - 1] == n + Slashes(k - 1);
      TrimTrailing(n, k - 1);
    } else {
      assert s == n;
    }
  }

  lemma ChildPathNormal(p: Path, d: Path)
    requires ChildOf(p, d).Some? && Normal(p)
    ensures Normal(FullPath(d, ChildOf(p, d).value.name))
  {
    hide ChildOf;
    ChildIsPrefix(p, d);
    var cp := FullPath(d, ChildOf(p, d).value.name);
    assert cp[0] == p[0];
    assert |cp| > 1 ==> cp[1] == p[1];
  }

  /** No entry names a file at a proper prefix of this path. */
  ghost predicate NoFileAbove(es: seq<Entry>, p: Path) {
    forall i :: 0 <= i < |es| && Under(p, es[i].path) ==> es[i].dir
  }

  /** Looking up a listed path succeeds under the same name: with the same data, size and kind for an
      entry of its own, and as a directory for a name shown only by deeper entries. */
  lemma ListedIsFound(es: seq<Entry>, path: Path, k: nat)
    requires AllNormal(es) && k < |Shown(es, Normalize(path), |es|)|
    requires |FullPath(Normalize(path), NameAt(es, Normalize(path), k))| < PATH_MAX
    ensures ReadDir(es, path, k).Some?
    ensures var node := ReadDir(es, path, k).value;
            var e := es[Shown(es, Normalize(path), |es|)[k]];
            var found := Find(es, node.path);
            && ChildOf(e.path, Normalize(path)).Some?
            && found.Some? && found.value.path == node.path
            && (!ChildOf(e.path, Normalize(path)).value.nested ==> found.value.data == node.data && found.value.dir == node.dir)
            && (ChildOf(e.path, Normalize(path)).value.nested && NoFileAbove(es, e.path) ==> found.value.dir && node.dir)
  {
    hide ChildOf, Shown, Normalize, Under;
    var d := Normalize(path);
    var s := Shown(es, d, |es|)[k];
    ShownFirst(es, d, |es|, k);
    var e, c := es[s], ChildOf(es[s].path, d).value;
    var cp := FullPath(d, c.name);
    ChildIsPrefix(e.path, d);
    ChildPathNormal(e.path, d);
    NormalIsFixed(cp);
    assert Public(ChildPath(d, c.name)) == [SLASH] + cp;
    var i := FirstNamed(es, cp, 0);
    if !c.nested {
      assert Names(es, d, i, c.name);
      assert i == s;
    } else {
      assert IsPrefix(es, cp);
    }
  }

  // ----- the walks -----

  lemma {:induction false} WalkFrom(a: seq<Byte>, at: nat, i: nat)
    requires HeaderAt(a, at) && i <= |Walk(a, 0)| && Walk(a, 0)[i..] == Walk(a, at)
    ensures i < |Walk(a, 0)| && Walk(a, 0)[i] == EntryAt(a, at)
    ensures Walk(a, 0)[i + 1..] == Walk(a, NextHeader(a, at))
  {
    hide HeaderAt, EntryAt, NextHeader;
    HeaderFits(a, at);
    var rest := Walk(a, NextHeader(a, at));
    assert Walk(a, at) == [EntryAt(a, at)] + rest;
    assert Walk(a, 0)[i..][1..] == rest;
    assert Walk(a, 0)[i..][0] == EntryAt(a, at);
  }

  method ParseOctal(text: seq<Byte>) returns (value: nat)
    ensures value == Octal(text)
  {
    value := 0;
    var i := 0;
    while i < |text| && (text[i] == 32 || text[i] == 0)
      invariant i <= |text| && SkipPadding(text[i..]) == SkipPadding(text)
    {
      assert text[i..][1..] == text[i + 1..];
      i := i + 1;
    }
    while i < |text|
      invariant i <= |text| && OctalDigits(text[i..], value) == Octal(text)
    {
      if !IsOctal(text[i]) {
        break;
      }
      assert text[i..][1..] == text[i + 1..];
      value := value * 8 + (text[i] - 48);
      i := i + 1;
    }
  }

  method NormalizePath(path: Path) returns (r: Path)
    ensures r == Normalize(path)
  {
    var p := path;
    while p != [] && p[0] == SLASH
      invariant SkipSlashes(p) == SkipSlashes(path)
      decreases |p|
    {
      p := p[1..];
    }
    ghost var start := SkipSlashes(path);
    assert p == start;
    while DotFirst(p)
      invariant p == [] || p[0] != SLASH
      invariant SkipDots(p) == SkipDots(start)
      decreases |p|
    {
      p := p[1..];
      ghost var q := p;
      while p != [] && p[0] == SLASH
        invariant SkipSlashes(p) == SkipSlashes(q) && |p| <= |q|
        decreases |p|
      {
        p := p[1..];
      }
    }
    r := [];
    var i := 0;
    while i < |p| && |r| + 1 < 256
      invariant i <= |p| && r == p[..i] && i <= PATH_MAX
    {
      r := r + [p[i]];
      i := i + 1;
    }
    assert r == Clip(p);
    while r != [] && r[|r| - 1] == SLASH
      invariant TrimSlashes(r) == TrimSlashes(Clip(p))
      decreases |r|
    {
      r := r[..|r| - 1];
    }
  }

  /** xbks_ramdisk_find: one walk that returns at an exact match and remembers a prefix. */
  method FindPath(a: seq<Byte>, path: Path) returns (r: Option<Node>)
    ensures r == Find(Walk(a, 0), path)
  {
    hide HeaderAt, EntryAt, NextHeader, Walk, Normalize, Under;
    var n := NormalizePath(path);
    if n == [] {
      return Some(DirNode([]));
    }
    ghost var es := Walk(a, 0);
    var at, prefix := 0, false;
    ghost var i := 0;
    assert es[0..] == es;
    while HeaderAt(a, at)
      invariant i <= |es| && es[i..] == Walk(a, at)
      invariant FirstNamed(es, n, i) == FirstNamed(es, n, 0)
      invariant prefix <==> exists j :: 0 <= j < i && Under(es[j].path, n)
      decreases |es| - i
    {
      WalkFrom(a, at, i);
      HeaderFits(a, at);
      var e := EntryAt(a, at);
      if e.path == n {
        return Some(FileNode(e));
      }
      if Under(e.path, n) {
        prefix := true;
      }
      at := NextHeader(a, at);
      i := i + 1;
    }
    WalkEnds(a, at);
    if prefix {
      return Some(DirNode(n));
    }
    r := None;
  }

  lemma HeaderFits(a: seq<Byte>, at: nat)
    requires HeaderAt(a, at)
    ensures at + BLOCK <= |a|
  {
  }

  lemma WalkEnds(a: seq<Byte>, at: nat)
    requires !HeaderAt(a, at)
    ensures Walk(a, at) == []
  {
  }

  /** child_seen_before: a second walk, up to the header being looked at. */
  method SeenBefore(a: seq<Byte>, d: Path, name: Path, limit: nat, ghost n: nat) returns (seen: bool)
    requires n < |Walk(a, 0)| && Walk(a, 0)[n].offset == limit
    ensures seen <==> exists j :: 0 <= j < n && Names(Walk(a, 0), d, j, name)
  {
    hide HeaderAt, EntryAt, NextHeader, Walk, ChildOf;
    ghost var es := Walk(a, 0);
    var at: nat := 0;
    ghost var i := 0;
    assert es[0..] == es;
    while at < limit && HeaderAt(a, at)
      invariant i <= n && es[i..] == Walk(a, at)
      invariant forall j :: 0 <= j < i ==> !Names(es, d, j, name)
      decreases n - i
    {
      WalkFrom(a, at, i);
      HeaderFits(a, at);
      WhereInWalk(a, at, i, n, limit);
      var e := EntryAt(a, at);
      var c := ChildOf(e.path, d);
      if c.Some? && c.value.name == name {
        assert Names(es, d, i, name);
        return true;
      }
      at := NextHeader(a, at);
      i := i + 1;
    }
    WhereInWalk(a, at, i, n, limit);
    if at < limit {
      WalkEnds(a, at);
    }
    seen := false;
  }

  /** xbks_ramdisk_read_dir: duplicates are recognised by walking the archive again. */
  method ReadDirectory(a: seq<Byte>, path: Path, index: nat) returns (r: Option<Node>)
    ensures r == ReadDir(Walk(a, 0), path, index)
  {
    hide HeaderAt, EntryAt, NextHeader, Walk, ChildOf, Normalize, ChildNode;
    var d := NormalizePath(path);
    ghost var es := Walk(a, 0);
    var at, position := 0, 0;
    ghost var i := 0;
    assert es[0..] == es;
    while HeaderAt(a, at)
      invariant i <= |es| && es[i..] == Walk(a, at)
      invariant position == |Shown(es, d, i)| <= index
      decreases |es| - i
    {
      WalkFrom(a, at, i);
      HeaderFits(a, at);
      var e := EntryAt(a, at);
      assert e.offset == at by { EntryOffset(a, at); }
      var c := ChildOf(e.path, d);
      if c.Some? {
        var seen := SeenBefore(a, d, c.value.name, at, i);
        if !seen {
          assert FirstShown(es, d, i);
          if position == index {
            ShownAt(es, d, i, |es|);
            return Some(ChildNode(e, d));
          }
          position := position + 1;
        }
      }
      at := NextHeader(a, at);
      i := i + 1;
    }
    WalkEnds(a, at);
    r := None;
  }

  lemma EntryOffset(a: seq<Byte>, at: nat)
    requires at + BLOCK <= |a|
    ensures EntryAt(a, at).offset == at
  {
  }

  /** Entry i keeps its place in the listing as the walk goes on. */
  lemma {:induction false} ShownAt(es: seq<Entry>, d: Path, i: nat, n: nat)
    requires i < n <= |es| && FirstShown(es, d, i)
    ensures |Shown(es, d, i)| < |Shown(es, d, n)| && Shown(es, d, n)[|Shown(es, d, i)|] == i
    decreases n
  {
    hide FirstShown;
    if i < n - 1 {
      ShownAt(es, d, i, n - 1);
    }
  }

  /** Offsets along the walk increase. */
  lemma {:induction false} OffsetsFrom(a: seq<Byte>, at: nat, j: nat)
    requires j < |Walk(a, at)|
    ensures Walk(a, at)[j].offset >= at && (Walk(a, at)[j].offset == at ==> j == 0)
    decreases j
  {
    hide TarPath, FileSize, ZeroBlock, Octal;
    if j > 0 {
      OffsetsFrom(a, NextHeader(a, at), j - 1);
    }
  }

  lemma WhereInWalk(a: seq<Byte>, at: nat, i: nat, n: nat, limit: nat)
    requires i <= n < |Walk(a, 0)| && Walk(a, 0)[i..] == Walk(a, at) && Walk(a, 0)[n].offset == limit
    ensures at < limit <==> i < n
  {
    hide Walk;
    assert Walk(a, at)[n - i] == Walk(a, 0)[n];
    OffsetsFrom(a, at, n - i);
    if i == n {
      FirstOffset(a, at);
    }
  }

  lemma FirstOffset(a: seq<Byte>, at: nat)
    requires |Walk(a, at)| > 0
    ensures Walk(a, at)[0].offset == at
  {
  }
}
