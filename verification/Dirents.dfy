/**
 getdents64: directory entries packed into user buffers, call after call.
 */
module Dirents {
  import opened VirtualMemory
  import opened Wrappers
  import opened Paging
  import P = Programs
  import opened Ramdisk
  import opened Directories

  const DT_DIR: Byte := 4
  const DT_REG: Byte := 8
  const HEADER: nat := 24      // sizeof(struct linux_dirent64), padding included
  const NAME_AT: nat := 19     // offset of d_name

  /** A record as a reader of the buffer sees it. */
  datatype Dirent = Dirent(ino: nat, off: nat, kind: Byte, name: Path)

  /** What follows the last slash. */
  function LastComponent(p: Path): (r: Path)
    ensures |r| <= |p|
  {
    if p == [] || p[|p| - 1] == SLASH then [] else LastComponent(p[..|p| - 1]) + [p[|p| - 1]]
  }

  function RecordLength(name: Path): (n: nat)
    ensures HEADER + |name| + 1 <= n < HEADER + |name| + 9 && n % 8 == 0
  {
    (HEADER + |name| + 1 + 7) / 8 * 8
  }

  /** The record of the k-th child. */
  function Record(node: Node, k: nat): (d: Dirent) {
    Dirent((k + 1) % WORD_LIMIT, (k + 1) % WORD_LIMIT, if node.dir then DT_DIR else DT_REG, LastComponent(node.path))
  }

  // ----- reading a buffer back -----

  function NulLength(b: seq<Byte>): (n: nat)
    ensures n <= |b|
  {
    if b == [] || b[0] == 0 then 0 else 1 + NulLength(b[1..])
  }

  /** The fields of one record, read from its own bytes. */
  function DirentOf(r: seq<Byte>): (d: Dirent)
    requires |r| >= HEADER
  {
    Dirent(P.Field(r, 0, 8), P.Field(r, 8, 8), r[18], r[NAME_AT..][..NulLength(r[NAME_AT..])])
  }

  function ReclenAt(b: seq<Byte>, at: nat): (n: nat)
    requires at + HEADER <= |b|
  {
    P.Field(b, at + 16, 2)
  }

  /** A whole record with an aligned start stands at this place. */
  predicate RecordAt(b: seq<Byte>, at: nat) {
    at % 8 == 0 && at + HEADER <= |b| && HEADER <= ReclenAt(b, at) && at + ReclenAt(b, at) <= |b|
  }

  /** The records chained by d_reclen from `at` to exactly the end. */
  function ReadRecords(b: seq<Byte>, at: nat): (r: Option<seq<Dirent>>)
    decreases |b| - at
  {
    if at == |b| then Some([])
    else if !RecordAt(b, at) then None
    else
      var rest := ReadRecords(b, at + ReclenAt(b, at));
      if rest.None? then None else Some([DirentOf(b[at..at + ReclenAt(b, at)])] + rest.value)
  }

  // ----- how many records a call delivers -----

  /** The number of children from k on whose records fit into `room` bytes. */
  function Fitting(nodes: seq<Node>, k: nat, room: nat): (n: nat)
    ensures k <= |nodes| ==> k + n <= |nodes|
    decreases |nodes| - k
  {
    if k < |nodes| && RecordLength(LastComponent(nodes[k].path)) <= room
    then 1 + Fitting(nodes, k + 1, room - RecordLength(LastComponent(nodes[k].path)))
    else 0
  }

  function Records(nodes: seq<Node>, k: nat, n: nat): (r: seq<Dirent>)
    requires k + n <= |nodes|
    ensures |r| == n
    decreases n
  {
    if n == 0 then [] else [Record(nodes[k], k)] + Records(nodes, k + 1, n - 1)
  }

  /** Everything delivered by calls with these buffer sizes, starting at child k. */
  function Delivered(nodes: seq<Node>, k: nat, counts: seq<nat>): (r: seq<Dirent>)
    requires k <= |nodes|
    decreases |counts|
  {
    if counts == [] then []
    else Records(nodes, k, Fitting(nodes, k, counts[0])) + Delivered(nodes, k + Fitting(nodes, k, counts[0]), counts[1..])
  }

  /** Each call's buffer holds at least the next record. */
  predicate Adequate(nodes: seq<Node>, k: nat, counts: seq<nat>)
    requires k <= |nodes|
    decreases |counts|
  {
    counts != [] ==>
      && (k < |nodes| ==> RecordLength(LastComponent(nodes[k].path)) <= counts[0])
      && Adequate(nodes, k + Fitting(nodes, k, counts[0]), counts[1..])
  }

  lemma {:induction false} RecordsConcat(nodes: seq<Node>, k: nat, m: nat, n: nat)
    requires k + m + n <= |nodes|
    ensures Records(nodes, k, m + n) == Records(nodes, k, m) + Records(nodes, k + m, n)
    decreases m
  {
    hide Record;
    if m > 0 {
      RecordsConcat(nodes, k + 1, m - 1, n);
      assert (k + 1) + (m - 1) == k + m;
    }
  }

  /** How far these calls move the directory's offset. */
  function Progress(nodes: seq<Node>, k: nat, counts: seq<nat>): (n: nat)
    requires k <= |nodes|
    ensures k + n <= |nodes|
    decreases |counts|
  {
    if counts == [] then 0
    else Fitting(nodes, k, counts[0]) + Progress(nodes, k + Fitting(nodes, k, counts[0]), counts[1..])
  }

  lemma {:induction false} DeliveredInOrder(nodes: seq<Node>, k: nat, counts: seq<nat>)
    requires k <= |nodes|
    ensures Delivered(nodes, k, counts) == Records(nodes, k, Progress(nodes, k, counts))
    decreases |counts|
  {
    hide Records, Fitting;
    if counts != [] {
      var m := Fitting(nodes, k, counts[0]);
      DeliveredInOrder(nodes, k + m, counts[1..]);
      RecordsConcat(nodes, k, m, Progress(nodes, k + m, counts[1..]));
    }
  }

  lemma {:induction false} DeliveredAll(nodes: seq<Node>, k: nat, counts: seq<nat>)
    requires k <= |nodes| <= k + |counts| && Adequate(nodes, k, counts)
    ensures k + Progress(nodes, k, counts) == |nodes|
    decreases |counts|
  {
    hide RecordLength, LastComponent, Fitting;
    if counts != [] {
      FittingStep(nodes, k, counts[0]);
      DeliveredAll(nodes, k + Fitting(nodes, k, counts[0]), counts[1..]);
    }
  }

  /** Batching does not change getdents64: the records of any sequence of calls are, in order and without
      repetition or gap, the first ones of the listing; adequate buffers deliver all of it within as many
      calls as it has entries. */
  lemma BatchingIsInvisible(nodes: seq<Node>, counts: seq<nat>)
    ensures Delivered(nodes, 0, counts) == Records(nodes, 0, Progress(nodes, 0, counts))
    ensures Adequate(nodes, 0, counts) && |counts| >= |nodes| ==> Delivered(nodes, 0, counts) == Records(nodes, 0, |nodes|)
  {
    hide Delivered, Adequate, Progress, Records;
    DeliveredInOrder(nodes, 0, counts);
    if Adequate(nodes, 0, counts) && |counts| >= |nodes| {
      DeliveredAll(nodes, 0, counts);
    }
  }

  // ----- the call as it is written -----

  /** The listing of a directory. */
  function Listing(es: seq<Entry>, path: Path): (nodes: seq<Node>)
    ensures |nodes| == |Shown(es, Normalize(path), |es|)|
    ensures forall k :: 0 <= k < |nodes| ==> ReadDir(es, path, k) == Some(nodes[k])
    ensures ReadDir(es, path, |nodes|) == None
  {
    seq(|Shown(es, Normalize(path), |es|)|, k requires 0 <= k < |Shown(es, Normalize(path), |es|)| => ReadDir(es, path, k).value)
  }

  lemma LastComponentSnoc(p: Path, c: Byte)
    ensures LastComponent(p + [c]) == if c == SLASH then [] else LastComponent(p) + [c]
  {
    assert (p + [c])[..|p|] == p;
  }

  method NameOf(path: Path) returns (name: Path)
    ensures name == LastComponent(path)
  {
    hide LastComponent;
    name := [];
    var i := 0;
    assert path[..0] == [];
    assert name == LastComponent([]) by { NoComponent(); }
    while i < |path|
      invariant i <= |path| && name == LastComponent(path[..i])
    {
      LastComponentSnoc(path[..i], path[i]);
      assert path[..i + 1] == path[..i] + [path[i]];
      name := if path[i] == SLASH then [] else name + [path[i]];
      i := i + 1;
    }
    assert path[..i] == path;
  }

  lemma NoComponent()
    ensures LastComponent([]) == []
  {
  }

  // ----- one record -----

  /** The bytes of a record; `pad` is what the buffer held behind the name. */
  function RecordBytes(d: Dirent, pad: seq<Byte>): (r: seq<Byte>)
    requires d.ino < WORD_LIMIT && d.off < WORD_LIMIT
    requires NAME_AT + |d.name| + 1 + |pad| == RecordLength(d.name)
  {
    P.WordBytesOf(d.ino) + P.WordBytesOf(d.off) + [RecordLength(d.name) % 256, RecordLength(d.name) / 256 % 256]
      + [d.kind] + d.name + [0] + pad
  }

  lemma {:induction false} FieldGives(b: seq<Byte>, at: nat, n: nat, w: nat)
    requires at + n <= |b| && w < Pow256(n)
    requires forall i :: 0 <= i < n ==> b[at + i] == Digit(w, i)
    ensures P.Field(b, at, n) == w
    decreases n
  {
    if n > 0 {
      assert b[at + 0] == Digit(w, 0);
      forall i | 0 <= i < n - 1 ensures b[at + 1 + i] == Digit(w / 256, i) {
        assert b[at + (i + 1)] == Digit(w, i + 1);
      }
      FieldGives(b, at + 1, n - 1, w / 256);
    }
  }

  lemma {:induction false} NulAfter(name: Path, rest: seq<Byte>)
    requires 0 !in name
    ensures NulLength(name + [0] + rest) == |name|
  {
    if name != [] {
      var s := name + [0] + rest;
      assert s[0] == name[0] && name[0] in name;
      assert s[1..] == name[1..] + [0] + rest;
      NulAfter(name[1..], rest);
    }
  }

  lemma LengthOf(name: Path)
    ensures RecordLength(name) == |name| / 8 * 8 + 32
  {
  }

  /** Reading a record's bytes gives the record back, and its length. */
  lemma RecordRoundTrip(d: Dirent, pad: seq<Byte>)
    requires d.ino < WORD_LIMIT && d.off < WORD_LIMIT && 0 !in d.name && |d.name| <= 255
    requires NAME_AT + |d.name| + 1 + |pad| == RecordLength(d.name)
    ensures var r := RecordBytes(d, pad);
            |r| == |d.name| / 8 * 8 + 32 && DirentOf(r) == d && P.Field(r, 16, 2) == |r|
  {
    hide RecordLength, DirentOf, RecordBytes, P.Field;
    LengthOf(d.name);
    RecordReads(d, pad);
  }

  lemma RecordReads(d: Dirent, pad: seq<Byte>)
    requires d.ino < WORD_LIMIT && d.off < WORD_LIMIT && 0 !in d.name && |d.name| <= 255
    requires NAME_AT + |d.name| + 1 + |pad| == RecordLength(d.name)
    ensures var r := RecordBytes(d, pad);
            |r| == RecordLength(d.name) && DirentOf(r) == d && P.Field(r, 16, 2) == |r|
  {
    hide RecordLength, Digit, P.WordBytesOf;
    var r := RecordBytes(d, pad);
    WordBytes();
    FieldGives(r, 0, 8, d.ino);
    FieldGives(r, 8, 8, d.off);
    ReclenField(r, RecordLength(d.name));
    assert r[NAME_AT..] == d.name + [0] + pad;
    NulAfter(d.name, pad);
    assert (d.name + [0] + pad)[..|d.name|] == d.name;
  }

  lemma ReclenField(r: seq<Byte>, n: nat)
    requires |r| >= 18 && n < 65536 && r[16] == n % 256 && r[17] == n / 256 % 256
    ensures P.Field(r, 16, 2) == n
  {
    assert P.Field(r, 18, 0) == 0;
    assert P.Field(r, 17, 1) == r[17];
  }

  lemma {:induction false} FieldShift(b: seq<Byte>, r: seq<Byte>, o: nat, n: nat)
    requires o + n <= |r|
    ensures P.Field(b + r, |b| + o, n) == P.Field(r, o, n)
    decreases n
  {
    if n > 0 {
      FieldShift(b, r, o + 1, n - 1);
    }
  }

  lemma {:induction false} FieldPrefix(b: seq<Byte>, r: seq<Byte>, o: nat, n: nat)
    requires o + n <= |b|
    ensures P.Field(b + r, o, n) == P.Field(b, o, n)
    decreases n
  {
    if n > 0 {
      FieldPrefix(b, r, o + 1, n - 1);
    }
  }

  // ----- the records of one call, packed -----

  /** The records from child k on that fit, written over `room`, whose bytes the padding keeps. */
  function Pack(nodes: seq<Node>, k: nat, room: seq<Byte>): (r: seq<Byte>)
    ensures |r| <= |room|
    decreases |nodes| - k
  {
    if k < |nodes| && RecordLength(LastComponent(nodes[k].path)) <= |room| then
      var d := Record(nodes[k], k);
      var n := RecordLength(d.name);
      RecordBytes(d, room[NAME_AT + |d.name| + 1..n]) + Pack(nodes, k + 1, room[n..])
    else []
  }

  /** Reading behind a prefix is reading the rest. */
  lemma {:induction false} ReadShift(r: seq<Byte>, b: seq<Byte>, at: nat)
    requires |r| % 8 == 0
    ensures ReadRecords(r + b, |r| + at) == ReadRecords(b, at)
    decreases |b| - at
  {
    hide DirentOf, P.Field;
    var c := r + b;
    if at != |b| && at + HEADER <= |b| {
      FieldShift(r, b, at + 16, 2);
      assert |r| + (at + 16) == |r| + at + 16;
      var n := ReclenAt(b, at);
      if RecordAt(b, at) {
        assert c[|r| + at..|r| + at + n] == b[at..at + n];
        ReadShift(r, b, at + n);
      }
    }
  }

  lemma ReadCons(r: seq<Byte>, b: seq<Byte>)
    requires |r| % 8 == 0 && |r| >= HEADER && P.Field(r, 16, 2) == |r| && ReadRecords(b, 0).Some?
    ensures ReadRecords(r + b, 0) == Some([DirentOf(r)] + ReadRecords(b, 0).value)
  {
    hide DirentOf, P.Field;
    FieldPrefix(r, b, 16, 2);
    assert RecordAt(r + b, 0) && ReclenAt(r + b, 0) == |r|;
    assert (r + b)[0..|r|] == r;
    ReadShift(r, b, 0);
  }

  /** What was packed reads back as the records that fit. */
  lemma {:induction false} PackDecodes(nodes: seq<Node>, k: nat, room: seq<Byte>)
    requires k <= |nodes| && ProperNames(nodes)
    ensures ReadRecords(Pack(nodes, k, room), 0) == Some(Records(nodes, k, Fitting(nodes, k, |room|)))
    decreases |nodes| - k
  {
    hide RecordLength, LastComponent, RecordBytes, DirentOf, ReadRecords;
    if k < |nodes| && RecordLength(LastComponent(nodes[k].path)) <= |room| {
      var d := Record(nodes[k], k);
      var n := RecordLength(d.name);
      var pad := room[NAME_AT + |d.name| + 1..n];
      PackDecodes(nodes, k + 1, room[n..]);
      RecordReads(d, pad);
      ReadCons(RecordBytes(d, pad), Pack(nodes, k + 1, room[n..]));
    } else {
      NoRecords();
    }
  }

  lemma NoRecords()
    ensures ReadRecords([], 0) == Some([])
  {
  }

  /** Names as C strings of at most 255 bytes. */
  ghost predicate ProperNames(nodes: seq<Node>) {
    forall k :: 0 <= k < |nodes| ==> 0 !in LastComponent(nodes[k].path) && |LastComponent(nodes[k].path)| <= 255
  }

  // ----- the call -----

  /** The kernel writes the fields one by one; the padding behind the name keeps what the buffer held. */
  method WriteRecord(buffer: array<Byte>, at: nat, d: Dirent)
    requires d.ino < WORD_LIMIT && d.off < WORD_LIMIT && at + RecordLength(d.name) <= buffer.Length
    modifies buffer
    ensures var n := RecordLength(d.name);
            buffer[..] == old(buffer[..at]) + RecordBytes(d, old(buffer[at + NAME_AT + |d.name| + 1..at + n])) + old(buffer[at + n..])
  {
    hide RecordLength, P.WordBytesOf, RecordBytes;
    ghost var was := buffer[..];
    var n := RecordLength(d.name);
    forall i | 0 <= i < 8 {
      buffer[at + i] := P.WordBytesOf(d.ino)[i];
    }
    forall i | 0 <= i < 8 {
      buffer[at + 8 + i] := P.WordBytesOf(d.off)[i];
    }
    buffer[at + 16], buffer[at + 17] := n % 256, n / 256 % 256;
    buffer[at + 18] := d.kind;
    forall i | 0 <= i < |d.name| {
      buffer[at + NAME_AT + i] := d.name[i];
    }
    buffer[at + NAME_AT + |d.name|] := 0;
    RecordWritten(was, buffer[..], at, d);
  }

  lemma RecordWritten(was: seq<Byte>, now: seq<Byte>, at: nat, d: Dirent)
    requires d.ino < WORD_LIMIT && d.off < WORD_LIMIT && at + RecordLength(d.name) <= |was| == |now|
    requires forall i :: 0 <= i < at || at + NAME_AT + |d.name| < i < |was| ==> now[i] == was[i]
    requires forall i :: at <= i < at + 8 ==> now[i] == P.WordBytesOf(d.ino)[i - at]
    requires forall i :: at + 8 <= i < at + 16 ==> now[i] == P.WordBytesOf(d.off)[i - (at + 8)]
    requires now[at + 16] == RecordLength(d.name) % 256 && now[at + 17] == RecordLength(d.name) / 256 % 256 && now[at + 18] == d.kind
    requires forall i :: at + NAME_AT <= i < at + NAME_AT + |d.name| ==> now[i] == d.name[i - (at + NAME_AT)]
    requires now[at + NAME_AT + |d.name|] == 0
    ensures var n := RecordLength(d.name);
            now == was[..at] + RecordBytes(d, was[at + NAME_AT + |d.name| + 1..at + n]) + was[at + n..]
  {
    hide RecordLength, P.WordBytesOf, RecordBytes;
    var n := RecordLength(d.name);
    var pad := was[at + NAME_AT + |d.name| + 1..at + n];
    var s := now[at..at + n];
    SliceIs(now, at, n, 0, P.WordBytesOf(d.ino));
    SliceIs(now, at, n, 8, P.WordBytesOf(d.off));
    SliceIs(now, at, n, NAME_AT, d.name);
    SliceIs(now, at, n, NAME_AT + |d.name| + 1, pad);
    assert s[16] == now[at + 16] && s[17] == now[at + 17] && s[18] == now[at + 18];
    assert s[NAME_AT + |d.name|] == now[at + NAME_AT + |d.name|];
    RecordParts(s, d, pad);
    Replaced(was, now, at, n);
  }

  lemma SliceIs(now: seq<Byte>, at: nat, n: nat, o: nat, t: seq<Byte>)
    requires o + |t| <= n && at + n <= |now| && forall i :: at + o <= i < at + o + |t| ==> now[i] == t[i - (at + o)]
    ensures now[at..at + n][o..o + |t|] == t
  {
    var s := now[at..at + n];
    forall i | 0 <= i < |t| ensures s[o..o + |t|][i] == t[i] {
      assert s[o..o + |t|][i] == s[o + i] == now[at + (o + i)];
      var j := at + o + i;
      assert now[j] == t[j - (at + o)];
    }
  }

  lemma Replaced(was: seq<Byte>, now: seq<Byte>, at: nat, n: nat)
    requires at + n <= |was| == |now| && forall i :: 0 <= i < at || at + n <= i < |was| ==> now[i] == was[i]
    ensures now == was[..at] + now[at..at + n] + was[at + n..]
  {
    assert now[..at] == was[..at] && now[at + n..] == was[at + n..];
  }

  /** A record is known by its fields. */
  lemma RecordParts(s: seq<Byte>, d: Dirent, pad: seq<Byte>)
    requires d.ino < WORD_LIMIT && d.off < WORD_LIMIT && |s| == RecordLength(d.name) == NAME_AT + |d.name| + 1 + |pad|
    requires s[0..8] == P.WordBytesOf(d.ino) && s[8..16] == P.WordBytesOf(d.off)
    requires s[16] == RecordLength(d.name) % 256 && s[17] == RecordLength(d.name) / 256 % 256 && s[18] == d.kind
    requires s[NAME_AT..NAME_AT + |d.name|] == d.name && s[NAME_AT + |d.name|] == 0 && s[NAME_AT + |d.name| + 1..] == pad
    ensures s == RecordBytes(d, pad)
  {
    hide RecordLength, P.WordBytesOf;
    var l := NAME_AT + |d.name|;
    assert s[16..18] == [s[16], s[17]] && s[18..19] == [s[18]] && s[l..l + 1] == [s[l]];
    assert s == s[0..8] + s[8..16] + s[16..18] + s[18..19] + s[NAME_AT..l] + s[l..l + 1] + s[l + 1..];
  }

  /** The next record goes where the records so far end. */
  method PlaceRecord(buffer: array<Byte>, at: nat, d: Dirent, ghost done: seq<Byte>, ghost rest: seq<Byte>)
    requires d.ino < WORD_LIMIT && d.off < WORD_LIMIT && at == |done| && RecordLength(d.name) <= |rest| && buffer[..] == done + rest
    modifies buffer
    ensures var n := RecordLength(d.name);
            var bytes := RecordBytes(d, rest[NAME_AT + |d.name| + 1..n]);
            |bytes| == n && buffer[..] == done + bytes + rest[n..]
  {
    hide RecordLength, RecordBytes;
    assert |done + rest| == buffer.Length;
    RecordPlaced(done, rest, d, RecordLength(d.name));
    ghost var now := buffer[..];
    assert buffer[..at] == now[..at];
    WriteRecord(buffer, at, d);
  }

  /** One turn of the loop below: the record of child k goes behind the records so far, n bytes long, or n is 0
      because there is no such child or no room. */
  method NextRecord(a: seq<Byte>, path: Path, k: nat, buffer: array<Byte>, at: nat, ghost done: seq<Byte>, ghost rest: seq<Byte>)
    returns (n: nat, ghost bytes: seq<Byte>)
    requires at == |done| <= buffer.Length && buffer[..] == done + rest
    modifies buffer
    ensures var nodes := Listing(Walk(a, 0), path);
            && |bytes| == n <= |rest| && buffer[..] == done + bytes + rest[n..]
            && (if n == 0 then Fitting(nodes, k, |rest|) == 0 && Pack(nodes, k, rest) == []
                else && k < |nodes| && Fitting(nodes, k, |rest|) == 1 + Fitting(nodes, k + 1, |rest[n..]|)
                     && Pack(nodes, k, rest) == bytes + Pack(nodes, k + 1, rest[n..]))
  {
    hide Walk, Shown, Normalize, RecordLength, LastComponent, ReadDir, Listing, RecordBytes, Fitting, Pack, Record;
    ghost var nodes := Listing(Walk(a, 0), path);
    n, bytes := 0, [];
    assert done + bytes == done && rest[0..] == rest;
    var child := ReadDirectory(a, path, k);
    FittingStep(nodes, k, |rest|);
    PackStep(nodes, k, rest);
    PastListing(a, path, k);
    assert |rest| == buffer.Length - at;
    if child.None? {
      return;
    }
    var name := NameOf(child.value.path);
    var size := RecordLength(name);
    if at + size > buffer.Length {
      return;
    }
    RecordFields(child.value, k);
    PlaceRecord(buffer, at, Record(child.value, k), done, rest);
    n, bytes := size, RecordBytes(Record(child.value, k), rest[NAME_AT + |name| + 1..size]);
  }

  /** syscall_getdents64 on an open directory whose offset is `offset`: the next records that fit are packed
      over the buffer, nothing behind them is written, and the offset moves past them. */
  method Getdents(a: seq<Byte>, path: Path, offset: nat, buffer: array<Byte>) returns (written: nat, next: nat)
    modifies buffer
    ensures var nodes := Listing(Walk(a, 0), path);
            && next == offset + Fitting(nodes, offset, buffer.Length) && written == |Pack(nodes, offset, old(buffer[..]))|
            && buffer[..] == Pack(nodes, offset, old(buffer[..])) + old(buffer[..])[written..]
  {
    hide Walk, Shown, Normalize, Listing, Fitting, Pack;
    ghost var nodes := Listing(Walk(a, 0), path);
    ghost var was := buffer[..];
    ghost var done, rest: seq<Byte> := [], was;
    written, next := 0, offset;
    while true
      invariant offset <= next && written == |done| <= |was| == buffer.Length && rest == was[written..]
      invariant next - offset + Fitting(nodes, next, |rest|) == Fitting(nodes, offset, |was|)
      invariant buffer[..] == done + rest && done + Pack(nodes, next, rest) == Pack(nodes, offset, was)
      decreases |nodes| - next
    {
      ghost var bytes;
      var n;
      n, bytes := NextRecord(a, path, next, buffer, written, done, rest);
      if n == 0 {
        NothingMore(done, bytes, rest);
        break;
      }
      Regrouped(done, bytes, Pack(nodes, next + 1, rest[n..]));
      Dropped(was, written, n);
      assert |rest[n..]| == |rest| - n;
      done, rest := done + bytes, rest[n..];
      written, next := written + n, next + 1;
    }
  }

  lemma Dropped(was: seq<Byte>, at: nat, n: nat)
    requires at + n <= |was|
    ensures was[at..][n..] == was[at + n..]
  {
  }

  lemma NothingMore(done: seq<Byte>, bytes: seq<Byte>, rest: seq<Byte>)
    requires bytes == []
    ensures done + bytes == done && done + [] == done && rest[0..] == rest
  {
  }

  lemma Regrouped(a: seq<Byte>, b: seq<Byte>, c: seq<Byte>)
    ensures a + (b + c) == a + b + c
  {
  }

  lemma RecordFields(node: Node, k: nat)
    ensures Record(node, k).name == LastComponent(node.path) && Record(node, k).ino < WORD_LIMIT && Record(node, k).off < WORD_LIMIT
  {
    hide LastComponent;
  }

  lemma PastListing(a: seq<Byte>, path: Path, k: nat)
    ensures ReadDir(Walk(a, 0), path, k) ==
            (if k < |Listing(Walk(a, 0), path)| then Some(Listing(Walk(a, 0), path)[k]) else None)
  {
    hide Walk;
  }

  lemma PackStep(nodes: seq<Node>, k: nat, room: seq<Byte>)
    ensures k < |nodes| && RecordLength(LastComponent(nodes[k].path)) <= |room| ==>
              var d := Record(nodes[k], k);
              var n := RecordLength(d.name);
              Pack(nodes, k, room) == RecordBytes(d, room[NAME_AT + |d.name| + 1..n]) + Pack(nodes, k + 1, room[n..])
    ensures k >= |nodes| || RecordLength(LastComponent(nodes[k].path)) > |room| ==> Pack(nodes, k, room) == []
  {
    hide RecordLength, RecordBytes, LastComponent;
  }

  lemma RecordPlaced(done: seq<Byte>, rest: seq<Byte>, d: Dirent, n: nat)
    requires d.ino < WORD_LIMIT && d.off < WORD_LIMIT && n == RecordLength(d.name) <= |rest|
    ensures var now, at := done + rest, |done|;
            var pad := rest[NAME_AT + |d.name| + 1..n];
            && |RecordBytes(d, pad)| == n
            && now[..at] == done && now[at + NAME_AT + |d.name| + 1..at + n] == pad && now[at + n..] == rest[n..]
  {
    RecordSize(d, rest[NAME_AT + |d.name| + 1..n]);
    hide RecordLength, P.WordBytesOf, RecordBytes;
    var now, at := done + rest, |done|;
    assert now[at..] == rest;
    assert now[at + NAME_AT + |d.name| + 1..at + n] == now[at..][NAME_AT + |d.name| + 1..n];
    assert now[at + n..] == now[at..][n..];
  }

  lemma RecordSize(d: Dirent, pad: seq<Byte>)
    requires d.ino < WORD_LIMIT && d.off < WORD_LIMIT && NAME_AT + |d.name| + 1 + |pad| == RecordLength(d.name)
    ensures |RecordBytes(d, pad)| == RecordLength(d.name)
  {
    hide RecordLength, P.WordBytesOf;
  }

  lemma FittingStep(nodes: seq<Node>, k: nat, room: nat)
    ensures k < |nodes| && RecordLength(LastComponent(nodes[k].path)) <= room ==>
              Fitting(nodes, k, room) == 1 + Fitting(nodes, k + 1, room - RecordLength(LastComponent(nodes[k].path)))
    ensures k >= |nodes| || RecordLength(LastComponent(nodes[k].path)) > room ==> Fitting(nodes, k, room) == 0
  {
  }

  // ----- names -----

  lemma {:induction false} LastOfJoined(p: Path, name: Path)
    requires SLASH !in name
    ensures LastComponent(p + [SLASH] + name) == name
    decreases |name|
  {
    var s := p + [SLASH] + name;
    if name == [] {
      assert s == p + [SLASH];
    } else {
      var front := name[..|name| - 1];
      assert s[..|s| - 1] == p + [SLASH] + front && s[|s| - 1] == name[|name| - 1] && name[|name| - 1] in name;
      LastOfJoined(p, front);
      assert name == front + [name[|name| - 1]];
    }
  }

  /** Each record carries the name of its child, unless the child's path is too long for its buffer, and its type: 4 for
      a directory, 8 for a file. */
  lemma RecordNames(es: seq<Entry>, path: Path, k: nat)
    requires k < |Shown(es, Normalize(path), |es|)|
    requires |FullPath(Normalize(path), NameAt(es, Normalize(path), k))| < PATH_MAX
    ensures Record(Listing(es, path)[k], k).name == NameAt(es, Normalize(path), k)
    ensures var e := es[Shown(es, Normalize(path), |es|)[k]];
            && ChildOf(e.path, Normalize(path)).Some?
            && Record(Listing(es, path)[k], k).ino == Record(Listing(es, path)[k], k).off == (k + 1) % 0x1_0000_0000_0000_0000
            && Record(Listing(es, path)[k], k).kind == (if ChildOf(e.path, Normalize(path)).value.nested || e.dir then 4 else 8)
  {
    hide ChildOf, Shown, Normalize, LastComponent;
    var d := Normalize(path);
    ShownFirst(es, d, |es|, k);
    var e := es[Shown(es, d, |es|)[k]];
    var name := NameAt(es, d, k);
    NameHasNoSlash(e.path, d);
    var full := FullPath(d, name);
    assert Public(ChildPath(d, name)) == [SLASH] + full;
    if d == [] {
      assert [SLASH] + full == [] + [SLASH] + name;
      LastOfJoined([], name);
    } else {
      assert [SLASH] + full == ([SLASH] + d) + [SLASH] + name;
      LastOfJoined([SLASH] + d, name);
    }
  }

  lemma NameHasNoSlash(p: Path, d: Path)
    requires ChildOf(p, d).Some?
    ensures SLASH !in ChildOf(p, d).value.name && ChildOf(p, d).value.name != []
    ensures forall b <- ChildOf(p, d).value.name :: b in p
  {
  }

  lemma {:induction false} UpToNulHasNone(s: seq<Byte>)
    ensures 0 !in UpToNul(s)
  {
    if s != [] && s[0] != 0 {
      UpToNulHasNone(s[1..]);
    }
  }

  lemma {:induction false} SkipSlashesIn(s: Path)
    ensures forall b <- SkipSlashes(s) :: b in s
  {
    if s != [] && s[0] == SLASH {
      SkipSlashesIn(s[1..]);
    }
  }

  lemma {:induction false} SkipDotsIn(s: Path)
    requires s == [] || s[0] != SLASH
    ensures forall b <- SkipDots(s) :: b in s
    decreases |s|
  {
    if DotFirst(s) {
      SkipSlashesIn(s[1..]);
      SkipDotsIn(SkipSlashes(s[1..]));
    }
  }

  lemma NormalizeIn(s: Path)
    ensures forall b <- Normalize(s) :: b in s
  {
    var t := SkipDots(SkipSlashes(s));
    SkipSlashesIn(s);
    SkipDotsIn(SkipSlashes(s));
    assert TrimSlashes(Clip(t)) <= Clip(t) <= t;
  }

  lemma TarPathHasNoNul(a: seq<Byte>, at: nat)
    requires at + BLOCK <= |a|
    ensures 0 !in TarPath(a, at)
  {
    hide UpToNul, Normalize;
    var name, prefix := UpToNul(a[at..at + 100]), UpToNul(a[at + 345..at + 500]);
    UpToNulHasNone(a[at..at + 100]);
    UpToNulHasNone(a[at + 345..at + 500]);
    NormalizeIn(Clip(if prefix == [] then name else prefix + [SLASH] + name));
  }

  lemma {:induction false} WalkHasNoNul(a: seq<Byte>, at: nat, i: nat)
    requires i < |Walk(a, at)|
    ensures 0 !in Walk(a, at)[i].path
    decreases i
  {
    hide TarPath, FileSize, ZeroBlock, Octal;
    if i == 0 {
      TarPathHasNoNul(a, at);
    } else {
      WalkHasNoNul(a, NextHeader(a, at), i - 1);
    }
  }

  lemma {:induction false} LastComponentIn(p: Path)
    ensures forall b <- LastComponent(p) :: b in p
  {
    if p != [] && p[|p| - 1] != SLASH {
      LastComponentIn(p[..|p| - 1]);
    }
  }

  lemma NamesAreProper(a: seq<Byte>, path: Path)
    requires 0 !in path
    ensures ProperNames(Listing(Walk(a, 0), path))
  {
    hide Walk, ChildOf, Shown, Normalize, LastComponent;
    var es, d := Walk(a, 0), Normalize(path);
    NormalizeIn(path);
    var nodes := Listing(es, path);
    forall k | 0 <= k < |nodes|
      ensures 0 !in LastComponent(nodes[k].path) && |LastComponent(nodes[k].path)| <= 255
    {
      ShownFirst(es, d, |es|, k);
      var s := Shown(es, d, |es|)[k];
      WalkHasNoNul(a, 0, s);
      NameHasNoSlash(es[s].path, d);
      var name := ChildOf(es[s].path, d).value.name;
      assert nodes[k].path == Public(ChildPath(d, name));
      assert 0 !in (if d == [] then name else d + [SLASH] + name);
      assert 0 !in ChildPath(d, name);
      assert 0 !in nodes[k].path;
      LastComponentIn(nodes[k].path);
    }
  }
}
