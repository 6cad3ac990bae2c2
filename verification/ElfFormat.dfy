/**
 ELF-64 executables written out as chapters 4 and 5 of the System V gABI lay them out, and read back by the loaders of
 kernel/process.c and fs/elf.c.
 */
module ElfFormat {
  import opened Wrappers
  import opened Paging
  import opened VirtualMemory
  import opened Programs

  // ----- little-endian fields -----

  /** The n bytes of a field, least significant first. */
  function Bytes(w: nat, n: nat): (s: seq<Byte>)
    ensures |s| == n
    decreases n
  {
    if n == 0 then [] else [w % 256] + Bytes(w / 256, n - 1)
  }

  lemma {:induction false} FieldReads(data: seq<Byte>, at: nat, w: nat, n: nat)
    requires at + n <= |data| && data[at..at + n] == Bytes(w, n) && w < Pow256(n)
    ensures Field(data, at, n) == w
    decreases n
  {
    if n > 0 {
      assert data[at] == data[at..at + n][0];
      assert data[at + 1..at + 1 + (n - 1)] == data[at..at + n][1..];
      FieldReads(data, at + 1, w / 256, n - 1);
    }
  }

  lemma {:induction false} FieldSpells(data: seq<Byte>, at: nat, n: nat)
    requires at + n <= |data|
    ensures data[at..at + n] == Bytes(Field(data, at, n), n) && Field(data, at, n) < Pow256(n)
    decreases n
  {
    if n > 0 {
      FieldSpells(data, at + 1, n - 1);
      var low: nat, high := data[at], Field(data, at + 1, n - 1);
      QuotientIs(low + 256 * high, 256, high, low);
      Joined(data, at, at + 1, at + n);
      assert data[at..at + 1] == [data[at]];
    }
  }

  // ----- the headers -----

  type Half = x: nat | x < 0x1_0000
  type Quad = x: nat | x < 0x1_0000_0000

  /** The program header of a segment. */
  datatype ProgramHeader = ProgramHeader(
    kind: Quad, flags: Quad, offset: Word, vaddr: Word, paddr: Word, filesz: Word, memsz: Word, align: Word)

  function HeaderBytes(h: ProgramHeader): (s: seq<Byte>)
    ensures |s| == 56
  {
    Bytes(h.kind, 4) + Bytes(h.flags, 4) + Bytes(h.offset, 8) + Bytes(h.vaddr, 8) + Bytes(h.paddr, 8)
    + Bytes(h.filesz, 8) + Bytes(h.memsz, 8) + Bytes(h.align, 8)
  }

  /** What the file header says besides what marks a 64-bit little-endian x86-64 file. */
  datatype Elf = Elf(
    ident: seq<Byte>, kind: Half, version: Quad, entry: Word, phoff: Word, shoff: Word, flags: Quad, ehsize: Half,
    shentsize: Half, shnum: Half, shstrndx: Half)

  function FileHeader(e: Elf, phnum: Half): (s: seq<Byte>)
    requires |e.ident| == 10
    ensures |s| == 64
  {
    Marks(e) + Places(e) + Sizes(e, phnum)
  }

  /** e_ident, e_type, e_machine, e_version. */
  function Marks(e: Elf): (s: seq<Byte>)
    requires |e.ident| == 10
    ensures |s| == 24
  {
    [0x7f, 0x45, 0x4c, 0x46, 2, 1] + e.ident + Bytes(e.kind, 2) + Bytes(62, 2) + Bytes(e.version, 4)
  }

  /** e_entry, e_phoff, e_shoff. */
  function Places(e: Elf): (s: seq<Byte>)
    ensures |s| == 24
  {
    Bytes(e.entry, 8) + Bytes(e.phoff, 8) + Bytes(e.shoff, 8)
  }

  /** e_flags, e_ehsize, e_phentsize, e_phnum, e_shentsize, e_shnum, e_shstrndx. */
  function Sizes(e: Elf, phnum: Half): (s: seq<Byte>)
    ensures |s| == 16
  {
    Bytes(e.flags, 4) + Bytes(e.ehsize, 2) + Bytes(56, 2) + Bytes(phnum, 2) + Bytes(e.shentsize, 2) + Bytes(e.shnum, 2) + Bytes(e.shstrndx, 2)
  }

  lemma HeaderFields(h: ProgramHeader)
    ensures var s := HeaderBytes(h);
            && s[0..4] == Bytes(h.kind, 4) && s[4..8] == Bytes(h.flags, 4) && s[8..16] == Bytes(h.offset, 8) && s[16..24] == Bytes(h.vaddr, 8)
            && s[24..32] == Bytes(h.paddr, 8) && s[32..40] == Bytes(h.filesz, 8) && s[40..48] == Bytes(h.memsz, 8)
  {
    hide Bytes;
  }

  lemma MarkFields(e: Elf)
    requires |e.ident| == 10
    ensures var s := Marks(e);
            && s[0] == 0x7f && s[1] == 0x45 && s[2] == 0x4c && s[3] == 0x46 && s[4] == 2 && s[5] == 1
            && s[16..18] == Bytes(e.kind, 2) && s[18..20] == Bytes(62, 2)
  {
    hide Bytes;
  }

  lemma PlaceFields(e: Elf)
    ensures Places(e)[0..8] == Bytes(e.entry, 8) && Places(e)[8..16] == Bytes(e.phoff, 8)
  {
    hide Bytes;
  }

  lemma SizeFields(e: Elf, phnum: Half)
    ensures Sizes(e, phnum)[6..8] == Bytes(56, 2) && Sizes(e, phnum)[8..10] == Bytes(phnum, 2)
  {
    hide Bytes;
  }

  // ----- files -----

  /** The segment a program header stands for. */
  function SegmentOf(h: ProgramHeader): (s: Segment) {
    Segment(h.kind, h.offset, h.vaddr, h.filesz, h.memsz)
  }

  /** The file starts with this header and has these program headers where the header says. */
  ghost predicate Describes(data: seq<Byte>, e: Elf, headers: seq<ProgramHeader>) {
    && |e.ident| == 10 && 0 < |headers| < 0x1_0000
    && 64 <= |data| && data[..64] == FileHeader(e, |headers|)
    && e.phoff + 56 * |headers| <= |data|
    && forall i :: 0 <= i < |headers| ==> HeaderAt(data, e.phoff + 56 * i, headers[i])
  }

  ghost predicate HeaderAt(data: seq<Byte>, at: nat, h: ProgramHeader) {
    at + 56 <= |data| && data[at..at + 56] == HeaderBytes(h)
  }

  lemma Widths()
    ensures Pow256(2) == 0x1_0000 && Pow256(4) == 0x1_0000_0000 && Pow256(8) == WORD_LIMIT
  {
    WordBytes();
  }

  /** A field inside a block that stands somewhere in the file. */
  lemma FieldInside(data: seq<Byte>, at: nat, block: seq<Byte>, o: nat, w: nat, n: nat)
    requires at + |block| <= |data| && data[at..at + |block|] == block
    requires o + n <= |block| && block[o..o + n] == Bytes(w, n) && w < Pow256(n)
    ensures Field(data, at + o, n) == w
  {
    SliceInside(data, at, block, o, n);
    FieldReads(data, at + o, w, n);
  }

  lemma ReadHeader(data: seq<Byte>, at: nat, h: ProgramHeader)
    requires HeaderAt(data, at, h)
    ensures Field(data, at, 4) == h.kind && Field(data, at + 8, 8) == h.offset && Field(data, at + 16, 8) == h.vaddr
    ensures Field(data, at + 32, 8) == h.filesz && Field(data, at + 40, 8) == h.memsz
  {
    hide Field, HeaderBytes, Bytes;
    Widths();
    hide Pow256;
    var s := HeaderBytes(h);
    HeaderFields(h);
    FieldInside(data, at, s, 0, h.kind, 4);
    FieldInside(data, at, s, 8, h.offset, 8);
    FieldInside(data, at, s, 16, h.vaddr, 8);
    FieldInside(data, at, s, 32, h.filesz, 8);
    FieldInside(data, at, s, 40, h.memsz, 8);
  }

  lemma ReadFileHeader(data: seq<Byte>, e: Elf, phnum: Half)
    requires |e.ident| == 10 && 64 <= |data| && data[..64] == FileHeader(e, phnum)
    ensures data[0] == 0x7f && data[1] == 0x45 && data[2] == 0x4c && data[3] == 0x46 && data[4] == 2 && data[5] == 1
    ensures Field(data, 16, 2) == e.kind && Field(data, 18, 2) == 62 && Field(data, 24, 8) == e.entry
    ensures Field(data, 32, 8) == e.phoff && Field(data, 54, 2) == 56 && Field(data, 56, 2) == phnum
  {
    hide Field, Marks, Places, Sizes, Bytes;
    Widths();
    hide Pow256;
    var s := FileHeader(e, phnum);
    assert s[0..24] == Marks(e) && s[24..48] == Places(e) && s[48..64] == Sizes(e, phnum);
    SliceInside(data[..64], 0, s, 0, 24);
    SliceInside(data, 0, data[..64], 0, 24);
    SliceInside(data, 0, data[..64], 24, 24);
    SliceInside(data, 0, data[..64], 48, 16);
    MarkFields(e);
    PlaceFields(e);
    SizeFields(e, phnum);
    forall i | 0 <= i < 6 ensures data[i] == Marks(e)[i] {
      assert data[i] == data[0..24][i];
    }
    FieldInside(data, 0, Marks(e), 16, e.kind, 2);
    FieldInside(data, 0, Marks(e), 18, 62, 2);
    FieldInside(data, 24, Places(e), 0, e.entry, 8);
    FieldInside(data, 24, Places(e), 8, e.phoff, 8);
    FieldInside(data, 48, Sizes(e, phnum), 6, 56, 2);
    FieldInside(data, 48, Sizes(e, phnum), 8, phnum, 2);
  }

  /** What was written is what the loaders read: the marks, the number of headers, the entry and every segment. */
  lemma WrittenIsRead(file: File, e: Elf, headers: seq<ProgramHeader>)
    requires Describes(file.data, e, headers) && !file.directory
    ensures ValidElf(file) && PhNum(file) == |headers| && PhOff(file) == e.phoff
    ensures Field(file.data, 16, 2) == e.kind && Field(file.data, 24, 8) == e.entry
    ensures forall i :: 0 <= i < |headers| ==> SegmentAt(file, i) == SegmentOf(headers[i])
  {
    hide Field, HeaderBytes, FileHeader;
    ReadFileHeader(file.data, e, |headers|);
    forall i | 0 <= i < |headers| ensures SegmentAt(file, i) == SegmentOf(headers[i]) {
      assert HeaderAt(file.data, e.phoff + 56 * i, headers[i]);
      ReadHeader(file.data, e.phoff + 56 * i, headers[i]);
    }
  }

  /** And whatever the process loader takes for a program was written so. */
  lemma ReadIsWritten(file: File) returns (e: Elf, headers: seq<ProgramHeader>)
    requires ValidElf(file)
    ensures Describes(file.data, e, headers)
  {
    hide Field, HeaderBytes, FileHeader, Bytes;
    e := ParseFileHeader(file.data, PhNum(file));
    headers := [];
    while |headers| < PhNum(file)
      invariant |headers| <= PhNum(file)
      invariant forall i :: 0 <= i < |headers| ==> HeaderAt(file.data, PhOff(file) + 56 * i, headers[i])
    {
      var h := ParseHeader(file.data, PhOff(file) + 56 * |headers|);
      headers := headers + [h];
    }
  }

  lemma ParseHeader(data: seq<Byte>, at: nat) returns (h: ProgramHeader)
    requires at + 56 <= |data|
    ensures HeaderAt(data, at, h)
  {
    hide Field, Bytes;
    Widths();
    hide Pow256;
    FieldSpells(data, at, 4);
    FieldSpells(data, at + 4, 4);
    FieldSpells(data, at + 8, 8);
    FieldSpells(data, at + 16, 8);
    FieldSpells(data, at + 24, 8);
    FieldSpells(data, at + 32, 8);
    FieldSpells(data, at + 40, 8);
    FieldSpells(data, at + 48, 8);
    h := ProgramHeader(Field(data, at, 4), Field(data, at + 4, 4), Field(data, at + 8, 8), Field(data, at + 16, 8),
      Field(data, at + 24, 8), Field(data, at + 32, 8), Field(data, at + 40, 8), Field(data, at + 48, 8));
    Joined(data, at, at + 4, at + 8);
    Joined(data, at, at + 8, at + 16);
    Joined(data, at, at + 16, at + 24);
    Joined(data, at, at + 24, at + 32);
    Joined(data, at, at + 32, at + 40);
    Joined(data, at, at + 40, at + 48);
    Joined(data, at, at + 48, at + 56);
  }

  lemma ParseFileHeader(data: seq<Byte>, phnum: nat) returns (e: Elf)
    requires 64 <= |data| && phnum == Field(data, 56, 2) && Field(data, 18, 2) == 62 && Field(data, 54, 2) == 56
    requires data[0] == 0x7f && data[1] == 0x45 && data[2] == 0x4c && data[3] == 0x46 && data[4] == 2 && data[5] == 1
    ensures phnum < 0x1_0000 && e.phoff == Field(data, 32, 8) && |e.ident| == 10 && data[..64] == FileHeader(e, phnum)
  {
    hide Field, Bytes;
    Widths();
    hide Pow256;
    FieldSpells(data, 16, 2);
    FieldSpells(data, 18, 2);
    FieldSpells(data, 20, 4);
    FieldSpells(data, 24, 8);
    FieldSpells(data, 32, 8);
    FieldSpells(data, 40, 8);
    FieldSpells(data, 48, 4);
    FieldSpells(data, 52, 2);
    FieldSpells(data, 54, 2);
    FieldSpells(data, 56, 2);
    FieldSpells(data, 58, 2);
    FieldSpells(data, 60, 2);
    FieldSpells(data, 62, 2);
    e := Elf(data[6..16], Field(data, 16, 2), Field(data, 20, 4), Field(data, 24, 8), Field(data, 32, 8), Field(data, 40, 8),
      Field(data, 48, 4), Field(data, 52, 2), Field(data, 58, 2), Field(data, 60, 2), Field(data, 62, 2));
    assert data[0..6] == [0x7f, 0x45, 0x4c, 0x46, 2, 1];
    Joined(data, 0, 6, 16);
    Joined(data, 0, 16, 18);
    Joined(data, 0, 18, 20);
    Joined(data, 0, 20, 24);
    Joined(data, 24, 32, 40);
    Joined(data, 24, 40, 48);
    Joined(data, 48, 52, 54);
    Joined(data, 48, 54, 56);
    Joined(data, 48, 56, 58);
    Joined(data, 48, 58, 60);
    Joined(data, 48, 60, 62);
    Joined(data, 48, 62, 64);
    Joined(data, 0, 24, 48);
    Joined(data, 0, 48, 64);
    assert data[..64] == data[0..64];
  }

  // ----- one way to write a file -----

  /** The program headers one after the other. */
  function Table(headers: seq<ProgramHeader>): (s: seq<Byte>)
    ensures |s| == 56 * |headers|
  {
    if headers == [] then [] else Table(headers[..|headers| - 1]) + HeaderBytes(headers[|headers| - 1])
  }

  lemma {:induction false} TableAt(headers: seq<ProgramHeader>, i: nat)
    requires i < |headers|
    ensures Table(headers)[56 * i..56 * i + 56] == HeaderBytes(headers[i])
  {
    hide HeaderBytes;
    var n := |headers| - 1;
    if i < n {
      TableAt(headers[..n], i);
      assert Table(headers)[56 * i..56 * i + 56] == Table(headers[..n])[56 * i..56 * i + 56];
    }
  }

  /** Header, program headers and contents, in this order. */
  function WriteElf(e: Elf, headers: seq<ProgramHeader>, body: seq<Byte>): (data: seq<Byte>)
    requires |e.ident| == 10 && |headers| < 0x1_0000
  {
    FileHeader(e.(phoff := 64), |headers|) + Table(headers) + body
  }

  lemma WriteElfDescribes(e: Elf, headers: seq<ProgramHeader>, body: seq<Byte>)
    requires |e.ident| == 10 && 0 < |headers| < 0x1_0000
    ensures Describes(WriteElf(e, headers, body), e.(phoff := 64), headers)
    ensures WriteElf(e, headers, body)[64 + 56 * |headers|..] == body
  {
    hide HeaderBytes, FileHeader, Table;
    var data := WriteElf(e, headers, body);
    forall i | 0 <= i < |headers| ensures HeaderAt(data, 64 + 56 * i, headers[i]) {
      TableAt(headers, i);
      assert data[64 + 56 * i..64 + 56 * i + 56] == Table(headers)[56 * i..56 * i + 56];
    }
  }
}
