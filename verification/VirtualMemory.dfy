/**
 Bytes seen through an address space: single stores by user code, the page-chunked
 write_process_memory of the loader, and what each leaves unchanged.
 */
module VirtualMemory {
  import opened Wrappers
  import opened Paging
  import opened Ownership
  import opened PageTables
  import opened AddressSpaces

  type Byte = b: nat | b < 256

  // ----- bytes of a little-endian word -----

  function Digit(w: nat, k: nat): (b: Byte) {
    if k == 0 then w % 256 else Digit(w / 256, k - 1)
  }

  function SetDigit(w: nat, k: nat, b: Byte): (r: nat) {
    if k == 0 then w / 256 * 256 + b else SetDigit(w / 256, k - 1, b) * 256 + w % 256
  }

  lemma {:induction false} DigitOfSet(w: nat, k: nat, b: Byte, j: nat)
    ensures Digit(SetDigit(w, k, b), j) == if j == k then b else Digit(w, j)
  {
    var r := SetDigit(w, k, b);
    if k == 0 {
      assert r / 256 == w / 256 && r % 256 == b;
    } else {
      assert r / 256 == SetDigit(w / 256, k - 1, b) && r % 256 == w % 256;
      if j > 0 {
        DigitOfSet(w / 256, k - 1, b, j - 1);
      }
    }
  }

  function Pow256(n: nat): (r: nat) {
    if n == 0 then 1 else 256 * Pow256(n - 1)
  }

  lemma {:induction false} SetDigitBound(w: nat, k: nat, b: Byte, n: nat)
    requires k < n && w < Pow256(n)
    ensures SetDigit(w, k, b) < Pow256(n)
  {
    if k > 0 {
      SetDigitBound(w / 256, k - 1, b, n - 1);
    } else {
      assert w / 256 < Pow256(n - 1);
    }
  }

  lemma WordBytes()
    ensures Pow256(8) == WORD_LIMIT
  {
    assert Pow256(4) == 0x1_0000_0000;
    assert Pow256(6) == 0x1_0000_0000_0000;
  }

  // ----- bytes of a page and of physical memory -----

  function PageByte(p: Page, o: nat): (b: Byte)
    requires o < 4096
  {
    Digit(p[o / 8], o % 8)
  }

  function SetPageByte(p: Page, o: nat, b: Byte): (r: Page)
    requires o < 4096
    ensures forall x :: 0 <= x < 4096 ==> PageByte(r, x) == if x == o then b else PageByte(p, x)
  {
    WordBytes();
    SetDigitBound(p[o / 8], o % 8, b, 8);
    var r: Page := p[o / 8 := SetDigit(p[o / 8], o % 8, b)];
    assert forall x :: 0 <= x < 4096 ==> PageByte(r, x) == if x == o then b else PageByte(p, x) by {
      forall x | 0 <= x < 4096 ensures PageByte(r, x) == if x == o then b else PageByte(p, x) {
        DigitOfSet(p[o / 8], o % 8, b, x % 8);
      }
    }
    r
  }

  function ByteAt(m: Mem, pa: nat): (b: Byte) {
    PageByte(Get(m, pa / 4096), pa % 4096)
  }

  function SetByteAt(m: Mem, pa: nat, b: Byte): (m': Mem) {
    Put(m, pa / 4096, SetPageByte(Get(m, pa / 4096), pa % 4096, b))
  }

  /** memcpy into physical memory. */
  function PutBytes(m: Mem, pa: nat, bytes: seq<Byte>): (m': Mem)
    decreases |bytes|
  {
    if bytes == [] then m else PutBytes(SetByteAt(m, pa, bytes[0]), pa + 1, bytes[1..])
  }

  // ----- bytes through an address space -----

  /** What a load at `va` returns, if the page is mapped. */
  function Load(m: Mem, root: nat, va: nat): (r: Option<Byte>) {
    match Translate(m, root, va)
    case None => None
    case Some(pa) => Some(ByteAt(m, pa))
  }

  /** A store at `va`; the page fault of an unmapped page is not modelled. */
  function Store(m: Mem, root: nat, va: nat, b: Byte): (m': Mem) {
    match Translate(m, root, va)
    case None => m
    case Some(pa) => SetByteAt(m, pa, b)
  }

  function StoreAll(m: Mem, root: nat, va: nat, bytes: seq<Byte>): (m': Mem)
    decreases |bytes|
  {
    if bytes == [] then m else StoreAll(Store(m, root, va, bytes[0]), root, va + 1, bytes[1..])
  }

  function Min(a: nat, b: nat): nat { if a < b then a else b }

  /** write_process_memory: one translation and one memcpy per page. */
  function WriteProcess(m: Mem, root: nat, va: nat, bytes: seq<Byte>): (r: (Mem, bool))
    decreases |bytes|
  {
    if bytes == [] then (m, true) else
    match Translate(m, root, va)
    case None => (m, false)
    case Some(pa) =>
      var chunk := Min(4096 - va % 4096, |bytes|);
      WriteProcess(PutBytes(m, pa, bytes[..chunk]), root, va + chunk, bytes[chunk..])
  }

  const USER_TOP: nat := 0x8000_0000_0000

  // ----- user mode -----

  /** What user code reads at `va`: only below USER_TOP, and only through entries that let it. */
  function UserLoad(m: Mem, root: nat, va: nat): (r: Option<Byte>) {
    if va < USER_TOP && Reaches(m, root, va / 4096, false) then Load(m, root, va) else None
  }

  /** User code can read and write the byte. */
  predicate Usable(m: Mem, root: nat, va: nat) {
    va < USER_TOP && Reaches(m, root, va / 4096, true)
  }

  // ----- one store -----

  ghost predicate Mapped(g: Ledger, root: nat, va: nat) {
    Leaf(root, va / 4096) in g.at
  }

  lemma TranslateAgrees(m: Mem, g: Ledger, root: nat, va: nat)
    requires Inv(m, g) && Root(root) in g.at && va < USER_TOP
    ensures Translate(m, root, va).Some? <==> Mapped(g, root, va)
    ensures Mapped(g, root, va) ==>
              && Translate(m, root, va).value / 4096 == g.at[Leaf(root, va / 4096)]
              && Translate(m, root, va).value % 4096 == va % 4096
  {
    LookupAgrees(m, g, root, va / 4096);
  }

  /** A store keeps the ledger as it is: it reaches no table and no free frame. */
  lemma StoreInv(m: Mem, g: Ledger, root: nat, va: nat, b: Byte)
    requires Inv(m, g) && Root(root) in g.at && va < USER_TOP
    ensures Inv(Store(m, root, va, b), g) && SameFrames(m, g, Store(m, root, va, b), g)
    ensures forall x <- g.at :: x != Leaf(root, va / 4096) ==> Get(Store(m, root, va, b), g.at[x]) == Get(m, g.at[x])
  {
    TranslateAgrees(m, g, root, va);
    if Mapped(g, root, va) {
      var leaf := Leaf(root, va / 4096);
      assert NodeOk(m, g, leaf);
      var pa := Translate(m, root, va).value;
      WriteKeeps(m, g, g.at[leaf], SetPageByte(Get(m, pa / 4096), pa % 4096, b));
      forall x | x in g.at && x != leaf ensures g.at[x] != g.at[leaf] {
        assert NodeOk(m, g, x);
      }
    }
  }

  /** A load after a store sees the store at its own address in its own space, and nothing
      else: not at another address, not in another space. */
  lemma LoadAfterStore(m: Mem, g: Ledger, root: nat, va: nat, b: Byte, root2: nat, va2: nat)
    requires Inv(m, g) && Root(root) in g.at && va < USER_TOP && Root(root2) in g.at && va2 < USER_TOP
    ensures Load(Store(m, root, va, b), root2, va2) ==
            if root2 == root && va2 == va && Mapped(g, root, va) then Some(b) else Load(m, root2, va2)
  {
    StoreInv(m, g, root, va, b);
    var m' := Store(m, root, va, b);
    TranslateAgrees(m, g, root, va);
    TranslateAgrees(m, g, root2, va2);
    TranslateAgrees(m', g, root2, va2);
    if va / 4096 != va2 / 4096 {
      LeafInjective(root, va / 4096, va2 / 4096);
    }
  }

  lemma TranslateAfterStore(m: Mem, g: Ledger, root: nat, va: nat, b: Byte, root2: nat, va2: nat)
    requires Inv(m, g) && Root(root) in g.at && va < USER_TOP && Root(root2) in g.at && va2 < USER_TOP
    ensures Translate(Store(m, root, va, b), root2, va2) == Translate(m, root2, va2)
  {
    StoreInv(m, g, root, va, b);
    TranslateAgrees(m, g, root2, va2);
    TranslateAgrees(Store(m, root, va, b), g, root2, va2);
  }

  // ----- many stores -----

  lemma {:induction false} StoreAllInv(m: Mem, g: Ledger, root: nat, va: nat, bytes: seq<Byte>)
    requires Inv(m, g) && Root(root) in g.at && va + |bytes| <= USER_TOP
    ensures Inv(StoreAll(m, root, va, bytes), g)
    ensures forall x <- g.at :: SpaceOf(x) != root || Depth(x) < 4 ==>
              Get(StoreAll(m, root, va, bytes), g.at[x]) == Get(m, g.at[x])
    ensures SameFrames(m, g, StoreAll(m, root, va, bytes), g)
    decreases |bytes|
  {
    hide Store, Inv;
    if bytes != [] {
      StoreInv(m, g, root, va, bytes[0]);
      StoreAllInv(Store(m, root, va, bytes[0]), g, root, va + 1, bytes[1..]);
    }
  }

  /** Loads after a run of stores, at every address of every space. */
  lemma {:induction false} LoadAfterStoreAll(m: Mem, g: Ledger, root: nat, va: nat, bytes: seq<Byte>, root2: nat, va2: nat)
    requires Inv(m, g) && Root(root) in g.at && va + |bytes| <= USER_TOP && Root(root2) in g.at && va2 < USER_TOP
    ensures Load(StoreAll(m, root, va, bytes), root2, va2) ==
            if root2 == root && va <= va2 < va + |bytes| && Mapped(g, root, va2) then Some(bytes[va2 - va])
            else Load(m, root2, va2)
    decreases |bytes|
  {
    hide Lookup, Index, Load;
    if bytes != [] {
      StoreInv(m, g, root, va, bytes[0]);
      LoadAfterStore(m, g, root, va, bytes[0], root2, va2);
      LoadAfterStoreAll(Store(m, root, va, bytes[0]), g, root, va + 1, bytes[1..], root2, va2);
    }
  }

  /** Stores change no permission. */
  lemma {:induction false} ReachesAfterStoreAll(m: Mem, g: Ledger, root: nat, va: nat, bytes: seq<Byte>, root2: nat, page: nat, write: bool)
    requires Inv(m, g) && Root(root) in g.at && va + |bytes| <= USER_TOP && Root(root2) in g.at && page < USER_PAGES
    ensures Reaches(StoreAll(m, root, va, bytes), root2, page, write) == Reaches(m, root2, page, write)
  {
    hide Reaches, Lookup, Index, StoreAll, Allows;
    var m' := StoreAll(m, root, va, bytes);
    StoreAllInv(m, g, root, va, bytes);
    ReachesByLeaf(m, g, root2, page, write);
    ReachesByLeaf(m', g, root2, page, write);
    LookupAgrees(m, g, root2, page);
    LookupAgrees(m', g, root2, page);
    SameEntry(m, g, m', root2, page);
  }

  lemma SameEntry(m: Mem, g: Ledger, m': Mem, root: nat, page: nat)
    requires TreeOk(m, g) && forall x <- g.at :: Depth(x) < 4 ==> Get(m', g.at[x]) == Get(m, g.at[x])
    ensures Leaf(root, page) in g.at ==>
              && View(m', g, Leaf(root, page)).Some? && View(m, g, Leaf(root, page)).Some?
              && View(m', g, Leaf(root, page)).value.entry == View(m, g, Leaf(root, page)).value.entry
  {
    var leaf := Leaf(root, page);
    assert leaf in g.at ==> NodeOk(m, g, leaf);
  }

  /** What user code reads after the kernel has stored into a range, at every address of every space. */
  lemma UserLoadAfterStoreAll(m: Mem, g: Ledger, root: nat, va: nat, bytes: seq<Byte>, root2: nat, va2: nat)
    requires Inv(m, g) && Root(root) in g.at && va + |bytes| <= USER_TOP && Root(root2) in g.at
    ensures UserLoad(StoreAll(m, root, va, bytes), root2, va2) ==
            if root2 == root && va <= va2 < va + |bytes| && UserLoad(m, root, va2).Some? then Some(bytes[va2 - va])
            else UserLoad(m, root2, va2)
    ensures Usable(StoreAll(m, root, va, bytes), root2, va2) == Usable(m, root2, va2)
  {
    hide Reaches, Load, StoreAll, Inv, Translate, Lookup;
    if va2 < USER_TOP {
      LoadAfterStoreAll(m, g, root, va, bytes, root2, va2);
      ReachesAfterStoreAll(m, g, root, va, bytes, root2, va2 / 4096, false);
      ReachesAfterStoreAll(m, g, root, va, bytes, root2, va2 / 4096, true);
      LoadMapped(m, g, root2, va2);
    }
  }

  lemma LoadMapped(m: Mem, g: Ledger, root: nat, va: nat)
    requires Inv(m, g) && Root(root) in g.at && va < USER_TOP
    ensures Load(m, root, va).Some? <==> Mapped(g, root, va)
  {
    TranslateAgrees(m, g, root, va);
  }

  lemma {:induction false} StoreAllConcat(m: Mem, root: nat, va: nat, a: seq<Byte>, b: seq<Byte>)
    ensures StoreAll(m, root, va, a + b) == StoreAll(StoreAll(m, root, va, a), root, va + |a|, b)
    decreases |a|
  {
    if a == [] {
      assert a + b == b;
    } else {
      assert (a + b)[1..] == a[1..] + b;
      StoreAllConcat(Store(m, root, va, a[0]), root, va + 1, a[1..], b);
    }
  }

  lemma NextInPage(va: nat)
    requires va % 4096 + 1 < 4096
    ensures (va + 1) / 4096 == va / 4096 && (va + 1) % 4096 == va % 4096 + 1
  {
  }

  /** memcpy into one page is the run of stores through the address space. */
  lemma {:induction false} ChunkIsStores(m: Mem, g: Ledger, root: nat, va: nat, pa: nat, bytes: seq<Byte>)
    requires Inv(m, g) && Root(root) in g.at && va + |bytes| <= USER_TOP
    requires va % 4096 + |bytes| <= 4096 && bytes != [] ==> Translate(m, root, va) == Some(pa)
    requires va % 4096 + |bytes| <= 4096
    ensures PutBytes(m, pa, bytes) == StoreAll(m, root, va, bytes)
    decreases |bytes|
  {
    hide Lookup, Inv, SetByteAt;
    if bytes != [] {
      var m1 := Store(m, root, va, bytes[0]);
      StoreInv(m, g, root, va, bytes[0]);
      if |bytes| > 1 {
        NextInPage(va);
        TranslateAfterStore(m, g, root, va, bytes[0], root, va + 1);
      }
      ChunkIsStores(m1, g, root, va + 1, pa + 1, bytes[1..]);
    }
  }

  /** The chunked write equals bytewise stores of a prefix: all of it on success, and it
      succeeds exactly when every page of the range is mapped. */
  lemma {:induction false} WriteProcessIsStores(m: Mem, g: Ledger, root: nat, va: nat, bytes: seq<Byte>)
    returns (n: nat)
    requires Inv(m, g) && Root(root) in g.at && va + |bytes| <= USER_TOP
    ensures n <= |bytes| && WriteProcess(m, root, va, bytes).0 == StoreAll(m, root, va, bytes[..n])
    ensures WriteProcess(m, root, va, bytes).1 ==> n == |bytes|
    ensures WriteProcess(m, root, va, bytes).1 <==> RangeMapped(g, root, va, |bytes|)
    decreases |bytes|
  {
    hide Lookup, Index, Translate, Mapped, Inv, Min, StoreAll, PutBytes;
    n := 0;
    if bytes != [] {
      TranslateAgrees(m, g, root, va);
      if Mapped(g, root, va) {
        var chunk := Min(4096 - va % 4096, |bytes|);
        ChunkFits(va, |bytes|);
        var head, tail := bytes[..chunk], bytes[chunk..];
        WriteChunk(m, g, root, va, head);
        var k := WriteProcessIsStores(StoreAll(m, root, va, head), g, root, va + chunk, tail);
        n := chunk + k;
        StoreAllConcat(m, root, va, head, tail[..k]);
        assert head + tail[..k] == bytes[..n];
        RangeMappedConcat(g, root, va, chunk, |bytes|);
      } else {
        StoreNoBytes(m, root, va);
        assert !RangeMapped(g, root, va, |bytes|);
      }
    } else {
      StoreNoBytes(m, root, va);
    }
  }

  lemma StoreNoBytes(m: Mem, root: nat, va: nat)
    ensures StoreAll(m, root, va, []) == m
  {
  }

  /** The chunk ends at the page boundary or at the end of the data. */
  lemma ChunkFits(va: nat, n: nat)
    requires n > 0
    ensures 0 < Min(4096 - va % 4096, n) <= n && va % 4096 + Min(4096 - va % 4096, n) <= 4096
  {
  }

  lemma RangeMappedConcat(g: Ledger, root: nat, va: nat, a: nat, n: nat)
    requires a <= n && RangeMapped(g, root, va, a)
    ensures RangeMapped(g, root, va, n) <==> RangeMapped(g, root, va + a, n - a)
  {
  }

  ghost predicate RangeMapped(g: Ledger, root: nat, va: nat, length: nat) {
    forall i :: va <= i < va + length ==> Mapped(g, root, i)
  }

  lemma WriteChunk(m: Mem, g: Ledger, root: nat, va: nat, bytes: seq<Byte>)
    requires Inv(m, g) && Root(root) in g.at && va + |bytes| <= USER_TOP
    requires bytes != [] && va % 4096 + |bytes| <= 4096 && Mapped(g, root, va)
    ensures Translate(m, root, va).Some?
    ensures PutBytes(m, Translate(m, root, va).value, bytes) == StoreAll(m, root, va, bytes)
    ensures Inv(StoreAll(m, root, va, bytes), g) && RangeMapped(g, root, va, |bytes|)
  {
    hide Lookup, Index, Translate;
    TranslateAgrees(m, g, root, va);
    ChunkIsStores(m, g, root, va, Translate(m, root, va).value, bytes);
    StoreAllInv(m, g, root, va, bytes);
    forall i | va <= i < va + |bytes| ensures Mapped(g, root, i) {
      assert i / 4096 == va / 4096;
    }
  }

  // ----- effects confined to one space -----

  /** Nothing outside the space `root` changes, and no frame is left loose or lost. */
  ghost predicate Confined(m: Mem, g: Ledger, m': Mem, g': Ledger, root: nat) {
    && SameFrames(m, g, m', g') && LooseKept(m, g, m', g', {})
    && (forall x: Node :: SpaceOf(x) != root ==> (x in g'.at <==> x in g.at))
    && (forall x <- g.at :: SpaceOf(x) != root && x in g'.at ==> g'.at[x] == g.at[x])
    && (forall leaf: Node :: Depth(leaf) == 4 && SpaceOf(leaf) != root ==> View(m', g', leaf) == View(m, g, leaf))
  }

  lemma ConfinedTrans(m0: Mem, g0: Ledger, m1: Mem, g1: Ledger, m2: Mem, g2: Ledger, root: nat)
    requires Confined(m0, g0, m1, g1, root) && Confined(m1, g1, m2, g2, root)
    ensures Confined(m0, g0, m2, g2, root)
  {
    forall leaf: Node | Depth(leaf) == 4 && SpaceOf(leaf) != root ensures View(m2, g2, leaf) == View(m0, g0, leaf) {
      assert View(m1, g1, leaf) == View(m0, g0, leaf);
    }
  }

  lemma StoreAllConfined(m: Mem, g: Ledger, root: nat, va: nat, bytes: seq<Byte>)
    requires Inv(m, g) && Root(root) in g.at && va + |bytes| <= USER_TOP
    ensures Inv(StoreAll(m, root, va, bytes), g)
    ensures Confined(m, g, StoreAll(m, root, va, bytes), g, root)
  {
    StoreAllInv(m, g, root, va, bytes);
    var m' := StoreAll(m, root, va, bytes);
    StoreAllLoose(m, g, root, va, bytes);
    forall leaf: Node | Depth(leaf) == 4 && SpaceOf(leaf) != root ensures View(m', g, leaf) == View(m, g, leaf) {
      assert leaf in g.at ==> NodeOk(m, g, leaf);
    }
  }

  lemma {:induction false} StoreAllLoose(m: Mem, g: Ledger, root: nat, va: nat, bytes: seq<Byte>)
    requires Inv(m, g) && Root(root) in g.at && va + |bytes| <= USER_TOP
    ensures LooseKept(m, g, StoreAll(m, root, va, bytes), g, {})
    decreases |bytes|
  {
    hide Store, Inv;
    if bytes != [] {
      StoreInv(m, g, root, va, bytes[0]);
      StoreLoose(m, g, root, va, bytes[0]);
      StoreAllLoose(Store(m, root, va, bytes[0]), g, root, va + 1, bytes[1..]);
    }
  }

  lemma StoreLoose(m: Mem, g: Ledger, root: nat, va: nat, b: Byte)
    requires Inv(m, g) && Root(root) in g.at && va < USER_TOP
    ensures LooseKept(m, g, Store(m, root, va, b), g, {})
  {
    hide Lookup, Leaf;
    TranslateAgrees(m, g, root, va);
    assert Mapped(g, root, va) ==> NodeOk(m, g, Leaf(root, va / 4096));
  }

  lemma WriteProcessConfined(m: Mem, g: Ledger, root: nat, va: nat, bytes: seq<Byte>)
    requires Inv(m, g) && Root(root) in g.at && va + |bytes| <= USER_TOP
    ensures Inv(WriteProcess(m, root, va, bytes).0, g)
    ensures Confined(m, g, WriteProcess(m, root, va, bytes).0, g, root)
  {
    var n := WriteProcessIsStores(m, g, root, va, bytes);
    StoreAllConfined(m, g, root, va, bytes[..n]);
  }
}
