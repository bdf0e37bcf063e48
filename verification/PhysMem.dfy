/** Physical memory as 4096-byte pages, 64-bit words in them, and Sv39 page-table entries. */
module PhysMem {
  import opened Bytes

  type u64 = x: int | 0 <= x < 0x1_0000_0000_0000_0000

  /** DRAM: 128 MiB from 0x80000000 on, page by page. */
  const DRAM_PAGES := 32768
  const DRAM_PPN := 0x80000

  type Page = p: seq<byte> | |p| == 4096 witness Zeros(4096)

  type Memory = m: seq<Page> | |m| == DRAM_PAGES witness NoMemory()

  function NoMemory(): (m: seq<Page>)
    ensures |m| == DRAM_PAGES
  {
    seq(DRAM_PAGES, i => Zeros(4096))
  }

  function U64At(s: seq<byte>, o: nat): u64
    requires o + 8 <= |s|
  {
    U32At(s, o) + 0x1_0000_0000 * U32At(s, o + 4)
  }

  function U64Bytes(v: u64): (r: seq<byte>)
    ensures |r| == 8
  {
    U32Bytes(v % 0x1_0000_0000) + U32Bytes(v / 0x1_0000_0000)
  }

  lemma U64Is(s: seq<byte>, o: nat, v: u64)
    requires o + 8 <= |s| && s[o..o + 8] == U64Bytes(v)
    ensures U64At(s, o) == v
  {
    hide U32Bytes;
    var lo, hi := U32Bytes(v % 0x1_0000_0000), U32Bytes(v / 0x1_0000_0000);
    assert s[o..o + 8][..4] == s[o..o + 4] && s[o..o + 8][4..] == s[o + 4..o + 8];
    assert (lo + hi)[..4] == lo && (lo + hi)[4..] == hi;
    U32Is(s, o, v % 0x1_0000_0000);
    U32Is(s, o + 4, v / 0x1_0000_0000);
  }

  /** Word `i` of a page. */
  function Word(p: Page, i: nat): u64
    requires i < 512
  {
    U64At(p, 8 * i)
  }

  function SetWord(p: Page, i: nat, v: u64): (r: Page)
    requires i < 512
  {
    Splice(p, 8 * i, U64Bytes(v))
  }

  lemma U64RoundTrip(s: seq<byte>, o: nat, v: u64)
    requires o + 8 <= |s|
    ensures U64At(Splice(s, o, U64Bytes(v)), o) == v
  {
    var lo, hi := v % 0x1_0000_0000, v / 0x1_0000_0000;
    var b := U64Bytes(v);
    U32RoundTrip(lo);
    U32RoundTrip(hi);
    assert b[0..4] == U32Bytes(lo)[0..4];
    U32Local(b, 0, U32Bytes(lo), 0);
    assert b[4..8] == U32Bytes(hi)[0..4];
    U32Local(b, 4, U32Bytes(hi), 0);
    U32InSplice(s, o, b, o);
    U32InSplice(s, o, b, o + 4);
  }

  /** Storing one word changes that word and no other. */
  lemma WordSet(p: Page, i: nat, v: u64, j: nat)
    requires i < 512 && j < 512
    ensures Word(SetWord(p, i, v), j) == if j == i then v else Word(p, j)
  {
    if i == j {
      U64RoundTrip(p, 8 * i, v);
    } else {
      var r := SetWord(p, i, v);
      assert r[8 * j..8 * j + 4] == p[8 * j..8 * j + 4];
      U32Local(r, 8 * j, p, 8 * j);
      assert r[8 * j + 4..8 * j + 8] == p[8 * j + 4..8 * j + 8];
      U32Local(r, 8 * j + 4, p, 8 * j + 4);
    }
  }

  lemma ZeroWord(i: nat)
    requires i < 512
    ensures Word(Zeros(4096), i) == 0
  {
  }

  // ---------------------------------------------------------------- page-table entries

  /** Bits 0 to 4, 6 and 7 of an entry, and the page number above bit 9, by repeated halving. */
  predicate V(pte: u64) { pte % 2 == 1 }
  predicate R(pte: u64) { pte / 2 % 2 == 1 }
  predicate W(pte: u64) { pte / 2 / 2 % 2 == 1 }
  predicate X(pte: u64) { pte / 2 / 2 / 2 % 2 == 1 }
  predicate U(pte: u64) { pte / 2 / 2 / 2 / 2 % 2 == 1 }
  predicate A(pte: u64) { pte / 2 / 2 / 2 / 2 / 2 / 2 % 2 == 1 }
  predicate D(pte: u64) { pte / 2 / 2 / 2 / 2 / 2 / 2 / 2 % 2 == 1 }

  function Ppn(pte: u64): nat {
    pte / 2 / 2 / 2 / 2 / 2 / 2 / 2 / 2 / 2 / 2
  }

  predicate Leaf(pte: u64) {
    R(pte) || W(pte) || X(pte)
  }

  /** The permissions of a mapping. */
  datatype Flags = Flags(r: bool, w: bool, x: bool)

  function One(b: bool): nat {
    if b then 1 else 0
  }

  /** A valid entry with these permissions; `user` is the U bit. */
  function Pte(ppn: nat, f: Flags, user: bool): (pte: u64)
    requires ppn < 0x4_0000_0000_0000
  {
    1 + 2 * (One(f.r) + 2 * (One(f.w) + 2 * (One(f.x) + 2 * (One(user) + 64 * ppn))))
  }

  const NO_FLAGS := Flags(false, false, false)

  lemma Halves(b: bool, y: nat)
    ensures (One(b) + 2 * y) / 2 == y && ((One(b) + 2 * y) % 2 == 1) == b
  {
  }

  lemma PteNested(ppn: nat, f: Flags, user: bool)
    requires ppn < 0x4_0000_0000_0000
    ensures Pte(ppn, f, user) == One(true) + 2 * (One(f.r) + 2 * (One(f.w) + 2 * (One(f.x) + 2 * (One(user) + 2 * (32 * ppn)))))
  {
  }

  lemma PteFields(ppn: nat, f: Flags, user: bool)
    requires ppn < 0x4_0000_0000_0000
    ensures var p := Pte(ppn, f, user);
            V(p) && R(p) == f.r && W(p) == f.w && X(p) == f.x && U(p) == user && Ppn(p) == ppn
  {
    hide Pte, One, Ppn;
    var y4 := One(user) + 2 * (32 * ppn);
    var y3 := One(f.x) + 2 * y4;
    var y2 := One(f.w) + 2 * y3;
    var y1 := One(f.r) + 2 * y2;
    PteNested(ppn, f, user);
    var p := Pte(ppn, f, user);
    assert p == One(true) + 2 * y1;
    Halves(true, y1);
    Halves(f.r, y2);
    Halves(f.w, y3);
    Halves(f.x, y4);
    Halves(user, 32 * ppn);
    assert p / 2 == y1 && y1 / 2 == y2 && y2 / 2 == y3 && y3 / 2 == y4 && y4 / 2 == 32 * ppn;
    PpnOf(p, ppn);
  }

  lemma PpnOf(p: u64, ppn: nat)
    requires p / 2 / 2 / 2 / 2 / 2 == 32 * ppn
    ensures Ppn(p) == ppn
  {
    assert 32 * ppn / 2 == 16 * ppn;
    assert 16 * ppn / 2 == 8 * ppn;
    assert 8 * ppn / 2 == 4 * ppn;
    assert 4 * ppn / 2 == 2 * ppn;
  }

  /** Two entries the walk cannot tell apart: they differ at most in the accessed and dirty bits. */
  predicate SamePte(a: u64, b: u64) {
    V(a) == V(b) && R(a) == R(b) && W(a) == W(b) && X(a) == X(b) && U(a) == U(b) && Ppn(a) == Ppn(b)
  }

  /** Adding an even number adds half of it to the half and keeps the parity. */
  lemma AddEven(x: nat, e: nat)
    ensures (x + 2 * e) / 2 == x / 2 + e && (x + 2 * e) % 2 == x % 2
  {
  }

  /** Setting a clear lowest bit does not show above it. */
  lemma AddOdd(x: nat)
    requires x % 2 == 0
    ensures (x + 1) / 2 == x / 2 && (x + 1) % 2 == 1
  {
  }

  lemma AddA(pte: u64)
    requires !A(pte)
    ensures pte + 64 < 0x1_0000_0000_0000_0000 && SamePte(pte + 64, pte)
  {
    var h1: nat := pte / 2;
    var h2: nat := h1 / 2;
    var h3: nat := h2 / 2;
    var h4: nat := h3 / 2;
    var h5: nat := h4 / 2;
    AddEven(pte, 32);
    AddEven(h1, 16);
    AddEven(h2, 8);
    AddEven(h3, 4);
    AddEven(h4, 2);
    AddEven(h5, 1);
    AddOdd(h5 / 2);
    TopBits(pte, 64);
  }

  lemma AddD(pte: u64)
    requires !D(pte)
    ensures pte + 128 < 0x1_0000_0000_0000_0000 && SamePte(pte + 128, pte)
  {
    var h1: nat := pte / 2;
    var h2: nat := h1 / 2;
    var h3: nat := h2 / 2;
    var h4: nat := h3 / 2;
    var h5: nat := h4 / 2;
    var h6: nat := h5 / 2;
    AddEven(pte, 64);
    AddEven(h1, 32);
    AddEven(h2, 16);
    AddEven(h3, 8);
    AddEven(h4, 4);
    AddEven(h5, 2);
    AddEven(h6, 1);
    AddOdd(h6 / 2);
    TopBits(pte, 128);
  }

  /** An entry whose page number did not change has not grown past 64 bits. */
  lemma TopBits(pte: u64, e: nat)
    requires (pte + e) / 2 / 2 / 2 / 2 / 2 / 2 / 2 / 2 / 2 / 2 == pte / 2 / 2 / 2 / 2 / 2 / 2 / 2 / 2 / 2 / 2
    ensures pte + e < 0x1_0000_0000_0000_0000
  {
    var n := pte / 2 / 2 / 2 / 2 / 2 / 2 / 2 / 2 / 2 / 2;
    assert n <= 0x3f_ffff_ffff_ffff;
  }

  function WithA(pte: u64): (r: u64)
    ensures SamePte(r, pte)
  {
    if A(pte) then pte else AddA(pte); pte + 64
  }

  function WithD(pte: u64): (r: u64)
    ensures SamePte(r, pte)
  {
    if D(pte) then pte else AddD(pte); pte + 128
  }

  /** The entry the walk stores back: accessed, and dirty after a store. The walk cannot tell it from the old one. */
  function Touched(pte: u64, store: bool): (r: u64)
    ensures SamePte(r, pte)
  {
    if store then WithD(WithA(pte)) else WithA(pte)
  }
}
