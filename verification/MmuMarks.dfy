/** What a translation writes and which fault it raises: accessed and dirty bits one by one, and the cause for every address. */
module MmuMarks {
  import opened PhysMem
  import opened Mmu

  // ---------------------------------------------------------------- bits

  /** Bit `k` of a number. */
  predicate Bit(x: nat, k: nat) {
    if k == 0 then x % 2 == 1 else Bit(x / 2, k - 1)
  }

  function Two(k: nat): nat {
    if k == 0 then 1 else 2 * Two(k - 1)
  }

  /** Adding a power of two to a number with that bit clear sets that bit and no other. */
  lemma {:induction false} AddBit(x: nat, k: nat, j: nat)
    requires !Bit(x, k)
    ensures Bit(x + Two(k), j) == (j == k || Bit(x, j))
  {
    if k == 0 {
      AddOdd(x);
    } else {
      AddEven(x, Two(k - 1));
      if j > 0 {
        AddBit(x / 2, k - 1, j - 1);
      }
    }
  }

  lemma MarkBits(pte: u64)
    ensures A(pte) == Bit(pte, 6) && D(pte) == Bit(pte, 7) && Two(6) == 64 && Two(7) == 128
  {
    var h3: nat := pte / 2 / 2 / 2;
    assert Bit(pte, 6) == Bit(pte / 2, 5) == Bit(pte / 2 / 2, 4) == Bit(h3, 3);
    assert Bit(pte, 7) == Bit(pte / 2, 6) == Bit(pte / 2 / 2, 5) == Bit(h3, 4);
    assert Bit(h3, 3) == Bit(h3 / 2, 2) == Bit(h3 / 2 / 2, 1) == Bit(h3 / 2 / 2 / 2, 0);
    assert Bit(h3, 4) == Bit(h3 / 2, 3) == Bit(h3 / 2 / 2, 2) == Bit(h3 / 2 / 2 / 2, 1);
    assert Two(6) == 2 * Two(5) == 4 * Two(4) == 8 * Two(3) == 16 * Two(2);
  }

  /** The entry stored back: bit 6 is set, bit 7 too after a store, and every other bit is as it was. */
  lemma TouchedBits(pte: u64, store: bool, j: nat)
    ensures Bit(Touched(pte, store), j) == (j == 6 || (j == 7 && store) || Bit(pte, j))
  {
    hide A, D, Bit, Two, SamePte;
    var a := WithA(pte);
    MarkBits(pte);
    MarkBits(a);
    if !A(pte) {
      AddBit(pte, 6, j);
    }
    if store && !D(a) {
      AddBit(a, 7, j);
    }
  }

  // ---------------------------------------------------------------- what is written

  /** Word `i` of page `p` is marked accessed, and dirty after a store; no other bit of it and no other byte of memory changed. */
  ghost predicate MarkedAt(mem: Memory, m: Memory, p: nat, i: nat, store: bool) {
    && p < DRAM_PAGES && i < 512
    && (forall j: nat :: Bit(Word(m[p], i), j) == (j == 6 || (j == 7 && store) || Bit(Word(mem[p], i), j)))
    && (forall q :: 0 <= q < DRAM_PAGES && q != p ==> m[q] == mem[q])
    && forall b :: 0 <= b < 4096 && b / 8 != i ==> m[p][b] == mem[p][b]
  }

  lemma FinishMarks(mem: Memory, p: nat, i: nat, ppn: nat, offset: nat, t: Access, user: bool)
    requires p < DRAM_PAGES && i < 512
    ensures var (m, r) := Finish(mem, p, i, ppn, offset, t, user);
            if r.Pa? then Permits(Word(mem[p], i), t, user) && MarkedAt(mem, m, p, i, t == Store) else m == mem
  {
    hide Permits, Touched, Word, Bit;
    var pte := Word(mem[p], i);
    if Permits(pte, t, user) {
      var w := Touched(pte, t == Store);
      WordSet(mem[p], i, w, i);
      forall j: nat ensures Bit(w, j) == (j == 6 || (j == 7 && t == Store) || Bit(pte, j)) {
        TouchedBits(pte, t == Store, j);
      }
    }
  }

  /** The entry a paged translation ends at permits the access; it alone is marked. A fault, or no paging, writes nothing. */
  ghost predicate EndsAt(mem: Memory, m: Memory, t: Access, user: bool, p: nat, i: nat) {
    MarkedAt(mem, m, p, i, t == Store) && V(Word(mem[p], i)) && Permits(Word(mem[p], i), t, user)
  }

  /** Whatever the satp and the mode. */
  lemma TranslateMarks(mem: Memory, satp: u64, va: u64, t: Access, user: bool)
    ensures var (m, r) := Translate(mem, satp, va, t, user);
            if satp < 0x8000_0000_0000_0000 then m == mem && r == Pa(va)
            else if r.Pa? then exists p, i :: EndsAt(mem, m, t, user, p, i)
            else m == mem
  {
    hide V, Leaf, Ppn, TranslateBelow, TablePage, Word, EndsAt;
    if satp >= 0x8000_0000_0000_0000 {
      var p2 := TablePage(satp % 0x1000_0000_0000);
      if InDram(p2) {
        var p1 := TablePage(Ppn(Word(mem[p2], Vpn2(va))));
        if InDram(p1) {
          BelowMarks(mem, p1, va, t, user);
        }
      }
    }
  }

  lemma BelowMarks(mem: Memory, p1: nat, va: u64, t: Access, user: bool)
    requires p1 < DRAM_PAGES
    ensures var (m, r) := TranslateBelow(mem, p1, va, t, user);
            if r.Pa? then exists p, i :: EndsAt(mem, m, t, user, p, i) else m == mem
  {
    hide V, Leaf, Ppn, Finish, TablePage, Word, Permits, MarkedAt;
    var e1 := Word(mem[p1], Vpn1(va));
    if V(e1) && Leaf(e1) {
      FinishMarks(mem, p1, Vpn1(va), Ppn(e1) - Ppn(e1) % 512 + Vpn0(va), Offset(va), t, user);
      var (m, r) := TranslateBelow(mem, p1, va, t, user);
      assert r.Pa? ==> EndsAt(mem, m, t, user, p1, Vpn1(va));
    } else if V(e1) {
      var p0 := TablePage(Ppn(e1));
      if InDram(p0) {
        FinishMarks(mem, p0, Vpn0(va), Ppn(Word(mem[p0], Vpn0(va))), Offset(va), t, user);
        var (m, r) := TranslateBelow(mem, p1, va, t, user);
        assert r.Pa? ==> EndsAt(mem, m, t, user, p0, Vpn0(va));
      }
    }
  }

  // ---------------------------------------------------------------- user accesses

  /** Above the user's 2 MiB: the address lies in a large page of the kernel, which user mode may not touch. */
  predicate KernelPage(mem: Memory, dram: nat, sp: Space, a: nat)
    requires sp.l1 < DRAM_PAGES && dram < DRAM_PAGES
  {
    || (0x20_0000 <= a < 0x4000_0000 && V(Word(mem[sp.l1], a / 0x20_0000)))
    || (0x8000_0000 <= a < 0xc000_0000 && V(Word(mem[dram], a / 0x20_0000 - 1024)))
  }

  /** The fault of an access that gets no address: that of its kind where a page is mapped or belongs to the kernel, and a load
      page fault, whatever the kind, where no entry is valid. */
  predicate RightFault(mem: Memory, dram: nat, sp: Space, va: u64, t: Access, c: Cause)
    requires sp.l1 < DRAM_PAGES && dram < DRAM_PAGES
  {
    var a := va % 0x80_0000_0000;
    if Find(sp.pages, a - a % 4096, 0) < |sp.pages| || KernelPage(mem, dram, sp, a) then
      && (t == Fetch ==> c == InstructionPageFault) && (t == Load ==> c == LoadPageFault) && (t == Store ==> c == StorePageFault)
    else c == LoadPageFault
  }

  /** Agreement in full: the address, the one word that is marked, and the fault. */
  lemma UserAccess(mem: Memory, dram: nat, sp: Space, va: u64, t: Access)
    requires Tables(mem, dram, sp)
    ensures var (m, r) := Translate(mem, Satp(sp), va, t, true);
            if Meaning(sp, va, t) >= 0 then
              r == Pa(Meaning(sp, va, t)) && MarkedAt(mem, m, sp.l0, va % 0x80_0000_0000 / 4096, t == Store)
            else m == mem && r.Fault? && RightFault(mem, dram, sp, va, t, r.cause)
  {
    hide Vpn0, Vpn1, Vpn2, Offset, TranslateBelow, Translate, Find, L0Ok, RootOk, PointsTo, Word, MarkedAt, V, KernelPage, Meaning;
    Agreement(mem, dram, sp, va, t);
    WalkRoot(mem, dram, sp, va, t, true);
    VpnRange(va);
    KernelPageIs(mem, dram, sp, va);
    if Vpn2(va) == 0 && Vpn1(va) == 0 {
      FirstPages(va);
      UserPage(mem, dram, sp, va, t);
    } else {
      Unmapped(sp.pages, va);
      if Vpn2(va) == 0 {
        KernelFault(mem, sp.l1, va, t);
      } else if Vpn2(va) == 2 {
        KernelFault(mem, dram, va, t);
      }
    }
  }

  lemma FirstPages(va: u64)
    requires Vpn2(va) == 0 && Vpn1(va) == 0
    ensures var a := va % 0x80_0000_0000; a - a % 4096 == 4096 * Vpn0(va) && a / 4096 == Vpn0(va)
  {
    hide Vpn0, Vpn1, Vpn2;
    PageOfVa(va);
    Parts(va);
  }

  lemma Unmapped(pages: seq<Mapping>, va: u64)
    requires (forall k :: 0 <= k < |pages| ==> pages[k].va < 0x20_0000) && !(Vpn2(va) == 0 && Vpn1(va) == 0)
    ensures var a := va % 0x80_0000_0000; Find(pages, a - a % 4096, 0) == |pages|
  {
    hide Vpn0, Vpn1, Vpn2, Find;
    PageOfVa(va);
    VpnRange(va);
    var page := (Vpn2(va) * 512 + Vpn1(va)) * 512 + Vpn0(va);
    assert page >= 512;
    NoSuchPage(pages, page);
  }

  lemma KernelPageIs(mem: Memory, dram: nat, sp: Space, va: u64)
    requires sp.l1 < DRAM_PAGES && dram < DRAM_PAGES
    ensures Vpn1(va) < 512
    ensures KernelPage(mem, dram, sp, va % 0x80_0000_0000)
       <==> (Vpn2(va) == 0 && Vpn1(va) > 0 && V(Word(mem[sp.l1], Vpn1(va)))) || (Vpn2(va) == 2 && V(Word(mem[dram], Vpn1(va))))
  {
    hide Vpn0, Vpn1, Vpn2, V, Word;
    VpnRange(va);
    Parts(va);
  }

  /** The page numbers, read off the low 39 bits. */
  lemma Parts(va: u64)
    ensures var a := va % 0x80_0000_0000;
            && a / 0x20_0000 == Vpn2(va) * 512 + Vpn1(va) && a / 4096 == (Vpn2(va) * 512 + Vpn1(va)) * 512 + Vpn0(va)
            && (0x20_0000 <= a < 0x4000_0000 <==> Vpn2(va) == 0 && Vpn1(va) > 0) && (0x8000_0000 <= a < 0xc000_0000 <==> Vpn2(va) == 2)
  {
    hide Vpn0, Vpn1, Vpn2;
    VaParts(va);
    VpnRange(va);
    var n := Vpn2(va) * 512 + Vpn1(va);
    var low := Vpn0(va) * 4096 + Offset(va);
    assert va % 0x80_0000_0000 == n * 0x20_0000 + low && 0 <= low < 0x20_0000;
  }

  lemma KernelFault(mem: Memory, p1: nat, va: u64, t: Access)
    requires p1 < DRAM_PAGES && KernelOnly(Word(mem[p1], Vpn1(va)))
    ensures TranslateBelow(mem, p1, va, t, true) == (mem, Fault(if V(Word(mem[p1], Vpn1(va))) then PageFault(t) else LoadPageFault))
  {
    hide V, R, W, X, U, Ppn, TablePage, Word;
  }

  lemma UserPage(mem: Memory, dram: nat, sp: Space, va: u64, t: Access)
    requires Tables(mem, dram, sp) && Vpn1(va) == 0
    ensures var (m, r) := TranslateBelow(mem, sp.l1, va, t, true);
            var k := Find(sp.pages, 4096 * Vpn0(va), 0);
            && (r.Pa? ==> MarkedAt(mem, m, sp.l0, Vpn0(va), t == Store))
            && (r.Fault? ==> r.cause == if k < |sp.pages| then PageFault(t) else LoadPageFault)
  {
    hide V, R, W, X, U, Ppn, Pte, RootOk, DramOk, PointsTo, TablePage, Vpn0, Find, Touched, MarkedAt, Permits;
    PointsFields(Word(mem[sp.l1], 0), sp.l0, true);
    VpnRange(va);
    var i := Vpn0(va);
    var e0 := Word(mem[sp.l0], i);
    assert EntryOk(e0, sp.pages, i);
    var k := Find(sp.pages, 4096 * i, 0);
    if k < |sp.pages| {
      PteFields(DRAM_PPN + sp.pages[k].page, sp.pages[k].flags, true);
    }
    FinishMarks(mem, sp.l0, i, Ppn(e0), Offset(va), t, true);
  }
}
