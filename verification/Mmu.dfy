/** The Sv39 walk of the emulated MMU, and its agreement with the list of mappings the kernel keeps for a user space. */
module Mmu {
  import opened PhysMem

  datatype Access = Fetch | Load | Store

  datatype Cause = InstructionPageFault | LoadPageFault | StorePageFault | AccessFault

  datatype Translation = Pa(addr: nat) | Fault(cause: Cause)

  // ---------------------------------------------------------------- the walk

  /** The DRAM page that holds physical page `ppn`; addresses have 64 bits. */
  function TablePage(ppn: nat): int {
    ppn % 0x10_0000_0000_0000 - DRAM_PPN
  }

  predicate InDram(page: int) {
    0 <= page < DRAM_PAGES
  }

  function PageFault(t: Access): Cause {
    match t
    case Fetch => InstructionPageFault
    case Load => LoadPageFault
    case Store => StorePageFault
  }

  /** The permission an access needs, and the U bit for user mode. */
  predicate Permits(pte: u64, t: Access, user: bool) {
    && (match t case Fetch => X(pte) case Load => R(pte) case Store => W(pte))
    && (user ==> U(pte))
  }

  /** The end of the walk at entry `i` of table `page`: check, mark accessed and dirty, and form the address. */
  function Finish(mem: Memory, page: nat, i: nat, ppn: nat, offset: nat, t: Access, user: bool): (r: (Memory, Translation))
    requires page < DRAM_PAGES && i < 512
  {
    var pte := Word(mem[page], i);
    if !Permits(pte, t, user) then (mem, Fault(PageFault(t)))
    else (mem[page := SetWord(mem[page], i, Touched(pte, t == Store))], Pa(ppn % 0x10_0000_0000_0000 * 4096 + offset))
  }

  function Offset(va: u64): nat { va % 4096 }
  function Vpn0(va: u64): nat { va / 4096 % 512 }
  function Vpn1(va: u64): nat { va / 4096 / 512 % 512 }
  function Vpn2(va: u64): nat { va / 4096 / 512 / 512 % 512 }

  /** `Mmu::translate` */
  function Translate(mem: Memory, satp: u64, va: u64, t: Access, user: bool): (r: (Memory, Translation)) {
    if satp < 0x8000_0000_0000_0000 then (mem, Pa(va))
    else
      var p2 := TablePage(satp % 0x1000_0000_0000);
      if !InDram(p2) then (mem, Fault(AccessFault))
      else
        var e2 := Word(mem[p2], Vpn2(va));
        if !V(e2) || Leaf(e2) then (mem, Fault(LoadPageFault))
        else
          var p1 := TablePage(Ppn(e2));
          if !InDram(p1) then (mem, Fault(AccessFault)) else TranslateBelow(mem, p1, va, t, user)
  }

  /** The walk from the second level on. */
  function TranslateBelow(mem: Memory, p1: nat, va: u64, t: Access, user: bool): (r: (Memory, Translation))
    requires p1 < DRAM_PAGES
  {
    var e1 := Word(mem[p1], Vpn1(va));
    if !V(e1) then (mem, Fault(LoadPageFault))
    else if Leaf(e1) then
      Finish(mem, p1, Vpn1(va), Ppn(e1) - Ppn(e1) % 512 + Vpn0(va), Offset(va), t, user)
    else
      var p0 := TablePage(Ppn(e1));
      if !InDram(p0) then (mem, Fault(AccessFault))
      else
        var e0 := Word(mem[p0], Vpn0(va));
        if !V(e0) then (mem, Fault(LoadPageFault)) else Finish(mem, p0, Vpn0(va), Ppn(e0), Offset(va), t, user)
  }

  // ---------------------------------------------------------------- user spaces

  /** One page of a user space: where it appears, the DRAM page behind it, and its permissions. */
  datatype Mapping = Mapping(va: nat, page: nat, flags: Flags)

  /** A user space: its three tables and the list of mappings. */
  datatype Space = Space(root: nat, l1: nat, l0: nat, pages: seq<Mapping>)

  function Satp(sp: Space): u64
    requires sp.root < DRAM_PAGES
  {
    0x8000_0000_0000_0000 + DRAM_PPN + sp.root
  }

  function AddrOf(page: nat): nat {
    4096 * (DRAM_PPN + page)
  }

  /** `find_mapping`: the index of the mapping for a page address, or the number of mappings. */
  function Find(pages: seq<Mapping>, va: nat, i: nat): (k: nat)
    requires i <= |pages|
    ensures i <= k <= |pages|
    ensures k < |pages| ==> pages[k].va == va
    ensures forall j :: i <= j < k ==> pages[j].va != va
    decreases |pages| - i
  {
    if i == |pages| || pages[i].va == va then i else Find(pages, va, i + 1)
  }

  function PteOf(m: Mapping): u64
    requires m.page < DRAM_PAGES
  {
    Pte(DRAM_PPN + m.page, m.flags, true)
  }

  /** An entry user mode gets nothing from. */
  predicate KernelOnly(pte: u64) {
    !V(pte) || (Leaf(pte) && !U(pte))
  }

  /** A pointer to the next table. */
  predicate PointsTo(pte: u64, page: nat, user: bool)
    requires page < DRAM_PAGES
  {
    SamePte(pte, Pte(DRAM_PPN + page, NO_FLAGS, user))
  }

  predicate RootOk(root: Page, l1: nat, dram: nat)
    requires l1 < DRAM_PAGES && dram < DRAM_PAGES
  {
    && PointsTo(Word(root, 0), l1, false) && PointsTo(Word(root, 2), dram, false)
    && forall i :: 0 <= i < 512 && i != 0 && i != 2 ==> !V(Word(root, i))
  }

  predicate L1Ok(l1: Page, l0: nat)
    requires l0 < DRAM_PAGES
  {
    PointsTo(Word(l1, 0), l0, true) && (forall i :: 1 <= i < 512 ==> KernelOnly(Word(l1, i))) && Devices(l1)
  }

  const RW := Flags(true, true, false)

  /** The 2 MiB pages of the timer (CLINT), the interrupt controller (PLIC) and the serial port (UART), each at its own address. */
  function DevicePte(i: nat): u64
    requires i < 512
  {
    if i == 16 || 96 <= i <= 128 then Pte(512 * i, RW, false) else 0
  }

  /** Up to accessed and dirty bits, a table for the first GiB maps the devices and, but for its first entry, nothing else. */
  predicate Devices(l1: Page) {
    forall i :: 1 <= i < 512 ==> SamePte(Word(l1, i), DevicePte(i))
  }

  predicate DramOk(dram: Page) {
    forall i :: 0 <= i < 512 ==> KernelOnly(Word(dram, i))
  }

  const RWX := Flags(true, true, true)

  /** Up to accessed and dirty bits, the first 64 entries are 2 MiB pages of DRAM in order. */
  predicate DramIdentity(dram: Page) {
    forall j :: 0 <= j < 64 ==> SamePte(Word(dram, j), Pte(DRAM_PPN + 512 * j, RWX, false))
  }

  /** Entry `i` of the last table is what the list of mappings says about page `i`. */
  predicate EntryOk(pte: u64, pages: seq<Mapping>, i: nat) {
    var k := Find(pages, 4096 * i, 0);
    if k == |pages| then !V(pte) else pages[k].page < DRAM_PAGES && SamePte(pte, PteOf(pages[k]))
  }

  predicate L0Ok(l0: Page, pages: seq<Mapping>) {
    forall i :: 0 <= i < 512 ==> EntryOk(Word(l0, i), pages, i)
  }

  predicate TablesApart(sp: Space, dram: nat) {
    && sp.root < DRAM_PAGES && sp.l1 < DRAM_PAGES && sp.l0 < DRAM_PAGES && dram < DRAM_PAGES
    && sp.root != sp.l1 && sp.root != sp.l0 && sp.root != dram && sp.l1 != sp.l0 && sp.l1 != dram && sp.l0 != dram
  }

  /** The tables of `sp` in memory say what its list of mappings says; `dram` is the kernel's table for DRAM. */
  predicate Tables(mem: Memory, dram: nat, sp: Space) {
    && TablesApart(sp, dram)
    && RootOk(mem[sp.root], sp.l1, dram) && L1Ok(mem[sp.l1], sp.l0) && DramOk(mem[dram]) && L0Ok(mem[sp.l0], sp.pages)
    && (forall k :: 0 <= k < |sp.pages| ==> sp.pages[k].page < DRAM_PAGES && sp.pages[k].va < 0x20_0000)
  }

  predicate Allows(f: Flags, t: Access) {
    match t case Fetch => f.x case Load => f.r case Store => f.w
  }

  /** What the mappings alone promise for a user-mode access: the address, or nothing. */
  function Meaning(sp: Space, va: u64, t: Access): (pa: int) {
    var a := va % 0x80_0000_0000;
    var k := Find(sp.pages, a - a % 4096, 0);
    if k < |sp.pages| && Allows(sp.pages[k].flags, t) then AddrOf(sp.pages[k].page) + a % 4096 else -1
  }

  // ---------------------------------------------------------------- agreement

  lemma VaParts(va: u64)
    ensures va % 0x80_0000_0000 == ((Vpn2(va) * 512 + Vpn1(va)) * 512 + Vpn0(va)) * 4096 + Offset(va)
  {
    var q: nat := va / 4096;
    var q1: nat := q / 512;
    var q2: nat := q1 / 512;
    var q3: nat := q2 / 512;
    assert va == 4096 * q + Offset(va) && q == 512 * q1 + Vpn0(va) && q1 == 512 * q2 + Vpn1(va) && q2 == 512 * q3 + Vpn2(va);
    var low := ((Vpn2(va) * 512 + Vpn1(va)) * 512 + Vpn0(va)) * 4096 + Offset(va);
    assert va == 0x80_0000_0000 * q3 + low;
    assert 0 <= low < 0x80_0000_0000;
    ModOf(q3, low);
  }

  lemma ModOf(q: nat, low: nat)
    requires low < 0x80_0000_0000
    ensures (0x80_0000_0000 * q + low) % 0x80_0000_0000 == low
  {
  }

  /** The page and the offset of the 39 address bits the walk looks at. */
  lemma PageOfVa(va: u64)
    ensures var a := va % 0x80_0000_0000;
            && a % 4096 == Offset(va) && a - a % 4096 == 4096 * ((Vpn2(va) * 512 + Vpn1(va)) * 512 + Vpn0(va))
  {
    hide Vpn0, Vpn1, Vpn2;
    VaParts(va);
    var n := (Vpn2(va) * 512 + Vpn1(va)) * 512 + Vpn0(va);
    assert (n * 4096 + Offset(va)) % 4096 == Offset(va);
  }

  lemma TableOfPpn(page: nat)
    requires page < DRAM_PAGES
    ensures TablePage(DRAM_PPN + page) == page
  {
  }

  lemma PointsFields(pte: u64, page: nat, user: bool)
    requires page < DRAM_PAGES && PointsTo(pte, page, user)
    ensures V(pte) && !Leaf(pte) && U(pte) == user && TablePage(Ppn(pte)) == page
  {
    hide V, R, W, X, U, Ppn, TablePage, Pte;
    PteFields(DRAM_PPN + page, NO_FLAGS, user);
    TableOfPpn(page);
  }

  /** The first step of a user-mode walk: to the user's own second table, to the kernel's, or to a fault. */
  lemma WalkRoot(mem: Memory, dram: nat, sp: Space, va: u64, t: Access, user: bool)
    requires Tables(mem, dram, sp)
    ensures Translate(mem, Satp(sp), va, t, user)
         == if Vpn2(va) == 0 then TranslateBelow(mem, sp.l1, va, t, user)
            else if Vpn2(va) == 2 then TranslateBelow(mem, dram, va, t, user)
            else (mem, Fault(LoadPageFault))
  {
    hide V, R, W, X, U, Ppn, Pte, L1Ok, DramOk, L0Ok, PointsTo, TranslateBelow, TablePage;
    assert Satp(sp) % 0x1000_0000_0000 == DRAM_PPN + sp.root;
    TableOfPpn(sp.root);
    var e2 := Word(mem[sp.root], Vpn2(va));
    if Vpn2(va) == 0 {
      PointsFields(e2, sp.l1, false);
    } else if Vpn2(va) == 2 {
      PointsFields(e2, dram, false);
    }
  }

  /** Nothing in a kernel-only entry is for user mode. */
  lemma WalkKernel(mem: Memory, p1: nat, va: u64, t: Access)
    requires p1 < DRAM_PAGES && KernelOnly(Word(mem[p1], Vpn1(va)))
    ensures TranslateBelow(mem, p1, va, t, true).0 == mem && TranslateBelow(mem, p1, va, t, true).1.Fault?
  {
    hide V, R, W, X, U, Ppn, TablePage;
  }

  lemma WalkUser(mem: Memory, dram: nat, sp: Space, va: u64, t: Access)
    requires Tables(mem, dram, sp) && Vpn1(va) == 0
    ensures var (m, r) := TranslateBelow(mem, sp.l1, va, t, true);
            var k := Find(sp.pages, 4096 * Vpn0(va), 0);
            if k < |sp.pages| && Allows(sp.pages[k].flags, t) then
              r == Pa(AddrOf(sp.pages[k].page) + Offset(va)) && forall p :: 0 <= p < DRAM_PAGES && p != sp.l0 ==> m[p] == mem[p]
            else r.Fault? && m == mem
  {
    hide V, R, W, X, U, Ppn, Pte, RootOk, DramOk, PointsTo, TablePage, Vpn0, Find, Touched;
    PointsFields(Word(mem[sp.l1], 0), sp.l0, true);
    var i := Vpn0(va);
    assert 0 <= i < 512 by { VpnRange(va); }
    var e0 := Word(mem[sp.l0], i);
    assert EntryOk(e0, sp.pages, i);
    var k := Find(sp.pages, 4096 * i, 0);
    if k < |sp.pages| {
      PteFields(DRAM_PPN + sp.pages[k].page, sp.pages[k].flags, true);
      assert (DRAM_PPN + sp.pages[k].page) % 0x10_0000_0000_0000 == DRAM_PPN + sp.pages[k].page;
    }
  }

  lemma VpnRange(va: u64)
    ensures Vpn0(va) < 512 && Vpn1(va) < 512 && Vpn2(va) < 512
  {
  }

  /** Page-table agreement: under the space's satp a user-mode access goes exactly where the list of mappings sends the page
      of the low 39 address bits, provided it grants the permission, and faults in every other case. */
  lemma Agreement(mem: Memory, dram: nat, sp: Space, va: u64, t: Access)
    requires Tables(mem, dram, sp)
    ensures var (m, r) := Translate(mem, Satp(sp), va, t, true);
            if Meaning(sp, va, t) >= 0 then
              r == Pa(Meaning(sp, va, t)) && forall p :: 0 <= p < DRAM_PAGES && p != sp.l0 ==> m[p] == mem[p]
            else r.Fault? && m == mem
  {
    hide Vpn0, Vpn1, Vpn2, TranslateBelow, Translate, KernelOnly, Find, L0Ok, RootOk, PointsTo;
    WalkRoot(mem, dram, sp, va, t, true);
    PageOfVa(va);
    VpnRange(va);
    var page := (Vpn2(va) * 512 + Vpn1(va)) * 512 + Vpn0(va);
    if Vpn2(va) == 0 && Vpn1(va) == 0 {
      WalkUser(mem, dram, sp, va, t);
    } else {
      assert page >= 512;
      NoSuchPage(sp.pages, page);
      if Vpn2(va) == 0 {
        WalkKernel(mem, sp.l1, va, t);
      } else if Vpn2(va) == 2 {
        WalkKernel(mem, dram, va, t);
      }
    }
  }

  lemma NoSuchPage(pages: seq<Mapping>, page: nat)
    requires page >= 512 && forall k :: 0 <= k < |pages| ==> pages[k].va < 0x20_0000
    ensures Find(pages, 4096 * page, 0) == |pages|
  {
  }

  // ---------------------------------------------------------------- any number of translations

  /** Replacing an entry by one the walk cannot tell apart. */
  ghost predicate TouchedOnly(mem: Memory, m: Memory) {
    m == mem || exists p: nat, i: nat, w: u64 :: TouchedAt(mem, m, p, i, w)
  }

  predicate TouchedAt(mem: Memory, m: Memory, p: nat, i: nat, w: u64) {
    p < DRAM_PAGES && i < 512 && m == mem[p := SetWord(mem[p], i, w)] && SamePte(w, Word(mem[p], i))
  }

  lemma FinishTouches(mem: Memory, page: nat, i: nat, ppn: nat, offset: nat, t: Access, user: bool)
    requires page < DRAM_PAGES && i < 512
    ensures TouchedOnly(mem, Finish(mem, page, i, ppn, offset, t, user).0)
  {
    hide V, R, W, X, U, Ppn;
    var w := Touched(Word(mem[page], i), t == Store);
    var m := Finish(mem, page, i, ppn, offset, t, user).0;
    assert m == mem || TouchedAt(mem, m, page, i, w);
  }

  /** Whatever the satp and the mode, a translation changes at most accessed and dirty bits. */
  lemma TranslateTouches(mem: Memory, satp: u64, va: u64, t: Access, user: bool)
    ensures TouchedOnly(mem, Translate(mem, satp, va, t, user).0)
  {
    hide V, R, W, X, U, Ppn, Finish, TablePage, TouchedAt;
    if satp >= 0x8000_0000_0000_0000 {
      var p2 := TablePage(satp % 0x1000_0000_0000);
      if InDram(p2) {
        var p1 := TablePage(Ppn(Word(mem[p2], Vpn2(va))));
        if InDram(p1) {
          BelowTouches(mem, p1, va, t, user);
        }
      }
    }
  }

  lemma BelowTouches(mem: Memory, p1: nat, va: u64, t: Access, user: bool)
    requires p1 < DRAM_PAGES
    ensures TouchedOnly(mem, TranslateBelow(mem, p1, va, t, user).0)
  {
    hide V, R, W, X, U, Ppn, Finish, TablePage, TouchedAt;
    var e1 := Word(mem[p1], Vpn1(va));
    if Leaf(e1) {
      FinishTouches(mem, p1, Vpn1(va), Ppn(e1) - Ppn(e1) % 512 + Vpn0(va), Offset(va), t, user);
    } else {
      var p0 := TablePage(Ppn(e1));
      if InDram(p0) {
        FinishTouches(mem, p0, Vpn0(va), Ppn(Word(mem[p0], Vpn0(va))), Offset(va), t, user);
      }
    }
  }

  /** Every word of every page is still what it was, up to those bits. */
  lemma TouchedWord(mem: Memory, m: Memory, p: nat, i: nat)
    requires p < DRAM_PAGES && i < 512 && TouchedOnly(mem, m)
    ensures SamePte(Word(m[p], i), Word(mem[p], i))
  {
    hide V, R, W, X, U, Ppn, SetWord, Word;
    if m != mem {
      var q: nat, j: nat, w: u64 :| TouchedAt(mem, m, q, j, w);
      if p == q {
        WordSet(mem[p], j, w, i);
      }
    }
  }

  /** So the tables of every space still say the same. */
  lemma TouchedTables(mem: Memory, m: Memory, dram: nat, sp: Space)
    requires Tables(mem, dram, sp) && TouchedOnly(mem, m)
    ensures Tables(m, dram, sp)
  {
    hide V, R, W, X, U, Ppn, Word, Pte, TouchedOnly, Find;
    forall i | 0 <= i < 512
      ensures SamePte(Word(m[sp.root], i), Word(mem[sp.root], i)) && SamePte(Word(m[sp.l1], i), Word(mem[sp.l1], i))
           && SamePte(Word(m[dram], i), Word(mem[dram], i)) && EntryOk(Word(m[sp.l0], i), sp.pages, i)
    {
      TouchedWord(mem, m, sp.root, i);
      TouchedWord(mem, m, sp.l1, i);
      TouchedWord(mem, m, dram, i);
      TouchedWord(mem, m, sp.l0, i);
      assert EntryOk(Word(mem[sp.l0], i), sp.pages, i);
    }
  }

  /** One access by some mode under some satp. */
  datatype Attempt = Attempt(satp: u64, va: u64, t: Access, user: bool)

  function Attempts(mem: Memory, xs: seq<Attempt>): Memory {
    if xs == [] then mem
    else
      var x := xs[|xs| - 1];
      Translate(Attempts(mem, xs[..|xs| - 1]), x.satp, x.va, x.t, x.user).0
  }

  /** The agreement survives any number of translations, under any satp and in any mode. */
  lemma {:induction false} AgreementLasts(mem: Memory, dram: nat, sp: Space, xs: seq<Attempt>, va: u64, t: Access)
    requires Tables(mem, dram, sp)
    ensures var (m, r) := Translate(Attempts(mem, xs), Satp(sp), va, t, true);
            if Meaning(sp, va, t) >= 0 then r == Pa(Meaning(sp, va, t)) else r.Fault?
    ensures Tables(Attempts(mem, xs), dram, sp)
  {
    hide Translate, Tables, TouchedOnly, Meaning;
    assert sp.root < DRAM_PAGES by { RootInDram(mem, dram, sp); }
    AttemptsKeep(mem, dram, sp, xs);
    Agreement(Attempts(mem, xs), dram, sp, va, t);
  }

  lemma RootInDram(mem: Memory, dram: nat, sp: Space)
    requires Tables(mem, dram, sp)
    ensures sp.root < DRAM_PAGES
  {
  }

  lemma {:induction false} AttemptsKeep(mem: Memory, dram: nat, sp: Space, xs: seq<Attempt>)
    requires Tables(mem, dram, sp)
    ensures Tables(Attempts(mem, xs), dram, sp)
  {
    hide Translate, Tables, TouchedOnly;
    if xs != [] {
      var x := xs[|xs| - 1];
      var m := Attempts(mem, xs[..|xs| - 1]);
      AttemptsKeep(mem, dram, sp, xs[..|xs| - 1]);
      TranslateTouches(m, x.satp, x.va, x.t, x.user);
      TouchedTables(m, Attempts(mem, xs), dram, sp);
    }
  }
}
