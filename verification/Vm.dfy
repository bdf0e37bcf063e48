/** The kernel's own page tables, as `vm_init` builds them: DRAM and the devices mapped onto themselves, for the kernel only. */
module Vm {
  import opened Bytes
  import opened PhysMem
  import opened Mmu
  import opened PageAlloc
  import opened Spaces
  import opened SpaceOps


  /** Entries `at + i` up to `at + n` for consecutive 2 MiB pages, the first of them at `ppn`. */
  function FillEntries(p: Page, at: nat, i: nat, n: nat, ppn: nat, f: Flags): (r: Page)
    requires i <= n && at + n <= 512 && ppn <= 0x10_0000
    decreases n - i
  {
    if i == n then p else FillEntries(SetWord(p, at + i, Pte(ppn + 512 * i, f, false)), at, i + 1, n, ppn, f)
  }

  function DramTable(): Page {
    FillEntries(Zeros(4096), 0, 0, 64, DRAM_PPN, RWX)
  }

  function MmioTable(): Page {
    var clint := SetWord(Zeros(4096), 16, Pte(0x2000, RW, false));
    var plic := FillEntries(clint, 96, 0, 32, 0xC000, RW);
    var uart := SetWord(plic, 128, Pte(0x1_0000, RW, false));
    SetWord(uart, 0, Pte(0, RW, false))
  }

  function RootTable(l1Dram: nat, l1Mmio: nat): Page
    requires l1Dram < DRAM_PAGES && l1Mmio < DRAM_PAGES
  {
    SetWord(SetWord(Zeros(4096), 0, Pte(DRAM_PPN + l1Mmio, NO_FLAGS, false)), 2, Pte(DRAM_PPN + l1Dram, NO_FLAGS, false))
  }

  function FillRun(h: Heap, p: nat, at: nat, n: nat, ppn: nat, f: Flags): (r: Heap)
    requires p < DRAM_PAGES && at + n <= 512 && ppn <= 0x10_0000
  {
    WritePage(h, p, FillEntries(h.mem[p], at, 0, n, ppn, f))
  }

  /** The stores of `vm_init`, in its order and whatever pages it was given. */
  function BuildTables(h: Heap, l2: nat, dram: nat, mmio: nat): (r: Heap)
    requires l2 < DRAM_PAGES && dram < DRAM_PAGES && mmio < DRAM_PAGES
  {
    var clear := WritePage(WritePage(WritePage(h, l2, Zeros(4096)), dram, Zeros(4096)), mmio, Zeros(4096));
    var low := WriteWord(clear, l2, 0, Pte(DRAM_PPN + mmio, NO_FLAGS, false));
    var root := WriteWord(low, l2, 2, Pte(DRAM_PPN + dram, NO_FLAGS, false));
    var filled := FillRun(root, dram, 0, 64, DRAM_PPN, RWX);
    var clint := WriteWord(filled, mmio, 16, Pte(0x2000, RW, false));
    var plic := FillRun(clint, mmio, 96, 32, 0xC000, RW);
    var uart := WriteWord(plic, mmio, 128, Pte(0x1_0000, RW, false));
    WriteWord(uart, mmio, 0, Pte(0, RW, false))
  }

  /** On three different pages that leaves the three tables. */
  lemma TablesBuilt(h: Heap, l2: nat, dram: nat, mmio: nat)
    requires l2 < DRAM_PAGES && dram < DRAM_PAGES && mmio < DRAM_PAGES && l2 != dram && l2 != mmio && dram != mmio
    ensures BuildTables(h, l2, dram, mmio)
         == WritePage(WritePage(WritePage(h, l2, RootTable(dram, mmio)), dram, DramTable()), mmio, MmioTable())
  {
    hide SetWord, Pte, FillEntries, Zeros;
    var g := BuildTables(h, l2, dram, mmio);
    assert g.mem[l2] == RootTable(dram, mmio) && g.mem[dram] == DramTable() && g.mem[mmio] == MmioTable();
    assert g.mem == h.mem[l2 := g.mem[l2]][dram := g.mem[dram]][mmio := g.mem[mmio]];
  }

  /** `vm_init` */
  function VmInit(h: Heap): (r: (Heap, Option<Kernel>)) {
    var (h1, l2) := Kalloc(h);
    var (h2, dram) := Kalloc(h1);
    var (h3, mmio) := Kalloc(h2);
    if l2 < 0 || dram < 0 || mmio < 0 || l2 >= DRAM_PAGES || dram >= DRAM_PAGES || mmio >= DRAM_PAGES then (h3, None)
    else (BuildTables(h3, l2, dram, mmio), Some(Kernel(l2, dram, mmio)))
  }

  lemma {:induction false} FillWord(p: Page, at: nat, i: nat, n: nat, ppn: nat, f: Flags, j: nat)
    requires i <= n && at + n <= 512 && ppn <= 0x10_0000 && j < 512
    ensures Word(FillEntries(p, at, i, n, ppn, f), j)
         == if at + i <= j < at + n then Pte(ppn + 512 * (j - at), f, false) else Word(p, j)
    decreases n - i
  {
    hide SetWord, Word, Pte;
    if i < n {
      var q := SetWord(p, at + i, Pte(ppn + 512 * i, f, false));
      WordSet(p, at + i, Pte(ppn + 512 * i, f, false), j);
      FillWord(q, at, i + 1, n, ppn, f, j);
    }
  }

  lemma KernelEntry(ppn: nat, f: Flags)
    requires ppn < 0x4_0000_0000_0000 && f.r
    ensures KernelOnly(Pte(ppn, f, false))
  {
    hide V, R, W, X, U, Ppn, Pte;
    PteFields(ppn, f, false);
  }

  lemma ZeroOnly()
    ensures KernelOnly(0) && !V(0)
  {
  }

  lemma DramWords(j: nat)
    requires j < 512
    ensures Word(DramTable(), j) == if j < 64 then Pte(DRAM_PPN + 512 * j, RWX, false) else 0
  {
    hide SetWord, Word, Pte, FillEntries, Zeros;
    FillWord(Zeros(4096), 0, 0, 64, DRAM_PPN, RWX, j);
    ZeroWord(j);
  }

  lemma MmioWords(j: nat)
    requires j < 512
    ensures Word(MmioTable(), j)
         == if j == 0 then Pte(0, RW, false) else if j == 16 then Pte(0x2000, RW, false)
            else if 96 <= j < 128 then Pte(0xC000 + 512 * (j - 96), RW, false)
            else if j == 128 then Pte(0x1_0000, RW, false) else 0
  {
    hide SetWord, Word, Pte, FillEntries, Zeros;
    var clint := SetWord(Zeros(4096), 16, Pte(0x2000, RW, false));
    var plic := FillEntries(clint, 96, 0, 32, 0xC000, RW);
    var uart := SetWord(plic, 128, Pte(0x1_0000, RW, false));
    WordSet(uart, 0, Pte(0, RW, false), j);
    WordSet(plic, 128, Pte(0x1_0000, RW, false), j);
    FillWord(clint, 96, 0, 32, 0xC000, RW, j);
    WordSet(Zeros(4096), 16, Pte(0x2000, RW, false), j);
    ZeroWord(j);
  }

  lemma RootWords(l1Dram: nat, l1Mmio: nat, j: nat)
    requires l1Dram < DRAM_PAGES && l1Mmio < DRAM_PAGES && j < 512
    ensures Word(RootTable(l1Dram, l1Mmio), j)
         == if j == 0 then Pte(DRAM_PPN + l1Mmio, NO_FLAGS, false)
            else if j == 2 then Pte(DRAM_PPN + l1Dram, NO_FLAGS, false) else 0
  {
    hide SetWord, Word, Pte, Zeros;
    var a := SetWord(Zeros(4096), 0, Pte(DRAM_PPN + l1Mmio, NO_FLAGS, false));
    WordSet(a, 2, Pte(DRAM_PPN + l1Dram, NO_FLAGS, false), j);
    WordSet(Zeros(4096), 0, Pte(DRAM_PPN + l1Mmio, NO_FLAGS, false), j);
    ZeroWord(j);
  }

  /** The tables `vm_init` fills give user mode nothing. */
  lemma TablesAreKernels(mem: Memory, k: Kernel)
    requires k.l2 < DRAM_PAGES && k.l1Dram < DRAM_PAGES && k.l1Mmio < DRAM_PAGES
    requires mem[k.l2] == RootTable(k.l1Dram, k.l1Mmio) && mem[k.l1Dram] == DramTable() && mem[k.l1Mmio] == MmioTable()
    ensures KernelOk(mem, k)
  {
    hide SetWord, Word, Pte, RootTable, DramTable, MmioTable, KernelOnly, V, SamePte;
    ZeroOnly();
    SamePteRefl(Pte(DRAM_PPN + k.l1Dram, NO_FLAGS, false));
    SamePteRefl(Pte(DRAM_PPN + k.l1Mmio, NO_FLAGS, false));
    RootWords(k.l1Dram, k.l1Mmio, 0);
    RootWords(k.l1Dram, k.l1Mmio, 2);
    forall j | 0 <= j < 64 ensures SamePte(Word(mem[k.l1Dram], j), Pte(DRAM_PPN + 512 * j, RWX, false)) {
      DramWords(j);
      SamePteRefl(Pte(DRAM_PPN + 512 * j, RWX, false));
    }
    forall j | 0 <= j < 512
      ensures KernelOnly(Word(mem[k.l1Dram], j)) && KernelOnly(Word(mem[k.l1Mmio], j))
           && (j != 0 && j != 2 ==> !V(Word(mem[k.l2], j)))
    {
      DramWords(j);
      MmioWords(j);
      RootWords(k.l1Dram, k.l1Mmio, j);
      KernelEntries(j);
    }
    DevicesMapped();
  }

  /** Devices appear at their physical addresses. */
  lemma DevicesMapped()
    ensures Devices(MmioTable()) && SamePte(Word(MmioTable(), 0), Pte(0, RW, false))
  {
    hide Word, Pte, MmioTable, SamePte;
    forall j | 0 <= j < 512 ensures Word(MmioTable(), j) == if j == 0 then Pte(0, RW, false) else DevicePte(j) {
      MmioWords(j);
    }
    forall j | 1 <= j < 512 ensures SamePte(Word(MmioTable(), j), DevicePte(j)) {
      SamePteRefl(DevicePte(j));
    }
    SamePteRefl(Pte(0, RW, false));
  }

  lemma KernelEntries(j: nat)
    requires j < 512
    ensures KernelOnly(Pte(DRAM_PPN + 512 * j, RWX, false))
    ensures KernelOnly(Pte(0, RW, false)) && KernelOnly(Pte(0x2000, RW, false)) && KernelOnly(Pte(0x1_0000, RW, false))
    ensures j >= 96 ==> KernelOnly(Pte(0xC000 + 512 * (j - 96), RW, false))
  {
    hide KernelOnly, Pte;
    KernelEntry(DRAM_PPN + 512 * j, RWX);
    KernelEntry(0, RW);
    KernelEntry(0x2000, RW);
    KernelEntry(0x1_0000, RW);
    if j >= 96 {
      KernelEntry(0xC000 + 512 * (j - 96), RW);
    }
  }

  /** From `mem_init` on: three pages go to the kernel's tables, and the partition of memory begins. */
  lemma BootOk(mem: Memory, first: nat)
    requires KERNEL_START < first && first + 3 <= STACK_TOP - GUARD_PAGES
    ensures var (h, r) := VmInit(MemInit(mem, first));
            r.Some? && SysOk(Sys(h, r.value, []), first, [], multiset{})
  {
    hide SetWord, Word, Pte, RootTable, DramTable, MmioTable, KernelOk, BuildTables;
    var h := MemInit(mem, first);
    var l2, dram, mmio := first, first + 1, first + 2;
    var h3 := h.(bump := first + 3, totalFree := h.totalFree - 3);
    assert Kalloc(h) == (h.(bump := first + 1, totalFree := h.totalFree - 1), l2);
    var k := Kernel(l2, dram, mmio);
    TablesBuilt(h3, l2, dram, mmio);
    var g := VmInit(h).0;
    assert g.mem[l2] == RootTable(dram, mmio) && g.mem[dram] == DramTable() && g.mem[mmio] == MmioTable();
    TablesAreKernels(g.mem, k);
    assert Range(first, first + 3) == multiset{l2, dram, mmio} by { RangeThree(first); }
    var none: seq<nat> := [];
    assert multiset(none) == multiset{};
    assert KernelUsed(k) + AllUsed([]) + multiset{} == multiset{l2, dram, mmio};
  }

  lemma RangeThree(a: nat)
    ensures Range(a, a + 3) == multiset{a, a + 1, a + 2}
  {
    assert Range(a, a) == multiset{};
    assert Range(a, a + 1) == multiset{a};
    assert Range(a, a + 2) == multiset{a, a + 1};
  }

  // ---------------------------------------------------------------- the identity mapping

  function KernelSatp(k: Kernel): u64
    requires k.l2 < DRAM_PAGES
  {
    0x8000_0000_0000_0000 + DRAM_PPN + k.l2
  }

  /** The kernel sees all of DRAM at its physical addresses, for every kind of access. */
  lemma KernelIdentity(mem: Memory, k: Kernel, va: u64, t: Access)
    requires KernelOk(mem, k) && 0x8000_0000 <= va < 0x8800_0000
    ensures Translate(mem, KernelSatp(k), va, t, false).1 == Pa(va)
  {
    hide V, R, W, X, U, Ppn, Pte, PointsTo, TablePage, TranslateBelow, Vpn0, Vpn1, Vpn2, Word, KernelOnly, DramOk;
    DramParts(va);
    KernelWalk(mem, k, va, t, false);
    MegaPage(mem, k.l1Dram, va, t);
  }

  /** Where a walk from the kernel's root goes. */
  lemma KernelWalk(mem: Memory, k: Kernel, va: u64, t: Access, user: bool)
    requires KernelOk(mem, k)
    ensures Translate(mem, KernelSatp(k), va, t, user)
         == if Vpn2(va) == 0 then TranslateBelow(mem, k.l1Mmio, va, t, user)
            else if Vpn2(va) == 2 then TranslateBelow(mem, k.l1Dram, va, t, user)
            else (mem, Fault(LoadPageFault))
  {
    hide V, R, W, X, U, Ppn, Pte, DramOk, DramIdentity, PointsTo, TranslateBelow, TablePage, KernelOnly;
    assert KernelSatp(k) % 0x1000_0000_0000 == DRAM_PPN + k.l2;
    TableOfPpn(k.l2);
    var e2 := Word(mem[k.l2], Vpn2(va));
    if Vpn2(va) == 0 {
      PointsFields(e2, k.l1Mmio, false);
    } else if Vpn2(va) == 2 {
      PointsFields(e2, k.l1Dram, false);
    }
  }

  /** And it sees it there under the satp of any user space, which is what it runs on inside a system call. */
  lemma IdentityUnder(mem: Memory, k: Kernel, sp: Space, va: u64, t: Access)
    requires KernelOk(mem, k) && Tables(mem, k.l1Dram, sp) && 0x8000_0000 <= va < 0x8800_0000
    ensures Translate(mem, Satp(sp), va, t, false).1 == Pa(va)
  {
    hide V, R, W, X, U, Ppn, Pte, PointsTo, TablePage, TranslateBelow, Vpn0, Vpn1, Vpn2, Word, KernelOnly, DramOk, RootOk, L1Ok, L0Ok;
    DramParts(va);
    WalkRoot(mem, k.l1Dram, sp, va, t, false);
    MegaPage(mem, k.l1Dram, va, t);
  }

  lemma MegaPage(mem: Memory, p1: nat, va: u64, t: Access)
    requires p1 < DRAM_PAGES && Vpn2(va) == 2 && Vpn1(va) < 64 && va < 0x8800_0000 && va >= 0x8000_0000
    requires SamePte(Word(mem[p1], Vpn1(va)), Pte(DRAM_PPN + 512 * Vpn1(va), RWX, false))
    ensures TranslateBelow(mem, p1, va, t, false).1 == Pa(va)
  {
    hide V, R, W, X, U, Ppn, Pte, TablePage, Vpn0, Vpn1, Vpn2, Word, Touched, SetWord;
    var i := Vpn1(va);
    PteFields(DRAM_PPN + 512 * i, RWX, false);
    DramParts(va);
    assert (DRAM_PPN + 512 * i) % 512 == 0;
    assert (DRAM_PPN + 512 * i + Vpn0(va)) % 0x10_0000_0000_0000 == DRAM_PPN + 512 * i + Vpn0(va);
  }

  /** The addresses of the timer, and of the interrupt controller and the serial port behind it. */
  predicate IsDevice(va: u64) {
    0x200_0000 <= va < 0x220_0000 || 0xc00_0000 <= va < 0x1020_0000
  }

  /** The kernel reaches the devices at their physical addresses, for loads and stores, under its own satp; it cannot fetch there. */
  lemma DeviceIdentity(mem: Memory, k: Kernel, va: u64, t: Access)
    requires KernelOk(mem, k) && IsDevice(va)
    ensures Translate(mem, KernelSatp(k), va, t, false).1 == if t == Fetch then Fault(InstructionPageFault) else Pa(va)
  {
    hide V, R, W, X, U, Ppn, Pte, PointsTo, TablePage, TranslateBelow, Vpn0, Vpn1, Vpn2, Word, KernelOnly, DramOk, DramIdentity;
    LowParts(va);
    KernelWalk(mem, k, va, t, false);
    DevicePage(mem, k.l1Mmio, va, t);
  }

  /** And under that of any user space. */
  lemma DevicesUnder(mem: Memory, k: Kernel, sp: Space, va: u64, t: Access)
    requires Tables(mem, k.l1Dram, sp) && IsDevice(va)
    ensures Translate(mem, Satp(sp), va, t, false).1 == if t == Fetch then Fault(InstructionPageFault) else Pa(va)
  {
    hide V, R, W, X, U, Ppn, Pte, PointsTo, TablePage, TranslateBelow, Vpn0, Vpn1, Vpn2, Word, KernelOnly, DramOk, RootOk, L0Ok;
    LowParts(va);
    WalkRoot(mem, k.l1Dram, sp, va, t, false);
    DevicePage(mem, sp.l1, va, t);
  }

  /** The rest of the first GiB is out of its reach, but for the first 2 MiB: those hold the test device, under its own satp. */
  lemma NothingElse(mem: Memory, k: Kernel, va: u64, t: Access)
    requires KernelOk(mem, k) && va < 0x4000_0000 && !IsDevice(va)
    ensures var r := Translate(mem, KernelSatp(k), va, t, false).1;
            if va >= 0x20_0000 then r == Fault(LoadPageFault) else r == if t == Fetch then Fault(InstructionPageFault) else Pa(va)
  {
    hide R, W, X, U, Ppn, Pte, PointsTo, TablePage, TranslateBelow, Vpn0, Vpn1, Vpn2, Word, KernelOnly, DramOk, DramIdentity;
    LowParts(va);
    KernelWalk(mem, k, va, t, false);
    if va < 0x20_0000 {
      DevicePage(mem, k.l1Mmio, va, t);
    } else {
      ZeroOnly();
      assert SamePte(Word(mem[k.l1Mmio], Vpn1(va)), 0);
      NoPage(mem, k.l1Mmio, va, t);
    }
  }

  lemma NoPage(mem: Memory, p1: nat, va: u64, t: Access)
    requires p1 < DRAM_PAGES && !V(Word(mem[p1], Vpn1(va)))
    ensures TranslateBelow(mem, p1, va, t, false) == (mem, Fault(LoadPageFault))
  {
    hide V, Word, Vpn1;
  }

  lemma DevicePage(mem: Memory, p1: nat, va: u64, t: Access)
    requires p1 < DRAM_PAGES && va < 0x4000_0000 && SamePte(Word(mem[p1], Vpn1(va)), Pte(512 * Vpn1(va), RW, false))
    ensures TranslateBelow(mem, p1, va, t, false).1 == if t == Fetch then Fault(InstructionPageFault) else Pa(va)
  {
    hide V, R, W, X, U, Ppn, Pte, TablePage, Vpn0, Vpn1, Vpn2, Word, Touched, SetWord;
    var i := Vpn1(va);
    LowParts(va);
    PteFields(512 * i, RW, false);
    assert (512 * i) % 512 == 0;
    assert (512 * i + Vpn0(va)) % 0x10_0000_0000_0000 == 512 * i + Vpn0(va);
  }

  lemma LowParts(va: u64)
    requires va < 0x4000_0000
    ensures Vpn2(va) == 0 && Vpn1(va) == va / 0x20_0000 < 512 && Vpn0(va) < 512
    ensures va == 4096 * (512 * Vpn1(va) + Vpn0(va)) + Offset(va)
  {
    var q: nat := va / 4096;
    var q1: nat := q / 512;
    assert va == 4096 * q + Offset(va) && q == 512 * q1 + Vpn0(va);
    assert q1 == va / 0x20_0000;
  }

  lemma DramParts(va: u64)
    requires 0x8000_0000 <= va < 0x8800_0000
    ensures Vpn2(va) == 2 && Vpn1(va) < 64 && Vpn0(va) < 512
    ensures va == 4096 * (DRAM_PPN + 512 * Vpn1(va) + Vpn0(va)) + Offset(va)
  {
    var q: nat := va / 4096;
    var q1: nat := q / 512;
    assert va == 4096 * q + Offset(va) && q == 512 * q1 + Vpn0(va);
    assert 1024 <= q1 < 1088;
    assert q1 / 512 == 2 && q1 % 512 == q1 - 1024;
  }
}
