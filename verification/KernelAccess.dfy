/** Accesses by the kernel itself: under whatever satp is in force it sees DRAM at its physical addresses, and its walks mark
    nothing but tables. */
module KernelAccess {
  import opened PhysMem
  import opened Mmu
  import opened PageAlloc
  import opened Spaces
  import opened SpaceOps
  import opened SpaceCopy
  import opened Vm

  /** satp names the kernel's root or that of a space that exists. */
  ghost predicate SatpOf(s: Sys, satp: u64) {
    || (s.k.l2 < DRAM_PAGES && satp == KernelSatp(s.k))
    || exists i :: 0 <= i < |s.spaces| && s.spaces[i].root < DRAM_PAGES && satp == Satp(s.spaces[i])
  }

  /** From second-level table `p1` the walk marks at most one entry, in `p1` or in the table below. */
  lemma BelowOne(mem: Memory, p1: nat, va: u64, t: Access, user: bool) returns (q: nat)
    requires p1 < DRAM_PAGES
    ensures q < DRAM_PAGES && forall x :: 0 <= x < DRAM_PAGES && x != q ==> TranslateBelow(mem, p1, va, t, user).0[x] == mem[x]
    ensures var e1 := Word(mem[p1], Vpn1(va)); q == p1 || (V(e1) && !Leaf(e1) && q == TablePage(Ppn(e1)))
  {
    hide V, R, W, X, U, Ppn, TablePage, Word, SetWord, Touched;
    var e1 := Word(mem[p1], Vpn1(va));
    q := if V(e1) && !Leaf(e1) && InDram(TablePage(Ppn(e1))) then TablePage(Ppn(e1)) else p1;
  }

  /** In a table of kernel entries the walk ends. */
  lemma KernelTableOne(mem: Memory, p1: nat, va: u64, t: Access, user: bool)
    requires p1 < DRAM_PAGES && KernelOnly(Word(mem[p1], Vpn1(va)))
    ensures forall x :: 0 <= x < DRAM_PAGES && x != p1 ==> TranslateBelow(mem, p1, va, t, user).0[x] == mem[x]
  {
    hide V, R, W, X, U, Ppn, TablePage, Word, TranslateBelow;
    var q := BelowOne(mem, p1, va, t, user);
  }

  lemma UserTableOne(mem: Memory, dram: nat, sp: Space, va: u64, t: Access, user: bool) returns (q: nat)
    requires Tables(mem, dram, sp)
    ensures q == sp.l1 || q == sp.l0
    ensures forall x :: 0 <= x < DRAM_PAGES && x != q ==> TranslateBelow(mem, sp.l1, va, t, user).0[x] == mem[x]
  {
    hide V, R, W, X, U, Ppn, Pte, TablePage, Word, RootOk, DramOk, L0Ok, PointsTo, TranslateBelow, Vpn1;
    VpnRange(va);
    if Vpn1(va) == 0 {
      PointsFields(Word(mem[sp.l1], 0), sp.l0, true);
      q := BelowOne(mem, sp.l1, va, t, user);
    } else {
      KernelTableOne(mem, sp.l1, va, t, user);
      q := sp.l1;
    }
  }

  /** The table a translation marks. */
  lemma MarkedTable(s: Sys, first: nat, free: seq<nat>, satp: u64, va: u64, t: Access, user: bool) returns (q: nat)
    requires SysOk(s, first, free, multiset{}) && SatpOf(s, satp)
    ensures q < DRAM_PAGES && IsTable(s, q)
    ensures forall x :: 0 <= x < DRAM_PAGES && x != q ==> Translate(s.heap.mem, satp, va, t, user).0[x] == s.heap.mem[x]
  {
    hide HeapOk, Tables, AllUsed, KernelUsed, Translate, TranslateBelow, IsTable, Vpn1, Vpn2, KernelOnly, DramIdentity, PointsTo, V, Word;
    var mem := s.heap.mem;
    VpnRange(va);
    assert IsTable(s, s.k.l1Dram) && IsTable(s, s.k.l1Mmio) by { KernelTables(s); }
    assert KernelOnly(Word(mem[s.k.l1Dram], Vpn1(va))) && KernelOnly(Word(mem[s.k.l1Mmio], Vpn1(va)));
    if satp == KernelSatp(s.k) {
      KernelWalk(mem, s.k, va, t, user);
      q := if Vpn2(va) == 0 then s.k.l1Mmio else s.k.l1Dram;
      KernelTableOne(mem, q, va, t, user);
    } else {
      var i :| 0 <= i < |s.spaces| && s.spaces[i].root < DRAM_PAGES && satp == Satp(s.spaces[i]);
      SpaceTables(s, first, free, i);
      WalkRoot(mem, s.k.l1Dram, s.spaces[i], va, t, user);
      if Vpn2(va) == 0 {
        q := UserTableOne(mem, s.k.l1Dram, s.spaces[i], va, t, user);
        SpaceTable(s, i);
        TablesInDram(mem, s.k.l1Dram, s.spaces[i]);
      } else {
        q := s.k.l1Dram;
        KernelTableOne(mem, q, va, t, user);
      }
    }
  }

  lemma TablesInDram(mem: Memory, dram: nat, sp: Space)
    requires Tables(mem, dram, sp)
    ensures sp.l1 < DRAM_PAGES && sp.l0 < DRAM_PAGES
  {
  }

  lemma KernelTables(s: Sys)
    ensures IsTable(s, s.k.l1Dram) && IsTable(s, s.k.l1Mmio)
  {
  }

  /** Any access, by user or kernel, under a satp in force: memory stays partitioned, every table keeps its meaning, and the
      translation itself changes no byte of any program. */
  lemma AccessOk(s: Sys, first: nat, free: seq<nat>, satp: u64, va: u64, t: Access, user: bool)
    requires SysOk(s, first, free, multiset{}) && SatpOf(s, satp)
    ensures var m := Translate(s.heap.mem, satp, va, t, user).0;
            && SysOk(s.(heap := s.heap.(mem := m)), first, free, multiset{})
            && forall i :: 0 <= i < |s.spaces| ==> DataKept(s.heap.mem, m, s.spaces[i].pages)
  {
    hide SysOk, Translate, IsTable, TouchedOnly, SatpOf;
    var q := MarkedTable(s, first, free, satp, va, t, user);
    TranslateTouches(s.heap.mem, satp, va, t, user);
    var m := Translate(s.heap.mem, satp, va, t, user).0;
    MarkOk(s, first, free, q, m);
    forall i | 0 <= i < |s.spaces| ensures DataKept(s.heap.mem, m, s.spaces[i].pages) {
      forall j | 0 <= j < |s.spaces[i].pages| && s.spaces[i].pages[j].page < DRAM_PAGES
        ensures m[s.spaces[i].pages[j].page] == s.heap.mem[s.spaces[i].pages[j].page]
      {
        DataApart(s, first, free, i, j);
      }
    }
  }

  /** The kernel sees DRAM at its physical addresses under every satp that can be in force. */
  lemma SeesDram(s: Sys, first: nat, free: seq<nat>, satp: u64, va: u64, t: Access)
    requires SysOk(s, first, free, multiset{}) && SatpOf(s, satp) && 0x8000_0000 <= va < 0x8800_0000
    ensures Translate(s.heap.mem, satp, va, t, false).1 == Pa(va)
  {
    hide HeapOk, KernelOk, Tables, Translate, AllUsed, KernelUsed;
    if s.k.l2 < DRAM_PAGES && satp == KernelSatp(s.k) {
      KernelIdentity(s.heap.mem, s.k, va, t);
    } else {
      var i :| 0 <= i < |s.spaces| && s.spaces[i].root < DRAM_PAGES && satp == Satp(s.spaces[i]);
      SpaceTables(s, first, free, i);
      IdentityUnder(s.heap.mem, s.k, s.spaces[i], va, t);
    }
  }

  /** And the devices at theirs. */
  lemma SeesDevices(s: Sys, first: nat, free: seq<nat>, satp: u64, va: u64, t: Access)
    requires SysOk(s, first, free, multiset{}) && SatpOf(s, satp) && IsDevice(va) && t != Fetch
    ensures Translate(s.heap.mem, satp, va, t, false).1 == Pa(va)
  {
    hide HeapOk, KernelOk, Tables, Translate, AllUsed, KernelUsed;
    if s.k.l2 < DRAM_PAGES && satp == KernelSatp(s.k) {
      DeviceIdentity(s.heap.mem, s.k, va, t);
    } else {
      var i :| 0 <= i < |s.spaces| && s.spaces[i].root < DRAM_PAGES && satp == Satp(s.spaces[i]);
      SpaceTables(s, first, free, i);
      DevicesUnder(s.heap.mem, s.k, s.spaces[i], va, t);
    }
  }
}
