/** User address spaces as user.c builds, copies and destroys them over the page allocator, and what keeps them apart. */
module Spaces {
  import opened Bytes
  import opened PhysMem
  import opened Mmu
  import opened PageAlloc

  const USER_MIN_VA := 0x10000
  const USER_STACK_TOP := 0x20_0000
  const USER_MAX_PAGES := 64

  /** The kernel's root table and its tables for DRAM and for devices. */
  datatype Kernel = Kernel(l2: nat, l1Dram: nat, l1Mmio: nat)

  datatype Option<T> = None | Some(value: T)

  // ---------------------------------------------------------------- operations

  function WriteWord(h: Heap, p: nat, i: nat, v: u64): (r: Heap)
    requires p < DRAM_PAGES && i < 512
  {
    h.(mem := h.mem[p := SetWord(h.mem[p], i, v)])
  }

  function WritePage(h: Heap, p: nat, q: Page): (r: Heap)
    requires p < DRAM_PAGES
  {
    h.(mem := h.mem[p := q])
  }

  /** The tables of a new space, copied from the kernel's. */
  function FillTables(h: Heap, k: Kernel, root: nat, l1: nat, l0: nat): (r: Heap)
    requires root < DRAM_PAGES && l1 < DRAM_PAGES && l0 < DRAM_PAGES && k.l2 < DRAM_PAGES && k.l1Mmio < DRAM_PAGES
  {
    var h1 := WritePage(h, root, h.mem[k.l2]);
    var h2 := WritePage(h1, l1, h1.mem[k.l1Mmio]);
    var h3 := WritePage(h2, l0, Zeros(4096));
    var h4 := WriteWord(h3, root, 0, Pte(DRAM_PPN + l1, NO_FLAGS, false));
    WriteWord(h4, l1, 0, Pte(DRAM_PPN + l0, NO_FLAGS, true))
  }

  /** `create_empty_space` */
  function Create(h: Heap, k: Kernel): (r: (Heap, Option<Space>))
    requires k.l2 < DRAM_PAGES && k.l1Mmio < DRAM_PAGES
  {
    var (h1, root) := Kalloc(h);
    var (h2, l1) := Kalloc(h1);
    var (h3, l0) := Kalloc(h2);
    if root < 0 || l1 < 0 || l0 < 0 || root >= DRAM_PAGES || l1 >= DRAM_PAGES || l0 >= DRAM_PAGES then
      (FreeThree(h3, root, l1, l0), None)
    else (FillTables(h3, k, root, l1, l0), Some(Space(root, l1, l0, [])))
  }

  /** Gives the tables back in the order of `user_space_destroy`. */
  function FreeThree(h: Heap, root: int, l1: int, l0: int): (r: Heap) {
    var a := if l0 < DRAM_PAGES then FreePage(h, l0) else h;
    var b := if l1 < DRAM_PAGES then FreePage(a, l1) else a;
    if root < DRAM_PAGES then FreePage(b, root) else b
  }

  function Either(a: Flags, b: Flags): Flags {
    Flags(a.r || b.r, a.w || b.w, a.x || b.x)
  }

  predicate Mappable(va: int) {
    USER_MIN_VA <= va < USER_STACK_TOP && va % 4096 == 0
  }

  /** The last table and every page of the list are pages of DRAM. */
  predicate InMemory(sp: Space) {
    sp.l0 < DRAM_PAGES && forall j :: 0 <= j < |sp.pages| ==> sp.pages[j].page < DRAM_PAGES
  }

  /** `map_user_page`: 0, or -1. */
  function Map(h: Heap, sp: Space, va: int, flags: Flags): (r: (Heap, Space, int))
    requires InMemory(sp)
    ensures InMemory(r.1) && r.1.l0 == sp.l0
  {
    if !Mappable(va) then (h, sp, -1)
    else
      var k := Find(sp.pages, va, 0);
      if k < |sp.pages| then
        var m := sp.pages[k].(flags := Either(sp.pages[k].flags, flags));
        (WriteWord(h, sp.l0, va / 4096 % 512, PteOf(m)), sp.(pages := sp.pages[k := m]), 0)
      else if |sp.pages| >= USER_MAX_PAGES then (h, sp, -1)
      else
        var (g, p) := Kalloc(h);
        if p < 0 || p >= DRAM_PAGES then (g, sp, -1)
        else
          var m := Mapping(va, p, flags);
          (WriteWord(WritePage(g, p, Zeros(4096)), sp.l0, va / 4096 % 512, PteOf(m)), sp.(pages := sp.pages + [m]), 0)
  }

  function FreePages(h: Heap, pages: seq<Mapping>): (r: Heap)
    requires forall j :: 0 <= j < |pages| ==> pages[j].page < DRAM_PAGES
    decreases |pages|
  {
    if pages == [] then h else FreePages(FreePage(h, pages[0].page), pages[1..])
  }

  /** `user_space_destroy` */
  function Destroy(h: Heap, sp: Space): (r: Heap)
    requires forall j :: 0 <= j < |sp.pages| ==> sp.pages[j].page < DRAM_PAGES
  {
    FreeThree(FreePages(h, sp.pages), sp.root, sp.l1, sp.l0)
  }

  // ---------------------------------------------------------------- who owns what

  function PagesOf(pages: seq<Mapping>): multiset<nat> {
    if pages == [] then multiset{} else PagesOf(pages[..|pages| - 1]) + multiset{pages[|pages| - 1].page}
  }

  function SpaceUsed(sp: Space): multiset<nat> {
    multiset{sp.root, sp.l1, sp.l0} + PagesOf(sp.pages)
  }

  function KernelUsed(k: Kernel): multiset<nat> {
    multiset{k.l2, k.l1Dram, k.l1Mmio}
  }

  function AllUsed(spaces: seq<Space>): multiset<nat> {
    if spaces == [] then multiset{} else AllUsed(spaces[..|spaces| - 1]) + SpaceUsed(spaces[|spaces| - 1])
  }

  lemma Swap(a: multiset<nat>, b: multiset<nat>, c: multiset<nat>)
    ensures a + b + c == a + c + b
  {
  }

  /** Replacing one space exchanges its pages. */
  lemma {:induction false} AllUsedUpdate(spaces: seq<Space>, i: nat, sp: Space)
    requires i < |spaces|
    ensures AllUsed(spaces[i := sp]) + SpaceUsed(spaces[i]) == AllUsed(spaces) + SpaceUsed(sp)
    ensures SpaceUsed(spaces[i]) <= AllUsed(spaces)
  {
    hide SpaceUsed;
    var n := |spaces| - 1;
    var t := spaces[i := sp];
    if i == n {
      assert t[..n] == spaces[..n];
      Swap(AllUsed(spaces[..n]), SpaceUsed(sp), SpaceUsed(spaces[n]));
    } else {
      assert t[..n] == spaces[..n][i := sp];
      AllUsedUpdate(spaces[..n], i, sp);
      Swap(AllUsed(t[..n]), SpaceUsed(spaces[n]), SpaceUsed(spaces[i]));
      Swap(AllUsed(spaces[..n]), SpaceUsed(sp), SpaceUsed(spaces[n]));
    }
  }

  /** Taking one space out. */
  lemma {:induction false} AllUsedRemove(spaces: seq<Space>, i: nat)
    requires i < |spaces|
    ensures AllUsed(spaces[..i] + spaces[i + 1..]) + SpaceUsed(spaces[i]) == AllUsed(spaces)
  {
    hide SpaceUsed;
    var n := |spaces| - 1;
    var t := spaces[..i] + spaces[i + 1..];
    if i == n {
      assert t == spaces[..n];
    } else {
      assert t[..|t| - 1] == spaces[..n][..i] + spaces[..n][i + 1..];
      AllUsedRemove(spaces[..n], i);
    }
  }

  /** Two spaces of the list together own at most what all own. */
  lemma TwoSpaces(spaces: seq<Space>, i: nat, j: nat, p: nat)
    requires i < |spaces| && j < |spaces| && i != j
    ensures SpaceUsed(spaces[i])[p] + SpaceUsed(spaces[j])[p] <= AllUsed(spaces)[p]
  {
    hide SpaceUsed;
    var rest := spaces[..i] + spaces[i + 1..];
    AllUsedRemove(spaces, i);
    var k := if j < i then j else j - 1;
    assert rest[k] == spaces[j];
    AllUsedUpdate(rest, k, rest[k]);
    assert AllUsed(spaces)[p] == AllUsed(rest)[p] + SpaceUsed(spaces[i])[p];
  }

  lemma {:induction false} PagesOfHas(pages: seq<Mapping>, j: nat)
    requires j < |pages|
    ensures PagesOf(pages)[pages[j].page] >= 1
  {
    if j < |pages| - 1 {
      PagesOfHas(pages[..|pages| - 1], j);
    }
  }

  /** New permissions do not change who owns the pages. */
  lemma {:induction false} PagesOfSame(a: seq<Mapping>, b: seq<Mapping>)
    requires |a| == |b| && forall j :: 0 <= j < |a| ==> a[j].page == b[j].page
    ensures PagesOf(a) == PagesOf(b)
  {
    if a != [] {
      PagesOfSame(a[..|a| - 1], b[..|b| - 1]);
    }
  }

  // ---------------------------------------------------------------- the invariant

  /** The kernel's own tables: user mode gets nothing out of them, and DRAM is mapped onto itself. */
  predicate KernelOk(mem: Memory, k: Kernel) {
    && k.l2 < DRAM_PAGES && k.l1Dram < DRAM_PAGES && k.l1Mmio < DRAM_PAGES
    && PointsTo(Word(mem[k.l2], 0), k.l1Mmio, false) && PointsTo(Word(mem[k.l2], 2), k.l1Dram, false)
    && (forall i :: 0 <= i < 512 && i != 0 && i != 2 ==> !V(Word(mem[k.l2], i)))
    && DramOk(mem[k.l1Dram]) && DramIdentity(mem[k.l1Dram])
    && (forall i :: 0 <= i < 512 ==> KernelOnly(Word(mem[k.l1Mmio], i)))
    && Devices(mem[k.l1Mmio]) && SamePte(Word(mem[k.l1Mmio], 0), Pte(0, RW, false))
  }

  predicate ListOk(pages: seq<Mapping>) {
    && |pages| <= USER_MAX_PAGES
    && (forall j :: 0 <= j < |pages| ==> Mappable(pages[j].va) && pages[j].page < DRAM_PAGES)
    && (forall i, j :: 0 <= i < j < |pages| ==> pages[i].va != pages[j].va)
  }

  predicate SpaceOk(mem: Memory, k: Kernel, sp: Space) {
    ListOk(sp.pages) && Tables(mem, k.l1Dram, sp)
  }

  /** The machine: memory with its allocator, the kernel tables, and the spaces that exist. */
  datatype Sys = Sys(heap: Heap, k: Kernel, spaces: seq<Space>)

  /** The heap is partitioned into the free list, the kernel tables, the pages of every space and what is in hand; every
      table says what its list of mappings says. */
  ghost predicate SysOk(s: Sys, first: nat, free: seq<nat>, hand: multiset<nat>) {
    && HeapOk(s.heap, first, free, KernelUsed(s.k) + AllUsed(s.spaces) + hand)
    && KernelOk(s.heap.mem, s.k)
    && forall i :: 0 <= i < |s.spaces| ==> SpaceOk(s.heap.mem, s.k, s.spaces[i])
  }

  /** Tables are all that a space's invariant reads. */
  lemma SpaceFrame(mem: Memory, m: Memory, k: Kernel, sp: Space)
    requires SpaceOk(mem, k, sp) && k.l1Dram < DRAM_PAGES
    requires m[sp.root] == mem[sp.root] && m[sp.l1] == mem[sp.l1] && m[sp.l0] == mem[sp.l0] && m[k.l1Dram] == mem[k.l1Dram]
    ensures SpaceOk(m, k, sp)
  {
    hide RootOk, L1Ok, L0Ok, DramOk, ListOk;
  }

  lemma KernelFrame(mem: Memory, m: Memory, k: Kernel)
    requires KernelOk(mem, k) && m[k.l2] == mem[k.l2] && m[k.l1Dram] == mem[k.l1Dram] && m[k.l1Mmio] == mem[k.l1Mmio]
    ensures KernelOk(m, k)
  {
    hide DramOk, DramIdentity, PointsTo, V;
  }

  /** How many pages are free follows from how many are used. */
  lemma TotalIs(h: Heap, first: nat, free: seq<nat>, used: multiset<nat>)
    requires HeapOk(h, first, free, used)
    ensures h.totalFree == (if h.end > first then h.end - first else 0) - |used|
  {
    hide Chain;
    RangeSize(first, h.bump);
    assert |multiset(free) + used| == |free| + |used|;
  }

  lemma {:induction false} RangeSize(a: nat, b: nat)
    requires a <= b
    ensures |Range(a, b)| == b - a
  {
    if a < b {
      RangeSize(a, b - 1);
    }
  }

  // ---------------------------------------------------------------- frames

  predicate IsTable(s: Sys, p: nat) {
    || p == s.k.l2 || p == s.k.l1Dram || p == s.k.l1Mmio
    || exists i :: 0 <= i < |s.spaces| && p in [s.spaces[i].root, s.spaces[i].l1, s.spaces[i].l0]
  }

  /** A page in use that is no table can be overwritten. */
  lemma WriteData(s: Sys, first: nat, free: seq<nat>, hand: multiset<nat>, p: nat, q: Page)
    requires SysOk(s, first, free, hand) && (KernelUsed(s.k) + AllUsed(s.spaces) + hand)[p] >= 1 && !IsTable(s, p)
    ensures p < DRAM_PAGES && SysOk(s.(heap := WritePage(s.heap, p, q)), first, free, hand)
  {
    hide HeapOk, KernelOk, SpaceOk, KernelUsed, AllUsed;
    WriteUsed(s.heap, first, free, KernelUsed(s.k) + AllUsed(s.spaces) + hand, p, q);
    var m := WritePage(s.heap, p, q).mem;
    KernelPages(s.heap.mem, s.k);
    KernelFrame(s.heap.mem, m, s.k);
    forall i | 0 <= i < |s.spaces| ensures SpaceOk(m, s.k, s.spaces[i]) {
      var sp := s.spaces[i];
      assert p !in [sp.root, sp.l1, sp.l0];
      assert p != sp.root && p != sp.l1 && p != sp.l0;
      SpacePages(s.heap.mem, s.k, sp);
      SpaceFrame(s.heap.mem, m, s.k, sp);
    }
  }

  lemma KernelPages(mem: Memory, k: Kernel)
    requires KernelOk(mem, k)
    ensures k.l2 < DRAM_PAGES && k.l1Dram < DRAM_PAGES && k.l1Mmio < DRAM_PAGES
  {
  }

  lemma SpacePages(mem: Memory, k: Kernel, sp: Space)
    requires SpaceOk(mem, k, sp)
    ensures TablesApart(sp, k.l1Dram) && ListOk(sp.pages)
  {
  }

  /** Every page of these spaces holds what it held. */
  ghost predicate Kept(a: Memory, b: Memory, spaces: seq<Space>) {
    forall p: nat :: p < DRAM_PAGES && AllUsed(spaces)[p] >= 1 ==> b[p] == a[p]
  }

  lemma KeptSame(a: Memory, spaces: seq<Space>)
    ensures Kept(a, a, spaces)
  {
  }

  lemma KeptTrans(a: Memory, b: Memory, c: Memory, spaces: seq<Space>)
    requires Kept(a, b, spaces) && Kept(b, c, spaces)
    ensures Kept(a, c, spaces)
  {
    hide AllUsed;
  }

  /** What is in hand belongs to nobody else. */
  lemma HandApart(s: Sys, first: nat, free: seq<nat>, hand: multiset<nat>, p: nat)
    requires SysOk(s, first, free, hand) && hand[p] >= 1
    ensures !IsTable(s, p) && p < DRAM_PAGES && hand[p] == 1 && AllUsed(s.spaces)[p] == 0
  {
    hide Chain, KernelOk, SpaceOk, Range;
    var used := KernelUsed(s.k) + AllUsed(s.spaces) + hand;
    OneOwner(s.heap, first, free, used, p);
    assert used[p] == KernelUsed(s.k)[p] + AllUsed(s.spaces)[p] + hand[p];
    hide AllUsed, HeapOk;
    forall i | 0 <= i < |s.spaces| ensures p !in [s.spaces[i].root, s.spaces[i].l1, s.spaces[i].l0] {
      NotOwned(s.spaces, i, p);
    }
  }

  lemma NotOwned(spaces: seq<Space>, i: nat, p: nat)
    requires i < |spaces| && AllUsed(spaces)[p] == 0
    ensures p !in [spaces[i].root, spaces[i].l1, spaces[i].l0]
  {
    hide AllUsed, PagesOf;
    AllUsedUpdate(spaces, i, spaces[i]);
    assert SpaceUsed(spaces[i])[p] == 0;
  }

  lemma WriteHand(s: Sys, first: nat, free: seq<nat>, hand: multiset<nat>, p: nat, q: Page)
    requires SysOk(s, first, free, hand) && hand[p] >= 1
    ensures p < DRAM_PAGES && SysOk(s.(heap := WritePage(s.heap, p, q)), first, free, hand)
    ensures Kept(s.heap.mem, WritePage(s.heap, p, q).mem, s.spaces)
  {
    hide SysOk, AllUsed, KernelUsed, IsTable;
    HandApart(s, first, free, hand, p);
    assert (KernelUsed(s.k) + AllUsed(s.spaces) + hand)[p] >= 1;
    WriteData(s, first, free, hand, p, q);
  }

  /** Giving back a page in hand. */
  lemma FreeHand(s: Sys, first: nat, free: seq<nat>, hand: multiset<nat>, p: nat)
    requires SysOk(s, first, free, hand + multiset{p})
    ensures p < DRAM_PAGES && SysOk(s.(heap := FreePage(s.heap, p)), first, [p] + free, hand)
    ensures Kept(s.heap.mem, FreePage(s.heap, p).mem, s.spaces)
  {
    hide HeapOk, KernelOk, SpaceOk, AllUsed, KernelUsed, SetWord, IsTable;
    var used := KernelUsed(s.k) + AllUsed(s.spaces);
    assert used + (hand + multiset{p}) == used + hand + multiset{p};
    KfreeOk(s.heap, first, free, used + hand, p);
    HandApart(s, first, free, hand + multiset{p}, p);
    WriteHand(s, first, free, hand + multiset{p}, p, SetWord(s.heap.mem[p], 0, s.heap.head));
  }

  /** Taking a page in hand. */
  lemma TakeHand(s: Sys, first: nat, free: seq<nat>, hand: multiset<nat>)
    requires SysOk(s, first, free, hand)
    ensures var (g, p) := Kalloc(s.heap);
            && p >= -1 && g.mem == s.heap.mem
            && (p >= 0 ==> p < DRAM_PAGES && SysOk(s.(heap := g), first, Rest(free), hand + multiset{p}))
            && (p < 0 ==> g == s.heap)
  {
    hide HeapOk, KernelOk, SpaceOk, AllUsed, KernelUsed, Kalloc;
    var used := KernelUsed(s.k) + AllUsed(s.spaces) + hand;
    KallocOk(s.heap, first, free, used);
    var (g, p) := Kalloc(s.heap);
    if p >= 0 {
      assert used + multiset{p} == KernelUsed(s.k) + AllUsed(s.spaces) + (hand + multiset{p});
    }
  }
}
