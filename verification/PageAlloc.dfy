/** The physical page allocator of mem.c: a bump pointer and a free list threaded through the free pages themselves. */
module PageAlloc {
  import opened PhysMem
  import opened Mmu

  /** First page of the kernel image and one past the stack, as page numbers of DRAM. */
  const KERNEL_START := 512
  const STACK_TOP := 32768
  const GUARD_PAGES := 64

  /** `head` is the address of the first free page, 0 for none; `bump` and `end` are page numbers. */
  datatype Heap = Heap(mem: Memory, head: u64, bump: nat, end: nat, totalFree: int)

  /** `mem_init`; the kernel image ends in page `first - 1`. */
  function MemInit(mem: Memory, first: nat): (h: Heap) {
    var end := STACK_TOP - GUARD_PAGES;
    Heap(mem, 0, first, end, if end > first then end - first else 0)
  }

  predicate IsPageAddr(addr: u64) {
    addr % 4096 == 0 && 0 <= addr / 4096 - DRAM_PPN < DRAM_PAGES
  }

  function PageAt(addr: u64): nat
    requires IsPageAddr(addr)
  {
    addr / 4096 - DRAM_PPN
  }

  /** `kalloc`: the page, or -1. */
  function Kalloc(h: Heap): (r: (Heap, int)) {
    if h.head != 0 && IsPageAddr(h.head) then
      var p: int := PageAt(h.head);
      (h.(head := Word(h.mem[p], 0), totalFree := h.totalFree - 1), p)
    else if h.bump + 1 > h.end then (h, -1)
    else (h.(bump := h.bump + 1, totalFree := h.totalFree - 1), h.bump as int)
  }

  /** `kfree` of an address: pages outside the kernel's range and unaligned addresses are ignored. */
  function Kfree(h: Heap, addr: u64): (r: Heap) {
    if addr == 0 || !IsPageAddr(addr) || PageAt(addr) < KERNEL_START || PageAt(addr) >= STACK_TOP then h
    else
      var p := PageAt(addr);
      h.(mem := h.mem[p := SetWord(h.mem[p], 0, h.head)], head := addr, totalFree := h.totalFree + 1)
  }

  /** `kfree` of a page pointer; -1 is NULL. */
  function FreePage(h: Heap, p: int): (r: Heap)
    requires p < DRAM_PAGES
  {
    if p < 0 then h else Kfree(h, AddrOf(p))
  }

  // ---------------------------------------------------------------- the free list in memory

  /** Following next pointers from `head` visits exactly the pages of `free`. */
  predicate Chain(mem: Memory, head: u64, free: seq<nat>)
    decreases |free|
  {
    if free == [] then head == 0
    else free[0] < DRAM_PAGES && head == AddrOf(free[0]) && Chain(mem, Word(mem[free[0]], 0), free[1..])
  }

  /** The pages from `a` up to `b`, each once. */
  function Range(a: nat, b: nat): multiset<nat> {
    if b <= a then multiset{} else Range(a, b - 1) + multiset{b - 1}
  }

  lemma {:induction false} RangeCount(a: nat, b: nat, p: nat)
    ensures Range(a, b)[p] == if a <= p < b then 1 else 0
  {
    if a < b {
      RangeCount(a, b - 1, p);
    }
  }

  /** The heap from `first` on is split between the free list and `used`, and the counter counts what is left. */
  ghost predicate HeapOk(h: Heap, first: nat, free: seq<nat>, used: multiset<nat>) {
    && KERNEL_START < first <= h.bump && h.end <= DRAM_PAGES && (h.bump == first || h.bump <= h.end)
    && Chain(h.mem, h.head, free)
    && multiset(free) + used == Range(first, h.bump)
    && h.totalFree == |free| + if h.end > h.bump then h.end - h.bump else 0
  }

  /** No page has two owners. */
  lemma OneOwner(h: Heap, first: nat, free: seq<nat>, used: multiset<nat>, p: nat)
    requires HeapOk(h, first, free, used)
    ensures multiset(free)[p] + used[p] <= 1
    ensures used[p] >= 1 ==> first <= p < h.bump && p < DRAM_PAGES
  {
    hide Chain;
    RangeCount(first, h.bump, p);
    assert (multiset(free) + used)[p] == multiset(free)[p] + used[p];
    if h.bump == first {
      RangeEmpty(first);
    }
  }

  lemma RangeEmpty(a: nat)
    ensures Range(a, a) == multiset{}
  {
  }

  lemma AddrPage(p: nat)
    requires p < DRAM_PAGES
    ensures AddrOf(p) != 0 && IsPageAddr(AddrOf(p)) && PageAt(AddrOf(p)) == p
  {
  }

  lemma {:induction false} ChainFrame(mem: Memory, head: u64, free: seq<nat>, p: nat, q: Page)
    requires Chain(mem, head, free) && p < DRAM_PAGES && p !in free
    ensures Chain(mem[p := q], head, free)
    decreases |free|
  {
    if free != [] {
      ChainFrame(mem, Word(mem[free[0]], 0), free[1..], p, q);
    }
  }

  /** A page in use can be written without disturbing the free list. */
  lemma WriteUsed(h: Heap, first: nat, free: seq<nat>, used: multiset<nat>, p: nat, q: Page)
    requires HeapOk(h, first, free, used) && used[p] >= 1
    ensures p < DRAM_PAGES && HeapOk(h.(mem := h.mem[p := q]), first, free, used)
  {
    hide Range;
    OneOwner(h, first, free, used, p);
    assert p !in multiset(free);
    ChainFrame(h.mem, h.head, free, p, q);
  }

  function Rest(free: seq<nat>): seq<nat> {
    if free == [] then [] else free[1..]
  }

  /** `kalloc` hands out a page nobody owns, and fails only when none is left. */
  lemma KallocOk(h: Heap, first: nat, free: seq<nat>, used: multiset<nat>)
    requires HeapOk(h, first, free, used)
    ensures var (g, p) := Kalloc(h);
            && g.mem == h.mem && g.end == h.end
            && (p >= 0 ==> p < DRAM_PAGES && HeapOk(g, first, Rest(free), used + multiset{p})
                           && g.totalFree == h.totalFree - 1 && used[p] == 0)
            && (p < 0 ==> g == h && h.totalFree == 0)
            && p >= -1
  {
    if free != [] {
      TakeFree(h, first, free, used);
    } else {
      TakeBump(h, first, used);
    }
  }

  lemma TakeFree(h: Heap, first: nat, free: seq<nat>, used: multiset<nat>)
    requires HeapOk(h, first, free, used) && free != []
    ensures Kalloc(h).1 == free[0] && Kalloc(h).0.totalFree == h.totalFree - 1 && Kalloc(h).0.mem == h.mem
    ensures Kalloc(h).0.end == h.end && used[free[0]] == 0 && free[0] < DRAM_PAGES
    ensures HeapOk(Kalloc(h).0, first, free[1..], used + multiset{free[0]})
  {
    hide IsPageAddr, PageAt, Range;
    AddrPage(free[0]);
    assert free == [free[0]] + free[1..];
    OneOwner(h, first, free, used, free[0]);
  }

  lemma TakeBump(h: Heap, first: nat, used: multiset<nat>)
    requires HeapOk(h, first, [], used)
    ensures var (g, p) := Kalloc(h);
            if h.bump + 1 <= h.end then
              p == h.bump && g == h.(bump := h.bump + 1, totalFree := h.totalFree - 1) && used[p] == 0
              && HeapOk(g, first, [], used + multiset{p})
            else p == -1 && g == h && h.totalFree == 0
  {
    RangeCount(first, h.bump, h.bump);
    var none: seq<nat> := [];
    assert multiset(none) == multiset{};
    assert Range(first, h.bump + 1) == Range(first, h.bump) + multiset{h.bump};
  }

  /** `kfree` gives a page back. */
  lemma KfreeOk(h: Heap, first: nat, free: seq<nat>, used: multiset<nat>, p: nat)
    requires HeapOk(h, first, free, used + multiset{p})
    ensures p < DRAM_PAGES && HeapOk(FreePage(h, p), first, [p] + free, used)
    ensures FreePage(h, p).mem == h.mem[p := SetWord(h.mem[p], 0, h.head)]
    ensures FreePage(h, p).totalFree == h.totalFree + 1 && FreePage(h, p).end == h.end
  {
    hide IsPageAddr, PageAt, Range, SetWord, Word;
    OneOwner(h, first, free, used + multiset{p}, p);
    AddrPage(p);
    var g := FreePage(h, p);
    assert p !in multiset(free);
    ChainFrame(h.mem, h.head, free, p, g.mem[p]);
    WordSet(h.mem[p], 0, h.head, 0);
    assert ([p] + free)[1..] == free;
    assert multiset([p] + free) == multiset{p} + multiset(free);
  }

  lemma InitOk(mem: Memory, first: nat)
    requires KERNEL_START < first
    ensures HeapOk(MemInit(mem, first), first, [], multiset{})
  {
  }

  /** `kfree` ignores every address that is misaligned, before the kernel or past the stacks. Any other page is the next one
      `kalloc` hands out, and then the heap is as it was, but for that page. */
  lemma FreeThenAlloc(h: Heap, addr: u64)
    ensures var g := Kfree(h, addr);
            if addr % 4096 == 0 && 0x8020_0000 <= addr < 0x8800_0000 then
              var p := addr / 4096 - 0x80000;
              && g.totalFree == h.totalFree + 1 && (forall q :: 0 <= q < DRAM_PAGES && q != p ==> g.mem[q] == h.mem[q])
              && Kalloc(g) == (h.(mem := g.mem), p)
            else g == h
  {
    hide Word, SetWord;
    if addr % 4096 == 0 && 0x8020_0000 <= addr < 0x8800_0000 {
      WordSet(h.mem[addr / 4096 - 0x80000], 0, h.head, 0);
    }
  }
}
