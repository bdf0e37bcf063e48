/** Creating, mapping, copying and destroying user spaces keeps the partition of memory, over every run. */
module SpaceOps {
  import opened Bytes
  import opened PhysMem
  import opened Mmu
  import opened PageAlloc
  import opened Spaces

  // ---------------------------------------------------------------- creating

  lemma FillResult(h: Heap, k: Kernel, root: nat, l1: nat, l0: nat)
    requires root < DRAM_PAGES && l1 < DRAM_PAGES && l0 < DRAM_PAGES && k.l2 < DRAM_PAGES && k.l1Mmio < DRAM_PAGES
    requires root != l1 && root != l0 && l1 != l0 && k.l1Mmio != root
    ensures var m := FillTables(h, k, root, l1, l0).mem;
            && m[root] == SetWord(h.mem[k.l2], 0, Pte(DRAM_PPN + l1, NO_FLAGS, false))
            && m[l1] == SetWord(h.mem[k.l1Mmio], 0, Pte(DRAM_PPN + l0, NO_FLAGS, true))
            && m[l0] == Zeros(4096)
            && forall p :: 0 <= p < DRAM_PAGES && p != root && p != l1 && p != l0 ==> m[p] == h.mem[p]
  {
    hide SetWord, Pte, Zeros;
  }

  lemma SamePteRefl(a: u64)
    ensures SamePte(a, a)
  {
  }

  /** The tables of a new space map nothing yet. */
  lemma NewTables(h: Heap, k: Kernel, root: nat, l1: nat, l0: nat)
    requires KernelOk(h.mem, k) && root < DRAM_PAGES && l1 < DRAM_PAGES && l0 < DRAM_PAGES
    requires root != l1 && root != l0 && l1 != l0
    requires root !in KernelUsed(k) && l1 !in KernelUsed(k) && l0 !in KernelUsed(k)
    ensures SpaceOk(FillTables(h, k, root, l1, l0).mem, k, Space(root, l1, l0, []))
  {
    hide SetWord, Pte, Zeros, FillTables, V, SamePte, Word, Leaf, U, Find;
    FillResult(h, k, root, l1, l0);
    var m := FillTables(h, k, root, l1, l0).mem;
    var e2, e1 := Pte(DRAM_PPN + l1, NO_FLAGS, false), Pte(DRAM_PPN + l0, NO_FLAGS, true);
    SamePteRefl(e2);
    SamePteRefl(e1);
    WordSet(h.mem[k.l2], 0, e2, 0);
    WordSet(h.mem[k.l2], 0, e2, 2);
    WordSet(h.mem[k.l1Mmio], 0, e1, 0);
    forall i | 1 <= i < 512
      ensures Word(m[root], i) == Word(h.mem[k.l2], i) && Word(m[l1], i) == Word(h.mem[k.l1Mmio], i)
    {
      WordSet(h.mem[k.l2], 0, e2, i);
      WordSet(h.mem[k.l1Mmio], 0, e1, i);
    }
    forall i | 0 <= i < 512 ensures EntryOk(Word(m[l0], i), [], i) {
      ZeroEntry(i);
    }
  }

  lemma ZeroEntry(i: nat)
    requires i < 512
    ensures EntryOk(Word(Zeros(4096), i), [], i)
  {
    ZeroWord(i);
  }

  /** The five writes into the new tables go to pages in hand. */
  lemma FillHand(s: Sys, first: nat, free: seq<nat>, root: nat, l1: nat, l0: nat)
    requires SysOk(s, first, free, multiset{root, l1, l0})
    ensures root < DRAM_PAGES && l1 < DRAM_PAGES && l0 < DRAM_PAGES && s.k.l2 < DRAM_PAGES && s.k.l1Mmio < DRAM_PAGES
    ensures SysOk(s.(heap := FillTables(s.heap, s.k, root, l1, l0)), first, free, multiset{root, l1, l0})
    ensures Kept(s.heap.mem, FillTables(s.heap, s.k, root, l1, l0).mem, s.spaces)
  {
    hide SysOk, SetWord, Pte, Zeros, AllUsed;
    var hand := multiset{root, l1, l0};
    KernelInDram(s, first, free, hand);
    HandApart(s, first, free, hand, root);
    HandApart(s, first, free, hand, l1);
    HandApart(s, first, free, hand, l0);
    WriteHand(s, first, free, hand, root, s.heap.mem[s.k.l2]);
    var h1 := WritePage(s.heap, root, s.heap.mem[s.k.l2]);
    WriteHand(s.(heap := h1), first, free, hand, l1, h1.mem[s.k.l1Mmio]);
    var h2 := WritePage(h1, l1, h1.mem[s.k.l1Mmio]);
    WriteHand(s.(heap := h2), first, free, hand, l0, Zeros(4096));
    var h3 := WritePage(h2, l0, Zeros(4096));
    var e2, e1 := Pte(DRAM_PPN + l1, NO_FLAGS, false), Pte(DRAM_PPN + l0, NO_FLAGS, true);
    WriteHand(s.(heap := h3), first, free, hand, root, SetWord(h3.mem[root], 0, e2));
    var h4 := WriteWord(h3, root, 0, e2);
    WriteHand(s.(heap := h4), first, free, hand, l1, SetWord(h4.mem[l1], 0, e1));
  }

  lemma KernelInDram(s: Sys, first: nat, free: seq<nat>, hand: multiset<nat>)
    requires SysOk(s, first, free, hand)
    ensures s.k.l2 < DRAM_PAGES && s.k.l1Dram < DRAM_PAGES && s.k.l1Mmio < DRAM_PAGES && KernelOk(s.heap.mem, s.k)
  {
    hide HeapOk;
  }

  /** Pages in hand become a new space. */
  lemma Adopt(s: Sys, first: nat, free: seq<nat>, sp: Space)
    requires SysOk(s, first, free, SpaceUsed(sp)) && SpaceOk(s.heap.mem, s.k, sp)
    ensures SysOk(s.(spaces := s.spaces + [sp]), first, free, multiset{})
  {
    hide HeapOk, KernelOk, SpaceOk, SpaceUsed, KernelUsed;
    var t := s.spaces + [sp];
    assert t[..|t| - 1] == s.spaces;
    assert KernelUsed(s.k) + AllUsed(s.spaces) + SpaceUsed(sp) == KernelUsed(s.k) + AllUsed(t) + multiset{};
  }

  /** A space leaves the list with all its pages in hand. */
  lemma Abandon(s: Sys, first: nat, free: seq<nat>, i: nat)
    requires SysOk(s, first, free, multiset{}) && i < |s.spaces|
    ensures SysOk(s.(spaces := s.spaces[..i] + s.spaces[i + 1..]), first, free, SpaceUsed(s.spaces[i]))
  {
    hide HeapOk, KernelOk, SpaceOk, SpaceUsed, KernelUsed, AllUsed;
    var t := s.spaces[..i] + s.spaces[i + 1..];
    AllUsedRemove(s.spaces, i);
    assert KernelUsed(s.k) + AllUsed(s.spaces) + multiset{} == KernelUsed(s.k) + AllUsed(t) + SpaceUsed(s.spaces[i]);
  }

  /** The free list after three pages were taken and given back. */
  ghost predicate SomeFree(s: Sys, first: nat, hand: multiset<nat>) {
    exists free: seq<nat> :: SysOk(s, first, free, hand)
  }

  lemma Witness(s: Sys, first: nat, free: seq<nat>, hand: multiset<nat>)
    requires SysOk(s, first, free, hand)
    ensures SomeFree(s, first, hand)
  {
  }

  lemma FreeOne(s: Sys, first: nat, free: seq<nat>, root: nat)
    requires SysOk(s, first, free, multiset{} + multiset{root})
    ensures root < DRAM_PAGES && SomeFree(s.(heap := FreePage(s.heap, root)), first, multiset{})
    ensures Kept(s.heap.mem, FreePage(s.heap, root).mem, s.spaces)
  {
    hide SysOk, FreePage;
    FreeHand(s, first, free, multiset{}, root);
    Witness(s.(heap := FreePage(s.heap, root)), first, [root] + free, multiset{});
  }

  lemma FreeTwo(s: Sys, first: nat, free: seq<nat>, root: nat, l1: nat)
    requires SysOk(s, first, free, multiset{} + multiset{root} + multiset{l1})
    ensures l1 < DRAM_PAGES && root < DRAM_PAGES && SomeFree(s.(heap := FreePage(FreePage(s.heap, l1), root)), first, multiset{})
    ensures Kept(s.heap.mem, FreePage(FreePage(s.heap, l1), root).mem, s.spaces)
  {
    hide SysOk, FreePage, Kept;
    FreeHand(s, first, free, multiset{} + multiset{root}, l1);
    FreeOne(s.(heap := FreePage(s.heap, l1)), first, [l1] + free, root);
    KeptTrans(s.heap.mem, FreePage(s.heap, l1).mem, FreePage(FreePage(s.heap, l1), root).mem, s.spaces);
  }

  lemma CreateSucceeds(s: Sys, first: nat, free: seq<nat>, root: nat, l1: nat, l0: nat)
    requires SysOk(s, first, free, multiset{} + multiset{root} + multiset{l1} + multiset{l0})
    ensures root < DRAM_PAGES && l1 < DRAM_PAGES && l0 < DRAM_PAGES && s.k.l2 < DRAM_PAGES && s.k.l1Mmio < DRAM_PAGES
    ensures SomeFree(s.(heap := FillTables(s.heap, s.k, root, l1, l0), spaces := s.spaces + [Space(root, l1, l0, [])]), first,
                     multiset{})
    ensures Kept(s.heap.mem, FillTables(s.heap, s.k, root, l1, l0).mem, s.spaces)
  {
    hide SysOk, Kept, FillTables, SpaceOk, KernelOk, KernelUsed, SomeFree, SpaceUsed;
    var hand := multiset{root, l1, l0};
    ThreePages(root, l1, l0);
    FillHand(s, first, free, root, l1, l0);
    KernelInDram(s, first, free, hand);
    HandDistinct(s, first, free, root, l1, l0);
    NewTables(s.heap, s.k, root, l1, l0);
    var sp := Space(root, l1, l0, []);
    Adopt(s.(heap := FillTables(s.heap, s.k, root, l1, l0)), first, free, sp);
    Witness(s.(heap := FillTables(s.heap, s.k, root, l1, l0), spaces := s.spaces + [sp]), first, free, multiset{});
  }

  lemma ThreePages(root: nat, l1: nat, l0: nat)
    ensures multiset{} + multiset{root} + multiset{l1} + multiset{l0} == multiset{root, l1, l0}
    ensures SpaceUsed(Space(root, l1, l0, [])) == multiset{root, l1, l0}
  {
  }

  /** Nothing happens to the tables that were not there. */
  lemma FreeMissing(h: Heap, root: int, l1: int)
    requires root < DRAM_PAGES && l1 < DRAM_PAGES
    ensures FreeThree(h, -1, -1, -1) == h && FreeThree(h, root, -1, -1) == FreePage(h, root)
    ensures FreeThree(h, root, l1, -1) == FreePage(FreePage(h, l1), root)
  {
    assert forall g: Heap :: FreePage(g, -1) == g;
  }

  lemma HandDistinct(s: Sys, first: nat, free: seq<nat>, root: nat, l1: nat, l0: nat)
    requires SysOk(s, first, free, multiset{root, l1, l0})
    ensures root != l1 && root != l0 && l1 != l0
    ensures root !in KernelUsed(s.k) && l1 !in KernelUsed(s.k) && l0 !in KernelUsed(s.k)
  {
    hide SysOk;
    var hand := multiset{root, l1, l0};
    HandApart(s, first, free, hand, root);
    HandApart(s, first, free, hand, l1);
    HandApart(s, first, free, hand, l0);
  }

  /** `create_empty_space` adds a space with three tables, or leaves as many free pages as before. */
  /** `create_empty_space` once the root table is in hand. */
  lemma CreateFrom(s: Sys, first: nat, free: seq<nat>, root: nat)
    requires SysOk(s, first, free, multiset{} + multiset{root}) && root < DRAM_PAGES
    requires s.k.l2 < DRAM_PAGES && s.k.l1Mmio < DRAM_PAGES
    ensures var (h2, l1) := Kalloc(s.heap);
            var (h3, l0) := Kalloc(h2);
            if l1 < 0 || l0 < 0 || l1 >= DRAM_PAGES || l0 >= DRAM_PAGES then
              var h := FreeThree(h3, root, l1, l0);
              SomeFree(s.(heap := h), first, multiset{}) && Kept(s.heap.mem, h.mem, s.spaces)
            else
              var h := FillTables(h3, s.k, root, l1, l0);
              SomeFree(s.(heap := h, spaces := s.spaces + [Space(root, l1, l0, [])]), first, multiset{}) && Kept(s.heap.mem, h.mem, s.spaces)
  {
    hide SysOk, AllUsed, Kalloc, FillTables, FreePage, FreeThree, SomeFree, Kept;
    TakeHand(s, first, free, multiset{} + multiset{root});
    var (h2, l1) := Kalloc(s.heap);
    if l1 < 0 {
      FreeMissing(s.heap, root, -1);
      FreeOne(s, first, free, root);
    } else {
      var s2, f2 := s.(heap := h2), Rest(free);
      TakeHand(s2, first, f2, multiset{} + multiset{root} + multiset{l1});
      var (h3, l0) := Kalloc(h2);
      if l0 < 0 {
        FreeTwo(s2, first, f2, root, l1);
        FreeMissing(h2, root, l1);
      } else {
        CreateSucceeds(s.(heap := h3), first, Rest(f2), root, l1, l0);
      }
    }
  }

  lemma CreateOk(s: Sys, first: nat, free: seq<nat>)
    requires SysOk(s, first, free, multiset{})
    ensures s.k.l2 < DRAM_PAGES && s.k.l1Mmio < DRAM_PAGES
    ensures var (h, r) := Create(s.heap, s.k);
            match r
            case Some(sp) => sp.pages == [] && SomeFree(s.(heap := h, spaces := s.spaces + [sp]), first, multiset{})
            case None => SomeFree(s.(heap := h), first, multiset{})
    ensures Kept(s.heap.mem, Create(s.heap, s.k).0.mem, s.spaces)
  {
    hide SysOk, AllUsed, Kalloc, FillTables, FreePage, FreeThree, SomeFree, Kept;
    KernelInDram(s, first, free, multiset{});
    TakeHand(s, first, free, multiset{});
    var (h1, root) := Kalloc(s.heap);
    if root < 0 {
      FreeMissing(s.heap, -1, -1);
      KeptSame(s.heap.mem, s.spaces);
      Witness(s, first, free, multiset{});
    } else {
      CreateFrom(s.(heap := h1), first, Rest(free), root);
    }
  }

  // ---------------------------------------------------------------- mapping

  /** Changing a mapping in place does not change which one is found. */
  lemma FindSet(pages: seq<Mapping>, k: nat, m: Mapping, va: nat)
    requires k < |pages| && m.va == pages[k].va
    ensures Find(pages[k := m], va, 0) == Find(pages, va, 0)
  {
    var a, b := Find(pages[k := m], va, 0), Find(pages, va, 0);
    assert a < |pages| ==> pages[a].va == va;
    assert b < |pages| ==> pages[k := m][b].va == va;
  }

  lemma FindAppend(pages: seq<Mapping>, m: Mapping, va: nat)
    ensures var b := Find(pages, va, 0);
            Find(pages + [m], va, 0) == if b < |pages| then b else if m.va == va then |pages| else |pages| + 1
  {
    var a, b := Find(pages + [m], va, 0), Find(pages, va, 0);
    assert a < |pages| ==> pages[a].va == va;
    assert b < |pages| ==> (pages + [m])[b].va == va;
    assert (pages + [m])[|pages|] == m;
  }

  /** `after` is `pages` with mapping `m` for its address put in: over the one that is there, or at the end. */
  predicate Placed(pages: seq<Mapping>, m: Mapping, after: seq<Mapping>) {
    var k := Find(pages, m.va, 0);
    after == if k < |pages| then pages[k := m] else pages + [m]
  }

  lemma PlacedFind(pages: seq<Mapping>, m: Mapping, after: seq<Mapping>, va: nat)
    requires Placed(pages, m, after)
    ensures var k, b := Find(after, va, 0), Find(pages, va, 0);
            if va == m.va then k < |after| && after[k] == m
            else (k == |after| <==> b == |pages|) && (b < |pages| ==> k == b && after[k] == pages[k])
  {
    hide Find;
    var k := Find(pages, m.va, 0);
    if k < |pages| {
      FindSet(pages, k, m, va);
    } else {
      FindAppend(pages, m, va);
    }
  }

  /** Storing its entry makes the last table agree with the new list. */
  lemma PlacedTable(l0: Page, pages: seq<Mapping>, m: Mapping, after: seq<Mapping>)
    requires L0Ok(l0, pages) && Placed(pages, m, after) && Mappable(m.va) && m.page < DRAM_PAGES
    ensures L0Ok(SetWord(l0, m.va / 4096 % 512, PteOf(m)), after)
  {
    hide Find, SamePte, V, PteOf, SetWord, Word;
    var n := m.va / 4096 % 512;
    assert n == m.va / 4096 && 4096 * n == m.va;
    forall i | 0 <= i < 512 ensures EntryOk(Word(SetWord(l0, n, PteOf(m)), i), after, i) {
      WordSet(l0, n, PteOf(m), i);
      PlacedFind(pages, m, after, 4096 * i);
      assert EntryOk(Word(l0, i), pages, i);
      SamePteRefl(PteOf(m));
    }
  }

  lemma PlacedList(pages: seq<Mapping>, m: Mapping, after: seq<Mapping>)
    requires ListOk(pages) && Placed(pages, m, after) && Mappable(m.va) && m.page < DRAM_PAGES
    requires Find(pages, m.va, 0) < |pages| || |pages| < USER_MAX_PAGES
    ensures ListOk(after)
  {
  }

  /** What the tables of a space own. */
  lemma TableOwned(spaces: seq<Space>, i: nat)
    requires i < |spaces|
    ensures AllUsed(spaces)[spaces[i].l0] >= 1
  {
    hide AllUsed;
    AllUsedUpdate(spaces, i, spaces[i]);
    assert SpaceUsed(spaces[i])[spaces[i].l0] >= 1;
  }

  /** The last table of one space is part of nothing else. */
  lemma L0Apart(s: Sys, first: nat, free: seq<nat>, hand: multiset<nat>, i: nat)
    requires SysOk(s, first, free, hand) && i < |s.spaces|
    ensures var p := s.spaces[i].l0;
            && p < DRAM_PAGES && p !in KernelUsed(s.k)
            && (forall j :: 0 <= j < |s.spaces| && j != i ==> SpaceUsed(s.spaces[j])[p] == 0)
            && PagesOf(s.spaces[i].pages)[p] == 0
  {
    hide HeapOk, KernelOk, SpaceOk, AllUsed;
    var p := s.spaces[i].l0;
    var used := KernelUsed(s.k) + AllUsed(s.spaces) + hand;
    OneOwner(s.heap, first, free, used, p);
    TableOwned(s.spaces, i);
    assert used[p] == KernelUsed(s.k)[p] + AllUsed(s.spaces)[p] + hand[p];
    AllUsedUpdate(s.spaces, i, s.spaces[i]);
    assert SpaceUsed(s.spaces[i])[p] >= 1 + PagesOf(s.spaces[i].pages)[p];
    forall j | 0 <= j < |s.spaces| && j != i ensures SpaceUsed(s.spaces[j])[p] == 0 {
      TwoSpaces(s.spaces, i, j, p);
    }
  }

  /** Storing an entry for space `i` while pages move between its list and what is in hand. */
  lemma MapWrite(s: Sys, first: nat, free: seq<nat>, hand: multiset<nat>, i: nat, m: Mapping, after: Space, left: multiset<nat>)
    requires SysOk(s, first, free, hand) && i < |s.spaces| && Mappable(m.va) && m.page < DRAM_PAGES
    requires after == s.spaces[i].(pages := after.pages) && Placed(s.spaces[i].pages, m, after.pages) && ListOk(after.pages)
    requires SpaceUsed(after) + left == SpaceUsed(s.spaces[i]) + hand
    ensures s.spaces[i].l0 < DRAM_PAGES
    ensures SysOk(Sys(WriteWord(s.heap, s.spaces[i].l0, m.va / 4096 % 512, PteOf(m)), s.k, s.spaces[i := after]),
                  first, free, left)
  {
    hide HeapOk, KernelOk, AllUsed, SpaceUsed, KernelUsed, PteOf, SetWord, Placed, ListOk, SpaceOk, PagesOf;
    var sp := s.spaces[i];
    var p := sp.l0;
    L0Apart(s, first, free, hand, i);
    TableOwned(s.spaces, i);
    var used := KernelUsed(s.k) + AllUsed(s.spaces) + hand;
    assert used[p] >= 1;
    var q := SetWord(s.heap.mem[p], m.va / 4096 % 512, PteOf(m));
    WriteUsed(s.heap, first, free, used, p, q);
    MovedUsed(s.spaces, i, after, KernelUsed(s.k), hand, left);
    var h := WritePage(s.heap, p, q);
    KernelPages(s.heap.mem, s.k);
    KernelKept(s.heap.mem, s.k, p, q);
    var t := s.spaces[i := after];
    forall j | 0 <= j < |t| ensures SpaceOk(h.mem, s.k, t[j]) {
      SpacePages(s.heap.mem, s.k, s.spaces[j]);
      if j == i {
        OwnTable(s.heap.mem, s.k, sp, m, after);
      } else {
        OtherTable(s.spaces[j], p);
        SpaceFrame(s.heap.mem, h.mem, s.k, s.spaces[j]);
      }
    }
  }

  lemma KernelKept(mem: Memory, k: Kernel, p: nat, q: Page)
    requires KernelOk(mem, k) && p < DRAM_PAGES && p !in KernelUsed(k)
    ensures KernelOk(mem[p := q], k) && p != k.l1Dram
  {
    hide DramOk, PointsTo, V;
    assert p != k.l2 && p != k.l1Dram && p != k.l1Mmio;
    KernelFrame(mem, mem[p := q], k);
  }

  lemma OtherTable(sp: Space, p: nat)
    requires SpaceUsed(sp)[p] == 0
    ensures p != sp.root && p != sp.l1 && p != sp.l0
  {
  }

  lemma MovedUsed(spaces: seq<Space>, i: nat, after: Space, kernel: multiset<nat>, hand: multiset<nat>, left: multiset<nat>)
    requires i < |spaces| && SpaceUsed(after) + left == SpaceUsed(spaces[i]) + hand
    ensures kernel + AllUsed(spaces[i := after]) + left == kernel + AllUsed(spaces) + hand
  {
    hide AllUsed, SpaceUsed;
    AllUsedUpdate(spaces, i, after);
    var a, b := AllUsed(spaces[i := after]), AllUsed(spaces);
    Cancel(a, SpaceUsed(spaces[i]), b, SpaceUsed(after), hand, left);
    assert kernel + a + left == kernel + (a + left);
    assert kernel + b + hand == kernel + (b + hand);
  }

  lemma Cancel(a: multiset<nat>, x: multiset<nat>, b: multiset<nat>, y: multiset<nat>, hand: multiset<nat>, left: multiset<nat>)
    requires a + x == b + y && y + left == x + hand
    ensures a + left == b + hand
  {
    assert a + left + x == b + hand + x by {
      assert a + left + x == a + x + left;
      assert b + y + left == b + (y + left);
      assert b + (x + hand) == b + hand + x;
    }
    assert a + left == (a + left + x) - x && b + hand == (b + hand + x) - x;
  }

  lemma OwnTable(mem: Memory, k: Kernel, sp: Space, m: Mapping, after: Space)
    requires SpaceOk(mem, k, sp) && Mappable(m.va) && m.page < DRAM_PAGES
    requires after == sp.(pages := after.pages) && Placed(sp.pages, m, after.pages) && ListOk(after.pages)
    ensures SpaceOk(mem[sp.l0 := SetWord(mem[sp.l0], m.va / 4096 % 512, PteOf(m))], k, after)
  {
    hide PteOf, SetWord, Placed, RootOk, L1Ok, DramOk, L0Ok;
    PlacedTable(mem[sp.l0], sp.pages, m, after.pages);
  }

  /** The pages behind these mappings hold what they held. */
  predicate DataKept(a: Memory, b: Memory, pages: seq<Mapping>) {
    forall j :: 0 <= j < |pages| && pages[j].page < DRAM_PAGES ==> b[pages[j].page] == a[pages[j].page]
  }

  /** The other spaces, when space `i` is worked on. */
  function Others(spaces: seq<Space>, i: nat): seq<Space>
    requires i < |spaces|
  {
    spaces[..i] + spaces[i + 1..]
  }

  /** The list after a successful `map_user_page`: more permissions for a page that was there, or a new page of zeros. */
  predicate MappedList(pages: seq<Mapping>, va: int, flags: Flags, mem: Memory, after: seq<Mapping>) {
    Mappable(va) && var k := Find(pages, va, 0);
    if k < |pages| then after == pages[k := pages[k].(flags := Either(pages[k].flags, flags))]
    else
      && |after| == |pages| + 1 && after[..|pages|] == pages && after[|pages|] == Mapping(va, after[|pages|].page, flags)
      && after[|pages|].page < DRAM_PAGES && mem[after[|pages|].page] == Zeros(4096)
  }

  /** `map_user_page` on space `i`: what it leaves to everybody. */
  ghost predicate Mapped(s: Sys, first: nat, i: nat, va: int, flags: Flags, h: Heap, after: Space, status: int) {
    && i < |s.spaces| && SomeFree(Sys(h, s.k, s.spaces[i := after]), first, multiset{})
    && Kept(s.heap.mem, h.mem, Others(s.spaces, i)) && DataKept(s.heap.mem, h.mem, s.spaces[i].pages)
    && after == s.spaces[i].(pages := after.pages)
    && if status < 0 then after == s.spaces[i] else MappedList(s.spaces[i].pages, va, flags, h.mem, after.pages)
  }

  lemma SpaceListed(s: Sys, first: nat, free: seq<nat>, hand: multiset<nat>, i: nat)
    requires SysOk(s, first, free, hand) && i < |s.spaces|
    ensures ListOk(s.spaces[i].pages) && TablesApart(s.spaces[i], s.k.l1Dram)
  {
    hide HeapOk, KernelOk, Tables;
    assert SpaceOk(s.heap.mem, s.k, s.spaces[i]);
    SpacePages(s.heap.mem, s.k, s.spaces[i]);
  }

  lemma MapOk(s: Sys, first: nat, free: seq<nat>, i: nat, va: int, flags: Flags)
    requires SysOk(s, first, free, multiset{}) && i < |s.spaces|
    ensures ListOk(s.spaces[i].pages) && s.spaces[i].l0 < DRAM_PAGES
    ensures var (h, after, status) := Map(s.heap, s.spaces[i], va, flags); Mapped(s, first, i, va, flags, h, after, status)
  {
    hide SysOk, Kalloc, Mapped, Find, PteOf, ListOk;
    SpaceListed(s, first, free, multiset{}, i);
    ListPages(s.spaces[i].pages);
    var sp := s.spaces[i];
    if !Mappable(va) {
      MapNothing(s, first, free, i, va, flags);
    } else {
      var k := Find(sp.pages, va, 0);
      if k < |sp.pages| {
        MapAgain(s, first, free, i, va, flags, k);
      } else if |sp.pages| >= USER_MAX_PAGES {
        MapNothing(s, first, free, i, va, flags);
      } else {
        TakeHand(s, first, free, multiset{});
        var (g, p) := Kalloc(s.heap);
        if p < 0 {
          MapNothing(s, first, free, i, va, flags);
        } else {
          MapFresh(s, first, Rest(free), i, va, flags, g, p);
        }
      }
    }
  }

  lemma ListPages(pages: seq<Mapping>)
    requires ListOk(pages)
    ensures forall j :: 0 <= j < |pages| ==> pages[j].page < DRAM_PAGES
  {
  }

  lemma MapNothing(s: Sys, first: nat, free: seq<nat>, i: nat, va: int, flags: Flags)
    requires SysOk(s, first, free, multiset{}) && i < |s.spaces|
    ensures Mapped(s, first, i, va, flags, s.heap, s.spaces[i], -1)
  {
    hide SysOk, AllUsed;
    assert s.spaces[i := s.spaces[i]] == s.spaces;
    Witness(s, first, free, multiset{});
  }

  lemma MapAgain(s: Sys, first: nat, free: seq<nat>, i: nat, va: int, flags: Flags, k: nat)
    requires SysOk(s, first, free, multiset{}) && i < |s.spaces| && Mappable(va)
    requires k == Find(s.spaces[i].pages, va, 0) < |s.spaces[i].pages|
    ensures s.spaces[i].l0 < DRAM_PAGES && s.spaces[i].pages[k].page < DRAM_PAGES
    ensures var m := s.spaces[i].pages[k].(flags := Either(s.spaces[i].pages[k].flags, flags));
            Mapped(s, first, i, va, flags, WriteWord(s.heap, s.spaces[i].l0, va / 4096 % 512, PteOf(m)),
                   s.spaces[i].(pages := s.spaces[i].pages[k := m]), 0)
  {
    hide SysOk, Find, PteOf, SetWord, AllUsed, SpaceUsed, SomeFree, KernelUsed, PagesOf;
    SpaceListed(s, first, free, multiset{}, i);
    var sp := s.spaces[i];
    var m := sp.pages[k].(flags := Either(sp.pages[k].flags, flags));
    assert m.va == va by { FindIs(sp.pages, va); }
    var after := sp.(pages := sp.pages[k := m]);
    PlacedList(sp.pages, m, after.pages);
    PagesOfSame(sp.pages, after.pages);
    SameUsed(sp, after);
    MapWrite(s, first, free, multiset{}, i, m, after, multiset{});
    var h := WriteWord(s.heap, sp.l0, va / 4096 % 512, PteOf(m));
    Witness(Sys(h, s.k, s.spaces[i := after]), first, free, multiset{});
    L0Kept(s, first, free, multiset{}, i, sp.l0, h.mem[sp.l0]);
  }

  lemma FindIs(pages: seq<Mapping>, va: nat)
    requires Find(pages, va, 0) < |pages|
    ensures pages[Find(pages, va, 0)].va == va
  {
  }

  lemma SameUsed(sp: Space, after: Space)
    requires after == sp.(pages := after.pages) && PagesOf(after.pages) == PagesOf(sp.pages)
    ensures SpaceUsed(after) == SpaceUsed(sp)
  {
  }

  /** Writing the last table of space `i` touches no page of the others and no data page of its own. */
  lemma L0Kept(s: Sys, first: nat, free: seq<nat>, hand: multiset<nat>, i: nat, p: nat, q: Page)
    requires SysOk(s, first, free, hand) && i < |s.spaces| && p == s.spaces[i].l0 && p < DRAM_PAGES
    ensures Kept(s.heap.mem, WritePage(s.heap, p, q).mem, Others(s.spaces, i))
    ensures DataKept(s.heap.mem, WritePage(s.heap, p, q).mem, s.spaces[i].pages)
  {
    hide SysOk, AllUsed, SpaceUsed, PagesOf;
    L0Apart(s, first, free, hand, i);
    OthersFree(s, first, free, hand, i);
    forall j | 0 <= j < |s.spaces[i].pages| ensures s.spaces[i].pages[j].page != p {
      PagesOfHas(s.spaces[i].pages, j);
    }
  }

  lemma OthersFree(s: Sys, first: nat, free: seq<nat>, hand: multiset<nat>, i: nat)
    requires SysOk(s, first, free, hand) && i < |s.spaces|
    ensures AllUsed(Others(s.spaces, i))[s.spaces[i].l0] == 0
  {
    hide HeapOk, KernelOk, SpaceOk, AllUsed, KernelUsed;
    var p := s.spaces[i].l0;
    var used := KernelUsed(s.k) + AllUsed(s.spaces) + hand;
    OneOwner(s.heap, first, free, used, p);
    AllUsedRemove(s.spaces, i);
    assert SpaceUsed(s.spaces[i])[p] >= 1;
    assert AllUsed(s.spaces)[p] == AllUsed(Others(s.spaces, i))[p] + SpaceUsed(s.spaces[i])[p];
    assert used[p] >= AllUsed(s.spaces)[p];
  }

  lemma MapFresh(s: Sys, first: nat, free: seq<nat>, i: nat, va: int, flags: Flags, g: Heap, p: nat)
    requires i < |s.spaces| && Mappable(va) && Find(s.spaces[i].pages, va, 0) == |s.spaces[i].pages| < USER_MAX_PAGES
    requires g.mem == s.heap.mem && p < DRAM_PAGES && SysOk(s.(heap := g), first, free, multiset{} + multiset{p})
    ensures s.spaces[i].l0 < DRAM_PAGES
    ensures Mapped(s, first, i, va, flags,
                   WriteWord(WritePage(g, p, Zeros(4096)), s.spaces[i].l0, va / 4096 % 512, PteOf(Mapping(va, p, flags))),
                   s.spaces[i].(pages := s.spaces[i].pages + [Mapping(va, p, flags)]), 0)
  {
    hide SysOk, Find, PteOf, SetWord, AllUsed, SpaceUsed, SomeFree, KernelUsed, Zeros, PagesOf;
    var hand := multiset{} + multiset{p};
    var sp, m := s.spaces[i], Mapping(va, p, flags);
    var t := s.(heap := g);
    SpaceListed(t, first, free, hand, i);
    WriteHand(t, first, free, hand, p, Zeros(4096));
    var h1 := WritePage(g, p, Zeros(4096));
    var u := s.(heap := h1);
    var after := sp.(pages := sp.pages + [m]);
    PlacedList(sp.pages, m, after.pages);
    OneMore(sp, m);
    MapWrite(u, first, free, hand, i, m, after, multiset{});
    var h := WriteWord(h1, sp.l0, va / 4096 % 512, PteOf(m));
    Witness(Sys(h, s.k, s.spaces[i := after]), first, free, multiset{});
    L0Kept(u, first, free, hand, i, sp.l0, h.mem[sp.l0]);
    HandApart(t, first, free, hand, p);
    HandNotMine(t, i, p);
    KeptFewer(s.heap.mem, h1.mem, s.spaces, i);
    KeptTrans(s.heap.mem, h1.mem, h.mem, Others(s.spaces, i));
  }

  lemma OneMore(sp: Space, m: Mapping)
    ensures SpaceUsed(sp.(pages := sp.pages + [m])) + multiset{} == SpaceUsed(sp) + (multiset{} + multiset{m.page})
  {
    var t := sp.pages + [m];
    assert t[..|t| - 1] == sp.pages;
  }

  lemma HandNotMine(t: Sys, i: nat, p: nat)
    requires i < |t.spaces| && AllUsed(t.spaces)[p] == 0
    ensures t.spaces[i].l0 != p && forall j :: 0 <= j < |t.spaces[i].pages| ==> t.spaces[i].pages[j].page != p
  {
    hide AllUsed, PagesOf;
    AllUsedUpdate(t.spaces, i, t.spaces[i]);
    assert SpaceUsed(t.spaces[i])[p] == 0;
    forall j | 0 <= j < |t.spaces[i].pages| ensures t.spaces[i].pages[j].page != p {
      PagesOfHas(t.spaces[i].pages, j);
    }
  }

  lemma KeptFewer(a: Memory, b: Memory, spaces: seq<Space>, i: nat)
    requires Kept(a, b, spaces) && i < |spaces|
    ensures Kept(a, b, Others(spaces, i))
  {
    hide AllUsed, SpaceUsed;
    AllUsedRemove(spaces, i);
    forall p: nat | p < DRAM_PAGES && AllUsed(Others(spaces, i))[p] >= 1 ensures b[p] == a[p] {
      assert AllUsed(spaces)[p] == AllUsed(Others(spaces, i))[p] + SpaceUsed(spaces[i])[p];
    }
  }

  // ---------------------------------------------------------------- destroying

  lemma {:induction false} PagesFront(pages: seq<Mapping>)
    requires pages != []
    ensures PagesOf(pages) == PagesOf(pages[1..]) + multiset{pages[0].page}
  {
    var n := |pages| - 1;
    if n > 0 {
      PagesFront(pages[..n]);
      assert pages[..n][1..] == pages[1..][..n - 1];
      Swap(PagesOf(pages[1..][..n - 1]), multiset{pages[0].page}, multiset{pages[n].page});
    }
  }

  lemma {:induction false} FreePagesOk(s: Sys, first: nat, free: seq<nat>, hand: multiset<nat>, pages: seq<Mapping>)
    requires SysOk(s, first, free, hand + PagesOf(pages))
    requires forall j :: 0 <= j < |pages| ==> pages[j].page < DRAM_PAGES
    ensures SomeFree(s.(heap := FreePages(s.heap, pages)), first, hand)
    ensures Kept(s.heap.mem, FreePages(s.heap, pages).mem, s.spaces)
    decreases |pages|
  {
    hide SysOk, FreePage, SomeFree, AllUsed;
    if pages == [] {
      assert hand + PagesOf(pages) == hand;
      Witness(s, first, free, hand);
    } else {
      var p := pages[0].page;
      PagesFront(pages);
      assert hand + PagesOf(pages) == hand + PagesOf(pages[1..]) + multiset{p};
      FreeHand(s, first, free, hand + PagesOf(pages[1..]), p);
      var h := FreePage(s.heap, p);
      FreePagesOk(s.(heap := h), first, [p] + free, hand, pages[1..]);
      KeptTrans(s.heap.mem, h.mem, FreePages(s.heap, pages).mem, s.spaces);
    }
  }

  lemma FreeThreeOk(s: Sys, first: nat, free: seq<nat>, root: nat, l1: nat, l0: nat)
    requires SysOk(s, first, free, multiset{root, l1, l0}) && root < DRAM_PAGES && l1 < DRAM_PAGES && l0 < DRAM_PAGES
    ensures SomeFree(s.(heap := FreeThree(s.heap, root, l1, l0)), first, multiset{})
    ensures Kept(s.heap.mem, FreeThree(s.heap, root, l1, l0).mem, s.spaces)
  {
    hide SysOk, FreePage, SomeFree, Kept;
    ThreePages(root, l1, l0);
    FreeHand(s, first, free, multiset{} + multiset{root} + multiset{l1}, l0);
    var h := FreePage(s.heap, l0);
    FreeTwo(s.(heap := h), first, [l0] + free, root, l1);
    KeptTrans(s.heap.mem, h.mem, FreePage(FreePage(h, l1), root).mem, s.spaces);
  }

  /** `user_space_destroy` of space `i` gives every page of it back and touches no page of the others. */
  lemma DestroyOk(s: Sys, first: nat, free: seq<nat>, i: nat)
    requires SysOk(s, first, free, multiset{}) && i < |s.spaces|
    ensures forall j :: 0 <= j < |s.spaces[i].pages| ==> s.spaces[i].pages[j].page < DRAM_PAGES
    ensures SomeFree(Sys(Destroy(s.heap, s.spaces[i]), s.k, Others(s.spaces, i)), first, multiset{})
    ensures Kept(s.heap.mem, Destroy(s.heap, s.spaces[i]).mem, Others(s.spaces, i))
  {
    hide SysOk, FreePages, FreeThree, Kept, AllUsed;
    SpaceListed(s, first, free, multiset{}, i);
    var sp := s.spaces[i];
    ListPages(sp.pages);
    Abandon(s, first, free, i);
    var t := s.(spaces := Others(s.spaces, i));
    FreePagesOk(t, first, free, multiset{sp.root, sp.l1, sp.l0}, sp.pages);
    var u := t.(heap := FreePages(s.heap, sp.pages));
    var g: seq<nat> :| SysOk(u, first, g, multiset{sp.root, sp.l1, sp.l0});
    FreeThreeOk(u, first, g, sp.root, sp.l1, sp.l0);
    KeptTrans(s.heap.mem, u.heap.mem, Destroy(s.heap, sp).mem, t.spaces);
  }

  // ---------------------------------------------------------------- data pages

  /** A data page belongs to one mapping of one space and is no table. */
  lemma DataApart(s: Sys, first: nat, free: seq<nat>, i: nat, j: nat)
    requires SysOk(s, first, free, multiset{}) && i < |s.spaces| && j < |s.spaces[i].pages|
    ensures var p := s.spaces[i].pages[j].page;
            && p < DRAM_PAGES && !IsTable(s, p) && AllUsed(s.spaces)[p] == 1
            && AllUsed(Others(s.spaces, i))[p] == 0 && PagesOf(s.spaces[i].pages)[p] == 1
  {
    hide HeapOk, KernelOk, SpaceOk, AllUsed, PagesOf;
    var p := s.spaces[i].pages[j].page;
    var used := KernelUsed(s.k) + AllUsed(s.spaces) + multiset{};
    OneOwner(s.heap, first, free, used, p);
    PagesOfHas(s.spaces[i].pages, j);
    AllUsedRemove(s.spaces, i);
    assert used[p] == KernelUsed(s.k)[p] + AllUsed(s.spaces)[p];
    assert AllUsed(s.spaces)[p] == AllUsed(Others(s.spaces, i))[p] + SpaceUsed(s.spaces[i])[p];
    assert SpaceUsed(s.spaces[i])[p] == multiset{s.spaces[i].root, s.spaces[i].l1, s.spaces[i].l0}[p] + PagesOf(s.spaces[i].pages)[p];
    forall x | 0 <= x < |s.spaces| ensures p !in [s.spaces[x].root, s.spaces[x].l1, s.spaces[x].l0] {
      if x != i {
        TwoSpaces(s.spaces, i, x, p);
        assert SpaceUsed(s.spaces[x])[p] == 0;
      }
    }
  }

  /** Two mappings of one space never share a page. */
  lemma {:induction false} PagesTwice(pages: seq<Mapping>, i: nat, j: nat)
    requires i < j < |pages| && pages[i].page == pages[j].page
    ensures PagesOf(pages)[pages[i].page] >= 2
  {
    var n := |pages| - 1;
    if j < n {
      PagesTwice(pages[..n], i, j);
    } else {
      PagesOfHas(pages[..n], i);
    }
  }

  /** Overwriting one data page of space `i` keeps the system, and every other page of every space. */
  lemma WriteOwn(s: Sys, first: nat, free: seq<nat>, i: nat, j: nat, q: Page)
    requires SysOk(s, first, free, multiset{}) && i < |s.spaces| && j < |s.spaces[i].pages|
    ensures var p := s.spaces[i].pages[j].page;
            && p < DRAM_PAGES && SysOk(s.(heap := WritePage(s.heap, p, q)), first, free, multiset{})
            && Kept(s.heap.mem, WritePage(s.heap, p, q).mem, Others(s.spaces, i))
            && forall x :: 0 <= x < |s.spaces[i].pages| && x != j ==> s.spaces[i].pages[x].page != p
  {
    hide SysOk, AllUsed, KernelUsed, IsTable, PagesOf;
    DataApart(s, first, free, i, j);
    var p := s.spaces[i].pages[j].page;
    assert (KernelUsed(s.k) + AllUsed(s.spaces) + multiset{})[p] >= 1;
    WriteData(s, first, free, multiset{}, p, q);
    forall x | 0 <= x < |s.spaces[i].pages| && x != j ensures s.spaces[i].pages[x].page != p {
      if s.spaces[i].pages[x].page == p {
        if x < j {
          PagesTwice(s.spaces[i].pages, x, j);
        } else {
          PagesTwice(s.spaces[i].pages, j, x);
        }
      }
    }
  }
}
