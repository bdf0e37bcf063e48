/** `user_space_clone`, and stores by user programs: what fork copies and what isolation means. */
module SpaceCopy {
  import opened Bytes
  import opened PhysMem
  import opened Mmu
  import opened PageAlloc
  import opened Spaces
  import opened SpaceOps

  /** Copies the pages from number `i` on into `dst`; on failure everything `dst` has is given back. */
  function CloneFrom(h: Heap, dst: Space, pages: seq<Mapping>, i: nat): (r: (Heap, Option<Space>))
    requires i <= |pages| && dst.l0 < DRAM_PAGES
    requires forall j :: 0 <= j < |pages| ==> pages[j].page < DRAM_PAGES
    requires forall j :: 0 <= j < |dst.pages| ==> dst.pages[j].page < DRAM_PAGES
    decreases |pages| - i
  {
    if i == |pages| then (h, Some(dst))
    else
      var (g, d, status) := Map(h, dst, pages[i].va, pages[i].flags);
      if status < 0 then (Destroy(g, d), None)
      else
        var k := Find(d.pages, pages[i].va, 0);
        if k == |d.pages| then (g, None)
        else CloneFrom(WritePage(g, d.pages[k].page, g.mem[pages[i].page]), d, pages, i + 1)
  }

  /** `user_space_clone` */
  function Clone(h: Heap, k: Kernel, src: Space): (r: (Heap, Option<Space>))
    requires k.l2 < DRAM_PAGES && k.l1Mmio < DRAM_PAGES
    requires forall j :: 0 <= j < |src.pages| ==> src.pages[j].page < DRAM_PAGES
  {
    var (g, r) := Create(h, k);
    match r
    case None => (g, None)
    case Some(dst) => if dst.l0 < DRAM_PAGES && dst.pages == [] then CloneFrom(g, dst, src.pages, 0) else (g, None)
  }

  /** The first `n` pages of `dst` are copies of those of `src`, at the same addresses with the same permissions. */
  predicate Copied(mem: Memory, src: seq<Mapping>, dst: seq<Mapping>, n: nat) {
    n <= |src| && n <= |dst| && forall j :: 0 <= j < n ==>
      && dst[j].va == src[j].va && dst[j].flags == src[j].flags
      && src[j].page < DRAM_PAGES && dst[j].page < DRAM_PAGES && mem[dst[j].page] == mem[src[j].page]
  }

  /** In a list of copies the next address is not there yet. */
  lemma NextIsNew(mem: Memory, src: seq<Mapping>, dst: seq<Mapping>, i: nat)
    requires ListOk(src) && i < |src| && |dst| == i && Copied(mem, src, dst, i)
    ensures Find(dst, src[i].va, 0) == |dst|
  {
    assert forall j :: 0 <= j < |dst| ==> dst[j].va == src[j].va != src[i].va;
  }

  /** The state of the loop: the spaces as before, and the copy as the last of them. */
  ghost predicate Copying(s: Sys, first: nat, n: nat, src: nat, i: nat) {
    && n + 1 == |s.spaces| && src < n && SomeFree(s, first, multiset{})
    && |s.spaces[n].pages| == i && Copied(s.heap.mem, s.spaces[src].pages, s.spaces[n].pages, i)
  }

  /** Data pages of a space in the list are among those kept. */
  lemma KeptData(a: Memory, b: Memory, spaces: seq<Space>, i: nat)
    requires i < |spaces| && Kept(a, b, spaces)
    ensures DataKept(a, b, spaces[i].pages)
  {
    hide AllUsed, PagesOf;
    forall j | 0 <= j < |spaces[i].pages| && spaces[i].pages[j].page < DRAM_PAGES
      ensures b[spaces[i].pages[j].page] == a[spaces[i].pages[j].page]
    {
      var p := spaces[i].pages[j].page;
      PagesOfHas(spaces[i].pages, j);
      AllUsedUpdate(spaces, i, spaces[i]);
      assert SpaceUsed(spaces[i])[p] >= 1;
    }
  }

  lemma LastOthers(spaces: seq<Space>, n: nat, d: Space)
    requires n + 1 == |spaces|
    ensures Others(spaces, n) == spaces[..n] && spaces[n := d] == spaces[..n] + [d]
  {
  }

  /** One round: the page is mapped at a new address and filled with the source's bytes. */
  lemma CopyRound(s: Sys, first: nat, n: nat, src: nat, i: nat)
    requires Copying(s, first, n, src, i) && i < |s.spaces[src].pages|
    ensures s.spaces[n].l0 < DRAM_PAGES && ListOk(s.spaces[n].pages) && ListOk(s.spaces[src].pages)
    ensures var m := s.spaces[src].pages[i];
            var (g, d, status) := Map(s.heap, s.spaces[n], m.va, m.flags);
            && Kept(s.heap.mem, g.mem, s.spaces[..n]) && SomeFree(Sys(g, s.k, s.spaces[..n] + [d]), first, multiset{})
            && (status >= 0 ==>
                  && |d.pages| == i + 1 && Find(d.pages, m.va, 0) == i && d.pages[i].page < DRAM_PAGES && m.page < DRAM_PAGES
                  && var h := WritePage(g, d.pages[i].page, g.mem[m.page]);
                     Copying(Sys(h, s.k, s.spaces[..n] + [d]), first, n, src, i + 1) && Kept(s.heap.mem, h.mem, s.spaces[..n]))
  {
    hide SysOk, Map, Kept, ListOk, Find, AllUsed, DataKept, Copied;
    var free: seq<nat> :| SysOk(s, first, free, multiset{});
    SpaceListed(s, first, free, multiset{}, n);
    SpaceListed(s, first, free, multiset{}, src);
    var m := s.spaces[src].pages[i];
    MapOk(s, first, free, n, m.va, m.flags);
    ListPages(s.spaces[n].pages);
    ListPages(s.spaces[src].pages);
    var (g, d, status) := Map(s.heap, s.spaces[n], m.va, m.flags);
    LastOthers(s.spaces, n, d);
    if status >= 0 {
      NextIsNew(s.heap.mem, s.spaces[src].pages, s.spaces[n].pages, i);
      assert MappedList(s.spaces[n].pages, m.va, m.flags, g.mem, d.pages);
      assert d.pages == s.spaces[n].pages + [d.pages[i]];
      FindAppend(s.spaces[n].pages, d.pages[i], m.va);
      CopyFill(s, g, d, first, n, src, i);
    }
  }

  lemma CopyFill(s: Sys, g: Heap, d: Space, first: nat, n: nat, src: nat, i: nat)
    requires Copying(s, first, n, src, i) && ListOk(s.spaces[src].pages) && i < |s.spaces[src].pages|
    requires SomeFree(Sys(g, s.k, s.spaces[..n] + [d]), first, multiset{}) && Kept(s.heap.mem, g.mem, s.spaces[..n])
    requires |d.pages| == i + 1 && d.pages == s.spaces[n].pages + [d.pages[i]] && DataKept(s.heap.mem, g.mem, s.spaces[n].pages)
    requires d.pages[i].va == s.spaces[src].pages[i].va && d.pages[i].flags == s.spaces[src].pages[i].flags
    requires d.pages[i].page < DRAM_PAGES && s.spaces[src].pages[i].page < DRAM_PAGES
    ensures var h := WritePage(g, d.pages[i].page, g.mem[s.spaces[src].pages[i].page]);
            Copying(Sys(h, s.k, s.spaces[..n] + [d]), first, n, src, i + 1) && Kept(s.heap.mem, h.mem, s.spaces[..n])
  {
    hide SysOk, Kept, ListOk, AllUsed;
    var t := Sys(g, s.k, s.spaces[..n] + [d]);
    var free: seq<nat> :| SysOk(t, first, free, multiset{});
    var q := g.mem[s.spaces[src].pages[i].page];
    WriteOwn(t, first, free, n, i, q);
    var h := WritePage(g, d.pages[i].page, q);
    LastOthers(t.spaces, n, d);
    assert t.spaces[..n] == s.spaces[..n];
    Witness(t.(heap := h), first, free, multiset{});
    KeptTrans(s.heap.mem, g.mem, h.mem, s.spaces[..n]);
    assert s.spaces[..n][src] == s.spaces[src];
    KeptData(s.heap.mem, g.mem, s.spaces[..n], src);
    KeptData(g.mem, h.mem, s.spaces[..n], src);
    CopiedMore(s.heap.mem, g.mem, h.mem, s.spaces[src].pages, s.spaces[n].pages, d.pages, i);
  }

  lemma CopiedMore(a: Memory, g: Memory, h: Memory, src: seq<Mapping>, was: seq<Mapping>, d: seq<Mapping>, i: nat)
    requires i < |src| && |d| == i + 1 && |was| == i && d == was + [d[i]] && Copied(a, src, was, i)
    requires DataKept(a, g, was) && DataKept(a, g, src) && DataKept(g, h, src)
    requires d[i].va == src[i].va && d[i].flags == src[i].flags && d[i].page < DRAM_PAGES && src[i].page < DRAM_PAGES
    requires h == g[d[i].page := g[src[i].page]] && forall x :: 0 <= x < |d| && x != i ==> d[x].page != d[i].page
    ensures Copied(h, src, d, i + 1)
  {
    forall j | 0 <= j < i ensures d[j].page < DRAM_PAGES && src[j].page < DRAM_PAGES && h[d[j].page] == h[src[j].page] {
      assert d[j] == was[j];
      assert a[was[j].page] == a[src[j].page];
    }
  }

  lemma {:induction false} CloneFromOk(s: Sys, first: nat, n: nat, src: nat, i: nat)
    requires Copying(s, first, n, src, i) && i <= |s.spaces[src].pages|
    ensures s.spaces[n].l0 < DRAM_PAGES && ListOk(s.spaces[n].pages) && ListOk(s.spaces[src].pages)
    ensures var (h, r) := CloneFrom(s.heap, s.spaces[n], s.spaces[src].pages, i);
            && Kept(s.heap.mem, h.mem, s.spaces[..n])
            && match r
               case Some(d) => Copying(Sys(h, s.k, s.spaces[..n] + [d]), first, n, src, |s.spaces[src].pages|)
               case None => SomeFree(Sys(h, s.k, s.spaces[..n]), first, multiset{})
    decreases |s.spaces[src].pages| - i
  {
    hide SysOk, Map, Kept, ListOk, Find, Copied, Destroy, AllUsed;
    var free: seq<nat> :| SysOk(s, first, free, multiset{});
    SpaceListed(s, first, free, multiset{}, n);
    SpaceListed(s, first, free, multiset{}, src);
    ListPages(s.spaces[n].pages);
    ListPages(s.spaces[src].pages);
    LastOthers(s.spaces, n, s.spaces[n]);
    if i == |s.spaces[src].pages| {
      KeptSame(s.heap.mem, s.spaces[..n]);
      assert s.spaces[..n] + [s.spaces[n]] == s.spaces;
    } else {
      CopyRound(s, first, n, src, i);
      var m := s.spaces[src].pages[i];
      var (g, d, status) := Map(s.heap, s.spaces[n], m.va, m.flags);
      var t := Sys(g, s.k, s.spaces[..n] + [d]);
      LastOthers(t.spaces, n, d);
      assert t.spaces[..n] == s.spaces[..n];
      if status < 0 {
        var f: seq<nat> :| SysOk(t, first, f, multiset{});
        DestroyOk(t, first, f, n);
        KeptTrans(s.heap.mem, g.mem, Destroy(g, d).mem, s.spaces[..n]);
      } else {
        var h := WritePage(g, d.pages[i].page, g.mem[m.page]);
        var u := Sys(h, s.k, t.spaces);
        assert u.spaces[src] == s.spaces[src];
        CloneFromOk(u, first, n, src, i + 1);
        ListPages(d.pages);
        KeptTrans(s.heap.mem, h.mem, CloneFrom(h, d, s.spaces[src].pages, i + 1).0.mem, s.spaces[..n]);
      }
    }
  }

  /** The same pages in use mean as many free pages. */
  lemma SameTotal(s: Sys, t: Sys, first: nat)
    requires SomeFree(s, first, multiset{}) && SomeFree(t, first, multiset{}) && s.k == t.k && s.spaces == t.spaces
    requires s.heap.end == t.heap.end
    ensures t.heap.totalFree == s.heap.totalFree
  {
    hide HeapOk, KernelOk, SpaceOk, KernelUsed, AllUsed;
    var f: seq<nat> :| SysOk(s, first, f, multiset{});
    var g: seq<nat> :| SysOk(t, first, g, multiset{});
    TotalIs(s.heap, first, f, KernelUsed(s.k) + AllUsed(s.spaces) + multiset{});
    TotalIs(t.heap, first, g, KernelUsed(s.k) + AllUsed(s.spaces) + multiset{});
  }

  /** `user_space_clone` of space `src`: a new space with the same addresses, permissions and bytes on pages of its own, or
      nothing at all; no page of any space changes either way. */
  lemma CloneOk(s: Sys, first: nat, free: seq<nat>, src: nat)
    requires SysOk(s, first, free, multiset{}) && src < |s.spaces|
    ensures s.k.l2 < DRAM_PAGES && s.k.l1Mmio < DRAM_PAGES && ListOk(s.spaces[src].pages)
    ensures var (h, r) := Clone(s.heap, s.k, s.spaces[src]);
            && Kept(s.heap.mem, h.mem, s.spaces)
            && match r
               case Some(d) =>
                 && SomeFree(s.(heap := h, spaces := s.spaces + [d]), first, multiset{})
                 && |d.pages| == |s.spaces[src].pages| && Copied(h.mem, s.spaces[src].pages, d.pages, |d.pages|)
               case None => SomeFree(s.(heap := h), first, multiset{})
  {
    hide SysOk, Kept, ListOk, Copied, Create, CloneFrom, SomeFree;
    CreateOk(s, first, free);
    SpaceListed(s, first, free, multiset{}, src);
    ListPages(s.spaces[src].pages);
    var (g, r) := Create(s.heap, s.k);
    if r.Some? {
      var t := s.(heap := g, spaces := s.spaces + [r.value]);
      var n := |s.spaces|;
      StartCopy(t, first, n, src);
      CloneFromOk(t, first, n, src, 0);
      assert t.spaces[..n] == s.spaces && t.spaces[src] == s.spaces[src];
      KeptTrans(s.heap.mem, g.mem, Clone(s.heap, s.k, s.spaces[src]).0.mem, s.spaces);
    }
  }

  lemma StartCopy(t: Sys, first: nat, n: nat, src: nat)
    requires SomeFree(t, first, multiset{}) && n + 1 == |t.spaces| && src < n && t.spaces[n].pages == []
    ensures Copying(t, first, n, src, 0)
  {
    hide SysOk;
  }

  // ---------------------------------------------------------------- stores by user programs

  /** A one-byte store in user mode under `satp`: through the walk, and only if the walk allows it. */
  function UserStore(mem: Memory, satp: u64, va: u64, b: byte): (m: Memory) {
    var (t, r) := Translate(mem, satp, va, Store, true);
    if r.Pa? && InDram(r.addr / 4096 - DRAM_PPN) then
      var p := r.addr / 4096 - DRAM_PPN;
      t[p := t[p][r.addr % 4096 := b]]
    else t
  }

  /** What a user program of space `sp` reads at `va`: a byte, or nothing. */
  function UserByte(mem: Memory, sp: Space, va: u64): int {
    var pa := Meaning(sp, va, Load);
    if pa >= 0 && InDram(pa / 4096 - DRAM_PPN) then mem[pa / 4096 - DRAM_PPN][pa % 4096] else -1
  }

  /** The walk marked an entry of some table: the partition stands and every table keeps its meaning. */
  lemma MarkOk(s: Sys, first: nat, free: seq<nat>, p: nat, m: Memory)
    requires SysOk(s, first, free, multiset{}) && p < DRAM_PAGES && IsTable(s, p)
    requires TouchedOnly(s.heap.mem, m) && forall x :: 0 <= x < DRAM_PAGES && x != p ==> m[x] == s.heap.mem[x]
    ensures SysOk(s.(heap := s.heap.(mem := m)), first, free, multiset{})
  {
    hide HeapOk, KernelOk, AllUsed, KernelUsed, SpaceOk, TouchedOnly, IsTable;
    var used := KernelUsed(s.k) + AllUsed(s.spaces) + multiset{};
    TableUsed(s, p);
    WriteUsed(s.heap, first, free, used, p, m[p]);
    OnlyL0(s.heap.mem, m, p);
    MarkedKernel(s.heap.mem, m, s.k);
    forall j | 0 <= j < |s.spaces| ensures SpaceOk(m, s.k, s.spaces[j]) {
      MarkedSpace(s.heap.mem, m, s.k, s.spaces[j]);
    }
  }

  /** Tables are in use. */
  lemma TableUsed(s: Sys, p: nat)
    requires IsTable(s, p)
    ensures (KernelUsed(s.k) + AllUsed(s.spaces) + multiset{})[p] >= 1
  {
    hide AllUsed, PagesOf;
    if p !in [s.k.l2, s.k.l1Dram, s.k.l1Mmio] {
      var i :| 0 <= i < |s.spaces| && p in [s.spaces[i].root, s.spaces[i].l1, s.spaces[i].l0];
      AllUsedUpdate(s.spaces, i, s.spaces[i]);
      assert SpaceUsed(s.spaces[i])[p] >= 1;
    }
  }

  lemma MarkedKernel(mem: Memory, m: Memory, k: Kernel)
    requires KernelOk(mem, k) && TouchedOnly(mem, m)
    ensures KernelOk(m, k)
  {
    hide V, R, W, X, U, Ppn, Word, Pte, TouchedOnly;
    forall i | 0 <= i < 512
      ensures SamePte(Word(m[k.l2], i), Word(mem[k.l2], i)) && SamePte(Word(m[k.l1Mmio], i), Word(mem[k.l1Mmio], i))
           && SamePte(Word(m[k.l1Dram], i), Word(mem[k.l1Dram], i))
    {
      TouchedWord(mem, m, k.l2, i);
      TouchedWord(mem, m, k.l1Mmio, i);
      TouchedWord(mem, m, k.l1Dram, i);
    }
  }

  lemma MarkedSpace(mem: Memory, m: Memory, k: Kernel, sp: Space)
    requires SpaceOk(mem, k, sp) && TouchedOnly(mem, m)
    ensures SpaceOk(m, k, sp)
  {
    hide Tables, TouchedOnly, ListOk;
    TouchedTables(mem, m, k.l1Dram, sp);
  }

  lemma SpaceTables(s: Sys, first: nat, free: seq<nat>, i: nat)
    requires SysOk(s, first, free, multiset{}) && i < |s.spaces|
    ensures Tables(s.heap.mem, s.k.l1Dram, s.spaces[i]) && s.spaces[i].root < DRAM_PAGES && s.spaces[i].l0 < DRAM_PAGES
  {
    hide HeapOk, KernelOk, RootOk, L1Ok, L0Ok, DramOk;
    assert SpaceOk(s.heap.mem, s.k, s.spaces[i]);
  }

  /** Isolation: whatever a user program stores wherever, memory stays partitioned, the free list and every table keep
      their meaning, and no page of any other space changes. */
  lemma StoreIsolated(s: Sys, first: nat, free: seq<nat>, i: nat, va: u64, b: byte)
    requires SysOk(s, first, free, multiset{}) && i < |s.spaces|
    ensures s.spaces[i].root < DRAM_PAGES
    ensures var m := UserStore(s.heap.mem, Satp(s.spaces[i]), va, b);
            && SysOk(s.(heap := s.heap.(mem := m)), first, free, multiset{})
            && Kept(s.heap.mem, m, Others(s.spaces, i))
  {
    hide SysOk, Translate, Tables, Meaning, Kept, AllUsed, TouchedOnly, IsTable;
    SpaceTables(s, first, free, i);
    var sp := s.spaces[i];
    Agreement(s.heap.mem, s.k.l1Dram, sp, va, Store);
    var (t, r) := Translate(s.heap.mem, Satp(sp), va, Store, true);
    if Meaning(sp, va, Store) < 0 {
      assert s.heap.(mem := t) == s.heap;
      KeptSame(s.heap.mem, Others(s.spaces, i));
    } else {
      TranslateTouches(s.heap.mem, Satp(sp), va, Store, true);
      OnlyL0(s.heap.mem, t, sp.l0);
      SpaceTable(s, i);
      MarkOk(s, first, free, sp.l0, t);
      L0Kept(s, first, free, multiset{}, i, sp.l0, t[sp.l0]);
      var u := s.(heap := s.heap.(mem := t));
      SpaceListed(s, first, free, multiset{}, i);
      var k := MeaningPage(sp, va, Store);
      var q := t[sp.pages[k].page][r.addr % 4096 := b];
      WriteOwn(u, first, free, i, k, q);
      KeptTrans(s.heap.mem, t, t[sp.pages[k].page := q], Others(s.spaces, i));
    }
  }

  lemma SpaceTable(s: Sys, i: nat)
    requires i < |s.spaces|
    ensures IsTable(s, s.spaces[i].l0) && IsTable(s, s.spaces[i].l1) && IsTable(s, s.k.l1Dram) && IsTable(s, s.k.l1Mmio)
  {
    assert s.spaces[i].l0 in [s.spaces[i].root, s.spaces[i].l1, s.spaces[i].l0];
    assert s.spaces[i].l1 in [s.spaces[i].root, s.spaces[i].l1, s.spaces[i].l0];
  }

  lemma OnlyL0(mem: Memory, t: Memory, p: nat)
    requires p < DRAM_PAGES && forall x :: 0 <= x < DRAM_PAGES && x != p ==> t[x] == mem[x]
    ensures t == mem[p := t[p]]
  {
  }

  /** The mapping an allowed access goes through. */
  lemma MeaningPage(sp: Space, va: u64, t: Access) returns (k: nat)
    requires Meaning(sp, va, t) >= 0 && forall j :: 0 <= j < |sp.pages| ==> sp.pages[j].page < DRAM_PAGES
    ensures k < |sp.pages| && Allows(sp.pages[k].flags, t)
    ensures Meaning(sp, va, t) / 4096 - DRAM_PPN == sp.pages[k].page
  {
    var a := va % 0x80_0000_0000;
    k := Find(sp.pages, a - a % 4096, 0);
    assert (AddrOf(sp.pages[k].page) + a % 4096) / 4096 == DRAM_PPN + sp.pages[k].page;
  }

  /** So no other program can see the store. */
  lemma OthersUnaware(s: Sys, first: nat, free: seq<nat>, i: nat, va: u64, b: byte, j: nat, other: u64)
    requires SysOk(s, first, free, multiset{}) && i < |s.spaces| && j < |s.spaces| && i != j
    ensures s.spaces[i].root < DRAM_PAGES
    ensures UserByte(UserStore(s.heap.mem, Satp(s.spaces[i]), va, b), s.spaces[j], other)
         == UserByte(s.heap.mem, s.spaces[j], other)
  {
    hide SysOk, UserStore, Meaning, Kept;
    StoreIsolated(s, first, free, i, va, b);
    var m := UserStore(s.heap.mem, Satp(s.spaces[i]), va, b);
    var rest := Others(s.spaces, i);
    var x := if j < i then j else j - 1;
    assert rest[x] == s.spaces[j];
    KeptData(s.heap.mem, m, rest, x);
    SpaceListed(s, first, free, multiset{}, j);
    if Meaning(s.spaces[j], other, Load) >= 0 {
      var k := MeaningPage(s.spaces[j], other, Load);
    }
  }
}
