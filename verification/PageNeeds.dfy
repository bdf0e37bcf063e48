/** How many free pages fork and exec need: exactly when copying a space or loading a program succeeds. */
module PageNeeds {
  import opened Bytes
  import opened PhysMem
  import opened Mmu
  import opened PageAlloc
  import opened Spaces
  import opened SpaceOps
  import opened SpaceCopy
  import opened SpaceView
  import opened ElfLoad
  import opened InitStack
  import opened Programs

  // ---------------------------------------------------------------- one page

  /** `kalloc` succeeds exactly while the counter is not zero. */
  lemma KallocIff(h: Heap, first: nat, free: seq<nat>, used: multiset<nat>)
    requires HeapOk(h, first, free, used)
    ensures Kalloc(h).1 >= 0 <==> h.totalFree > 0
    ensures h.totalFree >= 0
  {
    hide Chain, Kalloc;
    KallocOk(h, first, free, used);
  }

  /** `create_empty_space` succeeds exactly when three pages are free. */
  lemma CreateIff(s: Sys, first: nat, free: seq<nat>)
    requires SysOk(s, first, free, multiset{})
    ensures s.k.l2 < DRAM_PAGES && s.k.l1Mmio < DRAM_PAGES
    ensures Create(s.heap, s.k).1.Some? <==> s.heap.totalFree >= 3
  {
    hide HeapOk, KernelOk, SpaceOk, AllUsed, KernelUsed, Kalloc, FillTables, FreeThree;
    KernelInDram(s, first, free, multiset{});
    var used := KernelUsed(s.k) + AllUsed(s.spaces) + multiset{};
    KallocIff(s.heap, first, free, used);
    KallocOk(s.heap, first, free, used);
    var (h1, root) := Kalloc(s.heap);
    if root >= 0 {
      KallocIff(h1, first, Rest(free), used + multiset{root});
      KallocOk(h1, first, Rest(free), used + multiset{root});
      var (h2, l1) := Kalloc(h1);
      if l1 >= 0 {
        KallocIff(h2, first, Rest(Rest(free)), used + multiset{root} + multiset{l1});
        KallocOk(h2, first, Rest(Rest(free)), used + multiset{root} + multiset{l1});
      }
    }
  }

  /** `map_user_page` succeeds exactly for an address of the user range that is mapped already, or for a new page when the list
      has room and a page is free. */
  lemma MapIff(s: Sys, first: nat, free: seq<nat>, i: nat, va: int, flags: Flags)
    requires SysOk(s, first, free, multiset{}) && i < |s.spaces| && InMemory(s.spaces[i])
    ensures var pages := s.spaces[i].pages;
            Map(s.heap, s.spaces[i], va, flags).2 >= 0 <==>
              0x10000 <= va < 0x20_0000 && va % 4096 == 0 && (Find(pages, va, 0) < |pages| || (|pages| < 64 && s.heap.totalFree > 0))
  {
    hide HeapOk, KernelOk, SpaceOk, AllUsed, KernelUsed, Kalloc, Find, InMemory, SetWord, Pte;
    var used := KernelUsed(s.k) + AllUsed(s.spaces) + multiset{};
    KallocIff(s.heap, first, free, used);
    KallocOk(s.heap, first, free, used);
  }

  // ---------------------------------------------------------------- spaces under construction

  /** What is free while a space is built: what was free before, less its tables and its pages. */
  lemma BuiltFree(s: Sys, first: nat, h: Heap, sp: Space)
    requires SomeFree(s, first, multiset{}) && Built(s, first, h, sp)
    ensures h.totalFree == s.heap.totalFree - 3 - |sp.pages| && h.totalFree >= 0 && |sp.pages| <= USER_MAX_PAGES
  {
    hide SysOk, Kept, SpacePageCount;
    var t := Sys(h, s.k, s.spaces + [sp]);
    Conserved(s, first);
    Conserved(t, first);
    CountMore(s.spaces, sp);
    NeverNegative(t, first);
    BuiltSpace(s, first, h, sp);
  }

  lemma CountMore(spaces: seq<Space>, sp: Space)
    ensures SpacePageCount(spaces + [sp]) == SpacePageCount(spaces) + 3 + |sp.pages|
  {
    assert (spaces + [sp])[..|spaces|] == spaces;
  }

  lemma NeverNegative(s: Sys, first: nat)
    requires SomeFree(s, first, multiset{})
    ensures s.heap.totalFree >= 0
  {
    hide KernelOk, SpaceOk, AllUsed, KernelUsed, Chain;
    var free: seq<nat> :| SysOk(s, first, free, multiset{});
  }

  /** How many pages a new space may have: as many as its list holds and as are free beside its tables. */
  function Capacity(s: Sys): int {
    if s.heap.totalFree - 3 < USER_MAX_PAGES then s.heap.totalFree - 3 else USER_MAX_PAGES
  }

  /** The page addresses of a list. */
  function Vas(pages: seq<Mapping>): set<int> {
    set j | 0 <= j < |pages| :: pages[j].va
  }

  lemma {:induction false} VasCount(pages: seq<Mapping>)
    requires forall i, j :: 0 <= i < j < |pages| ==> pages[i].va != pages[j].va
    ensures |Vas(pages)| == |pages|
  {
    if pages != [] {
      var n := |pages| - 1;
      VasCount(pages[..n]);
      assert Vas(pages) == Vas(pages[..n]) + {pages[n].va};
    }
  }

  lemma VasFind(pages: seq<Mapping>, va: int)
    requires va >= 0
    ensures va in Vas(pages) <==> Find(pages, va, 0) < |pages|
  {
    hide Find;
    var k := Find(pages, va, 0);
    if k < |pages| {
      assert pages[k].va == va;
    }
  }

  /** Mapping one page of a space under construction. */
  lemma BuildMapIff(s: Sys, first: nat, h: Heap, sp: Space, va: int, flags: Flags)
    requires SomeFree(s, first, multiset{}) && Built(s, first, h, sp) && Mappable(va)
    ensures InMemory(sp)
    ensures var (g, d, status) := Map(h, sp, va, flags);
            && (status >= 0 <==> |Vas(sp.pages) + {va}| <= Capacity(s))
            && (status >= 0 ==> Built(s, first, g, d) && Vas(d.pages) == Vas(sp.pages) + {va})
  {
    hide SysOk, Kept, Map, Find, Vas, MappedList;
    BuiltSpace(s, first, h, sp);
    BuildMap(s, first, h, sp, va, flags);
    var t := Sys(h, s.k, s.spaces + [sp]);
    var free: seq<nat> :| SysOk(t, first, free, multiset{});
    assert t.spaces[|s.spaces|] == sp;
    MapIff(t, first, free, |s.spaces|, va, flags);
    BuiltFree(s, first, h, sp);
    VasCount(sp.pages);
    VasFind(sp.pages, va);
    if va in Vas(sp.pages) {
      assert Vas(sp.pages) + {va} == Vas(sp.pages);
    }
    var (g, d, status) := Map(h, sp, va, flags);
    if status >= 0 {
      MappedVas(sp.pages, va, flags, g.mem, d.pages);
    }
  }

  lemma MappedVas(pages: seq<Mapping>, va: int, flags: Flags, mem: Memory, after: seq<Mapping>)
    requires MappedList(pages, va, flags, mem, after)
    ensures Vas(after) == Vas(pages) + {va}
  {
    hide Find;
    var k := Find(pages, va, 0);
    if k < |pages| {
      forall x ensures x in Vas(after) <==> x in Vas(pages) + {va} {
        if x in Vas(pages) {
          var j :| 0 <= j < |pages| && pages[j].va == x;
          assert after[j].va == x;
        }
        if x in Vas(after) {
          var j :| 0 <= j < |after| && after[j].va == x;
          assert pages[j].va == x;
        }
        assert pages[k].va == va;
      }
    } else {
      forall x ensures x in Vas(after) <==> x in Vas(pages) + {va} {
        if x in Vas(pages) {
          var j :| 0 <= j < |pages| && pages[j].va == x;
          assert after[..|pages|][j].va == x;
        }
        if x in Vas(after) {
          var j :| 0 <= j < |after| && after[j].va == x;
          assert j < |pages| ==> after[..|pages|][j].va == x;
        }
        assert after[|pages|].va == va;
      }
    }
  }

  /** The page addresses from `lo` up to `hi`. */
  function PageRange(lo: int, hi: int): set<int> {
    set q | lo <= q < hi && q % 4096 == 0
  }

  /** Mapping a run of pages succeeds exactly when all of them fit. */
  lemma {:induction false} MapRangeIff(s: Sys, first: nat, h: Heap, sp: Space, va: nat, end: nat, flags: Flags)
    requires SomeFree(s, first, multiset{}) && Built(s, first, h, sp)
    requires USER_MIN_VA <= va && va % 4096 == 0 && end % 4096 == 0 && end <= USER_STACK_TOP
    ensures InMemory(sp)
    ensures var (g, d, status) := MapRange(h, sp, va, end, flags);
            && (status >= 0 <==> |Vas(sp.pages) + PageRange(va, end)| <= Capacity(s))
            && (status >= 0 ==> Vas(d.pages) == Vas(sp.pages) + PageRange(va, end))
    decreases end - va
  {
    hide Built, Map, Vas, Capacity, SomeFree, PageRange;
    BuiltSpace(s, first, h, sp);
    RangeStep(va, end);
    if va >= end {
      assert Vas(sp.pages) + PageRange(va, end) == Vas(sp.pages);
      AlreadyFits(s, first, h, sp);
    } else {
      BuildMapIff(s, first, h, sp, va, flags);
      var (g, d, status) := Map(h, sp, va, flags);
      var all := Vas(sp.pages) + PageRange(va, end);
      assert all == Vas(sp.pages) + {va} + PageRange(va + 4096, end);
      if status >= 0 {
        MapRangeIff(s, first, g, d, va + 4096, end, flags);
      } else {
        Bigger(Vas(sp.pages) + {va}, all);
      }
    }
  }

  lemma RangeStep(va: nat, end: nat)
    requires va % 4096 == 0 && end % 4096 == 0
    ensures va >= end ==> PageRange(va, end) == {}
    ensures va < end ==> PageRange(va, end) == {va as int} + PageRange(va + 4096, end)
  {
    if va < end {
      forall q ensures q in PageRange(va, end) <==> q in {va as int} + PageRange(va + 4096, end) {
        if va < q < va + 4096 {
          Between(va, q);
        }
      }
    }
  }

  lemma Between(va: nat, q: int)
    requires va % 4096 == 0 && va < q < va + 4096
    ensures q % 4096 != 0
  {
  }

  lemma Bigger<A>(a: set<A>, b: set<A>)
    requires a <= b
    ensures |a| <= |b|
  {
    assert b == a + (b - a);
  }

  /** Every space under construction is within its capacity. */
  lemma AlreadyFits(s: Sys, first: nat, h: Heap, sp: Space)
    requires SomeFree(s, first, multiset{}) && Built(s, first, h, sp)
    ensures |Vas(sp.pages)| <= Capacity(s)
  {
    hide Built, SomeFree, Vas;
    BuiltFree(s, first, h, sp);
    BuiltSpace(s, first, h, sp);
    VasCount(sp.pages);
  }

  // ---------------------------------------------------------------- programs

  /** The pages a segment reaches into. */
  function SegmentPages(seg: Segment): set<int> {
    PageRange(PageVa(seg.vaddr), RoundUp(seg.vaddr + seg.memsz))
  }

  /** The pages of all segments. */
  function Needs(segs: seq<Segment>): set<int> {
    if segs == [] then {} else SegmentPages(segs[0]) + Needs(segs[1..])
  }

  lemma LoadSegmentIff(s: Sys, first: nat, h: Heap, sp: Space, f: seq<byte>, seg: Segment)
    requires SomeFree(s, first, multiset{}) && Built(s, first, h, sp) && SegmentOk(seg, |f|)
    ensures InMemory(sp)
    ensures var (g, d, status) := LoadSegment(h, sp, f, seg);
            && (status >= 0 <==> |Vas(sp.pages) + SegmentPages(seg)| <= Capacity(s))
            && (status >= 0 ==> Vas(d.pages) == Vas(sp.pages) + SegmentPages(seg))
  {
    hide Built, MapRange, CopySegment, Vas, Capacity, SomeFree, PageRange, PageVa, RoundUp, Covered;
    var lo, hi := PageVa(seg.vaddr), RoundUp(seg.vaddr + seg.memsz);
    SegmentRange(seg, |f|);
    MapRangeOk(s, first, h, sp, lo, hi, seg.flags);
    MapRangeIff(s, first, h, sp, lo, hi, seg.flags);
    var (g, d, status) := MapRange(h, sp, lo, hi, seg.flags);
    if status >= 0 {
      BuiltSpace(s, first, g, d);
      SegmentCovered(s, first, h, sp, seg, |f|);
      CopySegmentView(g.mem, d.pages, f, seg, 0, 0);
    }
  }

  lemma SegmentRange(seg: Segment, size: nat)
    requires SegmentOk(seg, size)
    ensures var lo, hi := PageVa(seg.vaddr), RoundUp(seg.vaddr + seg.memsz);
            USER_MIN_VA <= lo && lo % 4096 == 0 && hi % 4096 == 0 && hi <= USER_STACK_BOTTOM
  {
    PageVaAligned(seg.vaddr);
    PageVaAligned(seg.vaddr + seg.memsz + 4095);
  }

  /** Every program header from number `i` on can be read and is acceptable. */
  predicate HeadersOk(f: seq<byte>, phoff: nat, n: nat, i: nat) {
    forall j :: i <= j < n ==> ReadSegment(f, phoff + 56 * j) != Bad
  }

  lemma {:induction false} LoadSegmentsIff(s: Sys, first: nat, h: Heap, sp: Space, f: seq<byte>, phoff: nat, n: nat, i: nat)
    requires SomeFree(s, first, multiset{}) && Built(s, first, h, sp) && i <= n
    ensures InMemory(sp)
    ensures var (g, d, status) := LoadSegments(h, sp, f, phoff, n, i);
            var all := Vas(sp.pages) + Needs(SegmentsFrom(f, phoff, n, i));
            && (status >= 0 <==> HeadersOk(f, phoff, n, i) && |all| <= Capacity(s))
            && (status >= 0 ==> Vas(d.pages) == all)
    decreases n - i
  {
    hide Built, LoadSegment, ReadSegment, SegmentOk, Vas, Capacity, SomeFree, SegmentPages;
    BuiltSpace(s, first, h, sp);
    var segs := SegmentsFrom(f, phoff, n, i);
    var all := Vas(sp.pages) + Needs(segs);
    if i == n {
      assert all == Vas(sp.pages);
      AlreadyFits(s, first, h, sp);
    } else {
      ReadOk(f, phoff + 56 * i);
      HeadersStep(f, phoff, n, i);
      match ReadSegment(f, phoff + 56 * i)
      case Skip => LoadSegmentsIff(s, first, h, sp, f, phoff, n, i + 1);
      case Bad =>
      case Loadable(seg) =>
        LoadSegmentOk(s, first, h, sp, f, seg);
        LoadSegmentIff(s, first, h, sp, f, seg);
        var (g, d, status) := LoadSegment(h, sp, f, seg);
        NeedsFirst(seg, SegmentsFrom(f, phoff, n, i + 1));
        assert all == Vas(sp.pages) + SegmentPages(seg) + Needs(SegmentsFrom(f, phoff, n, i + 1));
        if status >= 0 {
          LoadSegmentsIff(s, first, g, d, f, phoff, n, i + 1);
        } else {
          Bigger(Vas(sp.pages) + SegmentPages(seg), all);
        }
    }
  }

  lemma HeadersStep(f: seq<byte>, phoff: nat, n: nat, i: nat)
    requires i < n
    ensures HeadersOk(f, phoff, n, i) <==> ReadSegment(f, phoff + 56 * i) != Bad && HeadersOk(f, phoff, n, i + 1)
  {
    hide ReadSegment;
  }

  lemma NeedsFirst(seg: Segment, rest: seq<Segment>)
    ensures Needs([seg] + rest) == SegmentPages(seg) + Needs(rest)
  {
    hide SegmentPages;
    assert ([seg] + rest)[1..] == rest;
  }

  /** Before the call: `load_elf` will succeed. The file is an acceptable executable whose entry lies on an executable page, and
      its pages with those of the stack fit the list and, with three tables, the free pages. */
  ghost predicate CanLoad(s: Sys, p: Program) {
    var f := p.bytes;
    && p.exec && |f| >= 64 && HeaderOk(f) && HeadersOk(f, U64At(f, 32), U16At(f, 56), 0) && Perms(Segments(f), U64At(f, 24)).x
    && |Needs(Segments(f)) + PageRange(USER_STACK_BOTTOM, USER_STACK_TOP)| <= Capacity(s)
  }

  lemma FinishIff(s: Sys, first: nat, h: Heap, sp: Space, entry: nat)
    requires SomeFree(s, first, multiset{}) && Built(s, first, h, sp)
    ensures InMemory(sp)
    ensures FinishLoad(h, sp, entry).2 >= 0
       <==> PermIn(sp.pages, PageVa(entry)).x && |Vas(sp.pages) + PageRange(USER_STACK_BOTTOM, USER_STACK_TOP)| <= Capacity(s)
  {
    hide Built, MapRange, Vas, Capacity, SomeFree, PageRange, PermIn;
    BuiltSpace(s, first, h, sp);
    MapRangeIff(s, first, h, sp, USER_STACK_BOTTOM, USER_STACK_TOP, Flags(true, true, false));
  }

  /** `load_elf` succeeds exactly when that can be said beforehand. */
  lemma LoadIff(s: Sys, first: nat, free: seq<nat>, p: Program)
    requires SysOk(s, first, free, multiset{})
    ensures s.k.l2 < DRAM_PAGES && s.k.l1Mmio < DRAM_PAGES
    ensures LoadElf(s.heap, s.k, p).1.Some? <==> CanLoad(s, p)
  {
    hide SysOk, Built, Create, LoadSegments, FinishLoad, Destroy, SomeFree, Kept, HeaderOk, HeadersOk, SegmentsFrom, Perms, Needs, PageRange,
         Capacity, Vas, PermIn;
    Witness(s, first, free, multiset{});
    BuildStart(s, first, free);
    CreateIff(s, first, free);
    if p.exec && |p.bytes| >= 64 && HeaderOk(p.bytes) {
      var f := p.bytes;
      var entry := U64At(f, 24);
      var all := Needs(Segments(f)) + PageRange(USER_STACK_BOTTOM, USER_STACK_TOP);
      var (g, created) := Create(s.heap, s.k);
      if created.Some? {
        var sp := created.value;
        BuiltSpace(s, first, g, sp);
        LoadSegmentsOk(s, first, g, sp, f, U64At(f, 32), U16At(f, 56), 0);
        LoadSegmentsIff(s, first, g, sp, f, U64At(f, 32), U16At(f, 56), 0);
        NoPages(sp.pages, Needs(Segments(f)));
        var (a, d, status) := LoadSegments(g, sp, f, U64At(f, 32), U16At(f, 56), 0);
        if status >= 0 {
          FinishIff(s, first, a, d, entry);
          EntryPerm(s, first, g, sp, f, entry);
        } else {
          Bigger(Needs(Segments(f)), all);
        }
      } else {
        TooFew(s, all);
      }
    }
  }

  lemma NoPages(pages: seq<Mapping>, more: set<int>)
    requires pages == []
    ensures Vas(pages) + more == more
  {
  }

  /** Fewer than three free pages hold no program. */
  lemma TooFew(s: Sys, all: set<int>)
    requires s.heap.totalFree < 3
    ensures |all| > Capacity(s)
  {
  }

  lemma EntryPerm(s: Sys, first: nat, g: Heap, sp: Space, f: seq<byte>, x: nat)
    requires Built(s, first, g, sp) && sp.pages == [] && |f| >= 64 && InMemory(sp)
    requires LoadSegments(g, sp, f, U64At(f, 32), U16At(f, 56), 0).2 >= 0
    ensures var (a, d, _) := LoadSegments(g, sp, f, U64At(f, 32), U16At(f, 56), 0);
            PermIn(d.pages, PageVa(x)) == Perms(Segments(f), x)
  {
    hide Built, LoadSegments, LoadedAt, SegmentsFrom, PermIn, Perms;
    EmptyLoaded(g.mem, f, x);
    LoadSegmentsView(s, first, g, sp, f, U64At(f, 32), U16At(f, 56), 0, [], x);
    assert [] + Segments(f) == Segments(f);
    var (a, d, _) := LoadSegments(g, sp, f, U64At(f, 32), U16At(f, 56), 0);
    LoadedPerm(a.mem, d.pages, f, Segments(f), x);
  }

  /** `prepare_program` succeeds exactly when the program can be loaded and its strings fit. */
  lemma PrepareIff(s: Sys, first: nat, free: seq<nat>, p: Program, argv: seq<seq<byte>>, envp: seq<seq<byte>>)
    requires SysOk(s, first, free, multiset{})
    ensures KernelInRange(s.k)
    ensures Prepare(s.heap, s.k, p, argv, envp).1.Some? <==> CanLoad(s, p) && Fits(argv, envp)
  {
    hide SysOk, Built, LoadElf, BuildStack, Destroy, SomeFree, Kept, IsLoaded, Stacked, CanLoad, Fits;
    LoadElfOk(s, first, free, p);
    LoadIff(s, first, free, p);
    var (g, loaded) := LoadElf(s.heap, s.k, p);
    if loaded.Some? {
      var sp := loaded.value;
      BuiltSpace(s, first, g, sp);
      StackedSpace(s, first, g, sp, p.bytes);
      BuildStackOk(g.mem, sp.pages, argv, envp);
      ExecBit(s.heap, s.k, p);
      var (m, top) := BuildStack(g.mem, sp.pages, argv, envp);
      assert top.Some? == Fits(argv, envp);
    }
  }

  // ---------------------------------------------------------------- copies

  /** With pages enough for the rest, copying goes through. */
  lemma {:induction false} CloneFromIff(s: Sys, first: nat, n: nat, src: nat, i: nat)
    requires Copying(s, first, n, src, i) && i <= |s.spaces[src].pages| && s.heap.totalFree >= |s.spaces[src].pages| - i
    ensures s.spaces[n].l0 < DRAM_PAGES && ListOk(s.spaces[n].pages) && ListOk(s.spaces[src].pages)
    ensures CloneFrom(s.heap, s.spaces[n], s.spaces[src].pages, i).1.Some?
    decreases |s.spaces[src].pages| - i
  {
    hide SysOk, Map, Kept, Find, Copied, Destroy, AllUsed;
    var free: seq<nat> :| SysOk(s, first, free, multiset{});
    SpaceListed(s, first, free, multiset{}, n);
    SpaceListed(s, first, free, multiset{}, src);
    if i < |s.spaces[src].pages| {
      var m := s.spaces[src].pages[i];
      CopyRound(s, first, n, src, i);
      MapIff(s, first, free, n, m.va, m.flags);
      var (g, d, status) := Map(s.heap, s.spaces[n], m.va, m.flags);
      var h := WritePage(g, d.pages[i].page, g.mem[m.page]);
      var t := Sys(h, s.k, s.spaces[..n] + [d]);
      assert s.spaces[..n] + [s.spaces[n]] == s.spaces;
      MapEnd(s.heap, s.spaces[n], m.va, m.flags);
      SpentOne(s, t, first, s.spaces[..n], s.spaces[n], d);
      assert t.spaces[src] == s.spaces[src];
      CloneFromIff(t, first, n, src, i + 1);
    }
  }

  lemma SpentOne(s: Sys, t: Sys, first: nat, rest: seq<Space>, a: Space, b: Space)
    requires SomeFree(s, first, multiset{}) && SomeFree(t, first, multiset{}) && s.spaces == rest + [a] && t.spaces == rest + [b]
    requires t.heap.end == s.heap.end && |b.pages| == |a.pages| + 1
    ensures t.heap.totalFree == s.heap.totalFree - 1
  {
    hide SomeFree, SpacePageCount;
    Conserved(s, first);
    Conserved(t, first);
    CountMore(rest, a);
    CountMore(rest, b);
  }

  /** `user_space_clone` succeeds exactly when three tables and as many pages as the source has are free. */
  lemma CloneIff(s: Sys, first: nat, src: nat)
    requires SomeFree(s, first, multiset{}) && src < |s.spaces|
    ensures KernelInRange(s.k) && InMemory(s.spaces[src])
    ensures Clone(s.heap, s.k, s.spaces[src]).1.Some? <==> s.heap.totalFree >= 3 + |s.spaces[src].pages|
  {
    hide SysOk, Clone, Kept, Copied, Create, CloneFrom, Built;
    CopyOk(s, first, src);
    var free: seq<nat> :| SysOk(s, first, free, multiset{});
    var (h, r) := Clone(s.heap, s.k, s.spaces[src]);
    if r.Some? {
      BuiltFree(s, first, h, r.value);
    } else if s.heap.totalFree >= 3 + |s.spaces[src].pages| {
      CreateIff(s, first, free);
      BuildStart(s, first, free);
      CloneGoes(s, first, free, src);
    }
  }

  lemma CloneGoes(s: Sys, first: nat, free: seq<nat>, src: nat)
    requires SysOk(s, first, free, multiset{}) && src < |s.spaces| && KernelInRange(s.k) && InMemory(s.spaces[src])
    requires s.heap.totalFree >= 3 + |s.spaces[src].pages| && Create(s.heap, s.k).1.Some?
    ensures Clone(s.heap, s.k, s.spaces[src]).1.Some?
  {
    hide SysOk, Kept, Copied, Create, CloneFrom, SomeFree, Built;
    BuildStart(s, first, free);
    Witness(s, first, free, multiset{});
    var (g, r) := Create(s.heap, s.k);
    var d := r.value;
    BuiltFree(s, first, g, d);
    BuiltSpace(s, first, g, d);
    var t := s.(heap := g, spaces := s.spaces + [d]);
    var n := |s.spaces|;
    BuiltParts(s, first, g, d);
    StartCopy(t, first, n, src);
    assert t.spaces[n] == d && t.spaces[src] == s.spaces[src];
    CloneFromIff(t, first, n, src, 0);
  }

  lemma BuiltParts(s: Sys, first: nat, h: Heap, sp: Space)
    requires Built(s, first, h, sp)
    ensures SomeFree(s.(heap := h, spaces := s.spaces + [sp]), first, multiset{})
  {
    hide SysOk, Kept;
  }
}
