/** What fork and exec do to one address space: a loaded program with its arguments on the stack, a copy, a replacement. */
module Programs {
  import opened Bytes
  import opened PhysMem
  import opened Mmu
  import opened PageAlloc
  import opened Spaces
  import opened SpaceOps
  import opened SpaceCopy
  import opened SpaceView
  import opened ElfLoad
  import opened InitStack

  /** A program ready to run: its space and the registers it starts with. */
  datatype Loaded = Loaded(space: Space, entry: nat, sp: nat, argc: nat, argvAt: nat, envpAt: nat)

  /** The end of `prepare_program`: the initial stack of a program loaded with entry point `entry`. */
  function WithStack(g: Heap, loaded: Option<Space>, entry: nat, argv: seq<seq<byte>>, envp: seq<seq<byte>>): (r: (Heap, Option<Loaded>))
    ensures r.1.Some? ==> InMemory(r.1.value.space)
  {
    if loaded.None? || !InMemory(loaded.value) then (g, None)
    else
      var (m, sp) := BuildStack(g.mem, loaded.value.pages, argv, envp);
      var h := g.(mem := m);
      if sp.None? then (Destroy(h, loaded.value), None)
      else (h, Some(Loaded(loaded.value, entry, sp.value, |argv|, sp.value + 8, sp.value + 8 + 8 * (|argv| + 1))))
  }

  /** The entry point in the header of a file. */
  function EntryOf(f: seq<byte>): nat {
    if |f| >= 64 then U64At(f, 24) else 0
  }

  /** A loaded program with its initial stack, or nothing. */
  function Prepare(h: Heap, k: Kernel, p: Program, argv: seq<seq<byte>>, envp: seq<seq<byte>>): (r: (Heap, Option<Loaded>))
    requires KernelInRange(k)
    ensures r.1.Some? ==> InMemory(r.1.value.space)
  {
    var (g, loaded) := LoadElf(h, k, p);
    WithStack(g, loaded, EntryOf(p.bytes), argv, envp)
  }

  predicate KernelInRange(k: Kernel) {
    k.l2 < DRAM_PAGES && k.l1Mmio < DRAM_PAGES
  }

  // ---------------------------------------------------------------- loading

  lemma StackedSpace(s: Sys, first: nat, h: Heap, sp: Space, f: seq<byte>)
    requires Built(s, first, h, sp) && IsLoaded(h.mem, sp, f)
    ensures Stacked(sp.pages)
  {
    hide Built, HeaderOk, ByteIn, PermIn, HasPage, LoadedAt, SegmentsFrom;
    BuiltSpace(s, first, h, sp);
    forall x | USER_STACK_BOTTOM <= x < USER_STACK_TOP ensures HasPage(sp.pages, x) {
      assert ProgramAt(h.mem, sp.pages, f, Segments(f), x);
    }
  }

  /** Whatever `build_initial_stack` copies where, the construction goes on. */
  lemma {:induction false} PushBuilt(s: Sys, first: nat, h: Heap, sp: Space, top: int, strs: seq<seq<byte>>)
    requires Built(s, first, h, sp)
    ensures Built(s, first, h.(mem := PushMem(h.mem, sp.pages, top, strs).0), sp)
    decreases |strs|
  {
    hide Built, CopyTo;
    assert h.(mem := h.mem) == h;
    if strs != [] {
      var n := |strs| - 1;
      var a := top - |strs[n]| - 1;
      if 0 <= a < 0x1_0000_0000_0000_0000 {
        BuildCopy(s, first, h, sp, a, strs[n] + [0]);
        var (m, status) := CopyTo(h.mem, sp.pages, a, strs[n] + [0]);
        if status >= 0 {
          PushBuilt(s, first, h.(mem := m), sp, a, strs[..n]);
        }
      }
    }
  }

  lemma {:induction false} WordsBuilt(s: Sys, first: nat, h: Heap, sp: Space, at: int, blocks: seq<seq<u64>>)
    requires Built(s, first, h, sp)
    ensures Built(s, first, h.(mem := CopyWords(h.mem, sp.pages, at, blocks).0), sp)
    decreases |blocks|
  {
    hide Built, CopyTo, WordsBytes;
    assert h.(mem := h.mem) == h;
    if blocks != [] && at >= 0 {
      BuildCopy(s, first, h, sp, at, WordsBytes(blocks[0]));
      var (m, status) := CopyTo(h.mem, sp.pages, at, WordsBytes(blocks[0]));
      if status >= 0 {
        WordsBuilt(s, first, h.(mem := m), sp, at + 8 * |blocks[0]|, blocks[1..]);
      }
    }
  }

  lemma StackBuilt(s: Sys, first: nat, h: Heap, sp: Space, argv: seq<seq<byte>>, envp: seq<seq<byte>>)
    requires Built(s, first, h, sp)
    ensures Built(s, first, h.(mem := BuildStack(h.mem, sp.pages, argv, envp).0), sp)
  {
    hide Built, PushMem, CopyWords, Fits;
    assert h.(mem := h.mem) == h;
    if Fits(argv, envp) {
      PushBuilt(s, first, h, sp, USER_STACK_TOP, envp);
      var (m1, t1, envAt, e1) := PushMem(h.mem, sp.pages, USER_STACK_TOP, envp);
      if e1 >= 0 {
        PushBuilt(s, first, h.(mem := m1), sp, t1, argv);
        var (m2, t2, argAt, e2) := PushMem(m1, sp.pages, t1, argv);
        if e2 >= 0 && t2 >= 0 && |argAt| <= ARG_MAX {
          WordsBuilt(s, first, h.(mem := m2), sp, BlockStart(t2, |Metadata(argAt, envAt)|), [[|argAt|], argAt, [0], envAt, [0]]);
        }
      }
    }
  }

  /** What a prepared program finds: its segments below the stack, on the stack its arguments, and the pointer to them. */
  ghost predicate Prepared(mem: Memory, l: Loaded, p: Program, argv: seq<seq<byte>>, envp: seq<seq<byte>>) {
    && p.exec && |p.bytes| >= 64 && HeaderOk(p.bytes) && Fits(argv, envp)
    && (forall x: nat :: !(USER_STACK_BOTTOM <= x < USER_STACK_TOP) ==>
          ProgramAt(mem, l.space.pages, p.bytes, Segments(p.bytes), x))
    && l.entry == U64At(p.bytes, 24) && Perms(Segments(p.bytes), l.entry).x
    && (StackView(mem, l.space.pages), l.sp) == Build(Zeros(STACK_SIZE), argv, envp)
    && l.argc == |argv| && l.argvAt == l.sp + 8 && l.envpAt == l.argvAt + 8 * (l.argc + 1)
  }

  /** C strings have no byte 0 inside. */
  predicate CStrings(strs: seq<seq<byte>>) {
    forall i :: 0 <= i < |strs| ==> 0 !in strs[i]
  }

  /** `_start` of a prepared program: it finds exactly the arguments and the environment that were passed, and the registers it
      is given are the ones it computes from its stack pointer. */
  lemma StartSees(mem: Memory, l: Loaded, p: Program, argv: seq<seq<byte>>, envp: seq<seq<byte>>)
    requires Prepared(mem, l, p, argv, envp) && CStrings(argv) && CStrings(envp)
    ensures var st := StackView(mem, l.space.pages);
            && Decode(st, l.sp) == Arguments(|argv|, argv, envp)
            && l.argc == WordAt(st, l.sp) && l.argvAt == l.sp + 8 && l.envpAt == l.argvAt + 8 * WordAt(st, l.sp) + 8
            && l.sp % 16 == 0 && USER_STACK_BOTTOM < l.sp < USER_STACK_TOP
  {
    hide Build, StackView, SegmentsFrom, HeaderOk, Perms, StringsAt, VectorLength, WordAt;
    StackRoundTrip(Zeros(STACK_SIZE), argv, envp);
  }

  /** `prepare_program`: a program ready to run, or as many free pages as before; no space changes either way. */
  lemma PrepareOk(s: Sys, first: nat, free: seq<nat>, p: Program, argv: seq<seq<byte>>, envp: seq<seq<byte>>)
    requires SysOk(s, first, free, multiset{})
    ensures KernelInRange(s.k)
    ensures var (h, r) := Prepare(s.heap, s.k, p, argv, envp);
            match r
            case Some(l) => Built(s, first, h, l.space) && Prepared(h.mem, l, p, argv, envp)
            case None => SomeFree(s.(heap := h), first, multiset{}) && Kept(s.heap.mem, h.mem, s.spaces)
                         && h.end == s.heap.end && h.totalFree == s.heap.totalFree
  {
    hide SysOk, Built, LoadElf, BuildStack, Destroy, SomeFree, Kept, IsLoaded, Stacked, Prepared;
    LoadElfOk(s, first, free, p);
    var (g, loaded) := LoadElf(s.heap, s.k, p);
    if loaded.Some? {
      var sp := loaded.value;
      BuiltSpace(s, first, g, sp);
      StackedSpace(s, first, g, sp, p.bytes);
      StackBuilt(s, first, g, sp, argv, envp);
      BuildStackOk(g.mem, sp.pages, argv, envp);
      ExecBit(s.heap, s.k, p);
      var h := g.(mem := BuildStack(g.mem, sp.pages, argv, envp).0);
      if Fits(argv, envp) {
        PreparedIs(s, first, g, h, Prepare(s.heap, s.k, p, argv, envp).1.value, p, argv, envp);
      } else {
        Witness(s, first, free, multiset{});
        BuildDestroy(s, first, h, sp);
      }
    }
  }

  lemma ExecBit(h: Heap, k: Kernel, p: Program)
    requires KernelInRange(k) && LoadElf(h, k, p).1.Some?
    ensures p.exec && |p.bytes| >= 64 && HeaderOk(p.bytes)
  {
    hide HeaderOk, Create, LoadSegments, FinishLoad, Destroy;
  }

  lemma PreparedIs(s: Sys, first: nat, g: Heap, h: Heap, l: Loaded, p: Program, argv: seq<seq<byte>>, envp: seq<seq<byte>>)
    requires KernelInRange(s.k) && LoadElf(s.heap, s.k, p) == (g, Some(l.space)) && IsLoaded(g.mem, l.space, p.bytes)
    requires Fits(argv, envp) && |p.bytes| >= 64 && l.entry == U64At(p.bytes, 24)
    requires l.argc == |argv| && l.argvAt == l.sp + 8 && l.envpAt == l.argvAt + 8 * (l.argc + 1)
    requires BelowKept(g.mem, h.mem, l.space.pages)
    requires (StackView(h.mem, l.space.pages), l.sp) == Build(StackView(g.mem, l.space.pages), argv, envp)
    ensures Prepared(h.mem, l, p, argv, envp)
  {
    hide LoadElf, HeaderOk, Fits, Build, ByteIn, HasPage, PermIn, SegmentsFrom, Perms, InSegments, Expect, StackView;
    ExecBit(s.heap, s.k, p);
    var sp, segs := l.space, Segments(p.bytes);
    forall x: nat | !(USER_STACK_BOTTOM <= x < USER_STACK_TOP) ensures ProgramAt(h.mem, sp.pages, p.bytes, segs, x) {
      assert ProgramAt(g.mem, sp.pages, p.bytes, segs, x);
    }
    FreshStack(g.mem, sp, p.bytes);
  }

  lemma FreshStack(mem: Memory, sp: Space, f: seq<byte>)
    requires IsLoaded(mem, sp, f)
    ensures StackView(mem, sp.pages) == Zeros(STACK_SIZE)
  {
    hide ByteIn, HasPage, PermIn, SegmentsFrom, HeaderOk, LoadedAt;
    var a, b := StackView(mem, sp.pages), Zeros(STACK_SIZE);
    forall i | 0 <= i < STACK_SIZE ensures a[i] == b[i] {
      assert ProgramAt(mem, sp.pages, f, Segments(f), USER_STACK_BOTTOM + i);
    }
  }

  /** The program stays as it is while its pages do. */
  lemma PreparedKept(a: Memory, b: Memory, l: Loaded, p: Program, argv: seq<seq<byte>>, envp: seq<seq<byte>>)
    requires Prepared(a, l, p, argv, envp) && DataKept(a, b, l.space.pages)
    ensures Prepared(b, l, p, argv, envp)
  {
    hide ByteIn, HasPage, PermIn, SegmentsFrom, HeaderOk, Build, InSegments, Perms, Expect, Fits, DataKept;
    var sp, segs := l.space, Segments(p.bytes);
    forall x: nat ensures ByteIn(b, sp.pages, x) == ByteIn(a, sp.pages, x) {
      ByteKept(a, b, sp.pages, x);
    }
    forall x: nat | !(USER_STACK_BOTTOM <= x < USER_STACK_TOP) ensures ProgramAt(b, sp.pages, p.bytes, segs, x) {
      assert ProgramAt(a, sp.pages, p.bytes, segs, x);
    }
    assert StackView(b, sp.pages) == StackView(a, sp.pages);
  }

  lemma ByteKept(a: Memory, b: Memory, pages: seq<Mapping>, x: nat)
    requires DataKept(a, b, pages)
    ensures ByteIn(b, pages, x) == ByteIn(a, pages, x)
  {
  }

  // ---------------------------------------------------------------- fork and exec on the list of spaces

  /** The copy fork makes: a space built beside the others with the same addresses, permissions and bytes, or as many free
      pages as before. */
  lemma CopyOk(s: Sys, first: nat, src: nat)
    requires SomeFree(s, first, multiset{}) && src < |s.spaces|
    ensures KernelInRange(s.k) && InMemory(s.spaces[src])
    ensures var (h, r) := Clone(s.heap, s.k, s.spaces[src]);
            match r
            case Some(d) => Built(s, first, h, d) && |d.pages| == |s.spaces[src].pages|
                            && Copied(h.mem, s.spaces[src].pages, d.pages, |d.pages|)
            case None => SomeFree(s.(heap := h), first, multiset{}) && Kept(s.heap.mem, h.mem, s.spaces)
                         && h.end == s.heap.end && h.totalFree == s.heap.totalFree
  {
    hide SysOk, Clone, Kept, Copied;
    var free: seq<nat> :| SysOk(s, first, free, multiset{});
    SpaceListed(s, first, free, multiset{}, src);
    CloneOk(s, first, free, src);
    CloneEnd(s.heap, s.k, s.spaces[src]);
    var (h, r) := Clone(s.heap, s.k, s.spaces[src]);
    if r.None? {
      SameTotal(s, s.(heap := h), first);
    }
  }

  lemma CloneEnd(h: Heap, k: Kernel, src: Space)
    requires KernelInRange(k) && forall j :: 0 <= j < |src.pages| ==> src.pages[j].page < DRAM_PAGES
    ensures Clone(h, k, src).0.end == h.end
  {
    hide Create, CloneFrom;
    CreateEnd(h, k);
    var (g, r) := Create(h, k);
    if r.Some? && r.value.l0 < DRAM_PAGES && r.value.pages == [] {
      CloneFromEnd(g, r.value, src.pages, 0);
    }
  }

  lemma {:induction false} CloneFromEnd(h: Heap, dst: Space, pages: seq<Mapping>, i: nat)
    requires i <= |pages| && InMemory(dst) && forall j :: 0 <= j < |pages| ==> pages[j].page < DRAM_PAGES
    ensures CloneFrom(h, dst, pages, i).0.end == h.end
    decreases |pages| - i
  {
    hide Map, Destroy, Find;
    if i < |pages| {
      MapEnd(h, dst, pages[i].va, pages[i].flags);
      var (g, d, status) := Map(h, dst, pages[i].va, pages[i].flags);
      if status < 0 {
        DestroyEnd(g, d);
      } else {
        FindRange(d.pages, pages[i].va);
        var k := Find(d.pages, pages[i].va, 0);
        if k < |d.pages| {
          CloneFromEnd(WritePage(g, d.pages[k].page, g.mem[pages[i].page]), d, pages, i + 1);
        }
      }
    }
  }

  lemma KeptPrefix(a: Memory, b: Memory, rest: seq<Space>, sp: Space)
    requires Kept(a, b, rest + [sp])
    ensures Kept(a, b, rest)
  {
    var t := rest + [sp];
    assert t[..|t| - 1] == rest;
  }

  /** Destroying space `i` once `sp` is built: `sp` and the others stay, byte for byte. */
  lemma ReplaceOk(s: Sys, first: nat, h: Heap, sp: Space, i: nat)
    requires Built(s, first, h, sp) && i < |s.spaces|
    ensures InMemory(s.spaces[i])
    ensures var rest := Others(s.spaces, i);
            var g := Destroy(h, s.spaces[i]);
            && SomeFree(Sys(g, s.k, rest + [sp]), first, multiset{}) && g.end == s.heap.end
            && Kept(s.heap.mem, g.mem, rest) && DataKept(h.mem, g.mem, sp.pages)
  {
    hide SysOk, Destroy, Kept, AllUsed;
    var t := Sys(h, s.k, s.spaces + [sp]);
    var free: seq<nat> :| SysOk(t, first, free, multiset{});
    assert t.spaces[i] == s.spaces[i];
    SpaceListed(t, first, free, multiset{}, i);
    DestroyOk(t, first, free, i);
    DestroyEnd(h, s.spaces[i]);
    var rest := Others(s.spaces, i);
    assert Others(t.spaces, i) == rest + [sp];
    var g := Destroy(h, s.spaces[i]);
    KeptPrefix(h.mem, g.mem, rest, sp);
    KeptFewer(s.heap.mem, h.mem, s.spaces, i);
    KeptTrans(s.heap.mem, h.mem, g.mem, rest);
    assert (rest + [sp])[|rest|] == sp;
    KeptData(h.mem, g.mem, rest + [sp], |rest|);
  }

  // ---------------------------------------------------------------- counting pages

  /** Three tables and the mapped pages of every space. */
  function SpacePageCount(spaces: seq<Space>): nat {
    if spaces == [] then 0 else SpacePageCount(spaces[..|spaces| - 1]) + 3 + |spaces[|spaces| - 1].pages|
  }

  lemma {:induction false} PagesSize(pages: seq<Mapping>)
    ensures |PagesOf(pages)| == |pages|
  {
    if pages != [] {
      PagesSize(pages[..|pages| - 1]);
    }
  }

  lemma {:induction false} UsedSize(spaces: seq<Space>)
    ensures |AllUsed(spaces)| == SpacePageCount(spaces)
  {
    if spaces != [] {
      var sp := spaces[|spaces| - 1];
      UsedSize(spaces[..|spaces| - 1]);
      PagesSize(sp.pages);
      assert |SpaceUsed(sp)| == 3 + |sp.pages|;
    }
  }

  /** The counter of free pages is what is left of the heap beside three kernel tables and the pages of every space. */
  lemma Conserved(s: Sys, first: nat)
    requires SomeFree(s, first, multiset{})
    ensures s.heap.totalFree == (if s.heap.end > first then s.heap.end - first else 0) - 3 - SpacePageCount(s.spaces)
  {
    hide HeapOk, KernelOk, SpaceOk, AllUsed, SpacePageCount;
    var free: seq<nat> :| SysOk(s, first, free, multiset{});
    var used := KernelUsed(s.k) + AllUsed(s.spaces) + multiset{};
    TotalIs(s.heap, first, free, used);
    UsedSize(s.spaces);
    assert |used| == |KernelUsed(s.k)| + |AllUsed(s.spaces)|;
  }
}
