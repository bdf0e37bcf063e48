/** Physical memory as the kernel and the MMU change it in place: the allocator of mem.c, the tables of vm.c, the user spaces of
    user.c and the walk of mmu.cpp, each proved against its model. */
module KernelMemory {
  import opened Bytes
  import opened PhysMem
  import opened Mmu
  import opened PageAlloc
  import opened Spaces
  import SpaceCopy
  import opened SpaceView
  import ElfLoad
  import InitStack
  import Vm
  import FsBlocks
  import FsFiles
  import Disk
  import Programs
  import ProgramFiles
  import opened MiniFs

  class KernelMemory {
    var mem: Memory
    var freeList: u64
    var bumpPtr: nat
    var heapEnd: nat
    var totalFree: int

    function State(): Heap
      reads this
    {
      Heap(mem, freeList, bumpPtr, heapEnd, totalFree)
    }

    constructor (mem: Memory, first: nat)
      ensures State() == MemInit(mem, first)
    {
      this.mem, freeList, bumpPtr := mem, 0, first;
      heapEnd := STACK_TOP - GUARD_PAGES;
      totalFree := if STACK_TOP - GUARD_PAGES > first then STACK_TOP - GUARD_PAGES - first else 0;
    }

    // -------------------------------------------------------------- mem.c

    method Kalloc() returns (page: int)
      modifies this
      ensures (State(), page) == PageAlloc.Kalloc(old(State()))
    {
      if freeList != 0 && IsPageAddr(freeList) {
        page := PageAt(freeList);
        freeList := Word(mem[page], 0);
        totalFree := totalFree - 1;
        return;
      }
      if bumpPtr + 1 > heapEnd {
        return -1;
      }
      page := bumpPtr;
      bumpPtr := bumpPtr + 1;
      totalFree := totalFree - 1;
    }

    method Kfree(addr: u64)
      modifies this
      ensures State() == PageAlloc.Kfree(old(State()), addr)
    {
      if addr == 0 {
        return;
      }
      if !IsPageAddr(addr) {
        return;
      }
      var p := PageAt(addr);
      if p < KERNEL_START || p >= STACK_TOP {
        return;
      }
      mem := mem[p := SetWord(mem[p], 0, freeList)];
      freeList := addr;
      totalFree := totalFree + 1;
    }

    method FreePage(p: int)
      requires p < DRAM_PAGES
      modifies this
      ensures State() == PageAlloc.FreePage(old(State()), p)
    {
      if p >= 0 {
        Kfree(AddrOf(p));
      }
    }

    // -------------------------------------------------------------- mmu.cpp

    method FinishWalk(page: nat, i: nat, ppn: nat, offset: nat, t: Access, user: bool) returns (r: Translation)
      requires page < DRAM_PAGES && i < 512
      modifies this`mem
      ensures (mem, r) == Finish(old(mem), page, i, ppn, offset, t, user)
    {
      hide R, W, X, U, Touched, SetWord, Word;
      var pte := Word(mem[page], i);
      if t == Fetch && !X(pte) {
        return Fault(InstructionPageFault);
      }
      if t == Load && !R(pte) {
        return Fault(LoadPageFault);
      }
      if t == Store && !W(pte) {
        return Fault(StorePageFault);
      }
      if user && !U(pte) {
        return Fault(PageFault(t));
      }
      mem := mem[page := SetWord(mem[page], i, Touched(pte, t == Store))];
      return Pa(ppn % 0x10_0000_0000_0000 * 4096 + offset);
    }

    method Translate(satp: u64, va: u64, t: Access, user: bool) returns (r: Translation)
      modifies this`mem
      ensures (mem, r) == Mmu.Translate(old(mem), satp, va, t, user)
    {
      hide V, R, W, X, Ppn, TablePage, Finish, Word, Leaf;
      if satp < 0x8000_0000_0000_0000 {
        return Pa(va);
      }
      var table := TablePage(satp % 0x1000_0000_0000);
      if !InDram(table) {
        return Fault(AccessFault);
      }
      var pte: u64 := Word(mem[table], Vpn2(va));
      if !V(pte) {
        return Fault(LoadPageFault);
      }
      if Leaf(pte) {
        return Fault(LoadPageFault);
      }
      table := TablePage(Ppn(pte));
      if !InDram(table) {
        return Fault(AccessFault);
      }
      pte := Word(mem[table], Vpn1(va));
      if !V(pte) {
        return Fault(LoadPageFault);
      }
      if Leaf(pte) {
        r := FinishWalk(table, Vpn1(va), Ppn(pte) - Ppn(pte) % 512 + Vpn0(va), Offset(va), t, user);
        return;
      }
      table := TablePage(Ppn(pte));
      if !InDram(table) {
        return Fault(AccessFault);
      }
      pte := Word(mem[table], Vpn0(va));
      if !V(pte) {
        return Fault(LoadPageFault);
      }
      r := FinishWalk(table, Vpn0(va), Ppn(pte), Offset(va), t, user);
    }

    // -------------------------------------------------------------- pages

    /** `zero_page`, word by word */
    method ZeroPage(p: nat)
      requires p < DRAM_PAGES
      modifies this`mem
      ensures State() == WritePage(old(State()), p, Zeros(4096))
    {
      var i := 0;
      while i < 512
        invariant i <= 512 && mem == old(mem)[p := mem[p]]
        invariant forall j :: 0 <= j < 8 * i ==> mem[p][j] == 0
      {
        ghost var was := mem[p];
        ZeroBytes(was, i);
        mem := mem[p := SetWord(mem[p], i, 0)];
        i := i + 1;
      }
      assert mem[p] == Zeros(4096);
    }

    /** `copy_page`, word by word */
    method CopyPage(p: nat, source: Page)
      requires p < DRAM_PAGES
      modifies this`mem
      ensures State() == WritePage(old(State()), p, source)
    {
      var i := 0;
      while i < 512
        invariant i <= 512 && mem == old(mem)[p := mem[p]]
        invariant mem[p][..8 * i] == source[..8 * i]
      {
        CopyWord(mem[p], source, i);
        mem := mem[p := SetWord(mem[p], i, Word(source, i))];
        i := i + 1;
      }
      assert mem[p] == source by {
        assert mem[p][..8 * 512] == mem[p] && source[..8 * 512] == source;
      }
    }

    method PutWord(p: nat, i: nat, v: u64)
      requires p < DRAM_PAGES && i < 512
      modifies this`mem
      ensures State() == WriteWord(old(State()), p, i, v)
    {
      mem := mem[p := SetWord(mem[p], i, v)];
    }

    // -------------------------------------------------------------- user spaces

    /** `create_empty_space` */
    method Create(k: Kernel) returns (r: Option<Space>)
      requires k.l2 < DRAM_PAGES && k.l1Mmio < DRAM_PAGES
      modifies this
      ensures (State(), r) == Spaces.Create(old(State()), k)
    {
      hide PageAlloc.Kalloc, PageAlloc.FreePage, SetWord, Pte, Zeros;
      var root := Kalloc();
      var l1 := Kalloc();
      var l0 := Kalloc();
      if root < 0 || l1 < 0 || l0 < 0 || root >= DRAM_PAGES || l1 >= DRAM_PAGES || l0 >= DRAM_PAGES {
        FreeTables(root, l1, l0);
        return None;
      }
      CopyPage(root, mem[k.l2]);
      CopyPage(l1, mem[k.l1Mmio]);
      ZeroPage(l0);
      PutWord(root, 0, Pte(DRAM_PPN + l1, NO_FLAGS, false));
      PutWord(l1, 0, Pte(DRAM_PPN + l0, NO_FLAGS, true));
      return Some(Space(root, l1, l0, []));
    }

    method FreeTables(root: int, l1: int, l0: int)
      modifies this
      ensures State() == FreeThree(old(State()), root, l1, l0)
    {
      hide PageAlloc.FreePage;
      if l0 < DRAM_PAGES {
        FreePage(l0);
      }
      if l1 < DRAM_PAGES {
        FreePage(l1);
      }
      if root < DRAM_PAGES {
        FreePage(root);
      }
    }

    /** `find_mapping` */
    method FindMapping(pages: seq<Mapping>, va: nat) returns (k: nat)
      ensures k == Find(pages, PageVa(va), 0)
    {
      var page := va - va % 4096;
      k := 0;
      while k < |pages|
        invariant k <= |pages| && Find(pages, page, 0) == Find(pages, page, k)
      {
        if pages[k].va == page {
          return;
        }
        k := k + 1;
      }
    }

    /** `map_user_page` */
    method MapUserPage(space: Space, va: int, flags: Flags) returns (sp: Space, status: int)
      requires InMemory(space)
      modifies this
      ensures InMemory(sp) && (State(), sp, status) == Map(old(State()), space, va, flags)
    {
      hide PageAlloc.Kalloc, Find, PteOf, Zeros, SetWord;
      sp := space;
      if va < USER_MIN_VA || va >= USER_STACK_TOP || va % 4096 != 0 {
        return sp, -1;
      }
      var k := FindMapping(space.pages, va);
      PageVaSelf(va);
      if k < |space.pages| {
        var m := space.pages[k].(flags := Either(space.pages[k].flags, flags));
        sp := space.(pages := space.pages[k := m]);
        PutWord(space.l0, va / 4096 % 512, PteOf(m));
        return sp, 0;
      }
      if |space.pages| >= USER_MAX_PAGES {
        return sp, -1;
      }
      var page := Kalloc();
      if page < 0 || page >= DRAM_PAGES {
        return sp, -1;
      }
      ZeroPage(page);
      var m := Mapping(va, page, flags);
      sp := space.(pages := space.pages + [m]);
      PutWord(space.l0, va / 4096 % 512, PteOf(m));
      return sp, 0;
    }

    /** `user_space_destroy` */
    method DestroySpace(space: Space)
      requires forall j :: 0 <= j < |space.pages| ==> space.pages[j].page < DRAM_PAGES
      modifies this
      ensures State() == Destroy(old(State()), space)
    {
      hide PageAlloc.FreePage, FreeThree;
      var i := 0;
      while i < |space.pages|
        invariant i <= |space.pages|
        invariant FreePages(State(), space.pages[i..]) == FreePages(old(State()), space.pages)
      {
        assert space.pages[i..][1..] == space.pages[i + 1..];
        FreePage(space.pages[i].page);
        i := i + 1;
      }
      FreeTables(space.root, space.l1, space.l0);
    }

    /** `user_space_clone` */
    method CloneSpace(k: Kernel, source: Space) returns (r: Option<Space>)
      requires k.l2 < DRAM_PAGES && k.l1Mmio < DRAM_PAGES
      requires forall j :: 0 <= j < |source.pages| ==> source.pages[j].page < DRAM_PAGES
      modifies this
      ensures (State(), r) == SpaceCopy.Clone(old(State()), k, source)
    {
      hide Spaces.Create, Map, Destroy, Find;
      r := Create(k);
      if r.None? || r.value.l0 >= DRAM_PAGES || r.value.pages != [] {
        return None;
      }
      var space := r.value;
      var i := 0;
      while i < |source.pages|
        invariant i <= |source.pages| && InMemory(space)
        invariant SpaceCopy.CloneFrom(State(), space, source.pages, i) == SpaceCopy.Clone(old(State()), k, source)
      {
        var status: int;
        space, status := MapUserPage(space, source.pages[i].va, source.pages[i].flags);
        if status < 0 {
          DestroySpace(space);
          return None;
        }
        var j := FindExact(space.pages, source.pages[i].va);
        if j == |space.pages| {
          return None;
        }
        CopyPage(space.pages[j].page, mem[source.pages[i].page]);
        i := i + 1;
      }
      return Some(space);
    }

    /** A search for an address that is a page's own. */
    method FindExact(pages: seq<Mapping>, va: nat) returns (k: nat)
      ensures k == Find(pages, va, 0)
    {
      k := 0;
      while k < |pages|
        invariant k <= |pages| && Find(pages, va, 0) == Find(pages, va, k)
      {
        if pages[k].va == va {
          return;
        }
        k := k + 1;
      }
    }

    /** `copy_to_space` */
    method CopyToSpace(pages: seq<Mapping>, destination: nat, source: seq<byte>) returns (status: int)
      modifies this`mem
      ensures (mem, status) == CopyTo(old(mem), pages, destination, source)
    {
      hide Find, Splice, PageVa, CopyTo;
      assert source[0..] == source;
      var done := 0;
      while done < |source|
        invariant 0 <= done <= |source|
        invariant CopyTo(mem, pages, destination + done, source[done..]) == CopyTo(old(mem), pages, destination, source)
      {
        ChunkRound(mem, pages, destination + done, source[done..]);
        var k := FindMapping(pages, destination + done);
        if k == |pages| || pages[k].page >= DRAM_PAGES {
          return -1;
        }
        var within := (destination + done) % 4096;
        var chunk := |source| - done;
        if chunk > 4096 - within {
          chunk := 4096 - within;
        }
        assert source[done..][..chunk] == source[done..done + chunk];
        assert source[done..][chunk..] == source[done + chunk..];
        var p := pages[k].page;
        CopyBytesTo(p, within, source[done..done + chunk]);
        done := done + chunk;
      }
      CopyNothing(mem, pages, destination + done);
      return 0;
    }

    /** The inner byte loop. */
    method CopyBytesTo(p: nat, within: nat, bytes: seq<byte>)
      requires p < DRAM_PAGES && within + |bytes| <= 4096
      modifies this`mem
      ensures mem == old(mem)[p := Splice(old(mem)[p], within, bytes)]
    {
      var i := 0;
      assert Splice(mem[p], within, bytes[..0]) == mem[p];
      while i < |bytes|
        invariant i <= |bytes| && mem == old(mem)[p := Splice(old(mem)[p], within, bytes[..i])]
      {
        ByteMore(old(mem)[p], within, bytes, i);
        mem := mem[p := mem[p][within + i := bytes[i]]];
        i := i + 1;
      }
      assert bytes[..|bytes|] == bytes;
    }

    // -------------------------------------------------------------- vm.c

    /** A run of 2 MiB entries, as the loops of `vm_init` write it. */
    method FillRun(p: nat, at: nat, n: nat, ppn: nat, f: Flags)
      requires p < DRAM_PAGES && at + n <= 512 && ppn <= 0x10_0000
      modifies this`mem
      ensures State() == Vm.FillRun(old(State()), p, at, n, ppn, f)
    {
      hide SetWord, Pte;
      var i := 0;
      while i < n
        invariant 0 <= i <= n && mem == old(mem)[p := mem[p]]
        invariant Vm.FillEntries(mem[p], at, i, n, ppn, f) == Vm.FillEntries(old(mem)[p], at, 0, n, ppn, f)
      {
        mem := mem[p := SetWord(mem[p], at + i, Pte(ppn + 512 * i, f, false))];
        i := i + 1;
      }
    }

    /** `vm_init` */
    method VmInit() returns (r: Option<Kernel>)
      modifies this
      ensures (State(), r) == Vm.VmInit(old(State()))
    {
      hide PageAlloc.Kalloc, SetWord, Pte, Zeros, Vm.FillEntries;
      var l2 := Kalloc();
      var dram := Kalloc();
      var mmio := Kalloc();
      if l2 < 0 || dram < 0 || mmio < 0 || l2 >= DRAM_PAGES || dram >= DRAM_PAGES || mmio >= DRAM_PAGES {
        return None;
      }
      ZeroPage(l2);
      ZeroPage(dram);
      ZeroPage(mmio);
      PutWord(l2, 0, Pte(DRAM_PPN + mmio, NO_FLAGS, false));
      PutWord(l2, 2, Pte(DRAM_PPN + dram, NO_FLAGS, false));
      FillRun(dram, 0, 64, DRAM_PPN, RWX);
      PutWord(mmio, 16, Pte(0x2000, RW, false));
      FillRun(mmio, 96, 32, 0xC000, RW);
      PutWord(mmio, 128, Pte(0x1_0000, RW, false));
      PutWord(mmio, 0, Pte(0, RW, false));
      return Some(Kernel(l2, dram, mmio));
    }

    // -------------------------------------------------------------- programs

    /** The page loop of a segment, and that of the stack. */
    method MapPages(space: Space, start: nat, end: nat, flags: Flags) returns (sp: Space, status: int)
      requires InMemory(space)
      modifies this
      ensures InMemory(sp) && (State(), sp, status) == ElfLoad.MapRange(old(State()), space, start, end, flags)
    {
      hide Map;
      sp := space;
      var va := start;
      while va < end
        invariant InMemory(sp)
        invariant ElfLoad.MapRange(State(), sp, va, end, flags) == ElfLoad.MapRange(old(State()), space, start, end, flags)
      {
        sp, status := MapUserPage(sp, va, flags);
        if status < 0 {
          return sp, -1;
        }
        va := va + 4096;
      }
      return sp, 0;
    }

    /** `minifs_pread` of exactly `len` bytes. */
    method ReadExact(fs: MiniFs, inode: nat, off: nat, len: nat) returns (r: Option<seq<byte>>)
      requires fs.Valid() && FsBlocks.RefsMarked(fs.State()) && len <= 512
      modifies fs`blockBuffer
      ensures r == ProgramFiles.ReadExact(fs.State(), inode, off, len)
    {
      hide Disk.View, FsBlocks.RefsMarked, FsFiles.Pread;
      var result, bytes := fs.Pread(inode, off % 0x1_0000_0000, len);
      return if result == len then Some(bytes) else None;
    }

    /** The loop of `load_elf` that copies the file bytes of a segment through a 512-byte buffer. */
    method CopyFile(pages: seq<Mapping>, fs: MiniFs, inode: nat, seg: ElfLoad.Segment) returns (status: int)
      requires fs.Valid() && FsBlocks.RefsMarked(fs.State())
      modifies this`mem, fs`blockBuffer
      ensures (mem, status) == ProgramFiles.CopyFile(old(mem), pages, fs.State(), inode, seg, 0)
    {
      hide CopyTo, Disk.View, FsBlocks.RefsMarked, ProgramFiles.ReadExact;
      var copied := 0;
      ghost var v := fs.State();
      while copied < seg.filesz
        invariant 0 <= copied <= seg.filesz && fs.disk == old(fs.disk) && fs.Valid()
        invariant ProgramFiles.CopyFile(mem, pages, v, inode, seg, copied) == ProgramFiles.CopyFile(old(mem), pages, v, inode, seg, 0)
      {
        var chunk := ElfLoad.Low(seg.filesz - copied, 512);
        var scratch := ReadExact(fs, inode, seg.offset + copied, chunk);
        if scratch.None? {
          return -1;
        }
        status := CopyToSpace(pages, seg.vaddr + copied, scratch.value);
        if status < 0 {
          return -1;
        }
        copied := copied + chunk;
      }
      return 0;
    }

    /** One segment of `load_elf`: its pages, then its file bytes. */
    method LoadSegment(space: Space, fs: MiniFs, inode: nat, seg: ElfLoad.Segment) returns (sp: Space, status: int)
      requires InMemory(space) && fs.Valid() && FsBlocks.RefsMarked(fs.State())
      modifies this, fs`blockBuffer
      ensures InMemory(sp) && (State(), sp, status) == ProgramFiles.LoadFileSegment(old(State()), space, fs.State(), inode, seg)
    {
      hide ElfLoad.MapRange, ProgramFiles.CopyFile, Disk.View, FsBlocks.RefsMarked, PageVa, ElfLoad.RoundUp, InMemory;
      sp, status := MapPages(space, PageVa(seg.vaddr), ElfLoad.RoundUp(seg.vaddr + seg.memsz), seg.flags);
      if status < 0 {
        return sp, -1;
      }
      status := CopyFile(sp.pages, fs, inode, seg);
    }

    /** `load_elf`: the new space and the entry point. */
    method LoadElf(k: Kernel, fs: MiniFs, inode: nat) returns (r: Option<Space>, entry: nat)
      requires k.l2 < DRAM_PAGES && k.l1Mmio < DRAM_PAGES && fs.Valid() && FsBlocks.RefsMarked(fs.State())
      requires ProgramFiles.IsFile(fs.State(), inode)
      modifies this, fs`blockBuffer
      ensures (State(), r) == ProgramFiles.LoadFile(old(State()), k, fs.State(), inode)
      ensures r.Some? ==> entry == Programs.EntryOf(FsFiles.Content(fs.State(), inode))
    {
      hide Spaces.Create, ProgramFiles.LoadFileSegments, ElfLoad.MapRange, Destroy, ElfLoad.HeaderFor, PermIn, Disk.View, FsBlocks.RefsMarked,
           ProgramFiles.ReadExact, FsBlocks.ByteAt;
      var ok: int, record: FsBlocks.Inode;
      ok, record := fs.ReadInode(inode);
      if record.mode / 256 % 2 == 0 {
        return None, 0;
      }
      var read := ReadExact(fs, inode, 0, 64);
      if read.None? || !ElfLoad.HeaderFor(read.value, record.size) {
        return None, 0;
      }
      var header := read.value;
      entry := U64At(header, 24);
      HeaderEntry(fs.State(), inode);
      r := Create(k);
      if r.None? || r.value.l0 >= DRAM_PAGES || r.value.pages != [] {
        return None, 0;
      }
      var space := r.value;
      var status: int;
      space, status := LoadAll(space, fs, inode, record.size, U64At(header, 32), ElfLoad.U16At(header, 56));
      if status < 0 {
        DestroySpace(space);
        return None, 0;
      }
      if !PermIn(space.pages, PageVa(entry)).x {
        DestroySpace(space);
        return None, 0;
      }
      space, status := MapPages(space, ElfLoad.USER_STACK_BOTTOM, USER_STACK_TOP, Flags(true, true, false));
      if status < 0 {
        DestroySpace(space);
        return None, 0;
      }
      return Some(space), entry;
    }

    /** The loop of `load_elf` over the program headers. */
    method LoadAll(space: Space, fs: MiniFs, inode: nat, size: nat, phoff: nat, n: nat) returns (sp: Space, status: int)
      requires InMemory(space) && fs.Valid() && FsBlocks.RefsMarked(fs.State())
      modifies this, fs`blockBuffer
      ensures InMemory(sp) && (State(), sp, status) == ProgramFiles.LoadFileSegments(old(State()), space, fs.State(), inode, size, phoff, n, 0)
    {
      hide ProgramFiles.LoadFileSegment, ElfLoad.ParseSegment, Disk.View, FsBlocks.RefsMarked, ProgramFiles.ReadExact;
      sp := space;
      var i := 0;
      ghost var v := fs.State();
      while i < n
        invariant i <= n && InMemory(sp) && fs.disk == old(fs.disk) && fs.Valid()
        invariant ProgramFiles.LoadFileSegments(State(), sp, v, inode, size, phoff, n, i)
               == ProgramFiles.LoadFileSegments(old(State()), space, v, inode, size, phoff, n, 0)
      {
        var ph := ReadExact(fs, inode, phoff + 56 * i, 56);
        if ph.None? {
          return sp, -1;
        }
        match ElfLoad.ParseSegment(ph.value, size) {
          case Skip =>
          case Bad => return sp, -1;
          case Loadable(seg) =>
            sp, status := LoadSegment(sp, fs, inode, seg);
            if status < 0 {
              return sp, -1;
            }
        }
        i := i + 1;
      }
      return sp, 0;
    }

    /** The downward loop over strings of `build_initial_stack`. */
    method PushStrings(pages: seq<Mapping>, top: int, strs: seq<seq<byte>>) returns (lo: int, at: seq<u64>, status: int)
      modifies this`mem
      ensures (mem, lo, at, status) == InitStack.PushMem(old(mem), pages, top, strs)
    {
      hide CopyTo;
      lo, at := top, [];
      var i := |strs|;
      assert strs[..i] == strs;
      ghost var all := InitStack.PushMem(mem, pages, top, strs);
      assert all.2 + [] == all.2 && (all.3 < 0 ==> all.2 == []) by { PushFails(mem, pages, top, strs); }
      while i > 0
        invariant 0 <= i <= |strs|
        invariant var rest := InitStack.PushMem(mem, pages, lo, strs[..i]);
                  all == (rest.0, rest.1, if rest.3 < 0 then [] else rest.2 + at, rest.3)
      {
        i := i - 1;
        assert strs[..i + 1][..i] == strs[..i] && strs[..i + 1][i] == strs[i];
        lo := lo - |strs[i]| - 1;
        if lo < 0 || lo >= 0x1_0000_0000_0000_0000 {
          return lo, [], -1;
        }
        status := CopyToSpace(pages, lo, strs[i] + [0]);
        if status < 0 {
          return lo, [], -1;
        }
        ghost var rest := InitStack.PushMem(mem, pages, lo, strs[..i]);
        assert rest.2 + [lo] + at == rest.2 + ([lo] + at);
        at := [lo] + at;
      }
      assert [] + at == at;
      return lo, at, 0;
    }

    /** One `copy_to_space` after another for the pointer block. */
    method CopyBlocks(pages: seq<Mapping>, start: int, blocks: seq<seq<u64>>) returns (status: int)
      modifies this`mem
      ensures (mem, status) == InitStack.CopyWords(old(mem), pages, start, blocks)
    {
      hide CopyTo, InitStack.WordsBytes;
      var at := start;
      var i := 0;
      assert blocks[0..] == blocks;
      while i < |blocks|
        invariant 0 <= i <= |blocks|
        invariant InitStack.CopyWords(mem, pages, at, blocks[i..]) == InitStack.CopyWords(old(mem), pages, start, blocks)
      {
        assert blocks[i..][0] == blocks[i] && blocks[i..][1..] == blocks[i + 1..];
        if at < 0 {
          return -1;
        }
        status := CopyToSpace(pages, at, InitStack.WordsBytes(blocks[i]));
        if status < 0 {
          return -1;
        }
        at := at + 8 * |blocks[i]|;
        i := i + 1;
      }
      return 0;
    }

    /** `build_initial_stack` */
    method BuildInitialStack(pages: seq<Mapping>, argv: seq<seq<byte>>, envp: seq<seq<byte>>) returns (r: Option<nat>)
      modifies this`mem
      ensures (mem, r) == InitStack.BuildStack(old(mem), pages, argv, envp)
    {
      hide InitStack.PushMem, InitStack.CopyWords, InitStack.StringBytes;
      var fits := CountStrings(argv, envp);
      if !fits {
        return None;
      }
      var stack: int, envAt: seq<u64>, argAt: seq<u64>, status: int;
      stack, envAt, status := PushStrings(pages, USER_STACK_TOP, envp);
      if status < 0 {
        return None;
      }
      stack, argAt, status := PushStrings(pages, stack, argv);
      if status < 0 || stack < 0 || |argAt| > InitStack.ARG_MAX {
        return None;
      }
      var sp := InitStack.BlockStart(stack, 1 + |argAt| + 1 + |envAt| + 1);
      status := CopyBlocks(pages, sp, [[|argAt|], argAt, [0], envAt, [0]]);
      if status < 0 || sp < ElfLoad.USER_STACK_BOTTOM {
        return None;
      }
      return Some(sp);
    }

    /** The two counting loops. */
    method CountStrings(argv: seq<seq<byte>>, envp: seq<seq<byte>>) returns (fits: bool)
      ensures fits == InitStack.Fits(argv, envp)
    {
      var bytes := 0;
      var argc := 0;
      while argc < |argv| && argc < InitStack.ARG_MAX
        invariant 0 <= argc <= |argv| && argc <= InitStack.ARG_MAX
        invariant bytes == InitStack.StringBytes(argv[..argc]) <= InitStack.STRINGS_MAX
      {
        assert argv[..argc + 1][..argc] == argv[..argc];
        if bytes + |argv[argc]| + 1 > InitStack.STRINGS_MAX {
          PrefixBytes(argv, argc + 1);
          return false;
        }
        bytes := bytes + |argv[argc]| + 1;
        argc := argc + 1;
      }
      if argc == InitStack.ARG_MAX && argc < |argv| {
        return false;
      }
      assert argv[..argc] == argv;
      var envc := 0;
      while envc < |envp| && envc < InitStack.ENV_MAX
        invariant 0 <= envc <= |envp| && envc <= InitStack.ENV_MAX
        invariant bytes == InitStack.StringBytes(argv) + InitStack.StringBytes(envp[..envc]) <= InitStack.STRINGS_MAX
      {
        assert envp[..envc + 1][..envc] == envp[..envc];
        if bytes + |envp[envc]| + 1 > InitStack.STRINGS_MAX {
          PrefixBytes(envp, envc + 1);
          return false;
        }
        bytes := bytes + |envp[envc]| + 1;
        envc := envc + 1;
      }
      if envc == InitStack.ENV_MAX && envc < |envp| {
        return false;
      }
      assert envp[..envc] == envp;
      return true;
    }
  }

  /** A failing push reports no addresses. */
  lemma PushFails(mem: Memory, pages: seq<Mapping>, top: int, strs: seq<seq<byte>>)
    ensures InitStack.PushMem(mem, pages, top, strs).3 < 0 ==> InitStack.PushMem(mem, pages, top, strs).2 == []
  {
    hide CopyTo;
  }

  lemma {:induction false} PrefixBytes(strs: seq<seq<byte>>, n: nat)
    requires n <= |strs|
    ensures InitStack.StringBytes(strs[..n]) <= InitStack.StringBytes(strs)
    decreases |strs|
  {
    if n == |strs| {
      assert strs[..n] == strs;
    } else {
      var m := |strs| - 1;
      PrefixBytes(strs[..m], n);
      assert strs[..m][..n] == strs[..n];
    }
  }

  /** The entry point in the header read is that of the contents. */
  lemma HeaderEntry(fs: FsBlocks.Fs, n: nat)
    requires ProgramFiles.IsFile(fs, n)
    ensures var read := ProgramFiles.ReadExact(fs, n, 0, 64);
            read.Some? ==> U64At(read.value, 24) == Programs.EntryOf(FsFiles.Content(fs, n))
  {
    hide ProgramFiles.ReadExact, FsBlocks.ByteAt, FsFiles.CanRead;
    ProgramFiles.ReadExactIs(fs, n, 0, 64);
  }

  lemma ZeroBytes(p: Page, i: nat)
    requires i < 512
    ensures forall j :: 0 <= j < 4096 ==> SetWord(p, i, 0)[j] == if 8 * i <= j < 8 * i + 8 then 0 else p[j]
  {
  }

  lemma U32Inverse(s: seq<byte>, o: nat)
    requires o + 4 <= |s|
    ensures U32Bytes(U32At(s, o)) == s[o..o + 4]
  {
    var a, b, c, d: int := s[o], s[o + 1], s[o + 2], s[o + 3];
    var v: int := U32At(s, o);
    assert v == a + 0x100 * (b + 0x100 * (c + 0x100 * d));
    assert v % 0x100 == a && v / 0x100 == b + 0x100 * (c + 0x100 * d);
    var w: int := v / 0x100;
    assert w % 0x100 == b && w / 0x100 == c + 0x100 * d;
    var x: int := w / 0x100;
    assert x % 0x100 == c && x / 0x100 == d;
  }

  lemma U64Inverse(s: seq<byte>, o: nat)
    requires o + 8 <= |s|
    ensures U64Bytes(U64At(s, o)) == s[o..o + 8]
  {
    hide U32Bytes, U32At;
    U32Inverse(s, o);
    U32Inverse(s, o + 4);
    var v := U64At(s, o);
    assert v % 0x1_0000_0000 == U32At(s, o) && v / 0x1_0000_0000 == U32At(s, o + 4);
    assert s[o..o + 8] == s[o..o + 4] + s[o + 4..o + 8];
  }

  lemma CopyWord(dst: Page, source: Page, i: nat)
    requires i < 512 && dst[..8 * i] == source[..8 * i]
    ensures SetWord(dst, i, Word(source, i))[..8 * (i + 1)] == source[..8 * (i + 1)]
  {
    hide U64Bytes, U64At;
    U64Inverse(source, 8 * i);
    var r := SetWord(dst, i, Word(source, i));
    assert r[..8 * i] == dst[..8 * i];
    assert r[8 * i..8 * i + 8] == source[8 * i..8 * i + 8];
    assert r[..8 * (i + 1)] == r[..8 * i] + r[8 * i..8 * i + 8];
    assert source[..8 * (i + 1)] == source[..8 * i] + source[8 * i..8 * i + 8];
  }

  lemma ByteMore(s: Page, o: nat, t: seq<byte>, i: nat)
    requires o + |t| <= 4096 && i < |t|
    ensures Splice(s, o, t[..i])[o + i := t[i]] == Splice(s, o, t[..i + 1])
    ensures i == 0 ==> Splice(s, o, t[..0]) == s
  {
  }
}
