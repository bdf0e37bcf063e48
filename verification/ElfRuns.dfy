/** A program after exec, as its own loads and fetches see it through the page tables: the bytes its file header and program
    headers name. */
module ElfRuns {
  import opened Bytes
  import opened PhysMem
  import opened Mmu
  import opened Spaces
  import opened SpaceCopy
  import opened SpaceView
  import opened ElfLoad
  import opened Programs
  import opened ProgramFiles
  import opened SlotSpaces
  import opened KernelModel
  import opened KernelRuns
  import opened ElfFormat
  import T = TaskModel

  /** What a user access finds at `va` under a satp: the byte of DRAM it is led to, or -1 for a fault. */
  function Reads(mem: Memory, satp: u64, va: u64, t: Access): int {
    var r := Translate(mem, satp, va, t, true).1;
    if r.Pa? && InDram(r.addr / 4096 - DRAM_PPN) then mem[r.addr / 4096 - DRAM_PPN][r.addr % 4096] else -1
  }

  /** Under the satp of a space that is what the list of mappings says about the byte. */
  lemma ReadsByte(mem: Memory, dram: nat, sp: Space, va: u64, t: Access)
    requires Tables(mem, dram, sp) && va < 0x80_0000_0000
    ensures Reads(mem, Satp(sp), va, t) == if Allows(PermIn(sp.pages, PageVa(va)), t) then ByteIn(mem, sp.pages, va) else -1
  {
    hide Translate, Find, RootOk, L1Ok, DramOk, L0Ok;
    Agreement(mem, dram, sp, va, t);
    assert va % 0x80_0000_0000 == va;
    var k := Find(sp.pages, va - va % 4096, 0);
    if k < |sp.pages| {
      AddrParts(sp.pages[k].page, va % 4096);
    }
  }

  lemma AddrParts(page: nat, offset: nat)
    requires offset < 4096
    ensures (AddrOf(page) + offset) / 4096 - DRAM_PPN == page && (AddrOf(page) + offset) % 4096 == offset
  {
  }

  /** The permission an access needs, as a flag of a program header. */
  function Need(t: Access): nat {
    match t
    case Fetch => 1
    case Load => 4
    case Store => 2
  }

  lemma SegmentPage(h: Ph, x: nat)
    requires h.vaddr <= x < h.vaddr + h.memsz
    ensures h.vaddr / 4096 <= x / 4096 && 4096 * (x / 4096) < h.vaddr + h.memsz
  {
  }

  /** A prepared program in memory, seen through its tables. */
  lemma PreparedReads(mem: Memory, dram: nat, l: Loaded, p: Program, argv: seq<seq<byte>>, envp: seq<seq<byte>>, eh: Eh, phs: seq<Ph>,
                      i: nat, k: nat, t: Access)
    requires Tables(mem, dram, l.space) && Prepared(mem, l, p, argv, envp) && IsElf(p.bytes, eh, phs) && Apart(phs, |p.bytes|)
    requires i < |phs| && Loads(phs[i], |p.bytes|) && k < phs[i].memsz && ElfFormat.Has(Granted(phs[i].flags), Need(t))
    ensures Reads(mem, Satp(l.space), phs[i].vaddr + k, t) == if k < phs[i].filesz then p.bytes[phs[i].offset + k] else 0
  {
    hide Prepared, Tables, IsElf, Apart, Granted, ByteIn, HasPage, Reads, Satp, Grants;
    var x := phs[i].vaddr + k;
    assert l.space.root < DRAM_PAGES by { RootInDram(mem, dram, l.space); }
    ReadsByte(mem, dram, l.space, x, t);
    ElfStarts(mem, l, p, argv, envp, eh, phs, i, k);
    PreparedAt(mem, l, p, argv, envp, x);
    FileHeader(p.bytes, eh, phs);
    ElfPage(mem, l.space, p.bytes, eh, phs, x);
    SegmentPage(phs[i], x);
    GrantedBy(phs, |p.bytes|, i, x, Need(t));
  }

  lemma PreparedAt(mem: Memory, l: Loaded, p: Program, argv: seq<seq<byte>>, envp: seq<seq<byte>>, x: nat)
    requires Prepared(mem, l, p, argv, envp) && x < USER_STACK_BOTTOM
    ensures |p.bytes| >= 64 && LoadedAt(mem, l.space.pages, p.bytes, Segments(p.bytes), x)
  {
    hide LoadedAt, Segments, HeaderOk, Perms, InitStack.Build, InitStack.StackView, InitStack.Fits;
    assert ProgramAt(mem, l.space.pages, p.bytes, Segments(p.bytes), x);
  }

  lemma GrantedBy(phs: seq<Ph>, size: nat, i: nat, x: nat, bit: nat)
    requires ElfFormat.Reaches(phs, size, i, x) && ElfFormat.Has(Granted(phs[i].flags), bit)
    ensures Grants(phs, size, x, bit)
  {
  }

  /** The entry can be fetched. */
  lemma PreparedFetches(mem: Memory, dram: nat, l: Loaded, p: Program, argv: seq<seq<byte>>, envp: seq<seq<byte>>, eh: Eh, phs: seq<Ph>)
    requires Tables(mem, dram, l.space) && Prepared(mem, l, p, argv, envp) && IsElf(p.bytes, eh, phs)
    ensures l.entry == eh.entry && Translate(mem, Satp(l.space), eh.entry, Fetch, true).1.Pa?
  {
    hide Tables, IsElf, Granted, ByteIn, HasPage, Satp, Grants, Translate, HeaderFor, Segments, LoadedAt, InitStack.Build, InitStack.StackView,
         InitStack.Fits, PermIn, Perms, Accepted;
    assert l.space.root < DRAM_PAGES by { RootInDram(mem, dram, l.space); }
    FileHeader(p.bytes, eh, phs);
    assert eh.entry < USER_STACK_BOTTOM by { EntryBelow(eh, |p.bytes|); }
    PreparedAt(mem, l, p, argv, envp, eh.entry);
    assert PermIn(l.space.pages, PageVa(eh.entry)) == Perms(Segments(p.bytes), eh.entry) by { LoadedPerms(mem, l.space, p.bytes, eh.entry); }
    Fetchable(mem, dram, l.space, eh.entry);
  }

  lemma EntryBelow(eh: Eh, size: nat)
    requires Accepted(eh, size)
    ensures eh.entry < USER_STACK_BOTTOM
  {
  }

  lemma LoadedPerms(mem: Memory, sp: Space, f: seq<byte>, x: nat)
    requires |f| >= 64 && LoadedAt(mem, sp.pages, f, Segments(f), x)
    ensures PermIn(sp.pages, PageVa(x)) == Perms(Segments(f), x)
  {
    hide Segments, PermIn, Perms;
  }

  lemma Fetchable(mem: Memory, dram: nat, sp: Space, va: u64)
    requires Tables(mem, dram, sp) && va < 0x80_0000_0000 && PermIn(sp.pages, PageVa(va)).x
    ensures Translate(mem, Satp(sp), va, Fetch, true).1.Pa?
  {
    hide Translate, Find, RootOk, L1Ok, DramOk, L0Ok;
    Agreement(mem, dram, sp, va, Fetch);
    assert va % 0x80_0000_0000 == va;
  }

  /** The tables of the current program, and that satp names them. */
  lemma CurrentTables(n: Machine, first: nat)
    requires Ok(n, first) && KernelModel.Has(n, n.tasks.current)
    ensures var sp := n.space[n.tasks.current]; Tables(n.heap.mem, n.k.l1Dram, sp) && sp.root < DRAM_PAGES
  {
    hide Ok, Tables, Live, SysOk, HasMap;
    var me := n.tasks.current;
    MemOf(n, first);
    var free := Freed(Mem(n), first);
    assert HasMap(n.tasks)[me];
    LiveAt(HasMap(n.tasks), n.space, 16, me);
    SpaceTables(Mem(n), first, free, Place(HasMap(n.tasks), n.space, me));
  }

  /** Byte `k` of loaded header `i` of a file with these headers, whose address ranges are disjoint, may be accessed in this way. */
  ghost predicate Permitted(f: seq<byte>, eh: Eh, phs: seq<Ph>, i: nat, k: nat, t: Access) {
    && IsElf(f, eh, phs) && Apart(phs, |f|) && i < |phs| && Loads(phs[i], |f|)
    && k < phs[i].memsz && ElfFormat.Has(Granted(phs[i].flags), Need(t))
  }

  /** The access finds the byte of the file at the offset of the header, or zero behind the bytes the file has. */
  predicate FileByte(mem: Memory, satp: u64, f: seq<byte>, phs: seq<Ph>, i: nat, k: nat, t: Access) {
    && i < |phs| && phs[i].offset + phs[i].filesz <= |f| && phs[i].vaddr + k < 0x1_0000_0000_0000_0000
    && Reads(mem, satp, phs[i].vaddr + k, t) == if k < phs[i].filesz then f[phs[i].offset + k] else 0
  }

  /** After a successful exec, whatever the machine did before: the program at that path, read, written or fetched through the
      page tables where its headers permit it, has the bytes of its file at the addresses its headers name, and its entry can be
      fetched. */
  lemma ExecReads(m: Machine, first: nat, cwd: u32, path: seq<byte>, argv: seq<seq<byte>>, envp: seq<seq<byte>>, shell: bool, eh: Eh,
                  phs: seq<Ph>, i: nat, k: nat, t: Access)
    requires Ok(m, first) && T.Cur(m.tasks).state == T.Running && InRange(m)
    requires ExecProgram(m, cwd, path, argv, envp, shell).1.Some?
    requires Permitted(ProgramAtPath(m.files.fs, cwd, path).bytes, eh, phs, i, k, t)
    ensures var n := ExecProgram(m, cwd, path, argv, envp, shell).0;
            && FileByte(n.heap.mem, n.satp, ProgramAtPath(m.files.fs, cwd, path).bytes, phs, i, k, t)
            && Translate(n.heap.mem, n.satp, eh.entry, Fetch, true).1.Pa?
  {
    hide Ok, ExecProgram, ProgramAtPath, IsElf, Apart, Granted, Reads, Translate, Prepared, Tables, Restored, InRange, Execed, CanStart;
    var p := ProgramAtPath(m.files.fs, cwd, path);
    ExecOk(m, first, cwd, path, argv, envp, shell);
    var (n, r) := ExecProgram(m, cwd, path, argv, envp, shell);
    ExecedFacts(m, n, r.value, p, argv, envp);
    CurrentTables(n, first);
    PreparedReads(n.heap.mem, n.k.l1Dram, r.value, p, argv, envp, eh, phs, i, k, t);
    PreparedFetches(n.heap.mem, n.k.l1Dram, r.value, p, argv, envp, eh, phs);
  }

  lemma ExecedFacts(m: Machine, n: Machine, l: Loaded, p: Program, argv: seq<seq<byte>>, envp: seq<seq<byte>>)
    requires Execed(m, n, l, p, argv, envp)
    ensures KernelModel.Has(n, n.tasks.current) && n.space[n.tasks.current] == l.space && Prepared(n.heap.mem, l, p, argv, envp)
    ensures n.satp == SpaceSatp(l.space)
  {
    hide Prepared, Kept, HasMap, Mem, Place;
  }
}
