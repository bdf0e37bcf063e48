/** What `task_create` and `user_init` leave to their callers: two runs from boot in which a task that has an address space
    makes one of these calls and the kernel falls out of step. */
module KernelCallers {
  import opened Bytes
  import opened PhysMem
  import opened Mmu
  import opened PageAlloc
  import opened Spaces
  import opened SpaceOps
  import opened SpaceView
  import opened ElfLoad
  import opened Programs
  import opened ProgramFiles
  import opened PageNeeds
  import opened InitStack
  import Vm
  import opened KernelModel
  import opened KernelRuns
  import T = TaskModel
  import I = TaskInv
  import F = FileCalls
  import D = Descriptors
  import M = DescriptorMap
  import FsBlocks
  import FsFiles
  import FsTree

  // ---------------------------------------------------------------- a program that loads

  /** Byte `i` of an ELF file of one segment: its 120 bytes, readable and executable at the lowest user address, its entry. */
  function TinyByte(i: nat): byte {
    match i
    case 0 => 0x7f
    case 1 => 0x45
    case 2 => 0x4c
    case 3 => 0x46
    case 4 => 2
    case 5 => 1
    case 6 => 1
    case 16 => 2
    case 18 => 243
    case 20 => 1
    case 26 => 1
    case 32 => 64
    case 52 => 64
    case 54 => 56
    case 56 => 1
    case _ => if i < 64 then 0 else TinySegmentByte(i)
  }

  function TinySegmentByte(i: nat): byte {
    match i
    case 64 => 1
    case 68 => 5
    case 82 => 1
    case 96 => 120
    case 104 => 120
    case _ => 0
  }

  function TinyElf(): (f: seq<byte>)
    ensures |f| == 120 && (forall i :: 0 <= i < 64 ==> f[i] == TinyByte(i)) && forall i :: 64 <= i < 120 ==> f[i] == TinySegmentByte(i)
  {
    seq(120, i requires 0 <= i < 120 => TinyByte(i))
  }

  const TINY := Segment(0, 0x10000, 120, 120, Flags(true, false, true))

  lemma TinyHeader()
    ensures var f := TinyElf(); HeaderOk(f) && U64At(f, 24) == 0x10000 && U64At(f, 32) == 64 && U16At(f, 56) == 1
  {
    hide TinyElf;
  }

  lemma TinyAddress()
    ensures var ph := TinyElf()[64..120]; U32At(ph, 0) == 1 && U32At(ph, 4) == 5 && U64At(ph, 8) == 0 && U64At(ph, 16) == 0x10000
  {
    hide TinyElf;
  }

  lemma TinySizes()
    ensures var ph := TinyElf()[64..120]; U64At(ph, 32) == 120 && U64At(ph, 40) == 120
  {
    hide TinyElf;
  }

  lemma TinySegment()
    ensures ReadSegment(TinyElf(), 64) == Loadable(TINY)
  {
    hide TinyElf, U32At, U64At;
    TinyAddress();
    TinySizes();
  }

  lemma TinyPages()
    ensures |SegmentPages(TINY) + PageRange(USER_STACK_BOTTOM, USER_STACK_TOP)| <= 5
  {
    assert SegmentPages(TINY) == {0x10000};
    assert PageRange(USER_STACK_BOTTOM, USER_STACK_TOP) == {0x1f_c000, 0x1f_d000, 0x1f_e000, 0x1f_f000};
  }

  lemma TinySegments()
    ensures |TinyElf()| >= 64 && Segments(TinyElf()) == [TINY] && Needs([TINY]) == SegmentPages(TINY) && Perms([TINY], 0x10000).x
  {
    hide TinyElf, U64At, U16At, ReadSegment, HeaderOk, SegmentPages;
    TinyHeader();
    TinySegment();
    assert SegmentsFrom(TinyElf(), 64, 1, 1) == [];
    assert [TINY][..0] == [] && [TINY][1..] == [];
    assert Covers(TINY, 0x10000);
  }

  /** It needs eight pages: three tables, its own page and four of stack. */
  lemma TinyLoads(s: Sys)
    requires s.heap.totalFree >= 8
    ensures CanLoad(s, Program(true, TinyElf()))
  {
    hide TinyElf, HeaderOk, U64At, U16At, ReadSegment, SegmentsFrom, Perms, Needs, SegmentPages, PageRange;
    TinyHeader();
    TinySegment();
    TinySegments();
    TinyPages();
  }

  // ---------------------------------------------------------------- the calls

  /** What attaching a first program leaves of the rest. */
  lemma AttachFrame(m: Machine, cwd: u32, path: seq<byte>, argv: seq<seq<byte>>, envp: seq<seq<byte>>)
    requires InRange(m) && T.Used(T.Cur(m.tasks)) && PrepareFile(m.heap, m.k, m.files.fs, cwd, path, argv, envp).1.Some?
    ensures var n := AttachProgram(m, cwd, path, argv, envp).0;
            && T.Cur(n.tasks).state == T.Cur(m.tasks).state && Has(n, n.tasks.current)
            && n.files == m.files && n.tasks.taskCount == m.tasks.taskCount && n.heap == PrepareFile(m.heap, m.k, m.files.fs, cwd, path, argv, envp).0
            && (forall i :: 0 <= i < 16 ==> T.Used(n.tasks.tasks[i]) == T.Used(m.tasks.tasks[i]))
  {
    hide PrepareFile, InMemory;
  }

  /** A first program attached by a running task that had none. */
  lemma Attached(m: Machine, first: nat, cwd: u32, path: seq<byte>, argv: seq<seq<byte>>, envp: seq<seq<byte>>)
    requires Ok(m, first) && InRange(m) && T.Cur(m.tasks).state == T.Running && !Has(m, m.tasks.current)
    requires CanStart(Mem(m), m.files.fs, cwd, path, argv, envp)
    ensures var n := AttachProgram(m, cwd, path, argv, envp).0;
            && Ok(n, first) && InRange(n) && T.Cur(n.tasks).state == T.Running && Has(n, n.tasks.current)
            && n.files == m.files && n.tasks.taskCount == m.tasks.taskCount
            && (forall i :: 0 <= i < 16 ==> T.Used(n.tasks.tasks[i]) == T.Used(m.tasks.tasks[i]))
            && n.heap.totalFree >= m.heap.totalFree - 3 - USER_MAX_PAGES
  {
    hide Ok, CanStart, PrepareFile, Mem, InRange, AttachProgram;
    AttachKeepsIff(m, first, cwd, path, argv, envp);
    Sound(AttachProgram(m, cwd, path, argv, envp).0, first);
    PreparedFree(m, first, cwd, path, argv, envp);
    AttachFrame(m, cwd, path, argv, envp);
  }

  lemma PreparedFree(m: Machine, first: nat, cwd: u32, path: seq<byte>, argv: seq<seq<byte>>, envp: seq<seq<byte>>)
    requires Ok(m, first) && InRange(m) && CanStart(Mem(m), m.files.fs, cwd, path, argv, envp)
    ensures var (h, made) := PrepareFile(m.heap, m.k, m.files.fs, cwd, path, argv, envp);
            made.Some? && h.totalFree >= m.heap.totalFree - 3 - USER_MAX_PAGES
  {
    hide I.TableOk, F.MachineOk, Owners, SomeFree, SatpOk, CanStart, FindFile, PrepareFile, Prepared, HasMap, Mem, InMemory, Built, InRange;
    KernelOf(m);
    var free := Freed(Mem(m), first);
    PrepareFileOk(Mem(m), first, free, m.files.fs, cwd, path, argv, envp);
    var (h, made) := PrepareFile(m.heap, m.k, m.files.fs, cwd, path, argv, envp);
    BuiltSpace(Mem(m), first, h, made.value.space);
    BuiltFree(Mem(m), first, h, made.value.space);
  }

  /** A space built beside the others takes three tables and its pages. */
  lemma BuiltFree(s: Sys, first: nat, h: Heap, sp: Space)
    requires SomeFree(s, first, multiset{}) && Built(s, first, h, sp)
    ensures h.totalFree == s.heap.totalFree - 3 - |sp.pages|
  {
    hide SysOk, Kept, SpacePageCount;
    Conserved(s, first);
    Conserved(Sys(h, s.k, s.spaces + [sp]), first);
    CountAdded(s.spaces, sp);
  }

  lemma FreeSlotSame(a: seq<T.Task>, b: seq<T.Task>, i: nat)
    requires i <= 16 == |a| == |b| && forall j :: 0 <= j < 16 ==> T.Used(b[j]) == T.Used(a[j])
    ensures T.FreeSlot(b, i) == T.FreeSlot(a, i)
  {
    hide T.FreeSlot;
  }

  /** Once a task has attached a program, creating a task from it gives the new one a satp that is not its own. */
  lemma CreateFromProgram(m: Machine, first: nat, cwd: u32, path: seq<byte>, argv: seq<seq<byte>>, envp: seq<seq<byte>>, shell: bool)
    requires Ok(m, first) && InRange(m) && T.Cur(m.tasks).state == T.Running && !Has(m, m.tasks.current)
    requires CanStart(Mem(m), m.files.fs, cwd, path, argv, envp) && CanCreate(m)
    ensures var n := AttachProgram(m, cwd, path, argv, envp).0;
            Ok(n, first) && CreateTask(n, shell).1 >= 0 && !Ok(CreateTask(n, shell).0, first)
  {
    hide Ok, CanStart, AttachProgram, CreateTask, M.RoomForTable, Mem, InRange, T.FreeSlot;
    Attached(m, first, cwd, path, argv, envp);
    var n := AttachProgram(m, cwd, path, argv, envp).0;
    FreeSlotSame(m.tasks.tasks, n.tasks.tasks, 1);
    CreateKeepsIff(n, first, shell);
  }

  /** Attaching a second one loses the pages of the first. */
  lemma AttachTwice(m: Machine, first: nat, cwd: u32, path: seq<byte>, argv: seq<seq<byte>>, envp: seq<seq<byte>>)
    requires Ok(m, first) && InRange(m) && T.Cur(m.tasks).state == T.Running && !Has(m, m.tasks.current)
    requires CanStart(Mem(m), m.files.fs, cwd, path, argv, envp) && m.heap.totalFree >= 2 * (3 + USER_MAX_PAGES)
    ensures var n := AttachProgram(m, cwd, path, argv, envp).0;
            Ok(n, first) && InRange(n) && !Ok(AttachProgram(n, cwd, path, argv, envp).0, first)
  {
    hide Ok, Fits, AttachProgram, HeaderOk, HeadersOk, SegmentsFrom, Perms, Needs, PageRange, InRange, FindFile, Readable, FsBlocks.ByteAt;
    Attached(m, first, cwd, path, argv, envp);
    var n := AttachProgram(m, cwd, path, argv, envp).0;
    KernelOf(m);
    KernelOf(n);
    AttachKeepsIff(n, first, cwd, path, argv, envp);
  }

  /** At boot there is room for more tasks. */
  lemma BootRoom(mem: Memory, first: nat, fs: FsBlocks.Fs, policy: T.Policy, quantum: nat, m: Machine)
    requires Booted(mem, first, fs, policy, quantum, m)
    ensures CanCreate(m) && T.Cur(m.tasks).state == T.Running && !Has(m, m.tasks.current) && m.files.fs == fs
    ensures m.heap.totalFree == STACK_TOP - GUARD_PAGES - first - 3
  {
    hide Vm.VmInit, FsTree.FsInv, D.ProcessInit, M.RoomForTable, SomeFree, SpacePageCount, I.TableOk, F.MachineOk, Owners, SatpOk, Mem;
    BootTables();
    assert T.FreeSlot(m.tasks.tasks, 1) == 1;
    SameBoot(mem, first, fs, policy, quantum, m);
    BootFree(mem, first);
  }

  lemma BootFree(mem: Memory, first: nat)
    requires KERNEL_START < first && first + 3 <= STACK_TOP - GUARD_PAGES
    ensures Vm.VmInit(MemInit(mem, first)).0.totalFree == STACK_TOP - GUARD_PAGES - first - 3
  {
    hide Vm.BuildTables;
    BuildTablesFree(MemInit(mem, first).(bump := first + 3, totalFree := STACK_TOP - GUARD_PAGES - first - 3), first);
  }

  lemma BuildTablesFree(h: Heap, first: nat)
    requires first + 3 <= DRAM_PAGES
    ensures Vm.BuildTables(h, first, first + 1, first + 2).totalFree == h.totalFree
  {
    hide SetWord, Pte, Vm.FillEntries;
  }

  lemma AllocProcs(d: D.Fds, kind: D.Kind, flags: int, inode: u32)
    ensures D.Alloc(d, kind, flags, inode).0.procs == d.procs
  {
  }

  lemma BootTables()
    ensures M.RoomForTable(D.ProcessInit(D.Fds(D.NoFiles(), D.NoProcesses()), 0).0)
  {
    hide D.FindProcess, D.FreeProcess, D.Alloc;
    var d := D.Fds(D.NoFiles(), D.NoProcesses());
    NoTables(0);
    assert !d.procs[0].used;
    assert D.FreeProcess(d.procs, 0) == 0;
    var d0 := d.(procs := d.procs[0 := D.Process(true, 0, D.NoFds(), D.NoBits())]);
    var (d1, a) := D.Alloc(d0, D.ConsoleIn, 0, 0);
    var (d2, b) := D.Alloc(d1, D.ConsoleOut, 1, 0);
    var (d3, c) := D.Alloc(d2, D.ConsoleOut, 1, 0);
    assert forall k :: 0 <= k < 64 ==> M.FreeAt(d0, k);
    M.AllocTakes(d0, D.ConsoleIn, 0, 0);
    assert M.FreeAt(d0, 0);
    M.AllocTakes(d1, D.ConsoleOut, 1, 0);
    assert M.FreeAt(d1, 1);
    M.AllocTakes(d2, D.ConsoleOut, 1, 0);
    assert M.FreeAt(d2, 2);
    AllocProcs(d0, D.ConsoleIn, 0, 0);
    AllocProcs(d1, D.ConsoleOut, 1, 0);
    AllocProcs(d2, D.ConsoleOut, 1, 0);
    var e := D.ProcessInit(d, 0).0;
    assert e.files == d3.files;
    assert M.FreeAt(d3, 3) && M.FreeAt(d3, 4) && M.FreeAt(d3, 5);
    assert !e.procs[1].used;
    assert M.FreeAt(e, 3) && M.FreeAt(e, 4) && M.FreeAt(e, 5);
  }

  /** Both happen right after boot, on any disk with the tiny program: idle attaches it, and then either call breaks the
      machine. */
  lemma FromBootBroken(mem: Memory, first: nat, fs: FsBlocks.Fs, policy: T.Policy, quantum: nat, m: Machine, cwd: u32, path: seq<byte>,
                       shell: bool)
    requires Booted(mem, first, fs, policy, quantum, m) && first + 3 + 2 * (3 + USER_MAX_PAGES) <= STACK_TOP - GUARD_PAGES
    requires var n := FindFile(fs, cwd, path);
             n >= 0 && FileProgram(fs, n) == Program(true, TinyElf()) && FsFiles.NoHoles(fs, n)
    ensures InRange(m)
    ensures var n := AttachProgram(m, cwd, path, [], []).0;
            && Enabled(m, Attach(cwd, path, [], [])) && Ok(n, first) && InRange(n)
            && !Ok(CreateTask(n, shell).0, first) && !Ok(AttachProgram(n, cwd, path, [], []).0, first)
  {
    hide Ok, Booted, InRange, TinyElf, AttachProgram, CreateTask, CanLoad, CanCreate, Mem, FindFile, FileProgram, FsBlocks.ByteAt,
         FsFiles.NoHoles, Readable;
    SameBoot(mem, first, fs, policy, quantum, m);
    Sound(m, first);
    BootRoom(mem, first, fs, policy, quantum, m);
    KernelOf(m);
    TinyLoads(Mem(m));
    TinyReadable(fs, FindFile(fs, cwd, path));
    CreateFromProgram(m, first, cwd, path, [], [], shell);
    AttachTwice(m, first, cwd, path, [], []);
  }

  lemma TinyReadable(fs: FsBlocks.Fs, n: nat)
    requires n < 256 && FileProgram(fs, n) == Program(true, TinyElf()) && FsFiles.NoHoles(fs, n)
    ensures Readable(fs, n)
  {
    hide TinyElf, FsFiles.NoHoles, Readable;
    assert |FsFiles.Content(fs, n)| == fs.inodes[n].size;
    NoHolesReadable(fs, n);
  }
}
