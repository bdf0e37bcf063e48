/** Whole runs of the kernel machine: the process table, the descriptor tables, the address spaces and satp stay in step. */
module KernelRuns {
  import opened Bytes
  import opened PhysMem
  import opened Mmu
  import opened PageAlloc
  import opened Spaces
  import opened SpaceOps
  import opened SpaceCopy
  import opened SpaceView
  import opened ElfLoad
  import opened Programs
  import opened ProgramFiles
  import opened PageNeeds
  import InitStack
  import opened SlotSpaces
  import opened Vm
  import opened KernelAccess
  import opened KernelModel
  import opened TaskOwners
  import T = TaskModel
  import I = TaskInv
  import F = FileCalls
  import D = Descriptors
  import M = DescriptorMap
  import FsTree
  import FsBlocks

  /** The satp slot `i` should run on: its own space's, or the kernel's. */
  function OwnSatp(m: Machine, i: nat): u64
    requires i < 16
  {
    if Has(m, i) then SpaceSatp(m.space[i]) else KSatp(m.k)
  }

  /** Every task in use will be resumed on its own space, and the current one runs on it. */
  ghost predicate SatpOk(m: Machine) {
    && (forall i :: 0 <= i < 16 && T.Used(m.tasks.tasks[i]) ==> m.saved[i] == OwnSatp(m, i))
    && m.satp == m.saved[m.tasks.current]
  }

  /** Exactly the pids the process table counts on own a descriptor table. */
  ghost predicate Owners(m: Machine) {
    forall pid :: pid in m.tasks.fds <==> D.OwnsTable(m.files.fds, pid)
  }

  /** The process table, the file system with its descriptors, memory and satp are each sound, and agree. */
  ghost predicate Ok(m: Machine, first: nat) {
    I.TableOk(m.tasks) && F.MachineOk(m.files) && Owners(m) && SomeFree(Mem(m), first, multiset{}) && SatpOk(m)
  }

  // ---------------------------------------------------------------- reading the invariant

  lemma CurrentUsed(m: Machine, first: nat)
    requires Ok(m, first)
    ensures T.Used(T.Cur(m.tasks))
  {
    hide F.MachineOk, Owners, SomeFree, SatpOk, I.ProcessesOk, I.NoLostWakeup;
  }

  /** The space of slot `i` in the list of those that exist. */
  lemma Listed(m: Machine, first: nat, i: nat)
    requires SomeFree(Mem(m), first, multiset{}) && i < 16 && Has(m, i)
    ensures var p := Place(HasMap(m.tasks), m.space, i);
            p < |Mem(m).spaces| && Mem(m).spaces[p] == m.space[i] && InMemory(m.space[i]) && m.space[i].root < DRAM_PAGES
  {
    hide SysOk;
    LiveAt(HasMap(m.tasks), m.space, 16, i);
    var free: seq<nat> :| SysOk(Mem(m), first, free, multiset{});
    SpaceListed(Mem(m), first, free, multiset{}, Place(HasMap(m.tasks), m.space, i));
  }

  lemma RangeOk(m: Machine, first: nat)
    requires SomeFree(Mem(m), first, multiset{})
    ensures InRange(m) && m.k.l2 < DRAM_PAGES
  {
    hide SysOk, InMemory;
    var free: seq<nat> :| SysOk(Mem(m), first, free, multiset{});
    KernelInDram(Mem(m), first, free, multiset{});
    forall i | 0 <= i < 16 && Has(m, i) ensures InMemory(m.space[i]) {
      Listed(m, first, i);
    }
  }

  /** satp names the kernel's root, or that of the space of the current task, which exists. */
  lemma SatpLive(m: Machine, first: nat)
    requires Ok(m, first)
    ensures SatpOf(Mem(m), m.satp)
    ensures m.satp == OwnSatp(m, m.tasks.current)
  {
    hide I.TableOk, F.MachineOk, Owners, SomeFree, Mem;
    CurrentUsed(m, first);
    RangeOk(m, first);
    if Has(m, m.tasks.current) {
      Listed(m, first, m.tasks.current);
    }
    assert Mem(m).k == m.k by { KernelOf(m); }
  }

  lemma KernelOf(m: Machine)
    ensures Mem(m).k == m.k && Mem(m).heap == m.heap
  {
  }

  // ---------------------------------------------------------------- steps that leave memory alone

  /** The same owners on the same spaces: memory is the same. */
  lemma SameMem(m: Machine, n: Machine)
    requires n.heap == m.heap && n.k == m.k && HasMap(n.tasks) == HasMap(m.tasks)
    requires forall i :: 0 <= i < 16 && Has(m, i) ==> n.space[i] == m.space[i]
    ensures Mem(n) == Mem(m)
  {
    LiveSame(HasMap(m.tasks), m.space, HasMap(n.tasks), n.space, 16);
  }

  lemma SameSatps(m: Machine, n: Machine)
    requires SatpOk(m) && SameOwners(m.tasks, n.tasks) && n.space == m.space && n.saved == m.saved && n.k == m.k
    requires n.satp == n.saved[n.tasks.current]
    ensures SatpOk(n)
  {
    forall i | 0 <= i < 16 && T.Used(n.tasks.tasks[i]) ensures n.saved[i] == OwnSatp(n, i) {
      assert T.Used(m.tasks.tasks[i]) && HasMap(n.tasks)[i] == HasMap(m.tasks)[i];
    }
  }

  lemma SavedAgain(m: Machine)
    requires SatpOk(m)
    ensures SetSaved(m.saved, m.tasks.current, m.satp) == m.saved
  {
  }

  /** A trap that goes on in slot `ts.current` runs it on the satp it was left with, its own; every other slot keeps its own. */
  lemma TrapOk(m: Machine, first: nat, ts: T.Sys)
    requires Ok(m, first) && I.TableOk(ts) && SameOwners(m.tasks, ts) && ts.fds == m.tasks.fds
    ensures var n := Trap(m, ts);
            && Ok(n, first) && n.saved == m.saved && n.heap == m.heap && n.space == m.space && n.files == m.files
            && n.satp == m.saved[n.tasks.current] && n.tasks == if m.tasks.taskCount <= 1 then m.tasks else ts
  {
    hide I.TableOk, F.MachineOk, SomeFree, SatpOk, Mem, SameOwners;
    SavedAgain(m);
    SatpCurrent(m);
    var n := Trap(m, ts);
    if m.tasks.taskCount > 1 {
      assert HasMap(ts) == HasMap(m.tasks) by { OwnersMap(m.tasks, ts); }
      SameMem(m, n);
      SameSatps(m, n);
    }
  }

  lemma OwnersMap(s: T.Sys, u: T.Sys)
    requires SameOwners(s, u)
    ensures HasMap(u) == HasMap(s)
  {
  }

  /** A step of the table, and of the descriptor tables, by the current task. */
  lemma TableStep(m: Machine, first: nat, n: Machine)
    requires Ok(m, first) && I.TableOk(n.tasks) && SameOwners(m.tasks, n.tasks) && n.tasks.current == m.tasks.current
    requires n == m.(tasks := n.tasks, files := n.files) && F.MachineOk(n.files) && Owners(n)
    ensures Ok(n, first)
  {
    hide I.TableOk, F.MachineOk, SomeFree, SatpOk, Mem, SameOwners, Owners;
    assert HasMap(n.tasks) == HasMap(m.tasks) by { OwnersMap(m.tasks, n.tasks); }
    SameMem(m, n);
    assert n.satp == n.saved[n.tasks.current] by { SatpCurrent(m); }
    SameSatps(m, n);
  }

  lemma SatpCurrent(m: Machine)
    requires SatpOk(m)
    ensures m.satp == m.saved[m.tasks.current]
  {
  }

  lemma SchedOk(m: Machine, first: nat, op: T.Op)
    requires Ok(m, first) && T.Enabled(m.tasks, op) && TableOnly(op)
    ensures Ok(m.(tasks := T.Step(m.tasks, op)), first)
  {
    hide I.TableOk, F.MachineOk, SomeFree, SatpOk, T.Step, SameOwners;
    CurrentUsed(m, first);
    I.StepOk(m.tasks, op);
    QuietOwners(m.tasks, op);
    TableStep(m, first, m.(tasks := T.Step(m.tasks, op)));
  }

  /** File calls leave every descriptor table with its process. */
  lemma CallOwners(f: F.Machine, c: F.Call, me: int, q: int)
    requires F.MachineOk(f) && F.Allowed(f, c) && OwnCall(c, me)
    ensures D.OwnsTable(F.Step(f, c).fds, q) <==> D.OwnsTable(f.fds, q)
  {
    hide FsTree.FsInv, F.FilesLive, D.Balanced, D.OwnsTable, D.Close, D.Dup2, D.SetCloexec, F.Write, F.Read, F.Seek;
    match c
    case DoCloexec(pid, fd, on) => D.CloexecOk(f.fds, pid, fd, on);
    case DoClose(pid, fd) => D.CloseOk(f.fds, pid, fd);
    case DoDup2(pid, oldfd, newfd) => D.Dup2Ok(f.fds, pid, oldfd, newfd);
    case DoOpen(pid, cwd, path, flags) => OpenOwners(f, pid, cwd, path, flags, q);
    case DoWrite(pid, fd, src) => SameProcs(f.fds, F.Write(f, pid, fd, src).0.fds, q) by { WriteProcs(f, pid, fd, src); }
    case DoRead(pid, fd, len, typed) => SameProcs(f.fds, F.Read(f, pid, fd, len, typed).0.fds, q) by { ReadProcs(f, pid, fd, len, typed); }
    case DoSeek(pid, fd, o, w) => SameProcs(f.fds, F.Seek(f, pid, fd, o, w).0.fds, q) by { SeekProcs(f, pid, fd, o, w); }
    case _ =>
  }

  lemma SameProcs(d: D.Fds, e: D.Fds, q: int)
    requires e.procs == d.procs
    ensures D.OwnsTable(e, q) <==> D.OwnsTable(d, q)
  {
  }

  lemma WriteProcs(f: F.Machine, pid: int, fd: int, src: seq<byte>)
    ensures F.Write(f, pid, fd, src).0.fds.procs == f.fds.procs
  {
  }

  lemma ReadProcs(f: F.Machine, pid: int, fd: int, len: nat, typed: seq<byte>)
    ensures F.Read(f, pid, fd, len, typed).0.fds.procs == f.fds.procs
  {
  }

  lemma SeekProcs(f: F.Machine, pid: int, fd: int, offset: int, whence: F.Whence)
    ensures F.Seek(f, pid, fd, offset, whence).0.fds.procs == f.fds.procs
  {
  }

  lemma OpenOwners(f: F.Machine, pid: int, cwd: u32, path: seq<byte>, flags: int, q: int)
    requires F.MachineOk(f)
    ensures D.OwnsTable(F.Open(f, pid, cwd, path, flags).0.fds, q) <==> D.OwnsTable(f.fds, q)
  {
    hide FsTree.FsInv, F.FilesLive, D.Balanced, D.Install, F.FsRuns.OpenFile;
    var p := D.FindProcess(f.fds.procs, pid, 0);
    if p < 16 && F.FlagsOk(flags) {
      var (g, n) := F.FsRuns.OpenFile(f.fs, cwd, path, F.FlagBit(flags, F.CREATE), F.FlagBit(flags, F.TRUNC));
      if 0 <= n < 256 {
        D.InstallOk(f.fds, pid, flags, n, if F.FlagBit(flags, F.APPEND) then g.inodes[n].size else 0);
      }
    }
  }

  lemma FileOk(m: Machine, first: nat, c: F.Call)
    requires Ok(m, first) && F.Allowed(m.files, c) && OwnCall(c, Me(m))
    ensures Ok(m.(files := F.Step(m.files, c)), first)
  {
    hide I.TableOk, F.MachineOk, SomeFree, SatpOk, F.Step, F.Allowed, Mem, SameOwners, D.OwnsTable;
    F.StepOk(m.files, c);
    var n := m.(files := F.Step(m.files, c));
    forall pid ensures pid in n.tasks.fds <==> D.OwnsTable(n.files.fds, pid) {
      CallOwners(m.files, c, Me(m), pid);
    }
    OwnersSelf(m.tasks);
    TableStep(m, first, n);
  }

  lemma OwnersSelf(s: T.Sys)
    ensures SameOwners(s, s)
  {
  }

  // ---------------------------------------------------------------- exit and kill

  lemma CloseOwners(m: Machine, pid: int, n: Machine)
    requires F.MachineOk(m.files) && Owners(m)
    requires n.files == F.Step(m.files, F.DoCloseAll(pid)) && n.tasks.fds == m.tasks.fds - {pid}
    ensures F.MachineOk(n.files) && Owners(n)
    ensures forall q :: D.OwnsTable(n.files.fds, q) <==> D.OwnsTable(m.files.fds, q) && q != pid
  {
    hide D.CloseAll, D.OwnsTable, D.Balanced, FsTree.FsInv, F.FilesLive;
    F.StepOk(m.files, F.DoCloseAll(pid));
    D.CloseAllOk(m.files.fds, pid);
  }

  /** What a death leaves: no descriptor table for the dead, every other process its own, and all memory and satp as they were. */
  ghost predicate Died(m: Machine, n: Machine, pid: int) {
    && (forall q :: D.OwnsTable(n.files.fds, q) <==> D.OwnsTable(m.files.fds, q) && q != pid)
    && SameOwners(m.tasks, n.tasks) && n.tasks.current == m.tasks.current
    && n == m.(tasks := n.tasks, files := n.files)
  }

  /** `task_exit` of anybody but idle closes the descriptors and keeps the space for whoever reaps it. */
  lemma ExitOk(m: Machine, first: nat, code: int)
    requires Ok(m, first) && T.Cur(m.tasks).state == T.Running
    ensures Ok(ExitTask(m, code), first)
    ensures if Me(m) == 0 then ExitTask(m, code) == m else Died(m, ExitTask(m, code), Me(m))
  {
    hide I.TableOk, F.MachineOk, SomeFree, SatpOk, F.Step, Mem, SameOwners, Owners, T.Die;
    CurrentUsed(m, first);
    I.ExitOk(m.tasks, code);
    var n := ExitTask(m, code);
    if Me(m) == 0 {
      OwnersSelf(m.tasks);
      assert Owners(n) by { SameOwned(m, n); }
    } else {
      DieOwners(m.tasks, m.tasks.current, code, false);
      CloseOwners(m, Me(m), n);
      assert Died(m, n, Me(m));
    }
    TableStep(m, first, n);
  }

  lemma SameOwned(m: Machine, n: Machine)
    requires Owners(m) && n.files == m.files && n.tasks.fds == m.tasks.fds
    ensures Owners(n)
  {
  }

  lemma KillOk(m: Machine, first: nat, pid: int, code: int)
    requires Ok(m, first) && T.Cur(m.tasks).state == T.Running
    ensures Ok(KillTask(m, pid, code).0, first)
    ensures var (n, r) := KillTask(m, pid, code); if r < 0 then n == m else Died(m, n, pid)
  {
    hide I.TableOk, F.MachineOk, SomeFree, SatpOk, F.Step, Mem, SameOwners, Owners, T.Die, T.FindPid;
    I.KillOk(m.tasks, pid, code);
    var (n, r) := KillTask(m, pid, code);
    if r < 0 {
      OwnersSelf(m.tasks);
      assert Owners(n) by { SameOwned(m, n); }
    } else {
      DieOwners(m.tasks, T.FindPid(m.tasks.tasks, pid, 0), code, true);
      CloseOwners(m, pid, n);
      assert Died(m, n, pid);
    }
    TableStep(m, first, n);
  }

  // ---------------------------------------------------------------- steps that change who owns what

  /** satp stays right when only slot `e`, which is not current, changes, and changes rightly. */
  lemma SatpBeside(m: Machine, n: Machine, e: nat)
    requires SatpOk(m) && e < 16 && n.k == m.k && n.tasks.current == m.tasks.current != e && n.satp == m.satp
    requires forall i :: 0 <= i < 16 && i != e ==>
               n.tasks.tasks[i] == m.tasks.tasks[i] && n.saved[i] == m.saved[i] && n.space[i] == m.space[i]
    requires T.Used(n.tasks.tasks[e]) ==> n.saved[e] == OwnSatp(n, e)
    ensures SatpOk(n)
  {
    forall i | 0 <= i < 16 && T.Used(n.tasks.tasks[i]) ensures n.saved[i] == OwnSatp(n, i) {
      if i != e {
        assert m.saved[i] == OwnSatp(m, i);
      }
    }
  }

  /** What reaping slot `z` leaves: the slot and its space are gone, with its pages back and its descriptors closed; every other
      slot has its task, its space and every byte of it. */
  ghost predicate Reaped(m: Machine, n: Machine, z: nat)
    requires z < 16
  {
    && z != m.tasks.current && !T.Used(n.tasks.tasks[z]) && !D.OwnsTable(n.files.fds, m.tasks.tasks[z].pid)
    && HasMap(n.tasks) == HasMap(m.tasks)[z := false]
    && (forall i :: 0 <= i < 16 && i != z ==> n.tasks.tasks[i] == m.tasks.tasks[i] && n.space[i] == m.space[i])
    && Kept(m.heap.mem, n.heap.mem, Mem(n).spaces) && n.satp == m.satp && n.tasks.current == m.tasks.current
    && (Has(m, z) ==> n.space[z] == NO_SPACE)
    && n.heap.totalFree == m.heap.totalFree + if Has(m, z) then 3 + |m.space[z].pages| else 0
  }

  /** `task_waitpid`: a zombie reaped, or nothing but the caller's own state changed. */
  lemma WaitOk(m: Machine, first: nat, target: int, nohang: bool)
    requires Ok(m, first) && T.Enabled(m.tasks, T.DoWait(target, nohang)) && InRange(m)
    ensures Ok(WaitTask(m, target, nohang).0, first)
    ensures var z := T.FindZombie(m.tasks.tasks, Me(m), target, 1);
            var n := WaitTask(m, target, nohang).0;
            if z == 16 then n == m.(tasks := n.tasks) && SameOwners(m.tasks, n.tasks) else Reaped(m, n, z)
  {
    hide I.TableOk, F.MachineOk, SomeFree, SatpOk, F.Step, Mem, SameOwners, Owners, T.WaitPid, T.FindZombie, T.Hangs, InMemory, HasMap;
    I.WaitOk(m.tasks, target, nohang);
    WaitOwners(m.tasks, target, nohang);
    var z := T.FindZombie(m.tasks.tasks, Me(m), target, 1);
    var n := WaitTask(m, target, nohang).0;
    if z == 16 {
      assert Owners(n) by { SameOwned(m, n); }
      TableStep(m, first, n);
    } else {
      CloseOwners(m, m.tasks.tasks[z].pid, n);
      SatpBeside(m, n, z);
      if Has(m, z) {
        ReapedMem(m, first, z, n);
      } else {
        assert HasMap(n.tasks) == HasMap(m.tasks);
        SameMem(m, n);
        assert n.heap == m.heap;
      }
    }
  }

  /** Reaping takes the pages of one space back and touches no other. */
  lemma ReapedMem(m: Machine, first: nat, z: nat, n: Machine)
    requires SomeFree(Mem(m), first, multiset{}) && z < 16 && Has(m, z) && InMemory(m.space[z])
    requires n.k == m.k && n.heap == Destroy(m.heap, m.space[z]) && HasMap(n.tasks) == HasMap(m.tasks)[z := false]
    requires forall i :: 0 <= i < 16 && i != z ==> n.space[i] == m.space[i]
    ensures SomeFree(Mem(n), first, multiset{}) && Kept(m.heap.mem, n.heap.mem, Mem(n).spaces)
    ensures n.heap.totalFree == m.heap.totalFree + 3 + |m.space[z].pages|
  {
    hide SysOk, Destroy, Kept, HasMap, Live, SpacePageCount;
    Listed(m, first, z);
    var free: seq<nat> :| SysOk(Mem(m), first, free, multiset{});
    var has, has2 := HasMap(m.tasks), HasMap(n.tasks);
    LiveRemove(has, m.space, 16, z, has2, n.space) by { assert has[z]; }
    DestroyOk(Mem(m), first, free, Place(has, m.space, z));
    DestroyEnd(m.heap, m.space[z]);
    CountRemoved(Mem(m).spaces, Place(has, m.space, z));
    Conserved(Mem(m), first);
    Conserved(Mem(n), first);
  }

  lemma CountRemoved(spaces: seq<Space>, p: nat)
    requires p < |spaces|
    ensures SpacePageCount(Others(spaces, p)) == SpacePageCount(spaces) - 3 - |spaces[p].pages|
  {
    hide AllUsed, SpacePageCount;
    AllUsedRemove(spaces, p);
    UsedSize(spaces);
    UsedSize(Others(spaces, p));
    PagesSize(spaces[p].pages);
    assert |SpaceUsed(spaces[p])| == 3 + |spaces[p].pages|;
  }

  /** A space built beside the others goes to a slot that had none. */
  lemma GivenMem(m: Machine, first: nat, h: Heap, sp: Space, e: nat, n: Machine)
    requires e < 16 && !HasMap(m.tasks)[e] && Built(Mem(m), first, h, sp)
    requires n.k == m.k && n.heap == h && n.space[e] == sp && HasMap(n.tasks) == HasMap(m.tasks)[e := true]
    requires forall i :: 0 <= i < 16 && i != e ==> n.space[i] == m.space[i]
    ensures SomeFree(Mem(n), first, multiset{}) && n.heap.end == m.heap.end && Kept(m.heap.mem, n.heap.mem, Mem(m).spaces)
  {
    hide SysOk, Kept, HasMap, Live, SamePages;
    var s := Mem(m);
    LiveAdd(HasMap(m.tasks), m.space, 16, e, HasMap(n.tasks), n.space);
    Reordered(Sys(h, s.k, s.spaces + [sp]), first, Mem(n).spaces);
  }

  lemma InitOwned(m: Machine, pid: int, n: Machine)
    requires F.MachineOk(m.files) && Owners(m) && n.files == F.Step(m.files, F.DoInit(pid))
    requires n.tasks.fds == if D.ProcessInit(m.files.fds, pid).1 >= 0 then m.tasks.fds + {pid} else m.tasks.fds
    ensures F.MachineOk(n.files) && Owners(n)
  {
    hide D.ProcessInit, D.OwnsTable, D.Balanced, FsTree.FsInv, F.FilesLive;
    F.StepOk(m.files, F.DoInit(pid));
    D.InitOk(m.files.fds, pid);
  }

  /** Before the call: `task_create` will succeed. A slot, a descriptor table and three open files are free. */
  ghost predicate CanCreate(m: Machine) {
    CanSpawn(m.tasks) && M.RoomForTable(m.files.fds)
  }

  lemma CreateParts(m: Machine, shell: bool)
    requires I.TableOk(m.tasks) && F.MachineOk(m.files) && Owners(m) && T.Cur(m.tasks).state == T.Running && CanSpawn(m.tasks)
    ensures var (n, r) := CreateTask(m, shell);
            var slot := T.FreeSlot(m.tasks.tasks, 1);
            && I.TableOk(n.tasks) && F.MachineOk(n.files) && Owners(n) && slot != m.tasks.current
            && HasMap(n.tasks) == HasMap(m.tasks) && !HasMap(m.tasks)[slot] && n.tasks.current == m.tasks.current
            && (forall i :: 0 <= i < 16 && i != slot ==> n.tasks.tasks[i] == m.tasks.tasks[i])
            && (T.Used(n.tasks.tasks[slot]) <==> r >= 0) && (r >= 0 <==> M.RoomForTable(m.files.fds))
  {
    hide I.TableOk, F.MachineOk, F.Step, SameOwners, Owners, T.Spawn, T.FreeSlot, D.ProcessInit, HasMap, M.RoomForTable;
    var slot, pid := T.FreeSlot(m.tasks.tasks, 1), m.tasks.nextPid;
    var ok := D.ProcessInit(m.files.fds, pid).1 >= 0;
    I.SpawnOk(m.tasks, false, shell, ok);
    SpawnOwners(m.tasks, false, shell, ok);
    var (n, r) := CreateTask(m, shell);
    SpawnSlots(m.tasks, false, shell, ok);
    FreshPid(m);
    M.InitIff(m.files.fds, pid);
    InitOwned(m, pid, n);
    UnusedHasNot(m.tasks, slot);
  }

  lemma UnusedHasNot(s: T.Sys, i: nat)
    requires i < 16 && !T.Used(s.tasks[i])
    ensures !HasMap(s)[i] && HasMap(s)[i := false] == HasMap(s)
  {
  }

  /** Only the slot taken changes. */
  lemma SpawnSlots(s: T.Sys, fork: bool, shell: bool, fdOk: bool)
    requires CanSpawn(s) && I.TableOk(s)
    ensures var (u, pid) := T.Spawn(s, fork, shell, fdOk);
            var slot := T.FreeSlot(s.tasks, 1);
            && (forall i :: 0 <= i < 16 && i != slot ==> u.tasks[i] == s.tasks[i]) && u.current == s.current
            && T.Used(u.tasks[slot]) == fdOk && (pid >= 0 <==> fdOk) && (!fdOk ==> HasMap(u) == HasMap(s)) && slot != s.current
  {
    hide T.FreeSlot, I.ProcessesOk, I.NoLostWakeup;
    SpawnOwners(s, fork, shell, fdOk);
    assert s.nextPid > 0 by { NextPid(s); }
  }

  lemma NextPid(s: T.Sys)
    requires I.TableOk(s)
    ensures s.nextPid > 0
  {
    hide I.UsedCount, I.ParentsOk, I.FdsOk, I.NoLostWakeup;
    assert T.Used(s.tasks[0]);
  }

  /** `task_create` keeps everything in step if and only if it fails or its caller has no address space. */
  lemma CreateKeepsIff(m: Machine, first: nat, shell: bool)
    requires Ok(m, first) && T.Cur(m.tasks).state == T.Running
    ensures Ok(CreateTask(m, shell).0, first) <==> !CanCreate(m) || !Has(m, m.tasks.current)
    ensures CreateTask(m, shell).1 >= 0 <==> CanCreate(m)
  {
    hide I.TableOk, F.MachineOk, SomeFree, SatpOk, F.Step, Mem, SameOwners, Owners, T.Spawn, T.FreeSlot, HasMap, CreateTask, M.RoomForTable;
    var (n, r) := CreateTask(m, shell);
    if CanSpawn(m.tasks) {
      CreateParts(m, shell);
      CreateFrame(m, shell);
      SameMem(m, n);
      var slot := T.FreeSlot(m.tasks.tasks, 1);
      SatpLive(m, first);
      if r < 0 || !Has(m, m.tasks.current) {
        assert r >= 0 ==> n.saved[slot] == OwnSatp(n, slot);
        SatpBeside(m, n, slot);
      } else {
        RootsApart(m, first, m.tasks.current);
        assert n.saved[slot] != OwnSatp(n, slot);
        assert !SatpOk(n) by { NotOwn(n, slot); }
      }
    } else {
      assert CreateTask(m, shell) == (m, -1) by { CreateNone(m, shell); }
    }
  }

  lemma CreateNone(m: Machine, shell: bool)
    requires !CanSpawn(m.tasks)
    ensures CreateTask(m, shell) == (m, -1)
  {
  }

  lemma NotOwn(n: Machine, i: nat)
    requires i < 16 && T.Used(n.tasks.tasks[i]) && n.saved[i] != OwnSatp(n, i)
    ensures !SatpOk(n)
  {
  }

  lemma CreateFrame(m: Machine, shell: bool)
    requires CanSpawn(m.tasks)
    ensures var n := CreateTask(m, shell).0;
            && n.heap == m.heap && n.k == m.k && n.space == m.space && n.satp == m.satp
            && n.saved == SetSaved(m.saved, T.FreeSlot(m.tasks.tasks, 1), m.satp)
  {
    hide T.Spawn, F.Step, T.FreeSlot, D.ProcessInit;
  }

  /** No space shares its root with the kernel. */
  lemma RootsApart(m: Machine, first: nat, i: nat)
    requires SomeFree(Mem(m), first, multiset{}) && i < 16 && Has(m, i)
    ensures SpaceSatp(m.space[i]) != KSatp(m.k)
  {
    hide SysOk, HeapOk, KernelOk, SpaceOk;
    Listed(m, first, i);
    RangeOk(m, first);
    var s := Mem(m);
    var free: seq<nat> :| SysOk(s, first, free, multiset{});
    RootNotKernel(s, first, free, Place(HasMap(m.tasks), m.space, i));
  }

  lemma RootNotKernel(s: Sys, first: nat, free: seq<nat>, p: nat)
    requires SysOk(s, first, free, multiset{}) && p < |s.spaces|
    ensures s.spaces[p].root != s.k.l2
  {
    hide HeapOk, KernelOk, SpaceOk, AllUsed, PagesOf;
    var used := KernelUsed(s.k) + AllUsed(s.spaces) + multiset{};
    OneOwner(s.heap, first, free, used, s.k.l2);
    AllUsedUpdate(s.spaces, p, s.spaces[p]);
    assert used[s.k.l2] == KernelUsed(s.k)[s.k.l2] + AllUsed(s.spaces)[s.k.l2];
    assert SpaceUsed(s.spaces[p])[s.spaces[p].root] >= 1;
  }

  // ---------------------------------------------------------------- fork

  /** The next pid is nobody's yet. */
  lemma FreshPid(m: Machine)
    requires I.TableOk(m.tasks) && Owners(m)
    ensures !D.OwnsTable(m.files.fds, m.tasks.nextPid) && m.tasks.nextPid !in m.tasks.fds
  {
    hide I.UsedCount, I.ParentsOk, I.NoLostWakeup, I.SchedulerOk, D.OwnsTable;
  }

  /** A running task has a descriptor table and a pid below the next one. */
  lemma MyTable(m: Machine)
    requires I.TableOk(m.tasks) && Owners(m) && T.Cur(m.tasks).state == T.Running
    ensures D.OwnsTable(m.files.fds, Me(m)) && 0 <= Me(m) < m.tasks.nextPid
  {
    hide I.UsedCount, I.ParentsOk, I.NoLostWakeup, I.SchedulerOk, D.OwnsTable;
    assert T.Alive(m.tasks.tasks[m.tasks.current]);
  }

  lemma ForkOwned(m: Machine, pid: int, n: Machine)
    requires F.MachineOk(m.files) && Owners(m) && Me(m) != pid && n.files == F.Step(m.files, F.DoFork(Me(m), pid))
    requires n.tasks.fds == if D.ProcessFork(m.files.fds, Me(m), pid).1 >= 0 then m.tasks.fds + {pid} else m.tasks.fds
    ensures F.MachineOk(n.files) && Owners(n)
  {
    hide D.ProcessFork, D.OwnsTable, D.Balanced, FsTree.FsInv, F.FilesLive, D.Named;
    F.StepOk(m.files, F.DoFork(Me(m), pid));
    D.ForkOk(m.files.fds, Me(m), pid);
    ForkStatus(m.files.fds, Me(m), pid);
  }

  lemma ForkStatus(d: D.Fds, parent: int, child: int)
    ensures var r := D.ProcessFork(d, parent, child).1; r == 0 || r == -1
  {
    hide D.ProcessInit, D.CopyFds, D.FindProcess;
  }

  /** Fork with a copy in hand: the table and descriptor part. */
  lemma ForkParts(m: Machine, h: Heap, sp: Space, n: Machine, r: int)
    requires I.TableOk(m.tasks) && F.MachineOk(m.files) && Owners(m) && T.Cur(m.tasks).state == T.Running && CanSpawn(m.tasks)
    requires InMemory(sp)
    requires var slot, pid := T.FreeSlot(m.tasks.tasks, 1), m.tasks.nextPid;
             var (ts, x) := T.Spawn(m.tasks, true, false, D.ProcessFork(m.files.fds, Me(m), pid).1 >= 0);
             && r == x && n == m.(tasks := ts, files := F.Step(m.files, F.DoFork(Me(m), pid)), space := SetSpace(m.space, slot, sp),
                                  saved := SetSaved(m.saved, slot, SpaceSatp(sp)), heap := if x < 0 then Destroy(h, sp) else h)
    ensures var slot := T.FreeSlot(m.tasks.tasks, 1);
            && I.TableOk(n.tasks) && F.MachineOk(n.files) && Owners(n) && slot != m.tasks.current && !HasMap(m.tasks)[slot]
            && n.tasks.current == m.tasks.current
            && (forall i :: 0 <= i < 16 && i != slot ==> n.tasks.tasks[i] == m.tasks.tasks[i])
            && (r >= 0 ==> HasMap(n.tasks) == HasMap(m.tasks)[slot := true] && r == m.tasks.nextPid && T.Used(n.tasks.tasks[slot]))
            && (r < 0 ==> HasMap(n.tasks) == HasMap(m.tasks) && n.tasks.fds == m.tasks.fds && !T.Used(n.tasks.tasks[slot]))
            && (r >= 0 <==> M.RoomForTable(m.files.fds))
  {
    hide I.TableOk, F.MachineOk, F.Step, SameOwners, Owners, T.Spawn, T.FreeSlot, D.ProcessFork, HasMap, InMemory, Destroy, M.RoomForTable;
    var slot, pid := T.FreeSlot(m.tasks.tasks, 1), m.tasks.nextPid;
    var ok := D.ProcessFork(m.files.fds, Me(m), pid).1 >= 0;
    MyTable(m);
    FreshPid(m);
    M.ForkIff(m.files.fds, Me(m), pid);
    I.SpawnOk(m.tasks, true, false, ok);
    SpawnOwners(m.tasks, true, false, ok);
    SpawnSlots(m.tasks, true, false, ok);
    ForkOwned(m, pid, n);
    UnusedHasNot(m.tasks, slot);
  }

  /** What a failing call leaves: all pages, all spaces byte for byte, all tasks and all descriptors. */
  ghost predicate Restored(m: Machine, n: Machine) {
    && n.heap.totalFree == m.heap.totalFree && Mem(n).spaces == Mem(m).spaces && Kept(m.heap.mem, n.heap.mem, Mem(m).spaces)
    && SameOwners(m.tasks, n.tasks) && n.tasks.fds == m.tasks.fds && n.tasks.current == m.tasks.current && n.satp == m.satp
    && forall q, j :: D.Named(n.files.fds, q, j) == D.Named(m.files.fds, q, j)
                      && M.Marked(n.files.fds, q, j) == M.Marked(m.files.fds, q, j)
  }

  /** What a fork that succeeds leaves in the child's slot: a copy of every page, and a name for everything the parent names. */
  ghost predicate Forked(m: Machine, n: Machine, pid: int) {
    var me, slot := m.tasks.current, T.FreeSlot(m.tasks.tasks, 1);
    && slot < 16 && pid == m.tasks.nextPid && n.tasks.tasks[slot].pid == pid && n.tasks.tasks[slot].ppid == Me(m) && Has(n, slot)
    && |n.space[slot].pages| == |m.space[me].pages|
    && Copied(n.heap.mem, m.space[me].pages, n.space[slot].pages, |m.space[me].pages|)
    && Kept(m.heap.mem, n.heap.mem, Mem(m).spaces) && n.satp == m.satp && n.tasks.current == me
    && forall q, j :: D.Named(n.files.fds, q, j) == D.Named(m.files.fds, if q == pid then Me(m) else q, j)
                      && M.Marked(n.files.fds, q, j) == M.Marked(m.files.fds, if q == pid then Me(m) else q, j)
  }

  /** Nobody's descriptors change when a fork gets no table. */
  lemma ForkNames(m: Machine, n: Machine, pid: int)
    requires F.MachineOk(m.files) && F.MachineOk(n.files) && Me(m) != pid && !D.OwnsTable(m.files.fds, pid)
    requires n.files.fds == D.ProcessFork(m.files.fds, Me(m), pid).0
    ensures D.ProcessFork(m.files.fds, Me(m), pid).1 < 0 ==>
              forall q, j :: D.Named(n.files.fds, q, j) == D.Named(m.files.fds, q, j)
                             && M.Marked(n.files.fds, q, j) == M.Marked(m.files.fds, q, j)
    ensures D.ProcessFork(m.files.fds, Me(m), pid).1 >= 0 ==>
              forall q, j :: D.Named(n.files.fds, q, j) == D.Named(m.files.fds, if q == pid then Me(m) else q, j)
                             && M.Marked(n.files.fds, q, j) == M.Marked(m.files.fds, if q == pid then Me(m) else q, j)
  {
    hide D.ProcessFork, D.OwnsTable, D.Balanced, FsTree.FsInv, F.FilesLive, D.Named, M.Marked;
    ForkStatus(m.files.fds, Me(m), pid);
    D.ForkOk(m.files.fds, Me(m), pid);
    forall q, j
      ensures q != pid ==> D.Named(n.files.fds, q, j) == D.Named(m.files.fds, q, j)
                           && M.Marked(n.files.fds, q, j) == M.Marked(m.files.fds, q, j)
      ensures q == pid && D.ProcessFork(m.files.fds, Me(m), pid).1 >= 0 ==>
                D.Named(n.files.fds, q, j) == D.Named(m.files.fds, Me(m), j) && M.Marked(n.files.fds, q, j) == M.Marked(m.files.fds, Me(m), j)
      ensures q == pid && D.ProcessFork(m.files.fds, Me(m), pid).1 < 0 ==>
                D.Named(n.files.fds, q, j) == D.Named(m.files.fds, q, j) && M.Marked(n.files.fds, q, j) == M.Marked(m.files.fds, q, j)
    {
      M.ForkMap(m.files.fds, Me(m), pid, q, j);
      if q == pid {
        NoNames(m.files.fds, q, j);
        if !D.OwnsTable(n.files.fds, q) {
          NoNames(n.files.fds, q, j);
        }
      }
    }
  }

  lemma NoNames(d: D.Fds, q: int, j: int)
    requires !D.OwnsTable(d, q)
    ensures D.Named(d, q, j) == -1 && !M.Marked(d, q, j)
  {
  }

  /** Only memory changed, and every page is back. */
  lemma BackAgain(m: Machine, first: nat, n: Machine)
    requires Ok(m, first) && n == m.(heap := n.heap) && SomeFree(Mem(m).(heap := n.heap), first, multiset{})
    requires n.heap.totalFree == m.heap.totalFree && Kept(m.heap.mem, n.heap.mem, Mem(m).spaces)
    ensures Ok(n, first) && Restored(m, n)
  {
    hide I.TableOk, F.MachineOk, SomeFree, Kept, Live, HasMap, D.Named, M.Marked;
    OwnersSelf(m.tasks);
    assert Mem(n) == Mem(m).(heap := n.heap);
  }

  lemma ForkSpawned(m: Machine, first: nat, h: Heap, sp: Space, n: Machine, r: int)
    requires Ok(m, first) && T.Cur(m.tasks).state == T.Running && CanSpawn(m.tasks) && Has(m, m.tasks.current) && InMemory(sp)
    requires Built(Mem(m), first, h, sp)
    requires |sp.pages| == |m.space[m.tasks.current].pages| && Copied(h.mem, m.space[m.tasks.current].pages, sp.pages, |sp.pages|)
    requires var slot, pid := T.FreeSlot(m.tasks.tasks, 1), m.tasks.nextPid;
             var (ts, x) := T.Spawn(m.tasks, true, false, D.ProcessFork(m.files.fds, Me(m), pid).1 >= 0);
             && r == x && n == m.(tasks := ts, files := F.Step(m.files, F.DoFork(Me(m), pid)), space := SetSpace(m.space, slot, sp),
                                  saved := SetSaved(m.saved, slot, SpaceSatp(sp)), heap := if x < 0 then Destroy(h, sp) else h)
    ensures Ok(n, first) && (r < 0 ==> Restored(m, n)) && (r >= 0 ==> Forked(m, n, r))
    ensures r >= 0 <==> M.RoomForTable(m.files.fds)
  {
    hide I.TableOk, F.MachineOk, F.Step, SameOwners, Owners, T.Spawn, T.FreeSlot, D.ProcessFork, HasMap, InMemory, Destroy, Kept, Mem,
         SomeFree, SatpOk, Copied, M.RoomForTable, Built, D.Named, M.Marked;
    var slot, pid := T.FreeSlot(m.tasks.tasks, 1), m.tasks.nextPid;
    MyTable(m);
    FreshPid(m);
    ForkParts(m, h, sp, n, r);
    ForkNames(m, n, pid) by { StepFork(m.files, Me(m), pid); }
    ForkTasks(m.tasks, D.ProcessFork(m.files.fds, Me(m), pid).1 >= 0);
    StillMine(m, n, slot);
    if r >= 0 {
      assert Has(n, slot) by { assert HasMap(n.tasks)[slot]; }
      SatpBeside(m, n, slot);
      GivenMem(m, first, h, sp, slot, n);
    } else {
      SatpBeside(m, n, slot);
      FailedMem(m, first, h, sp, n);
    }
  }

  lemma StepFork(f: F.Machine, parent: int, child: int)
    ensures F.Step(f, F.DoFork(parent, child)).fds == D.ProcessFork(f.fds, parent, child).0
  {
    hide D.ProcessFork;
  }

  /** The slot of the parent is not touched. */
  lemma StillMine(m: Machine, n: Machine, slot: nat)
    requires slot < 16 && slot != m.tasks.current && n.space == SetSpace(m.space, slot, n.space[slot])
    ensures n.space[m.tasks.current] == m.space[m.tasks.current]
  {
  }

  lemma ForkTasks(s: T.Sys, fdOk: bool)
    requires CanSpawn(s) && I.TableOk(s)
    ensures var (u, pid) := T.Spawn(s, true, false, fdOk);
            var slot := T.FreeSlot(s.tasks, 1);
            && (pid >= 0 <==> fdOk)
            && (fdOk ==> u.tasks[slot].pid == s.nextPid && u.tasks[slot].ppid == T.Cur(s).pid)
            && (!fdOk ==> SameOwners(s, u))
  {
    hide T.FreeSlot, HasMap, SameOwners, I.TableOk;
    SpawnOwners(s, true, false, fdOk);
    SpawnSlots(s, true, false, fdOk);
  }

  lemma FailedMem(m: Machine, first: nat, h: Heap, sp: Space, n: Machine)
    requires SomeFree(Mem(m), first, multiset{}) && Built(Mem(m), first, h, sp) && InMemory(sp) && n.heap == Destroy(h, sp)
    requires n.k == m.k && HasMap(n.tasks) == HasMap(m.tasks) && forall i :: 0 <= i < 16 && Has(m, i) ==> n.space[i] == m.space[i]
    ensures SomeFree(Mem(n), first, multiset{}) && n.heap.totalFree == m.heap.totalFree
    ensures Mem(n).spaces == Mem(m).spaces && Kept(m.heap.mem, n.heap.mem, Mem(m).spaces)
  {
    hide SomeFree, Built, Destroy, Kept, InMemory, HasMap, Live;
    BuildDestroy(Mem(m), first, h, sp);
    SameMem(m, n.(heap := m.heap));
    assert Mem(n) == Mem(m).(heap := n.heap);
  }

  /** `sys_fork`: a child with a copy of every page and every descriptor, or everything as it was, whether it fails for want of
      pages, of a slot, or of a descriptor table with its open files. */
  lemma ForkOk(m: Machine, first: nat)
    requires Ok(m, first) && T.Cur(m.tasks).state == T.Running && InRange(m)
    ensures var (n, r) := ForkTask(m);
            && Ok(n, first) && (r < 0 ==> Restored(m, n)) && (r >= 0 ==> Forked(m, n, r))
            && (r >= 0 <==> Has(m, m.tasks.current) && m.heap.totalFree >= 3 + |m.space[m.tasks.current].pages|
                            && CanSpawn(m.tasks) && M.RoomForTable(m.files.fds))
  {
    hide I.TableOk, F.MachineOk, F.Step, SameOwners, Owners, T.Spawn, T.FreeSlot, D.ProcessFork, HasMap, Destroy, Kept, Mem,
         SomeFree, SatpOk, Copied, M.RoomForTable, Built, D.Named, M.Marked, Clone, CanSpawn, Restored, Forked;
    var me := m.tasks.current;
    assert Mem(m).heap == m.heap && Mem(m).k == m.k by { KernelOf(m); }
    if !Has(m, me) {
      BackAgain(m, first, m) by { Self(m, first); }
    } else {
      Listed(m, first, me);
      CopyOk(Mem(m), first, Place(HasMap(m.tasks), m.space, me));
      CloneIff(Mem(m), first, Place(HasMap(m.tasks), m.space, me));
      var (h, copy) := Clone(m.heap, m.k, m.space[me]);
      if copy.None? {
        BackAgain(m, first, m.(heap := h));
      } else {
        assert InMemory(copy.value) by { BuiltSpace(Mem(m), first, h, copy.value); }
        var (n, r) := ForkTask(m);
        if CanSpawn(m.tasks) {
          ForkSpawned(m, first, h, copy.value, n, r);
        } else {
          BuildDestroy(Mem(m), first, h, copy.value);
          BackAgain(m, first, n);
        }
      }
    }
  }

  lemma Self(m: Machine, first: nat)
    requires Ok(m, first)
    ensures m == m.(heap := m.heap) && SomeFree(Mem(m).(heap := m.heap), first, multiset{}) && Kept(m.heap.mem, m.heap.mem, Mem(m).spaces)
  {
    hide I.TableOk, F.MachineOk, Owners, SomeFree, SatpOk, Live, HasMap;
    assert Mem(m).(heap := m.heap) == Mem(m);
  }

  // ---------------------------------------------------------------- exec and the first program

  /** The space of slot `e` is replaced by one built beside it. */
  lemma ReplacedMem(m: Machine, first: nat, h: Heap, sp: Space, e: nat, n: Machine)
    requires e < 16 && Has(m, e) && SomeFree(Mem(m), first, multiset{}) && Built(Mem(m), first, h, sp) && InMemory(m.space[e])
    requires n.k == m.k && n.heap == Destroy(h, m.space[e]) && n.space[e] == sp && HasMap(n.tasks) == HasMap(m.tasks)
    requires forall i :: 0 <= i < 16 && i != e ==> n.space[i] == m.space[i]
    ensures SomeFree(Mem(n), first, multiset{}) && DataKept(h.mem, n.heap.mem, sp.pages) && n.heap.end == m.heap.end
    ensures var p := Place(HasMap(m.tasks), m.space, e);
            p < |Mem(m).spaces| && Kept(m.heap.mem, n.heap.mem, Others(Mem(m).spaces, p))
  {
    hide SysOk, Kept, HasMap, Live, SamePages, SomeFree, Built, Destroy, InMemory, DataKept;
    var has, none := HasMap(m.tasks), HasMap(m.tasks)[e := false];
    Listed(m, first, e);
    var p := Place(has, m.space, e);
    ReplaceOk(Mem(m), first, h, sp, p);
    LiveRemove(has, m.space, 16, e, none, m.space) by { assert has[e]; }
    LiveAdd(none, m.space, 16, e, HasMap(n.tasks), n.space) by { assert has[e]; }
    Reordered(Sys(n.heap, m.k, Others(Mem(m).spaces, p) + [sp]), first, Mem(n).spaces);
  }

  lemma ExecOwned(m: Machine, n: Machine)
    requires F.MachineOk(m.files) && Owners(m) && n.files == F.Step(m.files, F.DoCloseExec(Me(m))) && n.tasks.fds == m.tasks.fds
    ensures F.MachineOk(n.files) && Owners(n)
    ensures forall q, j :: D.Named(n.files.fds, q, j) == if q == Me(m) && M.Marked(m.files.fds, q, j) then -1 else D.Named(m.files.fds, q, j)
  {
    hide D.CloseExec, D.OwnsTable, D.Balanced, FsTree.FsInv, F.FilesLive, D.Named, M.Marked;
    F.StepOk(m.files, F.DoCloseExec(Me(m)));
    D.CloseExecOk(m.files.fds, Me(m));
    forall q, j
      ensures D.Named(n.files.fds, q, j) == if q == Me(m) && M.Marked(m.files.fds, q, j) then -1 else D.Named(m.files.fds, q, j)
    {
      M.CloseExecMap(m.files.fds, Me(m), q, j);
    }
  }

  /** What an exec that succeeds leaves: the new program, loaded and with its arguments, on satp; the marked descriptors closed;
      every other space byte for byte. */
  ghost predicate Execed(m: Machine, n: Machine, l: Loaded, p: Program, argv: seq<seq<byte>>, envp: seq<seq<byte>>) {
    var me := m.tasks.current;
    && n.tasks.current == me && Has(n, me) && n.space[me] == l.space && n.satp == SpaceSatp(l.space)
    && Prepared(n.heap.mem, l, p, argv, envp)
    && Place(HasMap(m.tasks), m.space, me) < |Mem(m).spaces|
    && Kept(m.heap.mem, n.heap.mem, Others(Mem(m).spaces, Place(HasMap(m.tasks), m.space, me)))
    && forall q, j :: D.Named(n.files.fds, q, j) == if q == Me(m) && M.Marked(m.files.fds, q, j) then -1 else D.Named(m.files.fds, q, j)
  }

  /** satp follows the current slot when its space is replaced. */
  lemma SatpMoved(m: Machine, n: Machine, satp: u64)
    requires SatpOk(m) && n.k == m.k && n.tasks.current == m.tasks.current
    requires forall i :: 0 <= i < 16 ==> T.Used(n.tasks.tasks[i]) == T.Used(m.tasks.tasks[i])
    requires forall i :: 0 <= i < 16 && i != m.tasks.current ==>
               HasMap(n.tasks)[i] == HasMap(m.tasks)[i] && n.space[i] == m.space[i]
    requires n.saved == SetSaved(m.saved, m.tasks.current, satp) && n.satp == satp == OwnSatp(n, m.tasks.current)
    ensures SatpOk(n)
  {
    forall i | 0 <= i < 16 && T.Used(n.tasks.tasks[i]) ensures n.saved[i] == OwnSatp(n, i) {
      if i != m.tasks.current {
        assert m.saved[i] == OwnSatp(m, i) && HasMap(n.tasks)[i] == HasMap(m.tasks)[i];
      }
    }
  }

  lemma ExecReplaces(m: Machine, first: nat, h: Heap, l: Loaded, n: Machine, p: Program, argv: seq<seq<byte>>, envp: seq<seq<byte>>,
                     shell: bool)
    requires Ok(m, first) && T.Cur(m.tasks).state == T.Running && Has(m, m.tasks.current) && InMemory(m.space[m.tasks.current])
    requires Built(Mem(m), first, h, l.space) && Prepared(h.mem, l, p, argv, envp)
    requires var me, satp := m.tasks.current, SpaceSatp(l.space);
             n == m.(tasks := T.Step(m.tasks, T.DoName(shell)), files := F.Step(m.files, F.DoCloseExec(Me(m))),
                     heap := Destroy(h, m.space[me]), space := SetSpace(m.space, me, l.space), saved := SetSaved(m.saved, me, satp), satp := satp)
    ensures Ok(n, first) && Execed(m, n, l, p, argv, envp)
  {
    hide I.TableOk, F.MachineOk, F.Step, T.Step, SameOwners, Owners, HasMap, InMemory, Destroy, Kept, Mem, SomeFree, SatpOk, Built, D.Named,
         M.Marked, Prepared, DataKept;
    var me := m.tasks.current;
    CurrentUsed(m, first);
    I.StepOk(m.tasks, T.DoName(shell));
    QuietOwners(m.tasks, T.DoName(shell));
    assert HasMap(n.tasks) == HasMap(m.tasks) by { OwnersMap(m.tasks, n.tasks); }
    assert Has(n, me) by { assert HasMap(m.tasks)[me]; }
    ExecOwned(m, n);
    ReplacedMem(m, first, h, l.space, me, n);
    PreparedKept(h.mem, n.heap.mem, l, p, argv, envp);
    SameUsed(m.tasks, n.tasks);
    SatpMoved(m, n, SpaceSatp(l.space));
  }

  lemma SameUsed(s: T.Sys, u: T.Sys)
    requires SameOwners(s, u)
    ensures forall i :: 0 <= i < 16 ==> T.Used(u.tasks[i]) == T.Used(s.tasks[i])
  {
  }

  /** `sys_execve` of a path: the caller becomes the program whose file the path leads to, or everything is as it was. */
  lemma ExecOk(m: Machine, first: nat, cwd: u32, path: seq<byte>, argv: seq<seq<byte>>, envp: seq<seq<byte>>, shell: bool)
    requires Ok(m, first) && T.Cur(m.tasks).state == T.Running && InRange(m)
    ensures var (n, r) := ExecProgram(m, cwd, path, argv, envp, shell);
            && Ok(n, first) && (r.Some? <==> Has(m, m.tasks.current) && CanStart(Mem(m), m.files.fs, cwd, path, argv, envp))
            && if r.Some? then Execed(m, n, r.value, ProgramAtPath(m.files.fs, cwd, path), argv, envp) else Restored(m, n)
  {
    hide I.TableOk, F.MachineOk, F.Step, T.Step, SameOwners, Owners, HasMap, Destroy, Kept, Mem, SomeFree, SatpOk, Built, D.Named,
         M.Marked, PrepareFile, Prepared, Restored, Execed, CanStart, FindFile, ProgramAtPath, SysOk, Has, InMemory;
    var me := m.tasks.current;
    assert Mem(m).heap == m.heap && Mem(m).k == m.k by { KernelOf(m); }
    var free := Freed(Mem(m), first);
    PrepareFileOk(Mem(m), first, free, m.files.fs, cwd, path, argv, envp);
    var (h, made) := PrepareFile(m.heap, m.k, m.files.fs, cwd, path, argv, envp);
    var n := ExecProgram(m, cwd, path, argv, envp, shell).0;
    if made.None? {
      BackAgain(m, first, n);
    } else if !Has(m, me) {
      BuildDestroy(Mem(m), first, h, made.value.space);
      BackAgain(m, first, n);
    } else {
      ExecReplaces(m, first, h, made.value, n, ProgramAtPath(m.files.fs, cwd, path), argv, envp, shell);
    }
  }

  lemma Freed(s: Sys, first: nat) returns (free: seq<nat>)
    requires SomeFree(s, first, multiset{})
    ensures SysOk(s, first, free, multiset{})
  {
    hide SysOk;
    free :| SysOk(s, first, free, multiset{});
  }

  lemma AttachGives(m: Machine, first: nat, h: Heap, l: Loaded, n: Machine)
    requires Ok(m, first) && T.Cur(m.tasks).state == T.Running && !Has(m, m.tasks.current) && Built(Mem(m), first, h, l.space)
    requires var me, satp := m.tasks.current, SpaceSatp(l.space);
             n == m.(tasks := T.Step(m.tasks, T.DoAttach), heap := h, space := SetSpace(m.space, me, l.space),
                     saved := SetSaved(m.saved, me, satp), satp := satp)
    ensures Ok(n, first)
  {
    hide I.TableOk, F.MachineOk, F.Step, T.Step, SameOwners, Owners, HasMap, Kept, Mem, SomeFree, SatpOk, Built;
    var me := m.tasks.current;
    CurrentUsed(m, first);
    I.StepOk(m.tasks, T.DoAttach);
    AttachOwners(m.tasks);
    assert !HasMap(m.tasks)[me];
    assert Has(n, me) by { assert HasMap(n.tasks)[me]; }
    assert Owners(n) by { SameOwned(m, n); }
    GivenMem(m, first, h, l.space, me, n);
    SatpMoved(m, n, SpaceSatp(l.space));
  }

  /** `user_init` keeps everything in step if and only if it fails or its caller has no address space yet: the pages of the
      one it had would be lost. */
  lemma AttachKeepsIff(m: Machine, first: nat, cwd: u32, path: seq<byte>, argv: seq<seq<byte>>, envp: seq<seq<byte>>)
    requires Ok(m, first) && T.Cur(m.tasks).state == T.Running && InRange(m)
    ensures Ok(AttachProgram(m, cwd, path, argv, envp).0, first)
       <==> !CanStart(Mem(m), m.files.fs, cwd, path, argv, envp) || !Has(m, m.tasks.current)
  {
    hide I.TableOk, F.MachineOk, F.Step, T.Step, SameOwners, Owners, HasMap, Kept, Mem, SomeFree, SatpOk, Built, PrepareFile, Prepared,
         Restored, CanStart, FindFile;
    var me := m.tasks.current;
    assert Mem(m).heap == m.heap && Mem(m).k == m.k by { KernelOf(m); }
    var free := Freed(Mem(m), first);
    PrepareFileOk(Mem(m), first, free, m.files.fs, cwd, path, argv, envp);
    var (h, made) := PrepareFile(m.heap, m.k, m.files.fs, cwd, path, argv, envp);
    var n := AttachProgram(m, cwd, path, argv, envp).0;
    if made.None? {
      BackAgain(m, first, n);
    } else if !Has(m, me) {
      AttachGives(m, first, h, made.value, n);
    } else if Ok(n, first) {
      AttachLoses(m, first, h, made.value, n);
    }
  }

  /** Counting shows the loss: the old space's pages are neither free nor anybody's. */
  lemma AttachLoses(m: Machine, first: nat, h: Heap, l: Loaded, n: Machine)
    requires Ok(m, first) && Has(m, m.tasks.current) && Built(Mem(m), first, h, l.space)
    requires var me, satp := m.tasks.current, SpaceSatp(l.space);
             n == m.(tasks := T.Step(m.tasks, T.DoAttach), heap := h, space := SetSpace(m.space, me, l.space),
                     saved := SetSaved(m.saved, me, satp), satp := satp)
    ensures !SomeFree(Mem(n), first, multiset{})
  {
    hide I.TableOk, F.MachineOk, T.Step, SameOwners, Owners, HasMap, Kept, SatpOk, SysOk, Live, SpacePageCount;
    if SomeFree(Mem(n), first, multiset{}) {
      var me := m.tasks.current;
      var s, with := Mem(m), Sys(h, m.k, Mem(m).spaces + [l.space]);
      CurrentUsed(m, first);
      AttachOwners(m.tasks);
      var has, none := HasMap(m.tasks), HasMap(m.tasks)[me := false];
      assert has[me];
      assert HasMap(n.tasks) == has;
      LiveRemove(has, m.space, 16, me, none, m.space);
      LiveAdd(none, m.space, 16, me, has, n.space);
      var p := Place(has, m.space, me);
      SameCount(Others(s.spaces, p) + [l.space], Mem(n).spaces);
      OneFewer(s.spaces, p, l.space);
      Conserved(Mem(n), first);
      Conserved(with, first);
    }
  }

  lemma SameCount(a: seq<Space>, b: seq<Space>)
    requires SamePages(a, b)
    ensures SpacePageCount(a) == SpacePageCount(b)
  {
    UsedSize(a);
    UsedSize(b);
  }

  lemma OneFewer(spaces: seq<Space>, p: nat, sp: Space)
    requires p < |spaces|
    ensures SpacePageCount(Others(spaces, p) + [sp]) < SpacePageCount(spaces + [sp])
  {
    hide SpacePageCount, Others;
    CountRemoved(spaces, p);
    CountAdded(Others(spaces, p), sp);
    CountAdded(spaces, sp);
  }

  lemma CountAdded(spaces: seq<Space>, sp: Space)
    ensures SpacePageCount(spaces + [sp]) == SpacePageCount(spaces) + 3 + |sp.pages|
  {
    assert (spaces + [sp])[..|spaces|] == spaces;
  }

  // ---------------------------------------------------------------- memory accesses

  /** Only the bytes of memory changed, and memory is still sound. */
  lemma BytesOk(m: Machine, first: nat, mem: Memory)
    requires Ok(m, first) && SomeFree(Mem(m).(heap := m.heap.(mem := mem)), first, multiset{})
    ensures Ok(m.(heap := m.heap.(mem := mem)), first)
  {
    hide I.TableOk, F.MachineOk, SomeFree, HasMap, Live;
    var n := m.(heap := m.heap.(mem := mem));
    assert Mem(n) == Mem(m).(heap := n.heap);
  }

  /** A store by the running program, under the satp in force: no page of any other program changes. */
  lemma StoreOk(m: Machine, first: nat, va: u64, b: byte)
    requires Ok(m, first) && Has(m, m.tasks.current)
    ensures Ok(m.(heap := m.heap.(mem := UserStore(m.heap.mem, m.satp, va, b))), first)
    ensures var p := Place(HasMap(m.tasks), m.space, m.tasks.current);
            p < |Mem(m).spaces| && Kept(m.heap.mem, UserStore(m.heap.mem, m.satp, va, b), Others(Mem(m).spaces, p))
  {
    hide I.TableOk, F.MachineOk, SomeFree, HasMap, Mem, Owners, UserStore, Kept, SatpOk;
    var me := m.tasks.current;
    assert Mem(m).heap == m.heap by { KernelOf(m); }
    Listed(m, first, me);
    SatpLive(m, first);
    var free := Freed(Mem(m), first);
    StoreIsolated(Mem(m), first, free, Place(HasMap(m.tasks), m.space, me), va, b);
    var mem := UserStore(m.heap.mem, m.satp, va, b);
    Witness(Mem(m).(heap := m.heap.(mem := mem)), first, free, multiset{});
    BytesOk(m, first, mem);
  }

  /** The kernel copies into the running program: no page of any other program changes. */
  lemma CopyOutOk(m: Machine, first: nat, dest: nat, bytes: seq<byte>)
    requires Ok(m, first) && Has(m, m.tasks.current)
    ensures Ok(m.(heap := m.heap.(mem := CopyTo(m.heap.mem, m.space[m.tasks.current].pages, dest, bytes).0)), first)
    ensures var p := Place(HasMap(m.tasks), m.space, m.tasks.current);
            p < |Mem(m).spaces|
            && Kept(m.heap.mem, CopyTo(m.heap.mem, m.space[m.tasks.current].pages, dest, bytes).0, Others(Mem(m).spaces, p))
  {
    hide I.TableOk, F.MachineOk, SomeFree, HasMap, Mem, Owners, CopyTo, Kept, SatpOk;
    var me := m.tasks.current;
    assert Mem(m).heap == m.heap by { KernelOf(m); }
    Listed(m, first, me);
    var free := Freed(Mem(m), first);
    CopyToOk(Mem(m), first, free, Place(HasMap(m.tasks), m.space, me), dest, bytes);
    var mem := CopyTo(m.heap.mem, m.space[me].pages, dest, bytes).0;
    Witness(Mem(m).(heap := m.heap.(mem := mem)), first, free, multiset{});
    BytesOk(m, first, mem);
  }

  lemma AnyAccessOk(m: Machine, first: nat, va: u64, t: Access, user: bool)
    requires Ok(m, first)
    ensures Ok(m.(heap := m.heap.(mem := Translate(m.heap.mem, m.satp, va, t, user).0)), first)
  {
    hide I.TableOk, F.MachineOk, SomeFree, HasMap, Mem, Owners, Translate, SatpOk, SatpOf;
    assert Mem(m).heap == m.heap by { KernelOf(m); }
    SatpLive(m, first);
    var free := Freed(Mem(m), first);
    AccessOk(Mem(m), first, free, m.satp, va, t, user);
    var mem := Translate(m.heap.mem, m.satp, va, t, user).0;
    Witness(Mem(m).(heap := m.heap.(mem := mem)), first, free, multiset{});
    BytesOk(m, first, mem);
  }

  // ---------------------------------------------------------------- every step, every run

  lemma TrapStepOk(m: Machine, first: nat, op: Op)
    requires Ok(m, first) && InRange(m) && (op.Tick? || op.Reschedule?)
    ensures Ok(Step(m, op), first)
  {
    hide Ok, Trap, T.Tick, T.Reschedule, InRange;
    Sound(m, first);
    if op.Tick? {
      I.TickOk(m.tasks);
      TickOwners(m.tasks);
      TrapOk(m, first, T.Tick(m.tasks));
    } else {
      RescheduleOk(m.tasks);
      TrapOk(m, first, T.Reschedule(m.tasks));
    }
  }

  lemma TableCallOk(m: Machine, first: nat, op: Op)
    requires Ok(m, first) && Enabled(m, op) && InRange(m)
    requires op.Exit? || op.Kill? || op.Wait? || op.Sched? || op.File?
    ensures Ok(Step(m, op), first)
  {
    hide Ok, ExitTask, KillTask, WaitTask, T.Step, F.Step, Mem, HasMap, F.Allowed, T.Enabled, InRange;
    match op
    case Exit(code) => ExitOk(m, first, code);
    case Kill(pid, code) => KillOk(m, first, pid, code);
    case Wait(target, nohang) => WaitOk(m, first, target, nohang);
    case Sched(o) => SchedOk(m, first, o);
    case File(c) => FileOk(m, first, c);
  }

  lemma SpaceCallOk(m: Machine, first: nat, op: Op)
    requires Ok(m, first) && Enabled(m, op) && InRange(m) && (op.Create? || op.Attach? || op.Fork? || op.Exec?)
    ensures Ok(Step(m, op), first)
  {
    hide Ok, CreateTask, ForkTask, ExecProgram, AttachProgram, Mem, HasMap, InRange, CanStart, CanCreate, Restored, Forked, Execed;
    match op
    case Create(shell) => CreateKeepsIff(m, first, shell);
    case Attach(cwd, path, argv, envp) => AttachKeepsIff(m, first, cwd, path, argv, envp);
    case Fork => ForkOk(m, first);
    case Exec(cwd, path, argv, envp, shell) => ExecOk(m, first, cwd, path, argv, envp, shell);
  }

  lemma MemoryStepOk(m: Machine, first: nat, op: Op)
    requires Ok(m, first) && Enabled(m, op) && InRange(m) && (op.Store? || op.CopyOut? || op.Access?)
    ensures Ok(Step(m, op), first)
  {
    hide Ok, UserStore, CopyTo, Translate, Mem, HasMap, InRange;
    match op
    case Store(va, b) => StoreOk(m, first, va, b);
    case CopyOut(dest, bytes) => CopyOutOk(m, first, dest, bytes);
    case Access(va, t, user) => AnyAccessOk(m, first, va, t, user);
  }

  /** Every step keeps the parts sound and in step. */
  lemma StepOk(m: Machine, first: nat, op: Op)
    requires Ok(m, first) && Enabled(m, op)
    ensures InRange(m) && Ok(Step(m, op), first)
  {
    hide Ok, Step, Enabled, InRange;
    Sound(m, first);
    if op.Create? || op.Attach? || op.Fork? || op.Exec? {
      SpaceCallOk(m, first, op);
    } else if op.Store? || op.CopyOut? || op.Access? {
      MemoryStepOk(m, first, op);
    } else if op.Tick? || op.Reschedule? {
      TrapStepOk(m, first, op);
    } else {
      TableCallOk(m, first, op);
    }
  }

  lemma Sound(m: Machine, first: nat)
    requires Ok(m, first)
    ensures I.TableOk(m.tasks) && InRange(m)
  {
    hide I.TableOk, F.MachineOk, Owners, SomeFree, SatpOk;
    RangeOk(m, first);
  }

  lemma RescheduleOk(s: T.Sys)
    requires I.TableOk(s)
    ensures I.TableOk(T.Reschedule(s)) && SameOwners(s, T.Reschedule(s)) && T.Reschedule(s).fds == s.fds
  {
    hide I.TableOk, T.Switch, SameOwners;
    I.SwitchOk(s);
    SwitchOwners(s);
    OwnersSelf(s);
  }

  /** A run of enabled steps from `m` to `n`. */
  ghost predicate Reaches(m: Machine, ops: seq<Op>, n: Machine)
    decreases |ops|
  {
    if ops == [] then n == m else InRange(m) && Enabled(m, ops[0]) && Reaches(Step(m, ops[0]), ops[1..], n)
  }

  lemma {:induction false} RunOk(m: Machine, first: nat, ops: seq<Op>, n: Machine)
    requires Ok(m, first) && Reaches(m, ops, n)
    ensures Ok(n, first)
    decreases |ops|
  {
    hide Ok, Step, Enabled, InRange;
    if ops != [] {
      StepOk(m, first, ops[0]);
      RunOk(Step(m, ops[0]), first, ops[1..], n);
    }
  }

  /** The tables `minifs_init` zeroed have room for the idle task's. */
  lemma IdleTable(fs: FsBlocks.Fs)
    requires FsTree.FsInv(fs)
    ensures var files := F.Step(F.Machine(fs, D.Fds(D.NoFiles(), D.NoProcesses())), F.DoInit(0));
            F.MachineOk(files) && forall pid :: D.OwnsTable(files.fds, pid) <==> pid == 0
  {
    hide D.Balanced, FsTree.FsInv, F.FilesLive, D.ProcessInit, D.FindProcess;
    F.BootMachineOk(fs);
    var d := D.Fds(D.NoFiles(), D.NoProcesses());
    F.StepOk(F.Machine(fs, d), F.DoInit(0));
    forall pid ensures !D.OwnsTable(d, pid) {
      NoTables(pid);
    }
    M.InitIff(d, 0);
    assert M.FreeAt(d, 0) && M.FreeAt(d, 1) && M.FreeAt(d, 2);
    assert !d.procs[0].used;
    D.InitOk(d, 0);
  }

  lemma NoTables(pid: int)
    ensures !D.OwnsTable(D.Fds(D.NoFiles(), D.NoProcesses()), pid)
  {
  }

  /** `m` is the machine after `mem_init`, `vm_init`, `minifs_init` and `task_init`. */
  ghost predicate Booted(mem: Memory, first: nat, fs: FsBlocks.Fs, policy: T.Policy, quantum: nat, m: Machine) {
    && KERNEL_START < first && first + 3 <= STACK_TOP - GUARD_PAGES && FsTree.FsInv(fs) && quantum >= 1
    && var (h, k) := VmInit(MemInit(mem, first)); k.Some? && m == Boot(h, k.value, fs, policy, quantum)
  }

  /** The machine starts in step: `mem_init`, `vm_init`, `minifs_init` and `task_init` on any memory and any sound disk. */
  lemma BootOk(mem: Memory, first: nat, fs: FsBlocks.Fs, policy: T.Policy, quantum: nat) returns (m: Machine)
    requires KERNEL_START < first && first + 3 <= STACK_TOP - GUARD_PAGES && FsTree.FsInv(fs) && quantum >= 1
    ensures Booted(mem, first, fs, policy, quantum, m) && Ok(m, first)
  {
    hide SysOk, I.TableOk, F.MachineOk, F.Step, VmInit, MemInit, D.OwnsTable, FsTree.FsInv;
    Vm.BootOk(mem, first);
    var (h, k) := VmInit(MemInit(mem, first));
    m := Boot(h, k.value, fs, policy, quantum);
    I.BootOk(policy, quantum);
    IdleTable(fs);
    NobodyLives(m.tasks, m.space, policy, quantum, 16);
    Witness(Mem(m), first, [], multiset{});
  }

  /** At boot only idle is in use, and it has no space. */
  lemma {:induction false} NobodyLives(ts: T.Sys, space: SpaceSlots, policy: T.Policy, quantum: nat, n: nat)
    requires ts == T.Boot(policy, quantum) && n <= 16
    ensures Live(HasMap(ts), space, n) == []
  {
    if n > 0 {
      NobodyLives(ts, space, policy, quantum, n - 1);
    }
  }

  /** DRAM for every kind of access, and devices for loads and stores. */
  predicate KernelSees(va: u64, t: Access) {
    0x8000_0000 <= va < 0x8800_0000 || (IsDevice(va) && t != Fetch)
  }

  /** From boot, over every run of creation, fork, exec, exit, kill, wait, switching, file calls and memory accesses: the process
      table, the descriptor tables, the file system, memory and satp stay sound and in step; free pages are exactly what the
      kernel's tables and the spaces of the tasks in use leave; and the kernel sees DRAM and devices at their physical addresses. */
  lemma {:induction false} FromBoot(mem: Memory, first: nat, fs: FsBlocks.Fs, policy: T.Policy, quantum: nat, m: Machine, ops: seq<Op>,
                                    n: Machine)
    requires Booted(mem, first, fs, policy, quantum, m) && Reaches(m, ops, n)
    ensures Ok(n, first) && SatpOf(Mem(n), n.satp) && n.satp == OwnSatp(n, n.tasks.current)
    ensures n.heap.totalFree == (if n.heap.end > first then n.heap.end - first else 0) - 3 - SpacePageCount(Mem(n).spaces)
    ensures forall va: u64, t: Access :: KernelSees(va, t) ==> Translate(n.heap.mem, n.satp, va, t, false).1 == Pa(va)
  {
    hide Ok, Reaches, SatpOf, Translate, SpacePageCount, OwnSatp;
    SameBoot(mem, first, fs, policy, quantum, m);
    RunOk(m, first, ops, n);
    SatpLive(n, first);
    assert SomeFree(Mem(n), first, multiset{}) && Mem(n).heap == n.heap by { MemOf(n, first); }
    Conserved(Mem(n), first);
    var free := Freed(Mem(n), first);
    forall va: u64, t: Access | KernelSees(va, t) ensures Translate(n.heap.mem, n.satp, va, t, false).1 == Pa(va) {
      if IsDevice(va) {
        SeesDevices(Mem(n), first, free, n.satp, va, t);
      } else {
        SeesDram(Mem(n), first, free, n.satp, va, t);
      }
    }
  }

  lemma SameBoot(mem: Memory, first: nat, fs: FsBlocks.Fs, policy: T.Policy, quantum: nat, m: Machine)
    requires Booted(mem, first, fs, policy, quantum, m)
    ensures Ok(m, first)
  {
    hide Ok, VmInit, MemInit, Boot, FsTree.FsInv;
    var b := BootOk(mem, first, fs, policy, quantum);
  }

  lemma MemOf(m: Machine, first: nat)
    requires Ok(m, first)
    ensures SomeFree(Mem(m), first, multiset{}) && Mem(m).heap == m.heap
  {
    hide I.TableOk, F.MachineOk, Owners, SomeFree, SatpOk, Live, HasMap;
  }

  /** No page is on the free list while satp, or the saved satp of a task in use, names it as its root. */
  lemma RootsInUse(m: Machine, first: nat, free: seq<nat>, i: nat)
    requires Ok(m, first) && SysOk(Mem(m), first, free, multiset{}) && i < 16 && T.Used(m.tasks.tasks[i])
    ensures var root := if Has(m, i) then m.space[i].root else m.k.l2;
            root < DRAM_PAGES && m.saved[i] == 0x8000_0000_0000_0000 + DRAM_PPN + root && root !in free
  {
    hide I.TableOk, F.MachineOk, Owners, SomeFree, SysOk, Mem, HasMap;
    RangeOk(m, first);
    assert m.saved[i] == OwnSatp(m, i);
    assert Mem(m).k == m.k by { KernelOf(m); }
    if Has(m, i) {
      Listed(m, first, i);
      RootUsed(Mem(m), first, free, Place(HasMap(m.tasks), m.space, i));
    }
    KernelUsedRoot(Mem(m), first, free);
  }

  lemma RootUsed(s: Sys, first: nat, free: seq<nat>, p: nat)
    requires SysOk(s, first, free, multiset{}) && p < |s.spaces|
    ensures s.spaces[p].root !in free
  {
    hide HeapOk, KernelOk, SpaceOk, AllUsed, PagesOf, KernelUsed;
    var root := s.spaces[p].root;
    OneOwner(s.heap, first, free, KernelUsed(s.k) + AllUsed(s.spaces) + multiset{}, root);
    AllUsedUpdate(s.spaces, p, s.spaces[p]);
    assert SpaceUsed(s.spaces[p])[root] >= 1;
    assert root in free ==> multiset(free)[root] >= 1;
  }

  lemma KernelUsedRoot(s: Sys, first: nat, free: seq<nat>)
    requires SysOk(s, first, free, multiset{})
    ensures s.k.l2 !in free
  {
    hide HeapOk, KernelOk, SpaceOk, AllUsed;
    OneOwner(s.heap, first, free, KernelUsed(s.k) + AllUsed(s.spaces) + multiset{}, s.k.l2);
    assert s.k.l2 in free ==> multiset(free)[s.k.l2] >= 1;
  }
}
