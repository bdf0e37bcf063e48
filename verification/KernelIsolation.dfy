/** Isolation over whole runs of the kernel: what one process does leaves the memory of every other as it was. */
module KernelIsolation {
  import opened Bytes
  import opened PhysMem
  import opened Mmu
  import opened Spaces
  import opened SpaceOps
  import opened SpaceCopy
  import opened SpaceView
  import opened Programs
  import opened ProgramFiles
  import opened SlotSpaces
  import opened KernelAccess
  import opened KernelModel
  import opened KernelRuns
  import opened TaskOwners
  import T = TaskModel
  import I = TaskInv
  import F = FileCalls
  import D = Descriptors
  import M = DescriptorMap

  /** The only steps that may change the space of slot `i`: the stores of its own program, what the kernel copies out to it, its
      own exec, and the wait that reaps it. */
  predicate Touches(m: Machine, op: Op, i: nat)
    requires i < 16
  {
    match op
    case Store(_, _) => i == m.tasks.current
    case CopyOut(_, _) => i == m.tasks.current
    case Exec(_, _, _, _, _) => i == m.tasks.current
    case Wait(target, _) => i == T.FindZombie(m.tasks.tasks, Me(m), target, 1)
    case _ => false
  }

  /** Slot `i` still belongs to the same process, with the same space and every byte of its pages. */
  ghost predicate SlotKept(m: Machine, n: Machine, i: nat)
    requires i < 16
  {
    && Has(n, i) && n.tasks.tasks[i].pid == m.tasks.tasks[i].pid && n.space[i] == m.space[i]
    && DataKept(m.heap.mem, n.heap.mem, m.space[i].pages)
  }

  lemma KeptAgain(m: Machine, u: Machine, n: Machine, i: nat)
    requires i < 16 && SlotKept(m, u, i) && SlotKept(u, n, i)
    ensures SlotKept(m, n, i)
  {
    hide Has;
  }

  /** The same owners on the same memory. */
  lemma QuietKept(m: Machine, n: Machine, i: nat)
    requires i < 16 && Has(m, i) && SameOwners(m.tasks, n.tasks) && n.heap == m.heap && n.space == m.space
    ensures SlotKept(m, n, i)
  {
    assert HasMap(m.tasks)[i] && HasMap(n.tasks)[i];
  }

  /** Pages of all spaces kept are pages of this one kept. */
  lemma SlotData(m: Machine, first: nat, mem: Memory, i: nat)
    requires i < 16 && Has(m, i) && SomeFree(Mem(m), first, multiset{}) && Kept(m.heap.mem, mem, Mem(m).spaces)
    ensures DataKept(m.heap.mem, mem, m.space[i].pages)
  {
    hide SomeFree, Kept, DataKept, HasMap, Mem;
    Listed(m, first, i);
    KeptData(m.heap.mem, mem, Mem(m).spaces, Place(HasMap(m.tasks), m.space, i));
  }

  /** So are pages of all spaces but another one's. */
  lemma OtherData(m: Machine, first: nat, mem: Memory, e: nat, i: nat)
    requires i < 16 && e < 16 && i != e && Has(m, i) && Has(m, e) && SomeFree(Mem(m), first, multiset{})
    requires var p := Place(HasMap(m.tasks), m.space, e);
             p < |Mem(m).spaces| && Kept(m.heap.mem, mem, Others(Mem(m).spaces, p))
    ensures DataKept(m.heap.mem, mem, m.space[i].pages)
  {
    hide SomeFree, Kept, DataKept, HasMap, Live;
    var has, without := HasMap(m.tasks), HasMap(m.tasks)[e := false];
    assert has[e] && without[i];
    LiveRemove(has, m.space, 16, e, without, m.space);
    LiveAt(without, m.space, 16, i);
    KeptData(m.heap.mem, mem, Others(Mem(m).spaces, Place(has, m.space, e)), Place(without, m.space, i));
  }

  // ---------------------------------------------------------------- each step

  /** A new task takes a slot nobody had. */
  lemma SpawnBeside(s: T.Sys, fork: bool, shell: bool, fdOk: bool, i: nat)
    requires CanSpawn(s) && I.TableOk(s) && i < 16 && T.Used(s.tasks[i])
    ensures i != T.FreeSlot(s.tasks, 1) && T.Spawn(s, fork, shell, fdOk).0.tasks[i] == s.tasks[i]
  {
    hide T.Spawn, T.FreeSlot, I.TableOk, HasMap, SameOwners;
    SpawnOwners(s, fork, shell, fdOk);
    SpawnSlots(s, fork, shell, fdOk);
  }

  lemma CreateKeeps(m: Machine, first: nat, shell: bool, i: nat)
    requires Ok(m, first) && i < 16 && Has(m, i)
    ensures SlotKept(m, CreateTask(m, shell).0, i)
  {
    hide I.TableOk, F.MachineOk, Owners, SomeFree, SatpOk, T.Spawn, T.FreeSlot, F.Step, D.ProcessInit, HasMap;
    if CanSpawn(m.tasks) {
      SpawnBeside(m.tasks, false, shell, D.ProcessInit(m.files.fds, m.tasks.nextPid).1 >= 0, i);
    }
  }

  /** What fork does outside the slot it takes. */
  lemma ForkFrame(m: Machine, first: nat, i: nat)
    requires Ok(m, first) && InRange(m) && i < 16 && Has(m, i)
    ensures var n := ForkTask(m).0; n.tasks.tasks[i] == m.tasks.tasks[i] && n.space[i] == m.space[i]
  {
    hide I.TableOk, F.MachineOk, Owners, SomeFree, SatpOk, T.Spawn, T.FreeSlot, F.Step, D.ProcessFork, HasMap, Clone, Destroy;
    if CanSpawn(m.tasks) {
      SpawnBeside(m.tasks, true, false, D.ProcessFork(m.files.fds, Me(m), m.tasks.nextPid).1 >= 0, i);
    }
  }

  lemma ForkKeeps(m: Machine, first: nat, i: nat)
    requires Ok(m, first) && T.Cur(m.tasks).state == T.Running && InRange(m) && i < 16 && Has(m, i)
    ensures SlotKept(m, ForkTask(m).0, i)
  {
    hide I.TableOk, F.MachineOk, Owners, SomeFree, SatpOk, ForkTask, HasMap, InRange, Kept, Mem, DataKept, Copied, D.Named, M.Marked,
         CanSpawn, M.RoomForTable, T.FreeSlot, SameOwners;
    ForkOk(m, first);
    ForkFrame(m, first, i);
    SlotData(m, first, ForkTask(m).0.heap.mem, i);
  }

  lemma ExecFrame(m: Machine, cwd: u32, path: seq<byte>, argv: seq<seq<byte>>, envp: seq<seq<byte>>, shell: bool, i: nat)
    requires InRange(m) && i < 16 && Has(m, i) && i != m.tasks.current
    ensures var n := ExecProgram(m, cwd, path, argv, envp, shell).0;
            Has(n, i) && n.tasks.tasks[i].pid == m.tasks.tasks[i].pid && n.space[i] == m.space[i]
  {
    hide T.Step, F.Step, SameOwners, HasMap, PrepareFile, Destroy;
    if Has(m, m.tasks.current) {
      QuietOwners(m.tasks, T.DoName(shell));
      SlotOwner(m.tasks, T.Step(m.tasks, T.DoName(shell)), i);
    }
  }

  lemma SlotOwner(s: T.Sys, u: T.Sys, i: nat)
    requires i < 16 && SameOwners(s, u) && T.Used(s.tasks[i])
    ensures T.Used(u.tasks[i]) && u.tasks[i].pid == s.tasks[i].pid && u.tasks[i].hasSpace == s.tasks[i].hasSpace
  {
    assert HasMap(u)[i] == HasMap(s)[i];
  }

  lemma ExecKeeps(m: Machine, first: nat, cwd: u32, path: seq<byte>, argv: seq<seq<byte>>, envp: seq<seq<byte>>, shell: bool, i: nat)
    requires Ok(m, first) && T.Cur(m.tasks).state == T.Running && InRange(m) && i < 16 && Has(m, i) && i != m.tasks.current
    ensures SlotKept(m, ExecProgram(m, cwd, path, argv, envp, shell).0, i)
  {
    hide I.TableOk, F.MachineOk, Owners, SomeFree, SatpOk, ExecProgram, HasMap, InRange, Kept, Mem, DataKept, Prepared, D.Named, M.Marked,
         CanStart, FindFile, SameOwners, Place;
    ExecOk(m, first, cwd, path, argv, envp, shell);
    ExecFrame(m, cwd, path, argv, envp, shell, i);
    var (n, r) := ExecProgram(m, cwd, path, argv, envp, shell);
    if r.Some? {
      OtherData(m, first, n.heap.mem, m.tasks.current, i);
    } else {
      SlotData(m, first, n.heap.mem, i);
    }
  }

  /** Preparing a program touches no space that exists. */
  lemma PrepareKept(m: Machine, first: nat, cwd: u32, path: seq<byte>, argv: seq<seq<byte>>, envp: seq<seq<byte>>)
    requires SomeFree(Mem(m), first, multiset{}) && KernelInRange(m.k)
    ensures Kept(m.heap.mem, PrepareFile(m.heap, m.k, m.files.fs, cwd, path, argv, envp).0.mem, Mem(m).spaces)
  {
    hide SomeFree, Kept, PrepareFile, Mem, Prepared, CanStart, FindFile;
    KernelOf(m);
    var free := Freed(Mem(m), first);
    PrepareFileOk(Mem(m), first, free, m.files.fs, cwd, path, argv, envp);
  }

  lemma AttachKeeps(m: Machine, first: nat, cwd: u32, path: seq<byte>, argv: seq<seq<byte>>, envp: seq<seq<byte>>, i: nat)
    requires Ok(m, first) && InRange(m) && i < 16 && Has(m, i) && !Has(m, m.tasks.current)
    ensures SlotKept(m, AttachProgram(m, cwd, path, argv, envp).0, i)
  {
    hide I.TableOk, F.MachineOk, Owners, SomeFree, SatpOk, T.Step, HasMap, Kept, Mem, DataKept, PrepareFile, InMemory;
    CurrentUsed(m, first);
    PrepareKept(m, first, cwd, path, argv, envp);
    SlotData(m, first, PrepareFile(m.heap, m.k, m.files.fs, cwd, path, argv, envp).0.mem, i);
    AttachOwners(m.tasks);
    assert HasMap(m.tasks)[i];
    assert HasMap(T.Step(m.tasks, T.DoAttach))[i];
  }

  lemma WaitKeeps(m: Machine, first: nat, target: int, nohang: bool, i: nat)
    requires Ok(m, first) && T.Enabled(m.tasks, T.DoWait(target, nohang)) && InRange(m) && i < 16 && Has(m, i)
    requires !Touches(m, Wait(target, nohang), i)
    ensures SlotKept(m, WaitTask(m, target, nohang).0, i)
  {
    hide I.TableOk, F.MachineOk, Owners, SomeFree, SatpOk, WaitTask, HasMap, InRange, Kept, DataKept, Mem, SameOwners, T.FindZombie, D.OwnsTable, T.Hangs;
    WaitOk(m, first, target, nohang);
    var n := WaitTask(m, target, nohang).0;
    var z := T.FindZombie(m.tasks.tasks, Me(m), target, 1);
    if z == 16 {
      QuietKept(m, n, i);
    } else {
      Listed(n, first, i);
      KeptData(m.heap.mem, n.heap.mem, Mem(n).spaces, Place(HasMap(n.tasks), n.space, i));
    }
  }

  lemma StoreKeeps(m: Machine, first: nat, va: u64, b: byte, i: nat)
    requires Ok(m, first) && Has(m, m.tasks.current) && i < 16 && Has(m, i) && i != m.tasks.current
    ensures SlotKept(m, m.(heap := m.heap.(mem := UserStore(m.heap.mem, m.satp, va, b))), i)
  {
    hide I.TableOk, F.MachineOk, Owners, SomeFree, SatpOk, UserStore, HasMap, Kept, DataKept, Mem, Place;
    StoreOk(m, first, va, b);
    OtherData(m, first, UserStore(m.heap.mem, m.satp, va, b), m.tasks.current, i);
  }

  lemma CopyOutKeeps(m: Machine, first: nat, dest: nat, bytes: seq<byte>, i: nat)
    requires Ok(m, first) && Has(m, m.tasks.current) && i < 16 && Has(m, i) && i != m.tasks.current
    ensures SlotKept(m, m.(heap := m.heap.(mem := CopyTo(m.heap.mem, m.space[m.tasks.current].pages, dest, bytes).0)), i)
  {
    hide I.TableOk, F.MachineOk, Owners, SomeFree, SatpOk, CopyTo, HasMap, Kept, DataKept, Mem, Place;
    CopyOutOk(m, first, dest, bytes);
    OtherData(m, first, CopyTo(m.heap.mem, m.space[m.tasks.current].pages, dest, bytes).0, m.tasks.current, i);
  }

  lemma AccessKeeps(m: Machine, first: nat, va: u64, t: Access, user: bool, i: nat)
    requires Ok(m, first) && i < 16 && Has(m, i)
    ensures SlotKept(m, m.(heap := m.heap.(mem := Translate(m.heap.mem, m.satp, va, t, user).0)), i)
  {
    hide I.TableOk, F.MachineOk, Owners, SomeFree, SatpOk, SatpOf, Translate, HasMap, DataKept, Mem;
    KernelOf(m);
    SatpLive(m, first);
    Listed(m, first, i);
    var free := Freed(Mem(m), first);
    AccessOk(Mem(m), first, free, m.satp, va, t, user);
  }

  lemma DeathKeeps(m: Machine, first: nat, op: Op, i: nat)
    requires Ok(m, first) && InRange(m) && T.Cur(m.tasks).state == T.Running && i < 16 && Has(m, i) && (op.Exit? || op.Kill?)
    ensures SlotKept(m, if op.Exit? then ExitTask(m, op.code) else KillTask(m, op.pid, op.code).0, i)
  {
    hide Ok, ExitTask, KillTask, HasMap, SameOwners, InRange, D.OwnsTable;
    OwnersSelf(m.tasks);
    if op.Exit? {
      ExitOk(m, first, op.code);
      QuietKept(m, ExitTask(m, op.code), i);
    } else {
      KillOk(m, first, op.pid, op.code);
      QuietKept(m, KillTask(m, op.pid, op.code).0, i);
    }
  }

  lemma TrapKeeps(m: Machine, first: nat, i: nat)
    requires Ok(m, first) && i < 16 && Has(m, i)
    ensures SlotKept(m, Trap(m, T.Tick(m.tasks)), i) && SlotKept(m, Trap(m, T.Reschedule(m.tasks)), i)
  {
    hide I.TableOk, F.MachineOk, Owners, SomeFree, SatpOk, T.Tick, T.Reschedule, HasMap, SameOwners, DataKept, InRange;
    Sound(m, first);
    OwnersSelf(m.tasks);
    TickOwners(m.tasks);
    RescheduleOk(m.tasks);
    QuietKept(m, Trap(m, T.Tick(m.tasks)), i);
    QuietKept(m, Trap(m, T.Reschedule(m.tasks)), i);
  }

  lemma SchedKeeps(m: Machine, first: nat, op: T.Op, i: nat)
    requires Ok(m, first) && T.Enabled(m.tasks, op) && TableOnly(op) && i < 16 && Has(m, i)
    ensures SlotKept(m, m.(tasks := T.Step(m.tasks, op)), i)
  {
    hide Ok, T.Step, SameOwners;
    CurrentUsed(m, first);
    QuietOwners(m.tasks, op);
    QuietKept(m, m.(tasks := T.Step(m.tasks, op)), i);
  }

  // ---------------------------------------------------------------- every step, every run

  /** A step that does not touch the space of slot `i` leaves the slot to its process and every byte as it was. */
  lemma StepIsolated(m: Machine, first: nat, op: Op, i: nat)
    requires Ok(m, first) && Enabled(m, op) && i < 16 && Has(m, i) && !Touches(m, op, i)
    ensures InRange(m) && SlotKept(m, Step(m, op), i)
  {
    hide Ok, SlotKept, InRange, Trap, CreateTask, ForkTask, ExecProgram, AttachProgram, ExitTask, KillTask, WaitTask, T.Step, F.Step,
         UserStore, CopyTo, Translate, T.Enabled, F.Allowed, T.FindZombie;
    Sound(m, first);
    match op
    case Tick => TrapKeeps(m, first, i);
    case Reschedule => TrapKeeps(m, first, i);
    case Create(shell) => CreateKeeps(m, first, shell, i);
    case Attach(cwd, path, argv, envp) => AttachKeeps(m, first, cwd, path, argv, envp, i);
    case Fork => ForkKeeps(m, first, i);
    case Exec(cwd, path, argv, envp, shell) => ExecKeeps(m, first, cwd, path, argv, envp, shell, i);
    case Exit(_) => DeathKeeps(m, first, op, i);
    case Kill(_, _) => DeathKeeps(m, first, op, i);
    case Wait(target, nohang) => WaitKeeps(m, first, target, nohang, i);
    case Sched(o) => SchedKeeps(m, first, o, i);
    case File(c) => SelfKept(m, m.(files := F.Step(m.files, c)), i);
    case Store(va, b) => StoreKeeps(m, first, va, b, i);
    case CopyOut(dest, bytes) => CopyOutKeeps(m, first, dest, bytes, i);
    case Access(va, t, user) => AccessKeeps(m, first, va, t, user, i);
  }

  lemma SelfKept(m: Machine, n: Machine, i: nat)
    requires i < 16 && Has(m, i) && n == m.(files := n.files)
    ensures SlotKept(m, n, i)
  {
  }

  /** No step of the run touches the space of slot `i`. */
  ghost predicate Spared(m: Machine, ops: seq<Op>, i: nat)
    requires i < 16
    decreases |ops|
  {
    ops != [] ==> !Touches(m, ops[0], i) && (InRange(m) && Enabled(m, ops[0]) ==> Spared(Step(m, ops[0]), ops[1..], i))
  }

  /** Isolation over every run, whatever the other processes do in it: a process whose own program does not store, whom nothing
      is copied to, that does not exec and is not reaped finds its space, every byte of it and every address as they were. */
  lemma {:induction false} RunIsolated(m: Machine, first: nat, ops: seq<Op>, n: Machine, i: nat)
    requires Ok(m, first) && Reaches(m, ops, n) && i < 16 && Has(m, i) && Spared(m, ops, i)
    ensures SlotKept(m, n, i)
    ensures forall x: nat :: ByteIn(n.heap.mem, n.space[i].pages, x) == ByteIn(m.heap.mem, m.space[i].pages, x)
    decreases |ops|
  {
    hide Ok, Step, Enabled, InRange, Touches, DataKept, ByteIn;
    if ops == [] {
      SelfKept(m, n, i);
    } else {
      StepOk(m, first, ops[0]);
      StepIsolated(m, first, ops[0], i);
      var u := Step(m, ops[0]);
      RunIsolated(u, first, ops[1..], n, i);
      KeptAgain(m, u, n, i);
    }
    forall x: nat ensures ByteIn(n.heap.mem, n.space[i].pages, x) == ByteIn(m.heap.mem, m.space[i].pages, x) {
      ByteKept(m.heap.mem, n.heap.mem, m.space[i].pages, x);
    }
  }
}
