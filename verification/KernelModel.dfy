/** The kernel as one machine: the task slots with their address spaces and saved satp, the descriptor tables over the file
    system, physical memory, and the satp register. Every system call acts on all parts it touches in the source. */
module KernelModel {
  import opened Bytes
  import opened PhysMem
  import opened Mmu
  import opened PageAlloc
  import opened Spaces
  import opened SpaceCopy
  import opened SpaceView
  import opened Programs
  import opened ProgramFiles
  import opened SlotSpaces
  import opened Vm
  import T = TaskModel
  import F = FileCalls
  import D = Descriptors
  import FsBlocks

  /** What `zero_space` leaves. */
  const NO_SPACE := Space(0, 0, 0, [])

  function NoSpaces(): (s: SpaceSlots)
    ensures forall i :: 0 <= i < 16 ==> s[i] == NO_SPACE
  {
    seq(16, i => NO_SPACE)
  }

  function NoSatps(): (s: SatpSlots)
    ensures forall i :: 0 <= i < 16 ==> s[i] == 0
  {
    seq(16, i => 0)
  }

  type SpaceSlots = s: seq<Space> | |s| == 16 witness seq(16, i => NO_SPACE)
  type SatpSlots = s: seq<u64> | |s| == 16 witness seq(16, i => 0)

  /** `space` and `saved` are the `address_space` and `trap_ctx.satp` of each slot; `satp` is the register. */
  datatype Machine = Machine(tasks: T.Sys, files: F.Machine, heap: Heap, k: Kernel, space: SpaceSlots, saved: SatpSlots, satp: u64)

  /** Which slots own an address space. */
  function HasMap(ts: T.Sys): (has: seq<bool>)
    ensures |has| == 16
    ensures forall i :: 0 <= i < 16 ==> has[i] == (T.Used(ts.tasks[i]) && ts.tasks[i].hasSpace)
  {
    seq(16, i requires 0 <= i < 16 => T.Used(ts.tasks[i]) && ts.tasks[i].hasSpace)
  }

  predicate Has(m: Machine, i: nat)
    requires i < 16
  {
    T.Used(m.tasks.tasks[i]) && m.tasks.tasks[i].hasSpace
  }

  /** Memory with the spaces that exist. */
  function Mem(m: Machine): Sys {
    Sys(m.heap, m.k, Live(HasMap(m.tasks), m.space, 16))
  }

  function SpaceSatp(sp: Space): u64 {
    if sp.root < DRAM_PAGES then Satp(sp) else 0
  }

  function KSatp(k: Kernel): u64 {
    if k.l2 < DRAM_PAGES then KernelSatp(k) else 0
  }

  /** The pid of the current task. */
  function Me(m: Machine): int {
    T.Cur(m.tasks).pid
  }

  function SetSpace(s: SpaceSlots, i: nat, sp: Space): (r: SpaceSlots)
    requires i < 16
  {
    s[i := sp]
  }

  function SetSaved(s: SatpSlots, i: nat, satp: u64): (r: SatpSlots)
    requires i < 16
  {
    s[i := satp]
  }

  /** The page numbers the kernel keeps are pages of DRAM. */
  predicate InRange(m: Machine) {
    KernelInRange(m.k) && forall i :: 0 <= i < 16 && Has(m, i) ==> InMemory(m.space[i])
  }

  // ---------------------------------------------------------------- tasks and their parts

  /** There is a slot for a new task. */
  predicate CanSpawn(ts: T.Sys) {
    ts.taskCount < 16 && T.FreeSlot(ts.tasks, 1) < 16
  }

  /** `task_create`: the new task starts on the satp in force and with a fresh descriptor table. */
  ghost function CreateTask(m: Machine, shell: bool): (r: (Machine, int)) {
    if !CanSpawn(m.tasks) then (m, -1)
    else
      var slot, pid := T.FreeSlot(m.tasks.tasks, 1), m.tasks.nextPid;
      var (ts, r) := T.Spawn(m.tasks, false, shell, D.ProcessInit(m.files.fds, pid).1 >= 0);
      (m.(tasks := ts, files := F.Step(m.files, F.DoInit(pid)), saved := SetSaved(m.saved, slot, m.satp)), r)
  }

  /** `sys_fork` with `task_fork_from_trap`: it can fail for want of pages, of a slot, or of open files. */
  ghost function ForkTask(m: Machine): (r: (Machine, int))
    requires InRange(m)
  {
    var me := m.tasks.current;
    if !Has(m, me) then (m, -1)
    else
      var (h, copy) := Clone(m.heap, m.k, m.space[me]);
      if copy.None? || !InMemory(copy.value) then (m.(heap := h), -1)
      else if !CanSpawn(m.tasks) then (m.(heap := Destroy(h, copy.value)), -1)
      else
        var slot, pid := T.FreeSlot(m.tasks.tasks, 1), m.tasks.nextPid;
        var (ts, r) := T.Spawn(m.tasks, true, false, D.ProcessFork(m.files.fds, Me(m), pid).1 >= 0);
        (m.(tasks := ts, files := F.Step(m.files, F.DoFork(Me(m), pid)), space := SetSpace(m.space, slot, copy.value),
            saved := SetSaved(m.saved, slot, SpaceSatp(copy.value)), heap := if r < 0 then Destroy(h, copy.value) else h), r)
  }

  /** `sys_execve`: the new space takes over, satp moves to it, and only then the old one is destroyed. */
  ghost function ExecProgram(m: Machine, cwd: u32, path: seq<byte>, argv: seq<seq<byte>>, envp: seq<seq<byte>>, shell: bool)
      : (r: (Machine, Option<Loaded>))
    requires InRange(m)
  {
    var me := m.tasks.current;
    var (h, made) := PrepareFile(m.heap, m.k, m.files.fs, cwd, path, argv, envp);
    if made.None? then (m.(heap := h), None)
    else if !Has(m, me) then (m.(heap := Destroy(h, made.value.space)), None)
    else
      var satp := SpaceSatp(made.value.space);
      (m.(tasks := T.Step(m.tasks, T.DoName(shell)), files := F.Step(m.files, F.DoCloseExec(Me(m))),
          heap := Destroy(h, m.space[me]), space := SetSpace(m.space, me, made.value.space), saved := SetSaved(m.saved, me, satp), satp := satp),
       made)
  }

  /** `user_init`: the first program of a kernel task. */
  ghost function AttachProgram(m: Machine, cwd: u32, path: seq<byte>, argv: seq<seq<byte>>, envp: seq<seq<byte>>)
      : (r: (Machine, Option<Loaded>))
    requires InRange(m)
  {
    var me := m.tasks.current;
    var (h, made) := PrepareFile(m.heap, m.k, m.files.fs, cwd, path, argv, envp);
    if made.None? then (m.(heap := h), None)
    else
      var satp := SpaceSatp(made.value.space);
      (m.(tasks := T.Step(m.tasks, T.DoAttach), heap := h, space := SetSpace(m.space, me, made.value.space),
          saved := SetSaved(m.saved, me, satp), satp := satp), made)
  }

  /** `task_exit`; the space stays until the zombie is reaped. */
  ghost function ExitTask(m: Machine, code: int): (r: Machine) {
    m.(tasks := T.Exit(m.tasks, code), files := if Me(m) == 0 then m.files else F.Step(m.files, F.DoCloseAll(Me(m))))
  }

  /** `task_kill` */
  ghost function KillTask(m: Machine, pid: int, code: int): (r: (Machine, int)) {
    var (ts, r) := T.Kill(m.tasks, pid, code);
    (m.(tasks := ts, files := if r < 0 then m.files else F.Step(m.files, F.DoCloseAll(pid))), r)
  }

  /** `task_waitpid`: reaping destroys the space of the zombie and closes its descriptors once more. */
  ghost function WaitTask(m: Machine, target: int, nohang: bool): (r: (Machine, int))
    requires InRange(m)
  {
    var z := T.FindZombie(m.tasks.tasks, Me(m), target, 1);
    var (ts, r) := T.WaitPid(m.tasks, target, nohang);
    if z == 16 then (m.(tasks := ts), r)
    else
      var n := m.(tasks := ts, files := F.Step(m.files, F.DoCloseAll(m.tasks.tasks[z].pid)));
      (if Has(m, z) then n.(heap := Destroy(m.heap, m.space[z]), space := SetSpace(m.space, z, NO_SPACE)) else n, r)
  }

  /** `switch_from_trap`: satp is saved in the slot that was current and loaded from the slot that is. Where the trap does not
      switch, that is the same slot and nothing moves. */
  function Trap(m: Machine, ts: T.Sys): (r: Machine) {
    if m.tasks.taskCount <= 1 then m
    else
      var saved := SetSaved(m.saved, m.tasks.current, m.satp);
      m.(tasks := ts, saved := saved, satp := saved[ts.current])
  }

  // ---------------------------------------------------------------- steps

  datatype Op =
    | Tick
    | Reschedule
    | Create(shell: bool)
    | Attach(cwd: u32, path: seq<byte>, argv: seq<seq<byte>>, envp: seq<seq<byte>>)
    | Fork
    | Exec(cwd: u32, path: seq<byte>, argv: seq<seq<byte>>, envp: seq<seq<byte>>, shell: bool)
    | Exit(code: int)
    | Kill(pid: int, code: int)
    | Wait(target: int, nohang: bool)
    | Sched(op: T.Op)
    | File(call: F.Call)
    | Store(va: u64, b: byte)
    | CopyOut(dest: nat, bytes: seq<byte>)
    | Access(va: u64, t: Access, user: bool)

  ghost function Step(m: Machine, op: Op): (r: Machine)
    requires InRange(m) && Enabled(m, op)
  {
    match op
    case Tick => Trap(m, T.Tick(m.tasks))
    case Reschedule => Trap(m, T.Reschedule(m.tasks))
    case Create(shell) => CreateTask(m, shell).0
    case Attach(cwd, path, argv, envp) => AttachProgram(m, cwd, path, argv, envp).0
    case Fork => ForkTask(m).0
    case Exec(cwd, path, argv, envp, shell) => ExecProgram(m, cwd, path, argv, envp, shell).0
    case Exit(code) => ExitTask(m, code)
    case Kill(pid, code) => KillTask(m, pid, code).0
    case Wait(target, nohang) => WaitTask(m, target, nohang).0
    case Sched(o) => m.(tasks := T.Step(m.tasks, o))
    case File(c) => m.(files := F.Step(m.files, c))
    case Store(va, b) => m.(heap := m.heap.(mem := UserStore(m.heap.mem, m.satp, va, b)))
    case CopyOut(dest, bytes) => m.(heap := m.heap.(mem := CopyTo(m.heap.mem, m.space[m.tasks.current].pages, dest, bytes).0))
    case Access(va, t, user) => m.(heap := m.heap.(mem := Translate(m.heap.mem, m.satp, va, t, user).0))
  }

  /** Scheduling calls that touch nothing but the table. */
  predicate TableOnly(op: T.Op) {
    op.DoBlock? || op.DoWakeOne? || op.DoWakeAll? || op.DoPolicy? || op.DoQuantum?
  }

  /** File calls of process `me`. */
  predicate OwnCall(c: F.Call, me: int) {
    match c
    case DoCloexec(pid, _, _) => pid == me
    case DoOpen(pid, _, _, _) => pid == me
    case DoClose(pid, _) => pid == me
    case DoDup2(pid, _, _) => pid == me
    case DoWrite(pid, _, _) => pid == me
    case DoRead(pid, _, _, _) => pid == me
    case DoSeek(pid, _, _, _) => pid == me
    case DoMkdir(_, _) => true
    case DoUnlink(_, _) => true
    case _ => false
  }

  /** Interrupts and accesses come at any time, calls from a running task. Only kernel tasks, which have no address space,
      create tasks or start a first program; only programs store in user mode. */
  predicate Enabled(m: Machine, op: Op) {
    var running := T.Cur(m.tasks).state == T.Running;
    match op
    case Tick => true
    case Reschedule => true
    case Access(_, _, _) => true
    case Create(_) => running && !Has(m, m.tasks.current)
    case Attach(_, _, _, _) => running && !Has(m, m.tasks.current)
    case Wait(target, nohang) => T.Enabled(m.tasks, T.DoWait(target, nohang))
    case Sched(o) => T.Enabled(m.tasks, o) && TableOnly(o)
    case File(c) => running && F.Allowed(m.files, c) && OwnCall(c, Me(m))
    case Store(_, _) => running && Has(m, m.tasks.current)
    case CopyOut(_, _) => running && Has(m, m.tasks.current)
    case _ => running
  }

  /** `mem_init`, `vm_init`, `minifs_init` on a mounted disk and `task_init`. */
  ghost function Boot(h: Heap, k: Kernel, fs: FsBlocks.Fs, policy: T.Policy, quantum: nat): (m: Machine) {
    var files := F.Step(F.Machine(fs, D.Fds(D.NoFiles(), D.NoProcesses())), F.DoInit(0));
    Machine(T.Boot(policy, quantum), files, h, k, NoSpaces(), SetSaved(NoSatps(), 0, KSatp(k)), KSatp(k))
  }
}
