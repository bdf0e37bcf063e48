/** The process table of MiniOS as a state machine: sixteen slots, round-robin and first-come selection, fork, exit, kill,
    waiting and wake-ups, exactly as task.c updates them. */
module TaskModel {

  datatype TaskState = Unused | Ready | Running | Blocked | Zombie

  /** What a task is blocked on: nothing, its own children (`task_waitpid` stores the task itself), or an object. */
  datatype Channel = NoChannel | Children | Object(id: int)

  datatype Policy = Fcfs | RoundRobin

  datatype Task = Task(state: TaskState, pid: int, ppid: int, exitCode: int, waitTarget: int, channel: Channel,
                       timeSlice: nat, ticksLeft: nat, readyOrder: nat, runtimeTicks: nat, switches: nat,
                       hasSpace: bool, shell: bool)

  /** `fds` are the pids that own a descriptor table. */
  datatype SysRecord = Sys(tasks: seq<Task>, current: nat, taskCount: int, nextPid: int, order: nat,
                           policy: Policy, quantum: nat, fds: set<int>)

  const NO_TASK := Task(Unused, -1, -1, 0, -1, NoChannel, 0, 0, 0, 0, 0, false, false)

  type Sys = s: SysRecord | |s.tasks| == 16 && s.current < 16
    witness Sys(seq(16, i => NO_TASK), 0, 0, 0, 0, Fcfs, 1, {})

  predicate Used(t: Task) {
    t.state != Unused
  }

  predicate Alive(t: Task) {
    t.state != Unused && t.state != Zombie
  }

  function Cur(s: Sys): Task {
    s.tasks[s.current]
  }

  function SetTask(s: Sys, i: nat, t: Task): (r: Sys)
    requires i < 16
  {
    s.(tasks := s.tasks[i := t])
  }

  // ---------------------------------------------------------------- reading the table

  /** First slot in use with this pid, or 16. */
  function FindPid(ts: seq<Task>, pid: int, i: nat): (r: nat)
    requires i <= 16 == |ts|
    ensures i <= r <= 16
    ensures r < 16 ==> Used(ts[r]) && ts[r].pid == pid
    ensures forall j :: i <= j < r ==> !(Used(ts[j]) && ts[j].pid == pid)
    decreases 16 - i
  {
    if i == 16 || (Used(ts[i]) && ts[i].pid == pid) then i else FindPid(ts, pid, i + 1)
  }

  /** First free slot from `i` on, or 16. */
  function FreeSlot(ts: seq<Task>, i: nat): (r: nat)
    requires i <= 16 == |ts|
    ensures i <= r <= 16
    ensures r < 16 ==> ts[r].state == Unused
    ensures forall j :: i <= j < r ==> Used(ts[j])
    decreases 16 - i
  {
    if i == 16 || ts[i].state == Unused then i else FreeSlot(ts, i + 1)
  }

  /** `select_rr`: the first ready slot `i` or more places after the slot behind the current one; 16 when there is none. */
  function SelectRr(ts: seq<Task>, start: nat, i: nat): (r: nat)
    requires i <= 16 == |ts|
    ensures r <= 16
    ensures r < 16 ==> ts[r].state == Ready
    decreases 16 - i
  {
    if i == 16 then 16
    else if ts[(start + i) % 16].state == Ready then (start + i) % 16
    else SelectRr(ts, start, i + 1)
  }

  /** `select_fcfs`: the ready slot with the least ready stamp among the first `n`; 16 when there is none. */
  function SelectFcfs(ts: seq<Task>, n: nat): (r: nat)
    requires n <= 16 == |ts|
    ensures r == 16 || r < n
    ensures r < 16 ==> ts[r].state == Ready
    ensures forall j :: 0 <= j < n && ts[j].state == Ready ==> r < 16 && ts[r].readyOrder <= ts[j].readyOrder
  {
    if n == 0 then 16
    else
      var best := SelectFcfs(ts, n - 1);
      if ts[n - 1].state == Ready && (best == 16 || ts[n - 1].readyOrder < ts[best].readyOrder) then n - 1 else best
  }

  function SelectNext(s: Sys): (r: nat)
    ensures r <= 16
    ensures r < 16 ==> s.tasks[r].state == Ready
  {
    if s.policy == Fcfs then SelectFcfs(s.tasks, 16) else SelectRr(s.tasks, (s.current + 1) % 16, 0)
  }

  predicate ReadyNonIdle(ts: seq<Task>)
    requires |ts| == 16
  {
    exists i :: 1 <= i < 16 && ts[i].state == Ready
  }

  // ---------------------------------------------------------------- switching

  /** The current task, when it was running, goes back to the ready ones with a fresh stamp. */
  function Yielded(s: Sys): (r: Sys) {
    if Cur(s).state == Running then
      SetTask(s, s.current, Cur(s).(state := Ready, readyOrder := s.order + 1)).(order := s.order + 1)
    else s
  }

  function Dispatch(s: Sys, next: nat): (r: Sys)
    requires next < 16
  {
    var t := s.tasks[next];
    SetTask(s, next, t.(state := Running, ticksLeft := t.timeSlice, switches := t.switches + 1)).(current := next)
  }

  /** The selection part of `switch_from_trap`. */
  function Switch(s: Sys): (r: Sys) {
    var y := Yielded(s);
    var next := SelectNext(y);
    if next < 16 then Dispatch(y, next)
    else if Cur(y).state == Ready then
      SetTask(y, y.current, Cur(y).(state := Running, ticksLeft := Cur(y).timeSlice))
    else y
  }

  /** A timer tick that does not switch: the running task keeps the processor. */
  predicate Stays(s: Sys) {
    || (s.policy == Fcfs && Cur(s).pid != 0 && Cur(s).state == Running)
    || (s.policy == RoundRobin && Cur(s).state == Running && Cur(s).pid != 0 && Cur(s).ticksLeft > 1)
    || (Cur(s).pid == 0 && !ReadyNonIdle(s.tasks))
  }

  /** `sched_tick` */
  function Tick(s: Sys): (r: Sys) {
    if s.taskCount <= 1 then s
    else
      var t := Cur(s).(runtimeTicks := Cur(s).runtimeTicks + 1);
      var u := SetTask(s, s.current, t);
      if u.policy == RoundRobin && t.state == Running && t.pid != 0 && t.ticksLeft > 1 then
        SetTask(u, u.current, t.(ticksLeft := t.ticksLeft - 1))
      else if Stays(u) then u
      else Switch(u)
  }

  /** `task_reschedule` */
  function Reschedule(s: Sys): (r: Sys) {
    if s.taskCount <= 1 then s else Switch(s)
  }

  // ---------------------------------------------------------------- processes

  function NewTask(s: Sys, fork: bool, shell: bool): Task {
    Task(Ready, s.nextPid, Cur(s).pid, 0, -1, NoChannel, s.quantum, s.quantum, s.order + 1, 0, 0, fork, shell)
  }

  /** `task_create` and `task_fork_from_trap`: the new pid, or -1. `shell` says whether the name given is
      "shell", `fdOk` whether the descriptor table could be set up. */
  function Spawn(s: Sys, fork: bool, shell: bool, fdOk: bool): (r: (Sys, int)) {
    if s.taskCount >= 16 then (s, -1)
    else
      var slot := FreeSlot(s.tasks, 1);
      if slot == 16 then (s, -1)
      else
        var t := NewTask(s, fork, shell);
        var u := SetTask(s, slot, t).(nextPid := s.nextPid + 1, order := s.order + 1);
        if fdOk then (u.(taskCount := s.taskCount + 1, fds := s.fds + {t.pid}), t.pid)
        else (SetTask(u, slot, t.(state := Unused, hasSpace := false)), -1)
  }

  /** The parent of slot `i` wakes up when it waits for any child or for this one. */
  predicate Wakes(s: Sys, i: nat)
    requires i < 16
  {
    var p := FindPid(s.tasks, s.tasks[i].ppid, 0);
    p < 16 && s.tasks[p].state == Blocked && (s.tasks[p].waitTarget < 0 || s.tasks[p].waitTarget == s.tasks[i].pid)
  }

  function WakeTask(s: Sys, p: nat): (r: Sys)
    requires p < 16
  {
    SetTask(s, p, s.tasks[p].(state := Ready, channel := NoChannel, readyOrder := s.order + 1)).(order := s.order + 1)
  }

  /** Children of `pid` pass to the idle task. */
  function Reparent(ts: seq<Task>, pid: int): (r: seq<Task>)
    requires |ts| == 16
    ensures |r| == 16
    ensures forall i :: 0 <= i < 16 ==>
              r[i] == if i >= 1 && Used(ts[i]) && ts[i].ppid == pid then ts[i].(ppid := 0) else ts[i]
  {
    seq(16, i requires 0 <= i < 16 => if i >= 1 && Used(ts[i]) && ts[i].ppid == pid then ts[i].(ppid := 0) else ts[i])
  }

  /** What exit and kill do to slot `i`: it becomes a zombie, its waiting parent wakes and its children are passed on. */
  function Die(s: Sys, i: nat, code: int, clear: bool): (r: Sys)
    requires i < 16
  {
    var t := s.tasks[i];
    var u := SetTask(s, i, t.(state := Zombie, exitCode := code, channel := if clear then NoChannel else t.channel))
             .(fds := s.fds - {t.pid});
    var v := if Wakes(u, i) then WakeTask(u, FindPid(u.tasks, t.ppid, 0)) else u;
    v.(tasks := Reparent(v.tasks, t.pid))
  }

  /** `task_exit` */
  function Exit(s: Sys, code: int): (r: Sys) {
    if Cur(s).pid == 0 then s else Die(s, s.current, code, false)
  }

  /** `task_kill`: 0, or -1 for a missing task, idle, the caller, a zombie or the shell. */
  function Kill(s: Sys, pid: int, code: int): (r: (Sys, int)) {
    var i := FindPid(s.tasks, pid, 0);
    if i == 16 || s.tasks[i].pid == 0 || i == s.current || s.tasks[i].state == Zombie || s.tasks[i].shell then (s, -1)
    else (Die(s, i, code, true), 0)
  }

  /** Slot `i` is a child of `parent` that a wait for `target` is about. */
  predicate IsAwaited(ts: seq<Task>, parent: int, target: int, i: nat)
    requires |ts| == 16 && i < 16
  {
    i >= 1 && Used(ts[i]) && ts[i].ppid == parent && (target > 0 ==> ts[i].pid == target)
  }

  /** First awaited zombie from slot `i` on, or 16. */
  function FindZombie(ts: seq<Task>, parent: int, target: int, i: nat): (r: nat)
    requires i <= 16 == |ts|
    ensures i <= r <= 16
    ensures r < 16 ==> IsAwaited(ts, parent, target, r) && ts[r].state == Zombie
    ensures forall j :: i <= j < r ==> !(IsAwaited(ts, parent, target, j) && ts[j].state == Zombie)
    decreases 16 - i
  {
    if i == 16 || (IsAwaited(ts, parent, target, i) && ts[i].state == Zombie) then i else FindZombie(ts, parent, target, i + 1)
  }

  predicate HasAwaited(ts: seq<Task>, parent: int, target: int)
    requires |ts| == 16
  {
    exists i :: 0 <= i < 16 && IsAwaited(ts, parent, target, i)
  }

  /** Frees the slot of a reaped zombie. */
  function Reaped(t: Task): Task {
    t.(state := Unused, pid := -1, ppid := -1, hasSpace := false, shell := false)
  }

  /** `task_waitpid` is about to hang: an awaited child is there, none has died, and the caller insists. */
  predicate Hangs(s: Sys, target: int, nohang: bool) {
    !nohang && HasAwaited(s.tasks, Cur(s).pid, target) && FindZombie(s.tasks, Cur(s).pid, target, 1) == 16
  }

  /** `task_waitpid`: the pid of a reaped zombie, -1 without such a child, 0 when told not to hang, -2 after blocking. */
  function WaitPid(s: Sys, target: int, nohang: bool): (r: (Sys, int)) {
    var me := Cur(s);
    var z := FindZombie(s.tasks, me.pid, target, 1);
    if z < 16 then
      (SetTask(s, z, Reaped(s.tasks[z])).(taskCount := s.taskCount - 1, fds := s.fds - {s.tasks[z].pid}), s.tasks[z].pid)
    else if !HasAwaited(s.tasks, me.pid, target) then (s, -1)
    else if nohang then (s, 0)
    else (SetTask(s, s.current, me.(state := Blocked, waitTarget := target, channel := Children)), -2)
  }

  // ---------------------------------------------------------------- blocking on objects

  /** `task_block` */
  function Block(s: Sys, id: int): (r: Sys) {
    if Cur(s).pid == 0 then s else SetTask(s, s.current, Cur(s).(state := Blocked, channel := Object(id)))
  }

  predicate WaitsOn(t: Task, id: int) {
    t.state == Blocked && t.channel == Object(id)
  }

  function FindWaiter(ts: seq<Task>, id: int, i: nat): (r: nat)
    requires i <= 16 == |ts|
    ensures i <= r <= 16
    ensures r < 16 ==> WaitsOn(ts[r], id)
    ensures forall j :: i <= j < r ==> !WaitsOn(ts[j], id)
    decreases 16 - i
  {
    if i == 16 || WaitsOn(ts[i], id) then i else FindWaiter(ts, id, i + 1)
  }

  /** `task_wake_one`: the pid woken, or -1. */
  function WakeOne(s: Sys, id: int): (r: (Sys, int)) {
    var i := FindWaiter(s.tasks, id, 1);
    if i == 16 then (s, -1) else (WakeTask(s, i), s.tasks[i].pid)
  }

  /** `task_wake_all` from slot `i` on. */
  function WakeAll(s: Sys, id: int, i: nat): (r: Sys)
    requires i <= 16
    decreases 16 - i
  {
    if i == 16 then s
    else if WaitsOn(s.tasks[i], id) then WakeAll(WakeTask(s, i), id, i + 1)
    else WakeAll(s, id, i + 1)
  }

  // ---------------------------------------------------------------- settings

  /** `task_set_quantum` */
  function SetQuantum(s: Sys, ticks: nat): (r: Sys) {
    var q := if ticks == 0 then 1 else ticks;
    s.(quantum := q,
       tasks := seq(16, i requires 0 <= i < 16 =>
                  if Used(s.tasks[i]) then s.tasks[i].(timeSlice := q, ticksLeft := q) else s.tasks[i]))
  }

  /** `task_init` after the descriptor table of pid 0 was set up. */
  function Boot(policy: Policy, quantum: nat): (r: Sys) {
    var idle := NO_TASK.(state := Running, pid := 0, timeSlice := quantum, ticksLeft := quantum, readyOrder := 1);
    Sys(seq(16, i => NO_TASK)[0 := idle], 0, 1, 1, 1, policy, quantum, {0})
  }

  // ---------------------------------------------------------------- steps

  datatype Op =
    | DoTick
    | DoReschedule
    | DoSpawn(fork: bool, shell: bool, fdOk: bool)
    | DoExit(code: int)
    | DoKill(pid: int, code: int)
    | DoWait(target: int, nohang: bool)
    | DoBlock(id: int)
    | DoWakeOne(id: int)
    | DoWakeAll(id: int)
    | DoPolicy(policy: Policy)
    | DoQuantum(ticks: nat)
    | DoName(shell: bool)
    | DoAttach

  function Step(s: Sys, op: Op): (r: Sys) {
    match op
    case DoTick => Tick(s)
    case DoReschedule => Reschedule(s)
    case DoSpawn(fork, shell, fdOk) => Spawn(s, fork, shell, fdOk).0
    case DoExit(code) => Exit(s, code)
    case DoKill(pid, code) => Kill(s, pid, code).0
    case DoWait(target, nohang) => WaitPid(s, target, nohang).0
    case DoBlock(id) => Block(s, id)
    case DoWakeOne(id) => WakeOne(s, id).0
    case DoWakeAll(id) => WakeAll(s, id, 1)
    case DoPolicy(policy) => s.(policy := policy)
    case DoQuantum(ticks) => SetQuantum(s, ticks)
    case DoName(shell) => SetTask(s, s.current, Cur(s).(shell := shell))
    case DoAttach => SetTask(s, s.current, Cur(s).(hasSpace := true))
  }

  /** Calls are made by a running task; interrupts come at any time. Idle never hangs in a wait for its children. */
  predicate Enabled(s: Sys, op: Op) {
    || op.DoTick? || op.DoReschedule?
    || (Cur(s).state == Running && !(op.DoWait? && Cur(s).pid == 0 && Hangs(s, op.target, op.nohang)))
  }
}
