/** Who keeps the processor and for how long under each policy, and what kill, wait, wake-up and spawn answer. */
module Turns {
  import opened TaskModel
  import opened TaskInv
  import opened Scheduling

  // ---------------------------------------------------------------- switching

  /** Some other slot is ready. */
  predicate OtherReady(s: Sys) {
    exists j :: 0 <= j < 16 && j != s.current && s.tasks[j].state == Ready
  }

  /** The processor passes from one slot to another: the old one, if it was running, is ready with the newest stamp, the new one
      runs with a full slice, and no third slot changes. */
  predicate HandedOver(s: Sys, u: Sys) {
    && u.current != s.current && s.tasks[u.current].state == Ready
    && Cur(u).state == Running && Cur(u).ticksLeft == s.quantum && Cur(u).pid == s.tasks[u.current].pid
    && Cur(u).switches == s.tasks[u.current].switches + 1
    && u.tasks[s.current].state == (if Cur(s).state == Running then Ready else Cur(s).state)
    && (Cur(s).state == Running ==> forall j :: 0 <= j < 16 && j != s.current && s.tasks[j].state == Ready ==>
          s.tasks[j].readyOrder < u.tasks[s.current].readyOrder)
    && forall j :: 0 <= j < 16 && j != s.current && j != u.current ==> u.tasks[j] == s.tasks[j]
  }

  /** A selection moves the processor exactly when another slot is ready. */
  lemma SwitchIff(s: Sys)
    requires SchedulerOk(s)
    ensures Switch(s).current != s.current <==> OtherReady(s)
    ensures Switch(s).current != s.current ==> HandedOver(s, Switch(s))
    ensures Switch(s).current == s.current ==> Cur(Switch(s)).state == Running && Cur(Switch(s)).ticksLeft == s.quantum
  {
    hide SelectRr, SelectFcfs, CurrentOk, IdleOk;
    SwitchScheduler(s);
    StampFresh(s);
    var y := Yielded(s);
    if OtherReady(s) {
      var j :| 0 <= j < 16 && j != s.current && s.tasks[j].state == Ready;
      OtherChosen(s, j);
    }
  }

  /** With another slot ready, neither policy takes the current one again. */
  lemma OtherChosen(s: Sys, j: nat)
    requires SchedulerOk(s) && WaitsReady(s, j)
    ensures SelectNext(Yielded(s)) != s.current
  {
    hide SelectRr, SelectFcfs, IdleOk;
    StampFresh(s);
    var y := Yielded(s);
    assert y.tasks[j] == s.tasks[j];
    if s.policy == RoundRobin {
      var start := (s.current + 1) % 16;
      RrFinds(y.tasks, start, 0, j);
      Follows(s.current);
      Wraps(start, j);
      Wraps(start, s.current);
    } else {
      assert y.tasks[SelectFcfs(y.tasks, 16)].readyOrder <= y.tasks[j].readyOrder;
    }
  }

  /** `sched_tick` leaves the processor where it is exactly when nobody else is ready, or the running task is not idle and either
      the policy is first come or more than one tick of its slice is left. */
  lemma TickIff(s: Sys)
    requires TableOk(s)
    ensures var u := Tick(s);
            && (u.current == s.current <==>
                  !OtherReady(s) || (Cur(s).state == Running && Cur(s).pid != 0 && (s.policy == Fcfs || Cur(s).ticksLeft > 1)))
            && (u.current != s.current ==> HandedOver(Counted(s), u))
  {
    hide Switch, ProcessesOk, NoLostWakeup, StampsOk, SlicesOk, OneRunning, CurrentOk, HandedOver;
    if OtherReady(s) {
      var j :| 0 <= j < 16 && j != s.current && s.tasks[j].state == Ready;
      TwoTasks(s, j);
      NotIdling(s, j);
      NotIdling(Counted(s), j) by { CountsDown(s, Cur(Counted(s))); }
    }
    CountsDown(s, Cur(Counted(s)));
    SwitchIff(Counted(s));
    OtherSame(s);
  }

  /** One more tick in the account of the current task. */
  function Counted(s: Sys): Sys {
    SetTask(s, s.current, Cur(s).(runtimeTicks := Cur(s).runtimeTicks + 1))
  }

  lemma OtherSame(s: Sys)
    ensures OtherReady(Counted(s)) == OtherReady(s)
  {
    assert forall j :: 0 <= j < 16 && j != s.current ==> Counted(s).tasks[j] == s.tasks[j];
  }

  // ---------------------------------------------------------------- keeping the processor

  predicate RunsUser(s: Sys) {
    Cur(s).state == Running && Cur(s).pid != 0
  }

  /** The steps by which the running task gives the processor up itself: yielding, exit, blocking, and a wait that hangs. */
  predicate GivesUp(s: Sys, op: Op) {
    op.DoReschedule? || op.DoExit? || op.DoBlock? || (op.DoWait? && Hangs(s, op.target, op.nohang))
  }

  /** Idle is ready while another task runs. */
  lemma IdleReady(s: Sys)
    requires TableOk(s) && RunsUser(s)
    ensures OtherReady(s) && s.current != 0 && s.taskCount > 1
  {
    hide ProcessesOk, NoLostWakeup, StampsOk, SlicesOk, OneRunning;
    assert WaitsReady(s, 0);
    TwoTasks(s, 0);
  }

  /** Every step but a tick and a change of quantum: the running task keeps the processor, its slice and its account exactly
      unless it gives the processor up. */
  lemma StepKeeps(s: Sys, op: Op)
    requires TableOk(s) && Enabled(s, op) && RunsUser(s) && !op.DoTick? && !op.DoQuantum?
    ensures var u := Step(s, op);
            && (u.current == s.current && Cur(u).state == Running <==> !GivesUp(s, op))
            && (!GivesUp(s, op) ==> Cur(u).pid == Cur(s).pid && Cur(u).ticksLeft == Cur(s).ticksLeft && u.quantum == s.quantum
                                    && Cur(u).runtimeTicks == Cur(s).runtimeTicks && (!op.DoPolicy? ==> u.policy == s.policy))
  {
    hide TableOk, Switch, FindPid, FindZombie, HasAwaited, FindWaiter, FreeSlot, OtherReady, HandedOver;
    IdleReady(s);
    match op
    case DoReschedule =>
      SchedulerPart(s);
      SwitchIff(s);
    case DoWakeAll(id) => WakeAllCurrent(s, id, 1);
    case DoExit(code) => DeathEnds(s, code);
    case DoKill(pid, code) => KillSpares(s, pid, code);
    case DoWait(target, nohang) => WaitSpares(s, target, nohang);
    case DoSpawn(_, _, _) =>
    case DoWakeOne(_) =>
    case DoBlock(_) =>
    case DoPolicy(_) =>
    case DoName(_) =>
    case DoAttach =>
  }

  lemma DeathEnds(s: Sys, code: int)
    requires TableOk(s) && RunsUser(s)
    ensures Cur(Exit(s, code)).state == Zombie && Exit(s, code).current == s.current
  {
    hide FindPid, ProcessesOk, NoLostWakeup, StampsOk, SlicesOk;
  }

  lemma KillSpares(s: Sys, pid: int, code: int)
    requires TableOk(s) && RunsUser(s)
    ensures var u := Kill(s, pid, code).0;
            && u.current == s.current && Cur(u) == Cur(s).(ppid := Cur(u).ppid) && u.quantum == s.quantum && u.policy == s.policy
  {
    hide FindPid, ProcessesOk, NoLostWakeup, StampsOk, SlicesOk;
  }

  lemma WaitSpares(s: Sys, target: int, nohang: bool)
    requires TableOk(s) && RunsUser(s)
    ensures var u := WaitPid(s, target, nohang).0;
            && u.current == s.current && u.quantum == s.quantum && u.policy == s.policy
            && (if Hangs(s, target, nohang) then Cur(u).state == Blocked else Cur(u) == Cur(s))
  {
    hide FindZombie, HasAwaited, ProcessesOk, NoLostWakeup, StampsOk, SlicesOk;
  }

  /** A run in which the running task never gives the processor up and no setting is changed; the steps are judged in the states
      in which they happen. */
  predicate Undisturbed(s: Sys, ops: seq<Op>)
    decreases |ops|
  {
    ops != [] ==> && Enabled(s, ops[0]) && !GivesUp(s, ops[0]) && !ops[0].DoPolicy? && !ops[0].DoQuantum?
                  && Undisturbed(Step(s, ops[0]), ops[1..])
  }

  /** Still the same task on the processor, `ticks` later. */
  predicate StillRuns(s: Sys, u: Sys, ticks: nat) {
    && u.current == s.current && RunsUser(u) && Cur(u).pid == Cur(s).pid && u.policy == s.policy && u.quantum == s.quantum
    && Cur(u).runtimeTicks == Cur(s).runtimeTicks + ticks
  }

  /** First come is not preemptive: through any undisturbed run, however many ticks it has, the running task stays. */
  lemma {:induction false} FcfsStays(s: Sys, ops: seq<Op>)
    requires TableOk(s) && s.policy == Fcfs && RunsUser(s) && Undisturbed(s, ops)
    ensures TableOk(Run(s, ops)) && StillRuns(s, Run(s, ops), Ticks(ops)) && Cur(Run(s, ops)).ticksLeft == Cur(s).ticksLeft
    decreases |ops|
  {
    hide TableOk, Step, Enabled, GivesUp;
    if ops != [] {
      var op := ops[0];
      StepOk(s, op);
      if op.DoTick? {
        TickRuns(s);
      } else {
        StepKeeps(s, op);
      }
      FcfsStays(Step(s, op), ops[1..]);
    }
  }

  /** A tick on a task that keeps the processor, and on one whose slice is over. */
  lemma TickRuns(s: Sys)
    requires TableOk(s) && RunsUser(s)
    ensures var u := Step(s, DoTick);
            if s.policy == Fcfs || Cur(s).ticksLeft > 1 then
              StillRuns(s, u, 1) && Cur(u).ticksLeft == (if s.policy == Fcfs then Cur(s).ticksLeft else Cur(s).ticksLeft - 1)
            else HandedOver(Counted(s), u)
  {
    hide TableOk, Switch, OtherReady, HandedOver, ReadyNonIdle;
    IdleReady(s);
    TickIff(s);
  }

  /** Round robin: through any undisturbed run with fewer ticks than are left of its slice, the running task stays. */
  lemma {:induction false} SliceLasts(s: Sys, ops: seq<Op>)
    requires TableOk(s) && s.policy == RoundRobin && RunsUser(s) && Undisturbed(s, ops)
    requires Ticks(ops) == 0 || Ticks(ops) < Cur(s).ticksLeft
    ensures TableOk(Run(s, ops)) && StillRuns(s, Run(s, ops), Ticks(ops)) && Cur(Run(s, ops)).ticksLeft == Cur(s).ticksLeft - Ticks(ops)
    decreases |ops|
  {
    hide TableOk, Step, Enabled, GivesUp;
    if ops != [] {
      var op := ops[0];
      StepOk(s, op);
      if op.DoTick? {
        TickRuns(s);
      } else {
        StepKeeps(s, op);
      }
      SliceLasts(Step(s, op), ops[1..]);
    }
  }

  /** And the next tick takes the processor away: a task keeps it for exactly `ticksLeft - 1` more ticks. */
  lemma SliceEnds(s: Sys, ops: seq<Op>)
    requires TableOk(s) && s.policy == RoundRobin && RunsUser(s) && Undisturbed(s, ops)
    requires Ticks(ops) == if Cur(s).ticksLeft > 1 then Cur(s).ticksLeft - 1 else 0
    ensures var u := Run(s, ops); StillRuns(s, u, Ticks(ops)) && HandedOver(Counted(u), Step(u, DoTick))
  {
    hide TableOk, Step, Enabled, GivesUp, Undisturbed, HandedOver;
    SliceLasts(s, ops);
    TickRuns(Run(s, ops));
  }

  /** A task that was just given the processor keeps it for the whole quantum: `quantum - 1` ticks pass, the next one ends it. */
  lemma FullTurn(s: Sys, ops: seq<Op>)
    requires TableOk(s) && s.policy == RoundRobin && OtherReady(s) && RunsUser(Switch(s))
    requires Undisturbed(Switch(s), ops) && Ticks(ops) == s.quantum - 1
    ensures var u := Run(Switch(s), ops); StillRuns(Switch(s), u, s.quantum - 1) && HandedOver(Counted(u), Step(u, DoTick))
  {
    hide TableOk, Step, Enabled, GivesUp, Undisturbed, Switch, OtherReady;
    SchedulerPart(s);
    SwitchIff(s);
    SwitchOk(s);
    SwitchQuantum(s);
    SliceEnds(Switch(s), ops);
  }

  /** `task_set_quantum` gives the running task a slice of that many ticks, at least one. */
  lemma QuantumTurn(s: Sys, ticks: nat, ops: seq<Op>)
    requires TableOk(s) && s.policy == RoundRobin && RunsUser(s)
    requires Undisturbed(SetQuantum(s, ticks), ops) && Ticks(ops) == if ticks == 0 then 0 else ticks - 1
    ensures var u := Run(SetQuantum(s, ticks), ops); u.current == s.current && RunsUser(u) && HandedOver(Counted(u), Step(u, DoTick))
  {
    hide TableOk, Enabled, GivesUp, Undisturbed, HandedOver;
    var v := SetQuantum(s, ticks);
    SettingsOk(s, DoQuantum(ticks));
    assert TableOk(v);
    hide Step;
    SliceEnds(v, ops);
  }

  // ---------------------------------------------------------------- answers

  /** `task_kill` succeeds exactly on a task other than idle and the caller that is neither dead nor the shell; it is then a zombie
      with that exit code. Otherwise nothing happens. */
  lemma KillIff(s: Sys, pid: int, code: int)
    requires TableOk(s)
    ensures var (u, r) := Kill(s, pid, code);
            && (r == 0 <==> exists i :: 0 <= i < 16 && Killable(s, i, pid))
            && (r == 0 || (u, r) == (s, -1))
            && (r == 0 ==> forall i :: 0 <= i < 16 && Killable(s, i, pid) ==> u.tasks[i].state == Zombie && u.tasks[i].exitCode == code)
  {
    hide ParentsOk, FdsOk, NoLostWakeup, SchedulerOk, UsedCount, Die;
    var i := FindPid(s.tasks, pid, 0);
    if i < 16 {
      assert forall j :: 0 <= j < 16 && Killable(s, j, pid) ==> j == i;
      assert Kill(s, pid, code).1 == 0 <==> Killable(s, i, pid);
      Dead(s, i, code);
    }
  }

  lemma Dead(s: Sys, i: nat, code: int)
    requires i < 16
    ensures var t := Die(s, i, code, true).tasks[i]; t.state == Zombie && t.exitCode == code
  {
    hide FindPid;
  }

  predicate Killable(s: Sys, i: nat, pid: int)
    requires i < 16
  {
    && s.tasks[i].pid == pid && pid != 0 && i != s.current && !s.tasks[i].shell
    && (s.tasks[i].state == Ready || s.tasks[i].state == Running || s.tasks[i].state == Blocked)
  }

  /** A task that took the name of the shell cannot be killed by the task that runs next; one that took another name can. */
  lemma NameProtects(s: Sys, shell: bool, code: int)
    requires TableOk(s) && RunsUser(s)
    ensures var u := Switch(Step(s, DoName(shell))); u.current != s.current && Kill(u, Cur(s).pid, code).1 == (if shell then -1 else 0)
  {
    hide TableOk, Switch, Kill, Killable, OtherReady;
    var v := Step(s, DoName(shell));
    StepOk(s, DoName(shell));
    SchedulerPart(v);
    IdleReady(v);
    SwitchIff(v);
    SwitchOk(v);
    NameKept(v);
    KillIff(Switch(v), Cur(s).pid, code);
    OnlySlotOf(Switch(v), s.current, Cur(s).pid);
  }

  lemma NameKept(v: Sys)
    requires SchedulerOk(v) && Cur(v).state == Running && Switch(v).current != v.current
    ensures var t := Switch(v).tasks[v.current]; t.shell == Cur(v).shell && t.pid == Cur(v).pid && t.state == Ready
  {
    hide SelectRr, SelectFcfs, SchedulerOk;
    SwitchScheduler(v);
  }

  lemma OnlySlotOf(u: Sys, i: nat, pid: int)
    requires TableOk(u) && i < 16 && u.tasks[i].state == Ready && u.tasks[i].pid == pid != 0 && u.current != i
    ensures (exists j :: 0 <= j < 16 && Killable(u, j, pid)) <==> !u.tasks[i].shell
  {
    hide ParentsOk, FdsOk, NoLostWakeup, SchedulerOk, UsedCount;
    assert Killable(u, i, pid) <==> !u.tasks[i].shell;
    assert forall j :: 0 <= j < 16 && Killable(u, j, pid) ==> j == i;
  }

  /** Slot `i` holds a child of the caller that a wait for `target` is about: a wait for no positive pid is about all of them. */
  predicate Child(s: Sys, i: nat, target: int)
    requires i < 16
  {
    1 <= i && s.tasks[i].state != Unused && s.tasks[i].ppid == Cur(s).pid && (target > 0 ==> s.tasks[i].pid == target)
  }

  predicate DeadChild(s: Sys, i: nat, target: int)
    requires i < 16
  {
    Child(s, i, target) && s.tasks[i].state == Zombie
  }

  ghost predicate AnyChild(s: Sys, target: int) {
    exists i :: 0 <= i < 16 && Child(s, i, target)
  }

  ghost predicate AnyDead(s: Sys, target: int) {
    exists i :: 0 <= i < 16 && DeadChild(s, i, target)
  }

  /** `task_waitpid`: a dead child is reaped and its pid returned; with only live ones, 0 if told not to hang and otherwise the
      caller blocks; without any, -1. */
  lemma WaitIs(s: Sys, target: int, nohang: bool)
    requires TableOk(s)
    ensures var (u, r) := WaitPid(s, target, nohang);
            && (r > 0 <==> AnyDead(s, target))
            && (r == 0 <==> AnyChild(s, target) && !AnyDead(s, target) && nohang)
            && (r == -2 <==> AnyChild(s, target) && !AnyDead(s, target) && !nohang)
            && (r == -1 <==> !AnyChild(s, target))
            && (r > 0 ==> ReapedChild(s, u, target, r))
            && (r == 0 || r == -1 ==> u == s)
            && (r == -2 ==> Cur(u).state == Blocked && Cur(u).channel == Children && Cur(u).waitTarget == target
                            && u == s.(tasks := s.tasks[s.current := Cur(u)]))
  {
    hide ParentsOk, FdsOk, NoLostWakeup, StampsOk, SlicesOk, UsedCount, ReapedChild;
    var z := FindZombie(s.tasks, Cur(s).pid, target, 1);
    forall i | 0 <= i < 16 ensures IsAwaited(s.tasks, Cur(s).pid, target, i) == Child(s, i, target) {
    }
    if z < 16 {
      assert DeadChild(s, z, target);
      ItIsReaped(s, target, z);
    }
  }

  predicate Cleared(t: Task) {
    t.state == Unused && t.pid == -1 && t.ppid == -1 && !t.hasSpace && !t.shell
  }

  /** The slot of the first dead child is free again, and only that changed. */
  ghost predicate ReapedChild(s: Sys, u: Sys, target: int, r: int) {
    exists z :: 0 <= z < 16 && DeadChild(s, z, target) && s.tasks[z].pid == r && Cleared(u.tasks[z])
                && (forall i :: 0 <= i < z ==> !DeadChild(s, i, target))
                && (forall i :: 0 <= i < 16 && i != z ==> u.tasks[i] == s.tasks[i])
                && u.taskCount == s.taskCount - 1 && u.fds == s.fds - {r} && u.current == s.current
  }

  lemma ItIsReaped(s: Sys, target: int, z: nat)
    requires z == FindZombie(s.tasks, Cur(s).pid, target, 1) < 16
    ensures forall nohang :: var (u, r) := WaitPid(s, target, nohang); ReapedChild(s, u, target, r)
  {
    forall nohang ensures var (u, r) := WaitPid(s, target, nohang); ReapedChild(s, u, target, r) {
      var (u, r) := WaitPid(s, target, nohang);
      assert DeadChild(s, z, target) && Cleared(u.tasks[z]);
    }
  }

  /** `task_wake_one` wakes somebody exactly when a task waits on the object: the one in the lowest slot, and nobody else. */
  lemma WakeOneIff(s: Sys, id: int)
    requires TableOk(s)
    ensures var (u, r) := WakeOne(s, id);
            && (r >= 0 <==> exists i :: 0 <= i < 16 && WaitsOn(s.tasks[i], id))
            && (r >= 0 ==> exists i :: 0 <= i < 16 && WokenAt(s, u, id, i) && s.tasks[i].pid == r)
            && (r < 0 ==> (u, r) == (s, -1))
  {
    hide ParentsOk, FdsOk, NoLostWakeup, StampsOk, SlicesOk, UsedCount;
    var i := FindWaiter(s.tasks, id, 1);
    if i < 16 {
      assert WokenAt(s, WakeOne(s, id).0, id, i);
    }
  }

  predicate WokenAt(s: Sys, u: Sys, id: int, i: nat)
    requires i < 16
  {
    && WaitsOn(s.tasks[i], id) && (forall j :: 0 <= j < i ==> !WaitsOn(s.tasks[j], id))
    && u.tasks[i].state == Ready && u.tasks[i].channel == NoChannel && u.current == s.current
    && forall j :: 0 <= j < 16 && j != i ==> u.tasks[j] == s.tasks[j]
  }

  /** `task_create` and fork succeed exactly while a slot and a descriptor table are to be had: the lowest free slot becomes a ready
      child of the caller with a pid never used before. */
  lemma SpawnIff(s: Sys, fork: bool, shell: bool, fdOk: bool)
    requires TableOk(s)
    ensures var (u, r) := Spawn(s, fork, shell, fdOk);
            && (r >= 0 <==> fdOk && exists i :: 0 <= i < 16 && s.tasks[i].state == Unused)
            && (r >= 0 ==> exists i :: 1 <= i < 16 && BornAt(s, u, i, r, fork, shell))
            && (r < 0 ==> r == -1 && u.fds == s.fds && u.taskCount == s.taskCount && u.current == s.current
                          && forall i :: 0 <= i < 16 && Used(s.tasks[i]) ==> u.tasks[i] == s.tasks[i])
  {
    hide ParentsOk, FdsOk, NoLostWakeup, StampsOk, SlicesOk, UsedCount, BornAt, FreeSlot;
    var i := FreeSlot(s.tasks, 1);
    SlotLeft(s);
    if i < 16 && fdOk {
      Born(s, fork, shell);
    }
  }

  /** A slot is free exactly while fewer than sixteen tasks are counted. */
  lemma SlotLeft(s: Sys)
    requires TableOk(s)
    ensures (s.taskCount < 16 && FreeSlot(s.tasks, 1) < 16) <==> exists i :: 0 <= i < 16 && s.tasks[i].state == Unused
  {
    hide PidsOk, ParentsOk, FdsOk, NoLostWakeup, StampsOk, SlicesOk, OneRunning, UsedCount;
    Full(s.tasks);
    if i :| 0 <= i < 16 && s.tasks[i].state == Unused {
      NotFull(s.tasks, i);
    }
  }

  lemma Born(s: Sys, fork: bool, shell: bool)
    requires TableOk(s) && s.taskCount < 16 && FreeSlot(s.tasks, 1) < 16
    ensures var (u, r) := Spawn(s, fork, shell, true); r >= 0 && BornAt(s, u, FreeSlot(s.tasks, 1), r, fork, shell)
  {
    hide ParentsOk, FdsOk, NoLostWakeup, StampsOk, SlicesOk, UsedCount, OneRunning, FreeSlot;
  }

  predicate BornAt(s: Sys, u: Sys, i: nat, r: int, fork: bool, shell: bool)
    requires 1 <= i < 16
  {
    && s.tasks[i].state == Unused && (forall j :: 0 <= j < i ==> Used(s.tasks[j]))
    && (forall j :: 0 <= j < 16 && Used(s.tasks[j]) ==> s.tasks[j].pid < r && u.tasks[j] == s.tasks[j])
    && u.tasks[i].state == Ready && u.tasks[i].pid == r && u.tasks[i].ppid == Cur(s).pid && u.tasks[i].hasSpace == fork
    && u.tasks[i].shell == shell && u.tasks[i].channel == NoChannel && u.tasks[i].ticksLeft == s.quantum
    && u.tasks[i].exitCode == 0 && u.tasks[i].runtimeTicks == 0 && u.tasks[i].switches == 0
    && u.current == s.current && u.fds == s.fds + {r} && u.taskCount == s.taskCount + 1
  }

  /** The first process after boot is pid 1, a child of idle in slot 1. */
  lemma FirstPid(policy: Policy, quantum: nat, fork: bool, shell: bool)
    requires quantum >= 1
    ensures var (u, r) := Spawn(Boot(policy, quantum), fork, shell, true);
            r == 1 && u.tasks[1].pid == 1 && u.tasks[1].ppid == 0 && u.tasks[1].state == Ready && u.current == 0
  {
  }

  lemma {:induction false} Full(ts: seq<Task>)
    ensures UsedCount(ts) <= |ts|
    ensures (forall i :: 0 <= i < |ts| ==> Used(ts[i])) ==> UsedCount(ts) == |ts|
  {
    if ts != [] {
      Full(ts[..|ts| - 1]);
    }
  }

  lemma {:induction false} NotFull(ts: seq<Task>, i: nat)
    requires i < |ts| && !Used(ts[i])
    ensures UsedCount(ts) < |ts|
  {
    var n := |ts| - 1;
    Full(ts[..n]);
    if i < n {
      NotFull(ts[..n], i);
    }
  }
}
