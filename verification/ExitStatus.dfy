/** What becomes of an exit code: it stays with the dead task until exactly one wait delivers it. */
module ExitStatus {
  import opened TaskModel
  import opened TaskInv

  /** Still the same dead task with the same code; only its parent may have died meanwhile and left it to idle. */
  predicate Remains(t: Task, u: Task) {
    u.state == Zombie && u.pid == t.pid && u.exitCode == t.exitCode && (u.ppid == t.ppid || u.ppid == 0)
  }

  /** This step is the wait that takes slot `z`. */
  predicate TakesNow(s: Sys, op: Op, z: nat) {
    op.DoWait? && FindZombie(s.tasks, Cur(s).pid, op.target, 1) == z
  }

  predicate TakenIn(s: Sys, ops: seq<Op>, z: nat)
    decreases |ops|
  {
    ops != [] && (TakesNow(s, ops[0], z) || TakenIn(Step(s, ops[0]), ops[1..], z))
  }

  lemma SwitchRemains(s: Sys, z: nat)
    requires z < 16 && s.tasks[z].state == Zombie
    ensures Remains(s.tasks[z], Switch(s).tasks[z])
  {
    hide SelectRr, SelectFcfs;
  }

  lemma DieRemains(s: Sys, i: nat, code: int, clear: bool, z: nat)
    requires i < 16 && z < 16 && z != i && s.tasks[z].state == Zombie
    ensures Remains(s.tasks[z], Die(s, i, code, clear).tasks[z])
  {
    hide FindPid;
  }

  lemma {:induction false} WakeAllRemains(s: Sys, id: int, i: nat, z: nat)
    requires i <= 16 && z < 16 && s.tasks[z].state == Zombie
    ensures WakeAll(s, id, i).tasks[z] == s.tasks[z]
    decreases 16 - i
  {
    if i < 16 {
      WakeAllRemains(if WaitsOn(s.tasks[i], id) then WakeTask(s, i) else s, id, i + 1, z);
    }
  }

  /** Nothing but the wait that takes it touches a dead task. */
  lemma ZombieStep(s: Sys, op: Op, z: nat)
    requires TableOk(s) && Enabled(s, op) && 1 <= z < 16 && s.tasks[z].state == Zombie
    ensures Remains(s.tasks[z], Step(s, op).tasks[z]) || TakesNow(s, op, z)
  {
    hide TableOk, FindZombie, FindPid, FindWaiter, FreeSlot, Switch, Die, WakeAll, HasAwaited;
    match op
    case DoTick => TickRemains(s, z);
    case DoReschedule => SwitchRemains(s, z);
    case DoExit(code) =>
      if Cur(s).pid != 0 {
        DieRemains(s, s.current, code, false, z);
      }
    case DoKill(pid, code) =>
      if Kill(s, pid, code).1 == 0 {
        DieRemains(s, FindPid(s.tasks, pid, 0), code, true, z);
      }
    case DoWakeAll(id) => WakeAllRemains(s, id, 1, z);
    case _ =>
  }

  lemma TickRemains(s: Sys, z: nat)
    requires z < 16 && s.tasks[z].state == Zombie
    ensures Remains(s.tasks[z], Tick(s).tasks[z])
  {
    hide Switch, ReadyNonIdle;
    SwitchRemains(SetTask(s, s.current, Cur(s).(runtimeTicks := Cur(s).runtimeTicks + 1)), z);
  }

  lemma {:induction false} ZombieRun(s: Sys, ops: seq<Op>, z: nat)
    requires TableOk(s) && EnabledRun(s, ops) && 1 <= z < 16 && s.tasks[z].state == Zombie && !TakenIn(s, ops, z)
    ensures Remains(s.tasks[z], Run(s, ops).tasks[z])
    decreases |ops|
  {
    hide TableOk, Step, TakesNow;
    if ops != [] {
      ZombieStep(s, ops[0], z);
      StepOk(s, ops[0]);
      ZombieRun(Step(s, ops[0]), ops[1..], z);
    }
  }

  /** The pid belongs to the past: it was given out, and nobody has it any more. */
  predicate Gone(s: Sys, pid: int) {
    pid < s.nextPid && forall i :: 0 <= i < 16 && Used(s.tasks[i]) ==> s.tasks[i].pid != pid
  }

  /** Steps that hand out no pid. */
  lemma GoneKept(s: Sys, u: Sys, pid: int)
    requires Gone(s, pid) && u.nextPid == s.nextPid
    requires forall i :: 0 <= i < 16 && Used(u.tasks[i]) ==> Used(s.tasks[i]) && u.tasks[i].pid == s.tasks[i].pid
    ensures Gone(u, pid)
  {
  }

  lemma SwitchGone(s: Sys, pid: int)
    requires TableOk(s) && Gone(s, pid)
    ensures Gone(Switch(s), pid)
  {
    hide TableOk, SelectRr, SelectFcfs, ReadyNonIdle;
    SwitchOk(s);
    CurrentUsed(s);
    GoneKept(s, Switch(s), pid);
  }

  lemma CurrentUsed(s: Sys)
    requires TableOk(s)
    ensures Used(Cur(s))
  {
  }

  lemma DieGone(s: Sys, i: nat, code: int, clear: bool, pid: int)
    requires i < 16 && Used(s.tasks[i]) && Gone(s, pid)
    ensures Gone(Die(s, i, code, clear), pid)
  {
    hide FindPid;
    GoneKept(s, Die(s, i, code, clear), pid);
  }

  lemma {:induction false} WakeAllGone(s: Sys, id: int, i: nat, pid: int)
    requires i <= 16 && Gone(s, pid)
    ensures Gone(WakeAll(s, id, i), pid)
    decreases 16 - i
  {
    if i < 16 {
      WakeAllGone(if WaitsOn(s.tasks[i], id) then WakeTask(s, i) else s, id, i + 1, pid);
    }
  }

  /** Pids are never given out twice. */
  lemma GoneStep(s: Sys, op: Op, pid: int)
    requires TableOk(s) && Enabled(s, op) && Gone(s, pid)
    ensures Gone(Step(s, op), pid)
  {
    hide TableOk, FindZombie, FindPid, FindWaiter, FreeSlot, Switch, Die, WakeAll, HasAwaited, ReadyNonIdle;
    CurrentUsed(s);
    match op
    case DoTick => TickGone(s, pid);
    case DoReschedule => SwitchGone(s, pid);
    case DoExit(code) =>
      if Cur(s).pid != 0 {
        DieGone(s, s.current, code, false, pid);
      }
    case DoKill(victim, code) =>
      if Kill(s, victim, code).1 == 0 {
        DieGone(s, FindPid(s.tasks, victim, 0), code, true, pid);
      }
    case DoWakeAll(id) => WakeAllGone(s, id, 1, pid);
    case _ =>
  }

  lemma TickGone(s: Sys, pid: int)
    requires TableOk(s) && Gone(s, pid)
    ensures Gone(Tick(s), pid)
  {
    hide Switch, ReadyNonIdle, TableOk;
    var t := Cur(s).(runtimeTicks := Cur(s).runtimeTicks + 1);
    CurrentUsed(s);
    CountsDown(s, t);
    SwitchGone(SetTask(s, s.current, t), pid);
  }

  lemma {:induction false} GoneRun(s: Sys, ops: seq<Op>, pid: int)
    requires TableOk(s) && EnabledRun(s, ops) && Gone(s, pid)
    ensures Gone(Run(s, ops), pid)
    decreases |ops|
  {
    hide TableOk, Step, Gone, Enabled;
    if ops != [] {
      GoneStep(s, ops[0], pid);
      StepOk(s, ops[0]);
      GoneRun(Step(s, ops[0]), ops[1..], pid);
    }
  }

  /** A death, by exit or by kill, leaves its code to be collected: whatever runs in between, the wait that takes the dead
      task returns its pid and finds its code. */
  lemma CodeDelivered(s: Sys, i: nat, code: int, clear: bool, ops: seq<Op>, op: Op)
    requires TableOk(s) && 1 <= i < 16 && Alive(s.tasks[i]) && (i == s.current || Cur(s).state == Running)
    requires EnabledRun(Die(s, i, code, clear), ops) && !TakenIn(Die(s, i, code, clear), ops, i)
    ensures var u := Run(Die(s, i, code, clear), ops);
            && u.tasks[i].state == Zombie && u.tasks[i].pid == s.tasks[i].pid && u.tasks[i].exitCode == code
            && (TakesNow(u, op, i) ==> WaitPid(u, op.target, op.nohang).1 == s.tasks[i].pid
                                       && Gone(Step(u, op), s.tasks[i].pid))
  {
    hide TableOk, Run, EnabledRun, TakenIn, FindZombie, HasAwaited;
    var d := Die(s, i, code, clear);
    DieOk(s, i, code, clear);
    ZombieRun(d, ops, i);
    RunOk(d, ops);
    var u := Run(d, ops);
    if TakesNow(u, op, i) {
      OnlyOne(u, i);
    }
  }

  /** Taking slot `i` out leaves nobody with its pid. */
  lemma OnlyOne(u: Sys, i: nat)
    requires TableOk(u) && 1 <= i < 16 && Used(u.tasks[i])
    ensures u.tasks[i].pid < u.nextPid
    ensures forall j :: 0 <= j < 16 && j != i && Used(u.tasks[j]) ==> u.tasks[j].pid != u.tasks[i].pid
  {
  }

  /** And no later wait, by anybody, returns that pid again. */
  lemma DeliveredOnce(s: Sys, ops: seq<Op>, pid: int, target: int, nohang: bool)
    requires TableOk(s) && EnabledRun(s, ops) && Gone(s, pid) && pid > 0
    ensures WaitPid(Run(s, ops), target, nohang).1 != pid
  {
    hide TableOk, Run, EnabledRun, HasAwaited;
    GoneRun(s, ops, pid);
  }
}
