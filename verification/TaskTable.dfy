/** The process table as task.c keeps it: sixteen slots updated in place, proved against the state machine. */
module TaskTable {
  import opened TaskModel

  class TaskTable {
    const tasks: array<Task>
    var current: nat
    var taskCount: int
    var nextPid: int
    var orderCounter: nat
    var policy: Policy
    var quantum: nat
    /** Pids with a descriptor table; minifs.c owns the tables themselves. */
    var fds: set<int>

    predicate Valid()
      reads this
    {
      tasks.Length == 16 && current < 16
    }

    function State(): Sys
      requires Valid()
      reads this, tasks
    {
      Sys(tasks[..], current, taskCount, nextPid, orderCounter, policy, quantum, fds)
    }

    /** `task_init` on a table never used before. */
    constructor (policy: Policy, quantum: nat)
      ensures Valid() && fresh(tasks) && State() == Boot(policy, quantum)
    {
      tasks := new Task[16](i => NO_TASK);
      current, taskCount, nextPid, orderCounter := 0, 1, 1, 1;
      this.policy, this.quantum, fds := policy, quantum, {0};
      new;
      tasks[0] := NO_TASK.(state := Running, pid := 0, timeSlice := quantum, ticksLeft := quantum, readyOrder := 1);
      assert tasks[..] == Boot(policy, quantum).tasks;
    }

    // -------------------------------------------------------------- loops that only read

    method Find(pid: int) returns (r: nat)
      requires Valid()
      ensures r == FindPid(tasks[..], pid, 0)
    {
      r := 0;
      while r < 16
        invariant r <= 16 && FindPid(tasks[..], pid, 0) == FindPid(tasks[..], pid, r)
      {
        if tasks[r].state != Unused && tasks[r].pid == pid {
          return;
        }
        r := r + 1;
      }
    }

    method HasReadyNonIdle() returns (r: bool)
      requires Valid()
      ensures r == ReadyNonIdle(tasks[..])
    {
      var i := 1;
      while i < 16
        invariant 1 <= i <= 16 && forall j :: 1 <= j < i ==> tasks[j].state != Ready
      {
        if tasks[i].state == Ready {
          assert tasks[..][i].state == Ready;
          return true;
        }
        i := i + 1;
      }
      return false;
    }

    method RoundRobinNext() returns (r: nat)
      requires Valid()
      ensures r == SelectRr(tasks[..], (current + 1) % 16, 0)
    {
      var start := (current + 1) % 16;
      var i := 0;
      while i < 16
        invariant i <= 16 && SelectRr(tasks[..], start, 0) == SelectRr(tasks[..], start, i)
      {
        var k := (start + i) % 16;
        if tasks[k].state == Ready {
          return k;
        }
        i := i + 1;
      }
      return 16;
    }

    method FirstComeNext() returns (best: nat)
      requires Valid()
      ensures best == SelectFcfs(tasks[..], 16)
    {
      best := 16;
      var i := 0;
      while i < 16
        invariant i <= 16 && best == SelectFcfs(tasks[..], i)
      {
        if tasks[i].state == Ready {
          if best == 16 || tasks[i].readyOrder < tasks[best].readyOrder {
            best := i;
          }
        }
        i := i + 1;
      }
    }

    method Next() returns (r: nat)
      requires Valid()
      ensures r == SelectNext(State())
    {
      hide SelectFcfs, SelectRr;
      if policy == Fcfs {
        r := FirstComeNext();
      } else {
        r := RoundRobinNext();
      }
    }

    method Free() returns (r: nat)
      requires Valid()
      ensures r == FreeSlot(tasks[..], 1)
    {
      r := 1;
      while r < 16
        invariant 1 <= r <= 16 && FreeSlot(tasks[..], 1) == FreeSlot(tasks[..], r)
      {
        if tasks[r].state == Unused {
          return;
        }
        r := r + 1;
      }
    }

    // -------------------------------------------------------------- switching

    method Put(i: nat, t: Task)
      requires Valid() && i < 16
      modifies tasks
      ensures State() == SetTask(old(State()), i, t)
    {
      tasks[i] := t;
      assert tasks[..] == old(tasks[..])[i := t];
    }

    /** The part of `switch_from_trap` after its early returns. */
    method Switch()
      requires Valid()
      modifies this, tasks
      ensures Valid() && State() == TaskModel.Switch(old(State()))
    {
      var prev := current;
      if tasks[prev].state == Running {
        orderCounter := orderCounter + 1;
        Put(prev, tasks[prev].(state := Ready, readyOrder := orderCounter));
      }
      assert State() == Yielded(old(State()));
      var next := Next();
      if next == 16 {
        if tasks[prev].state == Ready {
          Put(prev, tasks[prev].(state := Running, ticksLeft := tasks[prev].timeSlice));
        }
        return;
      }
      Put(next, tasks[next].(state := Running, ticksLeft := tasks[next].timeSlice, switches := tasks[next].switches + 1));
      current := next;
    }

    /** `sched_tick` */
    method Tick()
      requires Valid()
      modifies this, tasks
      ensures Valid() && State() == TaskModel.Tick(old(State()))
    {
      if taskCount <= 1 {
        return;
      }
      Put(current, tasks[current].(runtimeTicks := tasks[current].runtimeTicks + 1));
      if policy == Fcfs && tasks[current].pid != 0 && tasks[current].state == Running {
        return;
      }
      if policy == RoundRobin && tasks[current].state == Running && tasks[current].pid != 0 {
        if tasks[current].ticksLeft > 1 {
          Put(current, tasks[current].(ticksLeft := tasks[current].ticksLeft - 1));
          return;
        }
      }
      if tasks[current].pid == 0 {
        var waiting := HasReadyNonIdle();
        if !waiting {
          return;
        }
      }
      Switch();
    }

    /** `task_reschedule` */
    method Reschedule()
      requires Valid()
      modifies this, tasks
      ensures Valid() && State() == TaskModel.Reschedule(old(State()))
    {
      if taskCount <= 1 {
        return;
      }
      Switch();
    }

    // -------------------------------------------------------------- processes

    /** `task_create` and `task_fork_from_trap` */
    method Spawn(fork: bool, shell: bool, fdOk: bool) returns (pid: int)
      requires Valid()
      modifies this, tasks
      ensures Valid() && (State(), pid) == TaskModel.Spawn(old(State()), fork, shell, fdOk)
    {
      hide FreeSlot;
      if taskCount >= 16 {
        return -1;
      }
      var slot := Free();
      if slot == 16 {
        return -1;
      }
      pid := nextPid;
      nextPid := nextPid + 1;
      orderCounter := orderCounter + 1;
      Put(slot, Task(Ready, pid, tasks[current].pid, 0, -1, NoChannel, quantum, quantum, orderCounter, 0, 0, fork, shell));
      taskCount := taskCount + 1;
      if !fdOk {
        Put(slot, tasks[slot].(state := Unused, hasSpace := false));
        taskCount := taskCount - 1;
        return -1;
      }
      fds := fds + {pid};
    }

    /** The end of a task: a zombie without descriptors, its parent woken, its children passed to idle. */
    method Bury(i: nat, code: int, clear: bool)
      requires Valid() && i < 16
      modifies this, tasks
      ensures Valid() && State() == Die(old(State()), i, code, clear)
    {
      hide FindPid, Reparent;
      var t := tasks[i];
      Put(i, t.(state := Zombie, exitCode := code, channel := if clear then NoChannel else t.channel));
      fds := fds - {t.pid};
      WakeParent(i);
      PassOn(t.pid);
    }

    /** Makes a parent ready that waits for slot `i`, or for any child. */
    method WakeParent(i: nat)
      requires Valid() && i < 16
      modifies this, tasks
      ensures Valid()
      ensures var s := old(State());
              State() == if Wakes(s, i) then WakeTask(s, FindPid(s.tasks, s.tasks[i].ppid, 0)) else s
    {
      hide FindPid;
      var parent := Find(tasks[i].ppid);
      if parent < 16 && tasks[parent].state == Blocked
         && (tasks[parent].waitTarget < 0 || tasks[parent].waitTarget == tasks[i].pid) {
        orderCounter := orderCounter + 1;
        Put(parent, tasks[parent].(state := Ready, channel := NoChannel, readyOrder := orderCounter));
      }
    }

    method PassOn(pid: int)
      requires Valid()
      modifies tasks
      ensures tasks[..] == Reparent(old(tasks[..]), pid)
    {
      var k := 1;
      while k < 16
        invariant 1 <= k <= 16
        invariant forall j :: 0 <= j < k ==> tasks[j] == Reparent(old(tasks[..]), pid)[j]
        invariant forall j :: k <= j < 16 ==> tasks[j] == old(tasks[j])
      {
        if tasks[k].state != Unused && tasks[k].ppid == pid {
          tasks[k] := tasks[k].(ppid := 0);
        }
        k := k + 1;
      }
      assert tasks[..] == Reparent(old(tasks[..]), pid);
    }

    /** `task_exit` */
    method Exit(code: int)
      requires Valid()
      modifies this, tasks
      ensures Valid() && State() == TaskModel.Exit(old(State()), code)
    {
      if tasks[current].pid == 0 {
        return;
      }
      Bury(current, code, false);
    }

    /** `task_kill` */
    method Kill(pid: int, code: int) returns (r: int)
      requires Valid()
      modifies this, tasks
      ensures Valid() && (State(), r) == TaskModel.Kill(old(State()), pid, code)
    {
      var i := Find(pid);
      if i == 16 || tasks[i].pid == 0 || i == current || tasks[i].state == Zombie || tasks[i].shell {
        return -1;
      }
      Bury(i, code, true);
      return 0;
    }

    /** The loop of `task_waitpid`: the first awaited zombie, and whether there is any awaited child before it. */
    method ScanChildren(target: int) returns (zombie: nat, hasChild: bool)
      requires Valid()
      ensures zombie == FindZombie(tasks[..], tasks[current].pid, target, 1)
      ensures zombie == 16 ==> hasChild == HasAwaited(tasks[..], tasks[current].pid, target)
    {
      var me := tasks[current].pid;
      zombie, hasChild := 1, false;
      while zombie < 16
        invariant 1 <= zombie <= 16
        invariant FindZombie(tasks[..], me, target, 1) == FindZombie(tasks[..], me, target, zombie)
        invariant hasChild == exists j :: 0 <= j < zombie && IsAwaited(tasks[..], me, target, j)
      {
        var child := tasks[zombie];
        if child.state != Unused && child.ppid == me && !(target > 0 && child.pid != target) {
          assert IsAwaited(tasks[..], me, target, zombie);
          hasChild := true;
          if child.state == Zombie {
            return;
          }
        }
        zombie := zombie + 1;
      }
    }

    /** `task_waitpid`; `status` is what it stores through its pointer. */
    method WaitPid(target: int, nohang: bool) returns (r: int, status: int)
      requires Valid()
      modifies this, tasks
      ensures Valid() && (State(), r) == TaskModel.WaitPid(old(State()), target, nohang)
      ensures r > 0 ==> exists z :: 1 <= z < 16 && old(tasks[z]).pid == r && old(tasks[z]).state == Zombie
                                    && status == old(tasks[z]).exitCode
    {
      hide FindZombie, HasAwaited;
      status := 0;
      var i, hasChild := ScanChildren(target);
      if i < 16 {
        r, status := tasks[i].pid, tasks[i].exitCode;
        Put(i, Reaped(tasks[i]));
        fds := fds - {r};
        taskCount := taskCount - 1;
        return;
      }
      if !hasChild {
        return -1, status;
      }
      if nohang {
        return 0, status;
      }
      Put(current, tasks[current].(state := Blocked, waitTarget := target, channel := Children));
      return -2, status;
    }

    // -------------------------------------------------------------- blocking and waking

    /** `task_block` */
    method Block(id: int)
      requires Valid()
      modifies tasks
      ensures State() == TaskModel.Block(old(State()), id)
    {
      if tasks[current].pid == 0 {
        return;
      }
      Put(current, tasks[current].(state := Blocked, channel := Object(id)));
    }

    /** `task_wake_one` */
    method WakeOne(id: int) returns (pid: int)
      requires Valid()
      modifies this, tasks
      ensures Valid() && (State(), pid) == TaskModel.WakeOne(old(State()), id)
    {
      var i := 1;
      while i < 16
        invariant 1 <= i <= 16 && State() == old(State())
        invariant FindWaiter(tasks[..], id, 1) == FindWaiter(tasks[..], id, i)
      {
        if tasks[i].state == Blocked && tasks[i].channel == Object(id) {
          WakeSlot(i);
          return tasks[i].pid;
        }
        i := i + 1;
      }
      return -1;
    }

    /** `task_wake_all` */
    method WakeAll(id: int) returns (count: nat)
      requires Valid()
      modifies this, tasks
      ensures Valid() && State() == TaskModel.WakeAll(old(State()), id, 1)
      ensures orderCounter == old(orderCounter) + count
    {
      count := 0;
      var i := 1;
      while i < 16
        invariant 1 <= i <= 16 && Valid()
        invariant TaskModel.WakeAll(State(), id, i) == TaskModel.WakeAll(old(State()), id, 1)
        invariant orderCounter == old(orderCounter) + count
      {
        if tasks[i].state == Blocked && tasks[i].channel == Object(id) {
          WakeSlot(i);
          count := count + 1;
        }
        i := i + 1;
      }
    }

    /** The task in slot `i` becomes ready, behind all that are. */
    method WakeSlot(i: nat)
      requires Valid() && i < 16
      modifies this`orderCounter, tasks
      ensures Valid() && State() == WakeTask(old(State()), i)
    {
      orderCounter := orderCounter + 1;
      Put(i, tasks[i].(state := Ready, channel := NoChannel, readyOrder := orderCounter));
    }

    /** `task_set_current_name`; only whether it is the shell's name matters. */
    method Rename(shell: bool)
      requires Valid()
      modifies tasks
      ensures Valid() && State() == Step(old(State()), DoName(shell))
    {
      Put(current, tasks[current].(shell := shell));
    }

    /** The part of `task_attach_address_space` kept in the table. */
    method MarkOwner()
      requires Valid()
      modifies tasks
      ensures Valid() && State() == Step(old(State()), DoAttach)
    {
      Put(current, tasks[current].(hasSpace := true));
    }

    /** `task_set_quantum` */
    method SetQuantum(ticks: nat)
      requires Valid()
      modifies this, tasks
      ensures Valid() && State() == TaskModel.SetQuantum(old(State()), ticks)
    {
      quantum := if ticks == 0 then 1 else ticks;
      var i := 0;
      while i < 16
        invariant i <= 16 && Valid()
        invariant State() == old(State()).(quantum := quantum, tasks := tasks[..])
        invariant quantum == (if ticks == 0 then 1 else ticks)
        invariant forall j :: 0 <= j < i ==> tasks[j] == TaskModel.SetQuantum(old(State()), ticks).tasks[j]
        invariant forall j :: i <= j < 16 ==> tasks[j] == old(tasks[j])
      {
        if tasks[i].state != Unused {
          tasks[i] := tasks[i].(timeSlice := quantum, ticksLeft := quantum);
        }
        i := i + 1;
      }
      assert tasks[..] == TaskModel.SetQuantum(old(State()), ticks).tasks;
    }
  }
}
