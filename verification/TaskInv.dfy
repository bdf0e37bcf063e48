/** What every step of the process table keeps, and that no waiting parent misses its child. */
module TaskInv {
  import opened TaskModel

  /** Slot 0 is the idle task: never blocked, never dead, ready whenever it is not current. */
  predicate IdleOk(s: Sys) {
    && s.tasks[0].pid == 0 && s.tasks[0].ppid == -1
    && s.tasks[0].state == if s.current == 0 then Running else Ready
  }

  predicate CurrentOk(s: Sys) {
    Cur(s).state == Running || Cur(s).state == Blocked || Cur(s).state == Zombie
  }

  ghost predicate OneRunning(s: Sys) {
    forall i :: 0 <= i < 16 && s.tasks[i].state == Running ==> i == s.current
  }

  ghost predicate PidsOk(s: Sys) {
    && (forall i :: 0 <= i < 16 && Used(s.tasks[i]) ==> 0 <= s.tasks[i].pid < s.nextPid && (i > 0 ==> s.tasks[i].pid > 0))
    && (forall i, j ::
          0 <= i < 16 && 0 <= j < 16 && Used(s.tasks[i]) && Used(s.tasks[j]) && s.tasks[i].pid == s.tasks[j].pid ==> i == j)
  }

  function UsedCount(ts: seq<Task>): nat {
    if ts == [] then 0 else UsedCount(ts[..|ts| - 1]) + if Used(ts[|ts| - 1]) then 1 else 0
  }

  /** The parent of slot `i` is alive and older. */
  ghost predicate HasParent(s: Sys, i: nat)
    requires i < 16
  {
    && s.tasks[i].ppid < s.tasks[i].pid
    && exists p :: 0 <= p < 16 && Alive(s.tasks[p]) && s.tasks[p].pid == s.tasks[i].ppid
  }

  ghost predicate ParentsOk(s: Sys) {
    forall i :: 1 <= i < 16 && Used(s.tasks[i]) ==> HasParent(s, i)
  }

  ghost predicate FdsOk(s: Sys) {
    && (forall i :: 0 <= i < 16 && Alive(s.tasks[i]) ==> s.tasks[i].pid in s.fds)
    && (forall pid :: pid in s.fds ==> exists i :: 0 <= i < 16 && Alive(s.tasks[i]) && s.tasks[i].pid == pid)
  }

  /** Ready stamps are distinct and none is newer than the counter. */
  ghost predicate StampsOk(s: Sys) {
    && (forall i :: 0 <= i < 16 && Used(s.tasks[i]) ==> s.tasks[i].readyOrder <= s.order)
    && (forall i, j ::
          (0 <= i < 16 && 0 <= j < 16 && s.tasks[i].state == Ready && s.tasks[j].state == Ready
           && s.tasks[i].readyOrder == s.tasks[j].readyOrder) ==> i == j)
  }

  ghost predicate SlicesOk(s: Sys) {
    && s.quantum >= 1
    && forall i :: 0 <= i < 16 && Used(s.tasks[i]) ==> s.tasks[i].timeSlice == s.quantum && s.tasks[i].ticksLeft <= s.quantum
  }

  /** Slot `i` waits for a child: one that could still wake it is alive. */
  ghost predicate StillAwaits(s: Sys, i: nat)
    requires i < 16
  {
    exists c :: 1 <= c < 16 && Alive(s.tasks[c]) && s.tasks[c].ppid == s.tasks[i].pid
                && (s.tasks[i].waitTarget < 0 || s.tasks[c].pid == s.tasks[i].waitTarget)
  }

  predicate WaitsForChild(t: Task) {
    t.state == Blocked && t.channel == Children && t.waitTarget != 0
  }

  /** No lost wake-up: whoever is blocked in `task_waitpid` still has a matching child that is neither a zombie nor reaped. */
  ghost predicate NoLostWakeup(s: Sys) {
    forall i :: 0 <= i < 16 && WaitsForChild(s.tasks[i]) ==> StillAwaits(s, i)
  }

  /** Who exists: counts, pids, parents and descriptor tables. */
  ghost predicate ProcessesOk(s: Sys) {
    PidsOk(s) && s.taskCount == UsedCount(s.tasks) && ParentsOk(s) && FdsOk(s)
  }

  /** Who runs: idle, the current task, stamps and slices. */
  ghost predicate SchedulerOk(s: Sys) {
    IdleOk(s) && CurrentOk(s) && OneRunning(s) && StampsOk(s) && SlicesOk(s)
  }

  ghost predicate TableOk(s: Sys) {
    ProcessesOk(s) && SchedulerOk(s) && NoLostWakeup(s)
  }

  // ---------------------------------------------------------------- counting

  lemma {:induction false} CountUpdate(ts: seq<Task>, i: nat, t: Task)
    requires i < |ts|
    ensures UsedCount(ts[i := t]) == UsedCount(ts) + (if Used(t) then 1 else 0) - (if Used(ts[i]) then 1 else 0)
  {
    var n := |ts| - 1;
    var us := ts[i := t];
    if i == n {
      assert us[..n] == ts[..n];
    } else {
      assert us[..n] == ts[..n][i := t];
      CountUpdate(ts[..n], i, t);
    }
  }

  lemma {:induction false} CountSame(ts: seq<Task>, us: seq<Task>)
    requires |ts| == |us| && forall i :: 0 <= i < |ts| ==> Used(ts[i]) == Used(us[i])
    ensures UsedCount(ts) == UsedCount(us)
  {
    if ts != [] {
      CountSame(ts[..|ts| - 1], us[..|us| - 1]);
    }
  }

  /** A second slot in use makes the count at least two. */
  lemma {:induction false} CountAtLeast(ts: seq<Task>, i: nat, j: nat)
    requires i < j < |ts| && Used(ts[i]) && Used(ts[j])
    ensures UsedCount(ts) >= 2
  {
    var n := |ts| - 1;
    if j < n {
      CountAtLeast(ts[..n], i, j);
    } else {
      CountOne(ts[..n], i);
    }
  }

  lemma {:induction false} CountOne(ts: seq<Task>, i: nat)
    requires i < |ts| && Used(ts[i])
    ensures UsedCount(ts) >= 1
  {
    var n := |ts| - 1;
    if i < n {
      CountOne(ts[..n], i);
    }
  }

  // ---------------------------------------------------------------- changes that keep identity

  /** Two tasks are the same process in the same relations; only scheduling data may differ. */
  predicate SameProcess(a: Task, b: Task) {
    a.pid == b.pid && a.ppid == b.ppid && Used(a) == Used(b) && Alive(a) == Alive(b)
  }

  /** The facts that only depend on processes, not on how they are scheduled. */
  lemma SameProcesses(s: Sys, u: Sys)
    requires ProcessesOk(s)
    requires u.nextPid == s.nextPid && u.fds == s.fds && u.taskCount == s.taskCount
    requires forall i :: 0 <= i < 16 ==> SameProcess(s.tasks[i], u.tasks[i])
    ensures ProcessesOk(u)
  {
    CountSame(s.tasks, u.tasks);
    forall i | 1 <= i < 16 && Used(u.tasks[i]) ensures HasParent(u, i) {
      assert HasParent(s, i);
      var p :| 0 <= p < 16 && Alive(s.tasks[p]) && s.tasks[p].pid == s.tasks[i].ppid;
      assert Alive(u.tasks[p]);
    }
    forall pid | pid in u.fds ensures exists i :: 0 <= i < 16 && Alive(u.tasks[i]) && u.tasks[i].pid == pid {
      var i :| 0 <= i < 16 && Alive(s.tasks[i]) && s.tasks[i].pid == pid;
      assert Alive(u.tasks[i]);
    }
  }

  /** Waiters keep their children when processes stay and nobody new starts waiting. */
  lemma SameWaiters(s: Sys, u: Sys)
    requires NoLostWakeup(s)
    requires forall i :: 0 <= i < 16 ==> SameProcess(s.tasks[i], u.tasks[i])
    requires forall i :: 0 <= i < 16 && WaitsForChild(u.tasks[i]) ==>
               WaitsForChild(s.tasks[i]) && u.tasks[i].waitTarget == s.tasks[i].waitTarget
    ensures NoLostWakeup(u)
  {
    forall i | 0 <= i < 16 && WaitsForChild(u.tasks[i]) ensures StillAwaits(u, i) {
      assert StillAwaits(s, i);
      var c :| 1 <= c < 16 && Alive(s.tasks[c]) && s.tasks[c].ppid == s.tasks[i].pid
               && (s.tasks[i].waitTarget < 0 || s.tasks[c].pid == s.tasks[i].waitTarget);
      assert Alive(u.tasks[c]);
    }
  }

  // ---------------------------------------------------------------- switching

  /** With idle ready, selection never comes up empty. */
  lemma SelectionFinds(s: Sys)
    requires exists i :: 0 <= i < 16 && s.tasks[i].state == Ready
    ensures SelectNext(s) < 16
  {
    var i :| 0 <= i < 16 && s.tasks[i].state == Ready;
    if s.policy == RoundRobin {
      RrFinds(s.tasks, (s.current + 1) % 16, 0, i);
    }
  }

  /** Round robin reaches any ready slot at or after the place where it starts looking. */
  lemma {:induction false} RrFinds(ts: seq<Task>, start: nat, i: nat, j: nat)
    requires |ts| == 16 && start < 16 && i <= Ahead(start, j) && j < 16 && ts[j].state == Ready
    ensures SelectRr(ts, start, i) < 16
    ensures i <= Ahead(start, SelectRr(ts, start, i)) <= Ahead(start, j)
    decreases 16 - i
  {
    hide Ahead;
    var k := (start + i) % 16;
    AheadOf(start, j);
    AheadIs(start, i, j);
    AheadIs(start, i, k);
    if ts[k].state != Ready {
      RrFinds(ts, start, i + 1, j);
    }
  }

  /** How many slots after `start`, cyclically, slot `j` is. */
  function Ahead(start: nat, j: nat): int {
    (j + 16 - start) % 16
  }

  lemma AheadOf(start: nat, j: nat)
    requires start < 16 && j < 16
    ensures 0 <= Ahead(start, j) < 16
  {
  }

  lemma AheadIs(start: nat, i: nat, j: nat)
    requires start < 16 && i < 16 && j < 16
    ensures Ahead(start, j) == i <==> j == (start + i) % 16
  {
  }

  lemma SwitchScheduler(s: Sys)
    requires SchedulerOk(s)
    ensures SelectNext(Yielded(s)) < 16 && Switch(s) == Dispatch(Yielded(s), SelectNext(Yielded(s)))
    ensures SchedulerOk(Switch(s)) && Cur(Switch(s)).state == Running
  {
    hide SelectRr, SelectFcfs;
    var y := Yielded(s);
    assert y.tasks[0].state == Ready;
    SelectionFinds(y);
  }

  /** A switch keeps the table, ends with a running task, and always finds somebody to run. */
  lemma SwitchOk(s: Sys)
    requires TableOk(s)
    ensures SelectNext(Yielded(s)) < 16 && Switch(s) == Dispatch(Yielded(s), SelectNext(Yielded(s)))
    ensures TableOk(Switch(s)) && Cur(Switch(s)).state == Running
  {
    SwitchScheduler(s);
    SwitchProcesses(s);
  }

  lemma SwitchProcesses(s: Sys)
    requires ProcessesOk(s) && NoLostWakeup(s) && SelectNext(Yielded(s)) < 16
    ensures ProcessesOk(Switch(s)) && NoLostWakeup(Switch(s))
  {
    hide SelectNext, ProcessesOk, NoLostWakeup;
    var u := Switch(s);
    SameProcesses(s, u);
    SameWaiters(s, u);
  }

  lemma CountsDown(s: Sys, t: Task)
    requires TableOk(s) && t == Cur(s).(runtimeTicks := t.runtimeTicks, ticksLeft := t.ticksLeft) && t.ticksLeft <= Cur(s).ticksLeft
    ensures TableOk(SetTask(s, s.current, t))
  {
    hide ProcessesOk, NoLostWakeup, SchedulerOk;
    var u := SetTask(s, s.current, t);
    SameProcesses(s, u);
    SameWaiters(s, u);
    CountsDownScheduler(s, t);
  }

  lemma CountsDownScheduler(s: Sys, t: Task)
    requires SchedulerOk(s) && t == Cur(s).(runtimeTicks := t.runtimeTicks, ticksLeft := t.ticksLeft) && t.ticksLeft <= Cur(s).ticksLeft
    ensures SchedulerOk(SetTask(s, s.current, t))
  {
  }

  lemma TickOk(s: Sys)
    requires TableOk(s)
    ensures TableOk(Tick(s))
  {
    hide SelectNext, TableOk, Switch;
    var t := Cur(s).(runtimeTicks := Cur(s).runtimeTicks + 1);
    var u := SetTask(s, s.current, t);
    CountsDown(s, t);
    SwitchOk(u);
    if t.ticksLeft > 1 {
      CountsDown(u, t.(ticksLeft := t.ticksLeft - 1));
    }
  }

  // ---------------------------------------------------------------- creation

  /** `u` is `s` with slot `slot` filled by a new child of the current task, or left as a failed attempt. */
  ghost predicate Spawned(s: Sys, u: Sys, slot: nat, born: bool) {
    && 1 <= slot < 16 && !Used(s.tasks[slot]) && u.tasks == s.tasks[slot := u.tasks[slot]]
    && u.tasks[slot].pid == s.nextPid && u.tasks[slot].ppid == Cur(s).pid && u.tasks[slot].channel == NoChannel
    && u.tasks[slot].state == (if born then Ready else Unused)
    && u.tasks[slot].readyOrder == u.order == s.order + 1
    && u.tasks[slot].timeSlice == u.tasks[slot].ticksLeft == u.quantum == s.quantum
    && u.fds == (if born then s.fds + {s.nextPid} else s.fds)
    && u.nextPid == s.nextPid + 1 && u.taskCount == s.taskCount + (if born then 1 else 0)
    && u.current == s.current
  }

  lemma SpawnedProcesses(s: Sys, u: Sys, slot: nat, born: bool)
    requires ProcessesOk(s) && Cur(s).state == Running && Spawned(s, u, slot, born)
    ensures ProcessesOk(u)
  {
    hide UsedCount, HasParent, FdsOk;
    CountUpdate(s.tasks, slot, u.tasks[slot]);
    SpawnedFds(s, u, slot, born);
    forall i | 1 <= i < 16 && Used(u.tasks[i]) ensures HasParent(u, i) {
      SpawnedParent(s, u, slot, born, i);
    }
  }

  lemma SpawnedParent(s: Sys, u: Sys, slot: nat, born: bool, i: nat)
    requires PidsOk(s) && ParentsOk(s) && Cur(s).state == Running && Spawned(s, u, slot, born)
    requires 1 <= i < 16 && Used(u.tasks[i])
    ensures HasParent(u, i)
  {
    if i == slot {
      assert Alive(u.tasks[s.current]) && u.tasks[s.current].pid == u.tasks[i].ppid;
    } else {
      assert HasParent(s, i);
      var p :| 0 <= p < 16 && Alive(s.tasks[p]) && s.tasks[p].pid == s.tasks[i].ppid;
      assert Alive(u.tasks[p]);
    }
  }

  lemma SpawnedFds(s: Sys, u: Sys, slot: nat, born: bool)
    requires FdsOk(s) && Spawned(s, u, slot, born)
    ensures FdsOk(u)
  {
    forall pid | pid in u.fds ensures exists i :: 0 <= i < 16 && Alive(u.tasks[i]) && u.tasks[i].pid == pid {
      if pid in s.fds {
        var i :| 0 <= i < 16 && Alive(s.tasks[i]) && s.tasks[i].pid == pid;
        assert Alive(u.tasks[i]);
      } else {
        assert Alive(u.tasks[slot]);
      }
    }
  }

  lemma SpawnedWaiters(s: Sys, u: Sys, slot: nat, born: bool)
    requires NoLostWakeup(s) && Spawned(s, u, slot, born)
    ensures NoLostWakeup(u)
  {
    forall i | 0 <= i < 16 && WaitsForChild(u.tasks[i]) ensures StillAwaits(u, i) {
      assert StillAwaits(s, i);
      var c :| 1 <= c < 16 && Alive(s.tasks[c]) && s.tasks[c].ppid == s.tasks[i].pid
               && (s.tasks[i].waitTarget < 0 || s.tasks[c].pid == s.tasks[i].waitTarget);
      assert Alive(u.tasks[c]);
    }
  }

  lemma SpawnedScheduler(s: Sys, u: Sys, slot: nat, born: bool)
    requires SchedulerOk(s) && Spawned(s, u, slot, born)
    ensures SchedulerOk(u)
  {
  }

  lemma SpawnOk(s: Sys, fork: bool, shell: bool, fdOk: bool)
    requires TableOk(s) && Cur(s).state == Running
    ensures TableOk(Spawn(s, fork, shell, fdOk).0)
  {
    hide ProcessesOk, SchedulerOk, NoLostWakeup, FreeSlot;
    var slot := FreeSlot(s.tasks, 1);
    if s.taskCount < 16 && slot < 16 {
      var u := Spawn(s, fork, shell, fdOk).0;
      assert u.tasks == s.tasks[slot := u.tasks[slot]];
      SpawnedProcesses(s, u, slot, fdOk);
      SpawnedWaiters(s, u, slot, fdOk);
      SpawnedScheduler(s, u, slot, fdOk);
    }
  }

  // ---------------------------------------------------------------- waking

  /** Slots other than `p` are untouched and `p`, which was blocked, becomes ready with the newest stamp. */
  lemma WakeTaskOk(s: Sys, p: nat)
    requires TableOk(s) && p < 16 && s.tasks[p].state == Blocked && p != s.current
    ensures TableOk(WakeTask(s, p))
  {
    hide ProcessesOk, NoLostWakeup, SchedulerOk;
    var u := WakeTask(s, p);
    SameProcesses(s, u);
    SameWaiters(s, u);
    WakeScheduler(s, p);
  }

  lemma WakeScheduler(s: Sys, p: nat)
    requires SchedulerOk(s) && p < 16 && s.tasks[p].state == Blocked && p != s.current
    ensures SchedulerOk(WakeTask(s, p))
  {
  }

  lemma {:induction false} WakeAllOk(s: Sys, id: int, i: nat)
    requires TableOk(s) && i <= 16 && Cur(s).state == Running
    ensures TableOk(WakeAll(s, id, i))
    decreases 16 - i
  {
    hide TableOk;
    if i < 16 {
      if WaitsOn(s.tasks[i], id) {
        WakeTaskOk(s, i);
        WakeAllOk(WakeTask(s, i), id, i + 1);
      } else {
        WakeAllOk(s, id, i + 1);
      }
    }
  }

  /** The current task starts to wait: for an object, or for a child that is there and alive. */
  lemma BlockOk(s: Sys, t: Task)
    requires TableOk(s) && Cur(s).state == Running && Cur(s).pid != 0
    requires t == Cur(s).(state := Blocked, channel := t.channel, waitTarget := t.waitTarget)
    requires WaitsForChild(t) ==> StillAwaits(SetTask(s, s.current, t), s.current)
    ensures TableOk(SetTask(s, s.current, t))
  {
    hide ProcessesOk, SchedulerOk;
    var u := SetTask(s, s.current, t);
    SameProcesses(s, u);
    BlockScheduler(s, t);
    forall i | 0 <= i < 16 && WaitsForChild(u.tasks[i]) ensures StillAwaits(u, i) {
      if i != s.current {
        assert StillAwaits(s, i);
        var c :| 1 <= c < 16 && Alive(s.tasks[c]) && s.tasks[c].ppid == s.tasks[i].pid
                 && (s.tasks[i].waitTarget < 0 || s.tasks[c].pid == s.tasks[i].waitTarget);
        assert Alive(u.tasks[c]);
      }
    }
  }

  lemma BlockScheduler(s: Sys, t: Task)
    requires SchedulerOk(s) && Cur(s).state == Running && Cur(s).pid != 0
    requires t == Cur(s).(state := Blocked, channel := t.channel, waitTarget := t.waitTarget)
    ensures SchedulerOk(SetTask(s, s.current, t))
  {
  }

  // ---------------------------------------------------------------- death

  /** The state right after slot `i` became a zombie, before its relatives are looked after. */
  function Killed(s: Sys, i: nat, code: int, clear: bool): (u: Sys)
    requires i < 16
  {
    var t := s.tasks[i];
    SetTask(s, i, t.(state := Zombie, exitCode := code, channel := if clear then NoChannel else t.channel))
    .(fds := s.fds - {t.pid})
  }

  lemma DieScheduler(s: Sys, i: nat, code: int, clear: bool)
    requires SchedulerOk(s) && PidsOk(s) && 1 <= i < 16 && Alive(s.tasks[i]) && (i == s.current || Cur(s).state == Running)
    ensures SchedulerOk(Die(s, i, code, clear))
  {
    hide Wakes, FindPid;
    var u := Killed(s, i, code, clear);
    assert SchedulerOk(u);
    if Wakes(u, i) {
      var p := FindPid(u.tasks, s.tasks[i].ppid, 0);
      WakesBlocked(u, i);
      WakeScheduler(u, p);
      ReparentScheduler(WakeTask(u, p), s.tasks[i].pid);
    } else {
      ReparentScheduler(u, s.tasks[i].pid);
    }
  }

  lemma WakesBlocked(u: Sys, i: nat)
    requires i < 16 && Wakes(u, i)
    ensures var p := FindPid(u.tasks, u.tasks[i].ppid, 0); p < 16 && u.tasks[p].state == Blocked
  {
  }

  lemma ReparentScheduler(s: Sys, pid: int)
    requires SchedulerOk(s) && pid != -1
    ensures SchedulerOk(s.(tasks := Reparent(s.tasks, pid)))
  {
  }

  /** What death leaves of slot `k`. */
  lemma DieSlot(s: Sys, i: nat, code: int, clear: bool, k: nat)
    requires i < 16 && k < 16 && PidsOk(s) && Used(s.tasks[i])
    ensures var a, b := s.tasks[k], Die(s, i, code, clear).tasks[k];
            && b.pid == a.pid && Used(b) == Used(a)
            && Alive(b) == (Alive(a) && k != i)
            && b.ppid == (if k >= 1 && Used(a) && a.ppid == s.tasks[i].pid then 0 else a.ppid)
            && b.waitTarget == a.waitTarget
            && (k != i && b.state == Blocked ==>
                  a.state == Blocked && b.channel == a.channel
                  && !(a.pid == s.tasks[i].ppid && (a.waitTarget < 0 || a.waitTarget == s.tasks[i].pid)))
  {
  }

  lemma DiePids(s: Sys, i: nat, code: int, clear: bool)
    requires PidsOk(s) && s.taskCount == UsedCount(s.tasks) && FdsOk(s) && 1 <= i < 16 && Alive(s.tasks[i])
    ensures var u := Die(s, i, code, clear); PidsOk(u) && u.taskCount == UsedCount(u.tasks) && FdsOk(u)
  {
    hide UsedCount, Die;
    var u := Die(s, i, code, clear);
    forall k | 0 <= k < 16
      ensures u.tasks[k].pid == s.tasks[k].pid && Used(u.tasks[k]) == Used(s.tasks[k])
           && Alive(u.tasks[k]) == (Alive(s.tasks[k]) && k != i)
    {
      DieSlot(s, i, code, clear, k);
    }
    DieFields(s, i, code, clear);
    CountSame(s.tasks, u.tasks);
    forall pid | pid in u.fds ensures exists k :: 0 <= k < 16 && Alive(u.tasks[k]) && u.tasks[k].pid == pid {
      var k :| 0 <= k < 16 && Alive(s.tasks[k]) && s.tasks[k].pid == pid;
      assert Alive(u.tasks[k]);
    }
  }

  lemma DieParents(s: Sys, i: nat, code: int, clear: bool, k: nat)
    requires PidsOk(s) && IdleOk(s) && ParentsOk(s) && 1 <= i < 16 && Alive(s.tasks[i])
    requires 1 <= k < 16 && Used(Die(s, i, code, clear).tasks[k])
    ensures HasParent(Die(s, i, code, clear), k)
  {
    hide Die;
    var u := Die(s, i, code, clear);
    DieSlot(s, i, code, clear, k);
    assert HasParent(s, k);
    var p :| 0 <= p < 16 && Alive(s.tasks[p]) && s.tasks[p].pid == s.tasks[k].ppid;
    var q := if p == i then 0 else p;
    DieSlot(s, i, code, clear, q);
    assert Alive(u.tasks[q]);
  }

  lemma DieProcesses(s: Sys, i: nat, code: int, clear: bool)
    requires ProcessesOk(s) && IdleOk(s) && 1 <= i < 16 && Alive(s.tasks[i])
    ensures ProcessesOk(Die(s, i, code, clear))
  {
    hide UsedCount, Die, PidsOk, FdsOk, HasParent;
    DiePids(s, i, code, clear);
    forall k | 1 <= k < 16 && Used(Die(s, i, code, clear).tasks[k]) ensures HasParent(Die(s, i, code, clear), k) {
      DieParents(s, i, code, clear, k);
    }
  }

  lemma DieFields(s: Sys, i: nat, code: int, clear: bool)
    requires i < 16
    ensures var u := Die(s, i, code, clear);
            && u.nextPid == s.nextPid && u.taskCount == s.taskCount && u.fds == s.fds - {s.tasks[i].pid}
            && u.current == s.current
  {
  }

  /** Death of any task leaves every other waiter a child to wait for, or has woken it. */
  lemma DieWaiters(s: Sys, i: nat, code: int, clear: bool)
    requires NoLostWakeup(s) && PidsOk(s) && 1 <= i < 16 && Alive(s.tasks[i])
    ensures NoLostWakeup(Die(s, i, code, clear))
  {
    hide Die;
    var u := Die(s, i, code, clear);
    forall j | 0 <= j < 16 && WaitsForChild(u.tasks[j]) ensures StillAwaits(u, j) {
      DieSlot(s, i, code, clear, j);
      DieSlot(s, i, code, clear, i);
      assert StillAwaits(s, j);
      var c :| 1 <= c < 16 && Alive(s.tasks[c]) && s.tasks[c].ppid == s.tasks[j].pid
               && (s.tasks[j].waitTarget < 0 || s.tasks[c].pid == s.tasks[j].waitTarget);
      DieSlot(s, i, code, clear, c);
      assert Alive(u.tasks[c]);
    }
  }

  lemma DieOk(s: Sys, i: nat, code: int, clear: bool)
    requires TableOk(s) && 1 <= i < 16 && Alive(s.tasks[i]) && (i == s.current || Cur(s).state == Running)
    ensures TableOk(Die(s, i, code, clear))
  {
    hide Die, ParentsOk, FdsOk, UsedCount, StampsOk, SlicesOk, NoLostWakeup;
    DieScheduler(s, i, code, clear);
    DieProcesses(s, i, code, clear);
    DieWaiters(s, i, code, clear);
  }

  /** A parent that hangs for the child that dies is woken, unless it waits for target 0. */
  lemma DeathWakesIff(s: Sys, i: nat, code: int, clear: bool, p: nat)
    requires TableOk(s) && 1 <= i < 16 && p < 16 && Alive(s.tasks[i]) && s.tasks[p].state == Blocked
    requires IsAwaited(s.tasks, s.tasks[p].pid, s.tasks[p].waitTarget, i)
    ensures Die(s, i, code, clear).tasks[p].state == (if s.tasks[p].waitTarget != 0 then Ready else Blocked)
  {
    hide SchedulerOk, ProcessesOk, NoLostWakeup, FindPid;
    var t := s.tasks[i];
    var u := SetTask(s, i, t.(state := Zombie, exitCode := code, channel := if clear then NoChannel else t.channel))
             .(fds := s.fds - {t.pid});
    FoundParent(s, i, p, u);
  }

  lemma FoundParent(s: Sys, i: nat, p: nat, u: Sys)
    requires ProcessesOk(s) && 1 <= i < 16 && p < 16 && Used(s.tasks[i]) && Used(s.tasks[p])
    requires s.tasks[i].ppid == s.tasks[p].pid && u.tasks == s.tasks[i := u.tasks[i]]
    requires u.tasks[i].pid == s.tasks[i].pid && Used(u.tasks[i])
    ensures p != i && FindPid(u.tasks, s.tasks[i].ppid, 0) == p && s.tasks[i].pid > 0
  {
    hide FindPid, UsedCount, FdsOk;
    assert HasParent(s, i);
    var k := FindPid(u.tasks, s.tasks[i].ppid, 0);
    assert Used(u.tasks[p]) && u.tasks[p].pid == s.tasks[i].ppid;
    assert k <= p;
    assert Used(s.tasks[k]) && s.tasks[k].pid == s.tasks[p].pid;
  }

  lemma ExitOk(s: Sys, code: int)
    requires TableOk(s) && Cur(s).state == Running
    ensures TableOk(Exit(s, code))
  {
    if Cur(s).pid != 0 {
      CurrentNotIdle(s);
      DieOk(s, s.current, code, false);
    }
  }

  lemma CurrentNotIdle(s: Sys)
    requires IdleOk(s) && Cur(s).pid != 0
    ensures s.current >= 1
  {
  }

  lemma KillOk(s: Sys, pid: int, code: int)
    requires TableOk(s) && Cur(s).state == Running
    ensures TableOk(Kill(s, pid, code).0)
  {
    hide Die, ProcessesOk, NoLostWakeup, StampsOk, SlicesOk, OneRunning;
    var i := FindPid(s.tasks, pid, 0);
    if i < 16 && Kill(s, pid, code).1 == 0 {
      DieOk(s, i, code, true);
    }
  }

  // ---------------------------------------------------------------- waiting

  /** Reaping a zombie child of the current task. */
  lemma ReapProcesses(s: Sys, z: nat)
    requires ProcessesOk(s) && 1 <= z < 16 && s.tasks[z].state == Zombie
    ensures ProcessesOk(SetTask(s, z, Reaped(s.tasks[z])).(taskCount := s.taskCount - 1, fds := s.fds - {s.tasks[z].pid}))
  {
    hide UsedCount, HasParent, FdsOk;
    var u := SetTask(s, z, Reaped(s.tasks[z])).(taskCount := s.taskCount - 1, fds := s.fds - {s.tasks[z].pid});
    CountUpdate(s.tasks, z, Reaped(s.tasks[z]));
    ReapFds(s, z, u);
    forall i | 1 <= i < 16 && Used(u.tasks[i]) ensures HasParent(u, i) {
      ReapParent(s, z, u, i);
    }
  }

  lemma ReapParent(s: Sys, z: nat, u: Sys, i: nat)
    requires ParentsOk(s) && 1 <= z < 16 && s.tasks[z].state == Zombie && u.tasks == s.tasks[z := Reaped(s.tasks[z])]
    requires 1 <= i < 16 && Used(u.tasks[i])
    ensures HasParent(u, i)
  {
    assert HasParent(s, i);
    var p :| 0 <= p < 16 && Alive(s.tasks[p]) && s.tasks[p].pid == s.tasks[i].ppid;
    assert Alive(u.tasks[p]);
  }

  lemma ReapFds(s: Sys, z: nat, u: Sys)
    requires PidsOk(s) && FdsOk(s) && 1 <= z < 16 && s.tasks[z].state == Zombie
    requires u.tasks == s.tasks[z := Reaped(s.tasks[z])] && u.fds == s.fds - {s.tasks[z].pid}
    ensures FdsOk(u)
  {
    forall pid | pid in u.fds ensures exists i :: 0 <= i < 16 && Alive(u.tasks[i]) && u.tasks[i].pid == pid {
      var i :| 0 <= i < 16 && Alive(s.tasks[i]) && s.tasks[i].pid == pid;
      assert Alive(u.tasks[i]);
    }
  }

  lemma ReapWaiters(s: Sys, z: nat, u: Sys)
    requires NoLostWakeup(s) && 1 <= z < 16 && s.tasks[z].state == Zombie && u.tasks == s.tasks[z := Reaped(s.tasks[z])]
    ensures NoLostWakeup(u)
  {
    forall i | 0 <= i < 16 && WaitsForChild(u.tasks[i]) ensures StillAwaits(u, i) {
      assert StillAwaits(s, i);
      var c :| 1 <= c < 16 && Alive(s.tasks[c]) && s.tasks[c].ppid == s.tasks[i].pid
               && (s.tasks[i].waitTarget < 0 || s.tasks[c].pid == s.tasks[i].waitTarget);
      assert Alive(u.tasks[c]);
    }
  }

  lemma ReapScheduler(s: Sys, z: nat, u: Sys)
    requires SchedulerOk(s) && 1 <= z < 16 && s.tasks[z].state == Zombie && z != s.current
    requires u == s.(tasks := s.tasks[z := Reaped(s.tasks[z])], taskCount := u.taskCount, fds := u.fds)
    ensures SchedulerOk(u)
  {
  }

  lemma WaitOk(s: Sys, target: int, nohang: bool)
    requires TableOk(s) && Cur(s).state == Running && (Cur(s).pid != 0 || !Hangs(s, target, nohang))
    ensures TableOk(WaitPid(s, target, nohang).0)
  {
    hide ProcessesOk, SchedulerOk, NoLostWakeup, FindZombie;
    var z := FindZombie(s.tasks, Cur(s).pid, target, 1);
    var u := WaitPid(s, target, nohang).0;
    if z < 16 {
      ReapProcesses(s, z);
      ReapWaiters(s, z, u);
      ReapScheduler(s, z, u);
    } else if HasAwaited(s.tasks, Cur(s).pid, target) && !nohang {
      var t := Cur(s).(state := Blocked, waitTarget := target, channel := Children);
      if target != 0 {
        ChildLeft(s, target, t);
      }
      BlockOk(s, t);
    }
  }

  /** Waiting keeps the table unless it is idle that hangs. */
  lemma WaitKeepsIff(s: Sys, target: int, nohang: bool)
    requires TableOk(s) && Cur(s).state == Running
    ensures TableOk(WaitPid(s, target, nohang).0) <==> !(Cur(s).pid == 0 && Hangs(s, target, nohang))
  {
    hide ProcessesOk, NoLostWakeup, FindZombie;
    if Cur(s).pid == 0 && Hangs(s, target, nohang) {
      IdleIsCurrent(s);
      assert WaitPid(s, target, nohang).0.tasks[0].state == Blocked;
    } else {
      WaitOk(s, target, nohang);
    }
  }

  lemma IdleIsCurrent(s: Sys)
    requires TableOk(s) && Cur(s).pid == 0
    ensures s.current == 0
  {
  }

  /** Then, with nobody else ready, there is nobody left to run. */
  lemma IdleHangs(s: Sys, target: int)
    requires TableOk(s) && Cur(s).state == Running && Cur(s).pid == 0 && Hangs(s, target, false) && !ReadyNonIdle(s.tasks)
    ensures var u := WaitPid(s, target, false).0;
            Switch(u) == u && forall i :: 0 <= i < 16 ==> u.tasks[i].state != Running && u.tasks[i].state != Ready
  {
    hide NoLostWakeup, FindZombie;
    IdleIsCurrent(s);
    var u := WaitPid(s, target, false).0;
    forall i | 0 <= i < 16 ensures u.tasks[i].state != Running && u.tasks[i].state != Ready {
      assert i > 0 ==> s.tasks[i].state != Ready;
    }
    assert SelectNext(u) == 16;
  }

  /** Blocking happens only when an awaited child exists and none is a zombie, so one is alive. */
  lemma ChildLeft(s: Sys, target: int, t: Task)
    requires target != 0 && t == Cur(s).(state := Blocked, waitTarget := target, channel := Children)
    requires HasAwaited(s.tasks, Cur(s).pid, target) && FindZombie(s.tasks, Cur(s).pid, target, 1) == 16
    requires Cur(s).state == Running
    ensures StillAwaits(SetTask(s, s.current, t), s.current)
  {
    hide FindZombie;
    var u := SetTask(s, s.current, t);
    var c :| 0 <= c < 16 && IsAwaited(s.tasks, Cur(s).pid, target, c);
    var ts := s.tasks;
    assert c >= 1 && Used(ts[c]);
    assert forall j :: 1 <= j < FindZombie(ts, Cur(s).pid, target, 1) ==>
                         !(IsAwaited(ts, Cur(s).pid, target, j) && ts[j].state == Zombie);
    assert Alive(u.tasks[c]) && u.tasks[c].ppid == u.tasks[s.current].pid && u.tasks[c].pid == s.tasks[c].pid;
  }

  // ---------------------------------------------------------------- settings, steps and runs

  lemma SettingsOk(s: Sys, op: Op)
    requires TableOk(s) && (op.DoPolicy? || op.DoQuantum? || op.DoName? || op.DoAttach?)
    ensures TableOk(Step(s, op))
  {
    hide ProcessesOk, NoLostWakeup, SchedulerOk;
    var u := Step(s, op);
    SameProcessesButSlices(s, u);
    SettingsScheduler(s, op);
  }

  lemma SettingsScheduler(s: Sys, op: Op)
    requires SchedulerOk(s) && (op.DoPolicy? || op.DoQuantum? || op.DoName? || op.DoAttach?)
    ensures SchedulerOk(Step(s, op))
  {
  }

  lemma SameProcessesButSlices(s: Sys, u: Sys)
    requires ProcessesOk(s) && NoLostWakeup(s)
    requires u.nextPid == s.nextPid && u.fds == s.fds && u.taskCount == s.taskCount
    requires forall i :: 0 <= i < 16 ==>
               u.tasks[i] == s.tasks[i].(timeSlice := u.tasks[i].timeSlice, ticksLeft := u.tasks[i].ticksLeft,
                                         shell := u.tasks[i].shell, hasSpace := u.tasks[i].hasSpace)
    ensures ProcessesOk(u) && NoLostWakeup(u)
  {
    hide ProcessesOk, NoLostWakeup;
    SameProcesses(s, u);
    SameWaiters(s, u);
  }

  lemma WakeOneOk(s: Sys, id: int)
    requires TableOk(s) && Cur(s).state == Running
    ensures TableOk(WakeOne(s, id).0)
  {
    hide TableOk, FindWaiter;
    var i := FindWaiter(s.tasks, id, 1);
    if i < 16 {
      WakeTaskOk(s, i);
    }
  }

  /** Every step keeps the process table. */
  lemma StepOk(s: Sys, op: Op)
    requires TableOk(s) && Enabled(s, op)
    ensures TableOk(Step(s, op))
  {
    hide TableOk, Tick, Switch, Spawn, Exit, Kill, WaitPid, WakeOne, WakeAll, SetQuantum;
    match op
    case DoTick => TickOk(s);
    case DoReschedule => SwitchOk(s);
    case DoSpawn(fork, shell, fdOk) => SpawnOk(s, fork, shell, fdOk);
    case DoExit(code) => ExitOk(s, code);
    case DoKill(pid, code) => KillOk(s, pid, code);
    case DoWait(target, nohang) => WaitOk(s, target, nohang);
    case DoBlock(id) =>
      if Cur(s).pid != 0 {
        BlockOk(s, Cur(s).(state := Blocked, channel := Object(id)));
      }
    case DoWakeOne(id) => WakeOneOk(s, id);
    case DoWakeAll(id) => WakeAllOk(s, id, 1);
    case DoPolicy(_) => SettingsOk(s, op);
    case DoQuantum(_) => SettingsOk(s, op);
    case DoName(_) => SettingsOk(s, op);
    case DoAttach => SettingsOk(s, op);
  }

  function Run(s: Sys, ops: seq<Op>): Sys
    decreases |ops|
  {
    if ops == [] then s else Run(Step(s, ops[0]), ops[1..])
  }

  predicate EnabledRun(s: Sys, ops: seq<Op>)
    decreases |ops|
  {
    ops == [] || (Enabled(s, ops[0]) && EnabledRun(Step(s, ops[0]), ops[1..]))
  }

  lemma {:induction false} RunOk(s: Sys, ops: seq<Op>)
    requires TableOk(s) && EnabledRun(s, ops)
    ensures TableOk(Run(s, ops))
    decreases |ops|
  {
    hide TableOk, Step, Enabled;
    if ops != [] {
      StepOk(s, ops[0]);
      RunOk(Step(s, ops[0]), ops[1..]);
    }
  }

  lemma BootOk(policy: Policy, quantum: nat)
    requires quantum >= 1
    ensures TableOk(Boot(policy, quantum))
  {
    var s := Boot(policy, quantum);
    assert UsedCount(s.tasks) == 1 by {
      CountUpdate(seq(16, i => NO_TASK), 0, s.tasks[0]);
      NoneUsed(seq(16, i => NO_TASK));
    }
    assert Alive(s.tasks[0]);
  }

  lemma {:induction false} NoneUsed(ts: seq<Task>)
    requires forall i :: 0 <= i < |ts| ==> !Used(ts[i])
    ensures UsedCount(ts) == 0
  {
    if ts != [] {
      NoneUsed(ts[..|ts| - 1]);
    }
  }

  /** From boot, over every run: the table invariant, and so no waiter ever lost its wake-up. */
  lemma {:induction false} EveryRunOk(policy: Policy, quantum: nat, ops: seq<Op>)
    requires quantum >= 1 && EnabledRun(Boot(policy, quantum), ops)
    ensures TableOk(Run(Boot(policy, quantum), ops))
  {
    hide TableOk, Step, Enabled, Boot;
    BootOk(policy, quantum);
    RunOk(Boot(policy, quantum), ops);
  }
}
