/** Fairness of the two policies: a bound on how long round robin lets a ready task wait, and first-come selection as a
    queue. */
module Scheduling {
  import opened TaskModel
  import opened TaskInv

  // ---------------------------------------------------------------- round robin

  /** How many slots round robin looks at before it reaches `j`. */
  function Distance(current: nat, j: nat): (d: nat)
    requires current < 16 && j < 16
    ensures d <= 15 && (j != current ==> d <= 14)
  {
    (j + 16 - (current + 1) % 16) % 16
  }

  predicate WaitsReady(s: Sys, j: nat) {
    j < 16 && s.tasks[j].state == Ready && j != s.current
  }

  /** One selection either picks `j` or brings the scan strictly closer to it. */
  lemma RrCloser(s: Sys, j: nat)
    requires TableOk(s) && s.policy == RoundRobin && WaitsReady(s, j)
    ensures var u := Switch(s);
            u.current == j || (WaitsReady(u, j) && Distance(u.current, j) < Distance(s.current, j))
  {
    hide TableOk, SelectRr;
    SwitchOk(s);
    var y := Yielded(s);
    var start := (s.current + 1) % 16;
    RrFinds(y.tasks, start, 0, j);
    var n := SelectNext(y);
    if n != j {
      NearerSlot(s.current, n, j);
    }
  }

  /** Cyclic distance without the remainder. */
  lemma Wraps(a: nat, x: nat)
    requires a < 16 && x < 16
    ensures (x + 16 - a) % 16 == if x >= a then x - a else x + 16 - a
  {
  }

  lemma Follows(c: nat)
    requires c < 16
    ensures (c + 1) % 16 == if c == 15 then 0 else c + 1
  {
  }

  lemma NearerSlot(c: nat, n: nat, j: nat)
    requires c < 16 && n < 16 && j < 16 && n != j
    requires (n + 16 - (c + 1) % 16) % 16 <= (j + 16 - (c + 1) % 16) % 16
    ensures Distance(n, j) < Distance(c, j)
  {
    Follows(c);
    Follows(n);
    Wraps((c + 1) % 16, n);
    Wraps((c + 1) % 16, j);
    Wraps((n + 1) % 16, j);
  }

  /** The step runs the selection. */
  predicate Selects(s: Sys, op: Op) {
    s.taskCount > 1 &&
    match op
    case DoReschedule => true
    case DoTick => !(s.policy == RoundRobin && Cur(s).state == Running && Cur(s).pid != 0 && Cur(s).ticksLeft > 1)
                   && !Stays(s)
    case _ => false
  }

  /** Ticks the current task may still consume. */
  function Slice(s: Sys): nat {
    if Cur(s).state == Running && Cur(s).pid != 0 && Cur(s).ticksLeft > 1 then Cur(s).ticksLeft else 1
  }

  /** An upper bound on the ticks before `j` runs. */
  function Patience(s: Sys, j: nat): nat
    requires j < 16
  {
    Distance(s.current, j) * s.quantum + Slice(s)
  }

  lemma SliceBound(s: Sys)
    requires SchedulerOk(s)
    ensures 1 <= Slice(s) <= s.quantum
  {
  }

  lemma SelectionPatience(s: Sys, j: nat)
    requires TableOk(s) && s.policy == RoundRobin && WaitsReady(s, j) && Switch(s).current != j
    ensures Patience(Switch(s), j) < Patience(s, j)
  {
    hide TableOk, Switch, Distance, Slice;
    RrCloser(s, j);
    SwitchOk(s);
    SchedulerPart(s);
    SchedulerPart(Switch(s));
    SliceBound(s);
    SliceBound(Switch(s));
    SwitchQuantum(s);
    MulMono(Distance(Switch(s).current, j) + 1, Distance(s.current, j), s.quantum);
  }

  lemma SchedulerPart(s: Sys)
    requires TableOk(s)
    ensures SchedulerOk(s)
  {
  }

  lemma MulMono(a: nat, b: nat, q: nat)
    requires a <= b
    ensures a * q <= b * q && (a >= 1 ==> a * q == (a - 1) * q + q)
  {
  }

  lemma SwitchQuantum(s: Sys)
    ensures Switch(s).quantum == s.quantum && Switch(s).policy == s.policy
  {
  }

  /** A second task in use: the tick does not return early. */
  lemma TwoTasks(s: Sys, j: nat)
    requires TableOk(s) && WaitsReady(s, j)
    ensures s.taskCount > 1
  {
    hide UsedCount, ParentsOk, FdsOk, NoLostWakeup, StampsOk, SlicesOk;
    if j < s.current {
      CountAtLeast(s.tasks, j, s.current);
    } else {
      CountAtLeast(s.tasks, s.current, j);
    }
  }

  /** While `j` waits, idle never keeps the processor. */
  lemma NotIdling(s: Sys, j: nat)
    requires TableOk(s) && WaitsReady(s, j)
    ensures !(Cur(s).pid == 0 && !ReadyNonIdle(s.tasks))
  {
    hide UsedCount, ParentsOk, FdsOk, NoLostWakeup, StampsOk, SlicesOk;
    if Cur(s).pid == 0 {
      assert s.current == 0;
      assert s.tasks[j].state == Ready;
    }
  }

  /** One tick runs `j` or uses up patience. */
  lemma TickPatience(s: Sys, j: nat)
    requires TableOk(s) && s.policy == RoundRobin && WaitsReady(s, j) && Tick(s).current != j
    ensures WaitsReady(Tick(s), j) && Patience(Tick(s), j) < Patience(s, j) && Tick(s).quantum == s.quantum
  {
    hide TableOk, Switch, ReadyNonIdle;
    TwoTasks(s, j);
    NotIdling(s, j);
    var t := Cur(s).(runtimeTicks := Cur(s).runtimeTicks + 1);
    var u := SetTask(s, s.current, t);
    CountsDown(s, t);
    NotIdling(u, j);
    if !(t.state == Running && t.pid != 0 && t.ticksLeft > 1) {
      RrCloser(u, j);
      SelectionPatience(u, j);
      SwitchQuantum(u);
    }
  }

  /** Any other step that leaves `j` waiting and the settings alone costs no patience. */
  lemma OtherPatience(s: Sys, op: Op, j: nat)
    requires TableOk(s) && Enabled(s, op) && j < 16 && !op.DoTick? && !Selects(s, op) && !op.DoQuantum?
    ensures Patience(Step(s, op), j) <= Patience(s, j) && Step(s, op).current == s.current && Step(s, op).quantum == s.quantum
  {
    hide TableOk, FindPid, FindZombie, HasAwaited, FindWaiter, FreeSlot, UsedCount;
    OtherCurrent(s, op);
  }

  lemma OtherCurrent(s: Sys, op: Op)
    requires TableOk(s) && Enabled(s, op) && !op.DoTick? && !Selects(s, op) && !op.DoQuantum?
    ensures var u := Step(s, op);
            && u.current == s.current && u.quantum == s.quantum
            && Cur(u).pid == Cur(s).pid && Cur(u).ticksLeft == Cur(s).ticksLeft
            && (Cur(u).state == Running ==> Cur(s).state == Running)
  {
    hide UsedCount, FindPid, FindZombie, HasAwaited, FindWaiter, FreeSlot, ParentsOk, FdsOk, NoLostWakeup, StampsOk;
    match op
    case DoWakeAll(id) => WakeAllCurrent(s, id, 1);
    case _ =>
  }

  lemma {:induction false} WakeAllCurrent(s: Sys, id: int, i: nat)
    requires i <= 16 && Cur(s).state == Running
    ensures var u := WakeAll(s, id, i);
            u.current == s.current && u.quantum == s.quantum && u.policy == s.policy && Cur(u) == Cur(s)
    decreases 16 - i
  {
    if i < 16 {
      WakeAllCurrent(if WaitsOn(s.tasks[i], id) then WakeTask(s, i) else s, id, i + 1);
    }
  }

  /** A selection that passes `j` by brings it closer; no other step moves the scan. */
  lemma StepDistance(s: Sys, op: Op, j: nat)
    requires TableOk(s) && s.policy == RoundRobin && Enabled(s, op) && WaitsReady(s, j) && Step(s, op).current != j
    ensures var d := Distance(Step(s, op).current, j);
            if Selects(s, op) then d < Distance(s.current, j) else d == Distance(s.current, j)
  {
    hide TableOk, Distance, Switch;
    if op.DoTick? {
      TickDistance(s, j);
    } else if Selects(s, op) {
      RrCloser(s, j);
    } else {
      SameCurrent(s, op);
    }
  }

  lemma TickDistance(s: Sys, j: nat)
    requires TableOk(s) && s.policy == RoundRobin && WaitsReady(s, j) && Tick(s).current != j
    ensures var d := Distance(Tick(s).current, j);
            if Selects(s, DoTick) then d < Distance(s.current, j) else d == Distance(s.current, j)
  {
    hide TableOk, Distance, Switch, ReadyNonIdle;
    TwoTasks(s, j);
    NotIdling(s, j);
    var t := Cur(s).(runtimeTicks := Cur(s).runtimeTicks + 1);
    var u := SetTask(s, s.current, t);
    CountsDown(s, t);
    NotIdling(u, j);
    if !(t.state == Running && t.pid != 0 && t.ticksLeft > 1) {
      RrCloser(u, j);
    }
  }

  lemma SameCurrent(s: Sys, op: Op)
    requires TableOk(s) && Enabled(s, op) && !op.DoTick? && !Selects(s, op)
    ensures Step(s, op).current == s.current
  {
    hide TableOk;
    if op != DoReschedule && !op.DoQuantum? {
      OtherCurrent(s, op);
    }
  }

  /** Through the whole run `j` is ready, never selected, and the policy stays round robin. */
  ghost predicate PassedBy(s: Sys, ops: seq<Op>, j: nat)
    decreases |ops|
  {
    && WaitsReady(s, j) && s.policy == RoundRobin
    && (ops != [] ==> Enabled(s, ops[0]) && PassedBy(Step(s, ops[0]), ops[1..], j))
  }

  function Selections(s: Sys, ops: seq<Op>): nat
    decreases |ops|
  {
    if ops == [] then 0
    else (if Selects(s, ops[0]) then 1 else 0) + Selections(Step(s, ops[0]), ops[1..])
  }

  function Ticks(ops: seq<Op>): nat {
    if ops == [] then 0 else (if ops[0].DoTick? then 1 else 0) + Ticks(ops[1..])
  }

  /** Whatever the other tasks do meanwhile, fewer than fifteen selections can pass a ready task by. */
  lemma {:induction false} BoundedSelections(s: Sys, ops: seq<Op>, j: nat)
    requires TableOk(s) && PassedBy(s, ops, j)
    ensures Selections(s, ops) <= Distance(s.current, j) <= 14
    decreases |ops|
  {
    hide TableOk, Step, Selects, Enabled, WaitsReady;
    WaitsElsewhere(s, j);
    if ops != [] {
      var u := Step(s, ops[0]);
      StepOk(s, ops[0]);
      WaitsElsewhere(u, j);
      StepDistance(s, ops[0], j);
      BoundedSelections(u, ops[1..], j);
    }
  }

  lemma WaitsElsewhere(s: Sys, j: nat)
    requires WaitsReady(s, j)
    ensures j < 16 && j != s.current
  {
  }

  ghost predicate FixedQuantum(ops: seq<Op>) {
    forall k :: 0 <= k < |ops| ==> !ops[k].DoQuantum?
  }

  lemma StepPatience(s: Sys, op: Op, j: nat)
    requires TableOk(s) && s.policy == RoundRobin && Enabled(s, op) && WaitsReady(s, j) && Step(s, op).current != j
    requires !op.DoQuantum?
    ensures Patience(Step(s, op), j) + (if op.DoTick? then 1 else 0) <= Patience(s, j)
    ensures Step(s, op).quantum == s.quantum
  {
    hide TableOk, Patience, Switch, SelectNext;
    if op.DoTick? {
      TickPatience(s, j);
    } else if Selects(s, op) {
      SelectionPatience(s, j);
      SwitchQuantum(s);
    } else {
      OtherPatience(s, op, j);
    }
  }

  /** With a fixed quantum a ready task runs before fifteen quanta of ticks have gone by. */
  lemma {:induction false} BoundedTicks(s: Sys, ops: seq<Op>, j: nat)
    requires TableOk(s) && PassedBy(s, ops, j) && FixedQuantum(ops)
    ensures Ticks(ops) < Patience(s, j) <= 15 * s.quantum
    decreases |ops|
  {
    hide TableOk, Step, Enabled, WaitsReady;
    WaitsElsewhere(s, j);
    PatienceBound(s, j);
    if ops != [] {
      var u := Step(s, ops[0]);
      StepOk(s, ops[0]);
      WaitsElsewhere(u, j);
      StepPatience(s, ops[0], j);
      assert FixedQuantum(ops[1..]);
      BoundedTicks(u, ops[1..], j);
    }
  }

  lemma PatienceBound(s: Sys, j: nat)
    requires TableOk(s) && j < 16 && j != s.current
    ensures 1 <= Patience(s, j) <= 15 * s.quantum
  {
    hide ProcessesOk, NoLostWakeup, Slice, SchedulerOk, Distance;
    SliceBound(s);
    MulMono(Distance(s.current, j), 14, s.quantum);
  }

  // ---------------------------------------------------------------- first come, first served

  /** Slots in order of their stamps. */
  ghost predicate Ordered(s: Sys, q: seq<nat>) {
    && (forall k :: 0 <= k < |q| ==> q[k] < 16)
    && (forall a, b :: 0 <= a < b < |q| ==> s.tasks[q[a]].readyOrder < s.tasks[q[b]].readyOrder)
  }

  /** `q` lists exactly the ready slots, oldest stamp first. */
  ghost predicate IsQueue(s: Sys, q: seq<nat>) {
    Ordered(s, q) && forall i: nat :: i < 16 ==> (i in q <==> s.tasks[i].state == Ready)
  }

  function Without(q: seq<nat>, i: nat): seq<nat> {
    if q == [] then [] else if q[0] == i then q[1..] else [q[0]] + Without(q[1..], i)
  }

  /** The queue after a selection: a running task joins at the tail, the chosen one leaves. */
  function SwitchQueue(s: Sys, q: seq<nat>, chosen: nat): seq<nat> {
    var joined := Joined(s, q);
    if s.policy == Fcfs && joined != [] then joined[1..] else Without(joined, chosen)
  }

  /** The queue after a task died: it leaves, and a parent it wakes joins at the tail. */
  function DeathQueue(s: Sys, i: nat, code: int, clear: bool, q: seq<nat>): seq<nat>
    requires i < 16
  {
    var u := Killed(s, i, code, clear);
    Without(q, i) + if Wakes(u, i) then [FindPid(u.tasks, s.tasks[i].ppid, 0)] else []
  }

  function WokenFrom(ts: seq<Task>, id: int, i: nat): seq<nat>
    requires i <= 16 == |ts|
    decreases 16 - i
  {
    if i == 16 then [] else (if WaitsOn(ts[i], id) then [i] else []) + WokenFrom(ts, id, i + 1)
  }

  /** What each step does to the queue of ready tasks. */
  function NextQueue(s: Sys, op: Op, q: seq<nat>): seq<nat> {
    match op
    case DoTick => if Selects(s, op) then SwitchQueue(s, q, Tick(s).current) else q
    case DoReschedule => if Selects(s, op) then SwitchQueue(s, q, Switch(s).current) else q
    case DoSpawn(fork, shell, fdOk) => if Spawn(s, fork, shell, fdOk).1 >= 0 then q + [FreeSlot(s.tasks, 1)] else q
    case DoExit(code) => if Cur(s).pid == 0 then q else DeathQueue(s, s.current, code, false, q)
    case DoKill(pid, code) => if Kill(s, pid, code).1 < 0 then q else DeathQueue(s, FindPid(s.tasks, pid, 0), code, true, q)
    case DoWakeOne(id) => if WakeOne(s, id).1 < 0 then q else q + [FindWaiter(s.tasks, id, 1)]
    case DoWakeAll(id) => q + WokenFrom(s.tasks, id, 1)
    case _ => q
  }

  /** Ready slots and their stamps are all a queue depends on. */
  predicate SameQueue(s: Sys, u: Sys) {
    forall i :: 0 <= i < 16 ==>
      && (s.tasks[i].state == Ready) == (u.tasks[i].state == Ready)
      && (s.tasks[i].state == Ready ==> s.tasks[i].readyOrder == u.tasks[i].readyOrder)
  }

  lemma QueueSame(s: Sys, u: Sys, q: seq<nat>)
    requires IsQueue(s, q) && SameQueue(s, u)
    ensures IsQueue(u, q)
  {
    OrderedSame(s, u, q);
  }

  /** A slot made ready with a stamp newer than all others joins at the tail. */
  lemma QueueJoin(s: Sys, i: nat, t: Task, u: Sys, q: seq<nat>)
    requires IsQueue(s, q) && i < 16 && s.tasks[i].state != Ready && t.state == Ready
    requires u.tasks == s.tasks[i := t]
    requires forall k :: 0 <= k < 16 && s.tasks[k].state == Ready ==> s.tasks[k].readyOrder < t.readyOrder
    ensures IsQueue(u, q + [i])
  {
    OrderedSame(s, u, q);
    forall k | 0 <= k < |q| ensures s.tasks[q[k]].state == Ready {
      assert q[k] in q;
    }
  }

  /** A slot that stops being ready leaves, wherever it stood. */
  lemma QueueLeave(s: Sys, i: nat, t: Task, u: Sys, q: seq<nat>)
    requires IsQueue(s, q) && i < 16 && t.state != Ready && u.tasks == s.tasks[i := t]
    ensures IsQueue(u, Without(q, i))
    ensures s.tasks[i].state != Ready ==> Without(q, i) == q
  {
    WithoutKeeps(s, q, i);
    OrderedSame(s, u, Without(q, i));
  }

  lemma OrderedSame(s: Sys, u: Sys, q: seq<nat>)
    requires Ordered(s, q) && forall k :: k in q && k < 16 ==> u.tasks[k].readyOrder == s.tasks[k].readyOrder
    ensures Ordered(u, q)
  {
  }

  /** Removing `i` from a queue keeps the others in order. */
  lemma {:induction false} WithoutKeeps(s: Sys, q: seq<nat>, i: nat)
    requires Ordered(s, q)
    ensures Ordered(s, Without(q, i))
    ensures forall k :: k in Without(q, i) <==> k in q && k != i
    ensures i !in q ==> Without(q, i) == q
  {
    if q != [] {
      var p := q[1..];
      assert q == [q[0]] + p;
      OrderedTail(s, q);
      if q[0] == i {
        assert forall k :: k in p ==> k != i;
      } else {
        WithoutKeeps(s, p, i);
        OrderedCons(s, q, Without(p, i));
      }
    }
  }

  lemma OrderedTail(s: Sys, q: seq<nat>)
    requires Ordered(s, q) && q != []
    ensures Ordered(s, q[1..])
    ensures forall k :: k in q[1..] ==> k != q[0]
  {
    var p := q[1..];
    forall k | k in p ensures k != q[0] {
      var b :| 0 <= b < |p| && p[b] == k;
      assert q[b + 1] == k;
    }
  }

  lemma OrderedCons(s: Sys, q: seq<nat>, r: seq<nat>)
    requires Ordered(s, q) && q != [] && Ordered(s, r) && forall k :: k in r ==> k in q[1..]
    ensures Ordered(s, [q[0]] + r)
  {
    var w := [q[0]] + r;
    forall b | 1 <= b < |w| ensures s.tasks[w[0]].readyOrder < s.tasks[w[b]].readyOrder {
      assert w[b] in r;
      var c :| 0 <= c < |q[1..]| && q[1..][c] == w[b];
      assert q[c + 1] == w[b];
    }
    forall a, b | 0 <= a < b < |w| ensures s.tasks[w[a]].readyOrder < s.tasks[w[b]].readyOrder {
      if a > 0 {
        assert w[a] == r[a - 1] && w[b] == r[b - 1];
      }
    }
  }

  /** The head of the queue is what first-come selection returns. */
  lemma FcfsIsHead(s: Sys, q: seq<nat>)
    requires IsQueue(s, q) && q != []
    ensures SelectFcfs(s.tasks, 16) == q[0]
  {
    var n := SelectFcfs(s.tasks, 16);
    assert s.tasks[q[0]].state == Ready;
    var k :| 0 <= k < |q| && q[k] == n;
  }

  /** A fresh stamp is newer than every other. */
  lemma StampFresh(s: Sys)
    requires SchedulerOk(s)
    ensures forall k :: 0 <= k < 16 && s.tasks[k].state == Ready ==> s.tasks[k].readyOrder < s.order + 1
  {
  }

  lemma WakeJoins(s: Sys, p: nat, q: seq<nat>)
    requires SchedulerOk(s) && IsQueue(s, q) && p < 16 && s.tasks[p].state == Blocked
    ensures IsQueue(WakeTask(s, p), q + [p])
  {
    hide SchedulerOk, IsQueue;
    StampFresh(s);
    QueueJoin(s, p, s.tasks[p].(state := Ready, channel := NoChannel, readyOrder := s.order + 1), WakeTask(s, p), q);
  }

  function Joined(s: Sys, q: seq<nat>): seq<nat> {
    if Cur(s).state == Running then q + [s.current] else q
  }

  lemma YieldJoins(s: Sys, q: seq<nat>)
    requires SchedulerOk(s) && IsQueue(s, q)
    ensures IsQueue(Yielded(s), Joined(s, q)) && Joined(s, q) != []
  {
    hide IsQueue;
    StampFresh(s);
    if Cur(s).state == Running {
      QueueJoin(s, s.current, Cur(s).(state := Ready, readyOrder := s.order + 1), Yielded(s), q);
    }
    IdleQueued(Yielded(s), Joined(s, q));
  }

  lemma IdleQueued(s: Sys, q: seq<nat>)
    requires IsQueue(s, q) && s.tasks[0].state == Ready
    ensures q != []
  {
    assert 0 in q;
  }

  /** A selection under either policy, seen on the queue; first come picks the head. */
  lemma SwitchQueued(s: Sys, q: seq<nat>)
    requires SchedulerOk(s) && IsQueue(s, q)
    ensures IsQueue(Switch(s), SwitchQueue(s, q, Switch(s).current))
    ensures s.policy == Fcfs ==> Joined(s, q) != [] && Switch(s).current == Joined(s, q)[0]
  {
    hide SchedulerOk, IsQueue, SelectFcfs, SelectRr;
    YieldJoins(s, q);
    SwitchScheduler(s);
    var y := Yielded(s);
    var n := SelectNext(y);
    QueueLeave(y, n, Switch(s).tasks[n], Switch(s), Joined(s, q));
    if s.policy == Fcfs {
      FcfsIsHead(y, Joined(s, q));
    }
  }

  /** A death takes the slot out of the queue and may put the waking parent at the tail. */
  lemma DieQueued(s: Sys, i: nat, code: int, clear: bool, q: seq<nat>)
    requires SchedulerOk(s) && IsQueue(s, q) && 1 <= i < 16 && Alive(s.tasks[i])
    ensures IsQueue(Die(s, i, code, clear), DeathQueue(s, i, code, clear, q))
  {
    hide IsQueue, SchedulerOk, FindPid, Wakes;
    var u := Killed(s, i, code, clear);
    QueueLeave(s, i, u.tasks[i], u, q);
    StampFresh(s);
    if Wakes(u, i) {
      var p := FindPid(u.tasks, s.tasks[i].ppid, 0);
      WakesBlocked(u, i);
      var t := u.tasks[p].(state := Ready, channel := NoChannel, readyOrder := s.order + 1);
      assert u.tasks[i].state == Zombie;
      QueueJoin(u, p, t, WakeTask(u, p), Without(q, i));
      QueueSame(WakeTask(u, p), Die(s, i, code, clear), Without(q, i) + [p]);
    } else {
      assert Without(q, i) + [] == Without(q, i);
      QueueSame(u, Die(s, i, code, clear), Without(q, i));
    }
  }

  lemma {:induction false} WokenSame(ts: seq<Task>, us: seq<Task>, id: int, i: nat)
    requires i <= 16 == |ts| == |us| && forall k :: i <= k < 16 ==> ts[k] == us[k]
    ensures WokenFrom(ts, id, i) == WokenFrom(us, id, i)
    decreases 16 - i
  {
    if i < 16 {
      WokenSame(ts, us, id, i + 1);
    }
  }

  lemma {:induction false} WakeAllQueued(s: Sys, id: int, i: nat, q: seq<nat>)
    requires TableOk(s) && Cur(s).state == Running && IsQueue(s, q) && i <= 16
    ensures IsQueue(WakeAll(s, id, i), q + WokenFrom(s.tasks, id, i))
    decreases 16 - i
  {
    hide TableOk, IsQueue;
    if i == 16 {
      assert q + [] == q;
    } else {
      WokenStep(s.tasks, id, i, q);
      if WaitsOn(s.tasks[i], id) {
        SchedulerPart(s);
        WakeJoins(s, i, q);
        WakeTaskOk(s, i);
        WokenSame(s.tasks, WakeTask(s, i).tasks, id, i + 1);
        hide WokenFrom;
        WakeAllQueued(WakeTask(s, i), id, i + 1, q + [i]);
      } else {
        hide WokenFrom;
        WakeAllQueued(s, id, i + 1, q);
      }
    }
  }

  lemma WokenStep(ts: seq<Task>, id: int, i: nat, q: seq<nat>)
    requires i < 16 == |ts|
    ensures q + WokenFrom(ts, id, i) == (if WaitsOn(ts[i], id) then q + [i] else q) + WokenFrom(ts, id, i + 1)
  {
  }

  lemma TickQueued(s: Sys, q: seq<nat>)
    requires SchedulerOk(s) && IsQueue(s, q)
    ensures IsQueue(Tick(s), NextQueue(s, DoTick, q))
  {
    hide SchedulerOk, IsQueue, Switch, ReadyNonIdle, Without;
    var t := Cur(s).(runtimeTicks := Cur(s).runtimeTicks + 1);
    var u := SetTask(s, s.current, t);
    CountsDownScheduler(s, t);
    QueueSame(s, u, q);
    if Selects(s, DoTick) {
      SameReadyNonIdle(s, u);
      SwitchQueued(u, q);
    } else {
      SameReadyNonIdle(s, u);
      QueueSame(s, Tick(s), q);
    }
  }

  lemma SameReadyNonIdle(s: Sys, u: Sys)
    requires u.current == s.current && u.tasks == s.tasks[s.current := u.tasks[s.current]] && Cur(u).state == Cur(s).state
    ensures ReadyNonIdle(u.tasks) == ReadyNonIdle(s.tasks)
  {
    if ReadyNonIdle(s.tasks) {
      var i :| 1 <= i < 16 && s.tasks[i].state == Ready;
      assert u.tasks[i].state == Ready;
    }
    if ReadyNonIdle(u.tasks) {
      var i :| 1 <= i < 16 && u.tasks[i].state == Ready;
      assert s.tasks[i].state == Ready;
    }
  }

  /** Every step acts on the ready tasks as on a queue: whoever becomes ready joins at the tail. */
  lemma StepQueued(s: Sys, op: Op, q: seq<nat>)
    requires TableOk(s) && Enabled(s, op) && IsQueue(s, q)
    ensures IsQueue(Step(s, op), NextQueue(s, op, q))
  {
    hide TableOk, IsQueue, Tick, Switch, Die, WakeAll, DeathQueue, SwitchQueue, FindPid, FindWaiter, FreeSlot;
    SchedulerPart(s);
    match op
    case DoTick => TickQueued(s, q);
    case DoReschedule => SwitchQueued(s, q);
    case DoSpawn(fork, shell, fdOk) => SpawnQueued(s, fork, shell, fdOk, q);
    case DoExit(code) =>
      if Cur(s).pid != 0 {
        NotIdle(s, s.current);
        DieQueued(s, s.current, code, false, q);
      }
    case DoKill(pid, code) =>
      var i := FindPid(s.tasks, pid, 0);
      if Kill(s, pid, code).1 >= 0 {
        NotIdle(s, i);
        DieQueued(s, i, code, true, q);
      }
    case DoWakeOne(id) => WakeOneQueued(s, id, q);
    case DoWakeAll(id) => WakeAllQueued(s, id, 1, q);
    case _ => QuietQueued(s, op, q);
  }

  lemma NotIdle(s: Sys, i: nat)
    requires SchedulerOk(s) && i < 16 && s.tasks[i].pid != 0
    ensures i >= 1
  {
  }

  lemma SpawnQueued(s: Sys, fork: bool, shell: bool, fdOk: bool, q: seq<nat>)
    requires TableOk(s) && IsQueue(s, q)
    ensures IsQueue(Spawn(s, fork, shell, fdOk).0, NextQueue(s, DoSpawn(fork, shell, fdOk), q))
  {
    hide IsQueue, FreeSlot, ParentsOk, FdsOk, NoLostWakeup, StampsOk, SlicesOk, UsedCount;
    StampFresh(s);
    var (u, pid) := Spawn(s, fork, shell, fdOk);
    var slot := FreeSlot(s.tasks, 1);
    assert s.tasks[0].pid == 0 && Used(s.tasks[0]);
    if pid >= 0 {
      QueueJoin(s, slot, u.tasks[slot], u, q);
    } else if s.taskCount < 16 && slot < 16 {
      QueueSame(s, u, q);
    }
  }

  lemma WakeOneQueued(s: Sys, id: int, q: seq<nat>)
    requires TableOk(s) && IsQueue(s, q)
    ensures IsQueue(WakeOne(s, id).0, NextQueue(s, DoWakeOne(id), q))
  {
    hide IsQueue, FindWaiter, ParentsOk, FdsOk, NoLostWakeup, StampsOk, SlicesOk, UsedCount;
    var i := FindWaiter(s.tasks, id, 1);
    if i < 16 {
      WakeJoins(s, i, q);
    }
  }

  lemma QuietQueued(s: Sys, op: Op, q: seq<nat>)
    requires Cur(s).state == Running && IsQueue(s, q)
    requires op.DoWait? || op.DoBlock? || op.DoPolicy? || op.DoQuantum? || op.DoName? || op.DoAttach?
    ensures IsQueue(Step(s, op), q)
  {
    hide IsQueue, FindZombie, HasAwaited;
    QueueSame(s, Step(s, op), q);
  }

  function RunQueue(s: Sys, ops: seq<Op>, q: seq<nat>): seq<nat>
    decreases |ops|
  {
    if ops == [] then q else RunQueue(Step(s, ops[0]), ops[1..], NextQueue(s, ops[0], q))
  }

  /** Over every run the ready tasks, ordered by stamp, are what the queue operations leave. */
  lemma {:induction false} RunQueued(s: Sys, ops: seq<Op>, q: seq<nat>)
    requires TableOk(s) && EnabledRun(s, ops) && IsQueue(s, q)
    ensures IsQueue(Run(s, ops), RunQueue(s, ops, q))
    decreases |ops|
  {
    hide TableOk, IsQueue, Step, Enabled, NextQueue;
    if ops != [] {
      StepOk(s, ops[0]);
      StepQueued(s, ops[0], q);
      RunQueued(Step(s, ops[0]), ops[1..], NextQueue(s, ops[0], q));
    }
  }

  /** From boot: the queue starts empty, and first-come selection always takes its head. */
  lemma {:induction false} FirstComeFirstServed(policy: Policy, quantum: nat, ops: seq<Op>)
    requires quantum >= 1 && EnabledRun(Boot(policy, quantum), ops)
    ensures var s, q := Run(Boot(policy, quantum), ops), RunQueue(Boot(policy, quantum), ops, []);
            && IsQueue(s, q)
            && (s.policy == Fcfs ==> Joined(s, q) != [] && Switch(s).current == Joined(s, q)[0]
                                     && IsQueue(Switch(s), Joined(s, q)[1..]))
  {
    hide TableOk, Step, Enabled, Switch, IsQueue;
    var b := Boot(policy, quantum);
    BootOk(policy, quantum);
    BootQueue(policy, quantum);
    RunQueued(b, ops, []);
    RunOk(b, ops);
    SchedulerPart(Run(b, ops));
    SwitchQueued(Run(b, ops), RunQueue(b, ops, []));
  }

  lemma BootQueue(policy: Policy, quantum: nat)
    ensures IsQueue(Boot(policy, quantum), [])
  {
  }
}
