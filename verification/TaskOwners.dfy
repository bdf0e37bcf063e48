/** Which slots are in use, and which own an address space, through every step of the process table. */
module TaskOwners {
  import opened TaskModel
  import K = KernelModel

  /** The same slots are in use, by the same processes, and own address spaces. */
  ghost predicate SameOwners(s: Sys, u: Sys) {
    && (forall i :: 0 <= i < 16 ==> Used(u.tasks[i]) == Used(s.tasks[i]) && (Used(s.tasks[i]) ==> u.tasks[i].pid == s.tasks[i].pid))
    && K.HasMap(u) == K.HasMap(s)
  }

  /** Enough for that: no slot changes in use or in owning. */
  lemma OwnersBySlot(s: Sys, u: Sys)
    requires forall i :: 0 <= i < 16 ==> Used(u.tasks[i]) == Used(s.tasks[i])
    requires forall i :: 0 <= i < 16 && Used(s.tasks[i]) ==>
               u.tasks[i].hasSpace == s.tasks[i].hasSpace && u.tasks[i].pid == s.tasks[i].pid
    ensures SameOwners(s, u)
  {
    var a, b := K.HasMap(s), K.HasMap(u);
    forall i | 0 <= i < 16 ensures a[i] == b[i] {
    }
  }

  lemma OwnersAgain(s: Sys, u: Sys, v: Sys)
    requires SameOwners(s, u) && SameOwners(u, v)
    ensures SameOwners(s, v)
  {
    hide K.HasMap;
  }

  lemma SwitchOwners(s: Sys)
    ensures SameOwners(s, Switch(s)) && Switch(s).fds == s.fds
  {
    hide SelectRr, SelectFcfs;
    OwnersBySlot(s, Switch(s));
  }

  lemma TickOwners(s: Sys)
    ensures SameOwners(s, Tick(s)) && Tick(s).fds == s.fds
  {
    hide Switch, ReadyNonIdle, SameOwners;
    var t := Cur(s).(runtimeTicks := Cur(s).runtimeTicks + 1);
    var u := SetTask(s, s.current, t);
    OwnersBySlot(s, u);
    SwitchOwners(u);
    OwnersAgain(s, u, Switch(u));
    OwnersBySlot(s, s);
    OwnersBySlot(s, SetTask(u, u.current, t.(ticksLeft := if t.ticksLeft > 1 then t.ticksLeft - 1 else 0)));
  }

  lemma {:induction false} WakeAllOwners(s: Sys, id: int, i: nat)
    requires i <= 16
    ensures SameOwners(s, WakeAll(s, id, i)) && WakeAll(s, id, i).fds == s.fds && WakeAll(s, id, i).current == s.current
    decreases 16 - i
  {
    if i < 16 {
      var u := if WaitsOn(s.tasks[i], id) then WakeTask(s, i) else s;
      OwnersBySlot(s, u);
      WakeAllOwners(u, id, i + 1);
    }
  }

  /** Calls that only schedule. */
  lemma QuietOwners(s: Sys, op: Op)
    requires (K.TableOnly(op) || op.DoName?) && Used(Cur(s))
    ensures SameOwners(s, Step(s, op)) && Step(s, op).fds == s.fds && Step(s, op).current == s.current
  {
    hide WakeAll, FindWaiter;
    if op.DoWakeAll? {
      WakeAllOwners(s, op.id, 1);
    } else {
      OwnersBySlot(s, Step(s, op));
    }
  }

  lemma DieOwners(s: Sys, i: nat, code: int, clear: bool)
    requires i < 16 && Used(s.tasks[i])
    ensures var u := Die(s, i, code, clear);
            SameOwners(s, u) && u.fds == s.fds - {s.tasks[i].pid} && u.current == s.current
  {
    hide FindPid;
    OwnersBySlot(s, Die(s, i, code, clear));
  }

  /** A new task takes a slot that was free; one that fails leaves it free. */
  lemma SpawnOwners(s: Sys, fork: bool, shell: bool, fdOk: bool)
    requires K.CanSpawn(s)
    ensures var slot := FreeSlot(s.tasks, 1);
            var (u, pid) := Spawn(s, fork, shell, fdOk);
            && !Used(s.tasks[slot]) && u.current == s.current && (pid >= 0 ==> fdOk && pid == s.nextPid) && (!fdOk ==> pid == -1)
            && (!fdOk ==> SameOwners(s, u) && u.fds == s.fds)
            && (fdOk ==> pid == s.nextPid && u.fds == s.fds + {pid} && Used(u.tasks[slot]) && u.tasks[slot].pid == pid
                         && K.HasMap(u) == K.HasMap(s)[slot := fork]
                         && forall i :: 0 <= i < 16 && i != slot ==> u.tasks[i] == s.tasks[i])
  {
    hide FreeSlot;
    var slot := FreeSlot(s.tasks, 1);
    var (u, pid) := Spawn(s, fork, shell, fdOk);
    if fdOk {
      var a, b := K.HasMap(s)[slot := fork], K.HasMap(u);
      forall i | 0 <= i < 16 ensures a[i] == b[i] {
      }
    } else {
      OwnersBySlot(s, u);
    }
  }

  /** Waiting frees the slot of a zombie, or at most blocks. */
  lemma WaitOwners(s: Sys, target: int, nohang: bool)
    requires Cur(s).state == Running
    ensures var z := FindZombie(s.tasks, Cur(s).pid, target, 1);
            var u := WaitPid(s, target, nohang).0;
            && u.current == s.current && (z < 16 ==> z != s.current && s.tasks[z].state == Zombie)
            && (z == 16 ==> SameOwners(s, u) && u.fds == s.fds)
            && (z < 16 ==> K.HasMap(u) == K.HasMap(s)[z := false] && u.fds == s.fds - {s.tasks[z].pid}
                           && !Used(u.tasks[z]) && forall i :: 0 <= i < 16 && i != z ==> u.tasks[i] == s.tasks[i])
  {
    hide FindZombie, HasAwaited;
    var z := FindZombie(s.tasks, Cur(s).pid, target, 1);
    var u := WaitPid(s, target, nohang).0;
    if z < 16 {
      var a, b := K.HasMap(s)[z := false], K.HasMap(u);
      forall i | 0 <= i < 16 ensures a[i] == b[i] {
      }
    } else {
      OwnersBySlot(s, u);
    }
  }

  /** Starting a first program makes the current slot an owner. */
  lemma AttachOwners(s: Sys)
    requires Used(Cur(s))
    ensures var u := Step(s, DoAttach);
            && u.current == s.current && u.fds == s.fds && K.HasMap(u) == K.HasMap(s)[s.current := true]
            && forall i :: 0 <= i < 16 ==> Used(u.tasks[i]) == Used(s.tasks[i]) && u.tasks[i].pid == s.tasks[i].pid
  {
    var u := Step(s, DoAttach);
    var a, b := K.HasMap(s)[s.current := true], K.HasMap(u);
    forall i | 0 <= i < 16 ensures a[i] == b[i] {
    }
  }
}
