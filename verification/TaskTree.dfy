/** The process tree as `task_dump_tree` prints it: every process once, below its parent, at its depth. */
module TaskTree {
  import opened TaskModel
  import opened TaskInv

  /** What the listing relies on: pids and parents as they should be, and idle at the root. */
  ghost predicate Orderly(s: Sys) {
    PidsOk(s) && ParentsOk(s) && Used(s.tasks[0]) && s.tasks[0].pid == 0 && s.tasks[0].ppid == -1
  }

  function Slot(s: Sys, pid: int): (i: nat)
    ensures i < 16 ==> Used(s.tasks[i]) && s.tasks[i].pid == pid
  {
    FindPid(s.tasks, pid, 0)
  }

  /** `dump_tree_node`: the pids printed, each with its indentation. */
  ghost function Node(s: Sys, pid: int, depth: nat): seq<(int, nat)>
    requires Orderly(s)
    decreases s.nextPid - pid, 17
  {
    if Slot(s, pid) == 16 then [] else [(pid, depth)] + Kids(s, pid, depth, 0)
  }

  /** Its loop over the slots, from slot `i` on. */
  ghost function Kids(s: Sys, pid: int, depth: nat, i: nat): seq<(int, nat)>
    requires Orderly(s) && i <= 16 && Slot(s, pid) < 16
    decreases s.nextPid - pid, 16 - i
  {
    if i == 16 then []
    else (if IsChild(s, pid, i) then Node(s, s.tasks[i].pid, depth + 1) else []) + Kids(s, pid, depth, i + 1)
  }

  predicate IsChild(s: Sys, pid: int, i: nat)
    requires i < 16
  {
    Used(s.tasks[i]) && s.tasks[i].ppid == pid
  }

  ghost function Parent(s: Sys, x: int): (p: int)
    requires Orderly(s) && Slot(s, x) < 16 && x > 0
    ensures 0 <= p < x && Slot(s, p) < 16
  {
    assert HasParent(s, Slot(s, x));
    s.tasks[Slot(s, x)].ppid
  }

  /** How far below idle a process is. */
  ghost function Level(s: Sys, x: int): nat
    requires Orderly(s) && Slot(s, x) < 16
    decreases x
  {
    if x <= 0 then 0 else Level(s, Parent(s, x)) + 1
  }

  /** `x` is `a` or descends from it. */
  ghost predicate Descends(s: Sys, x: int, a: int)
    requires Orderly(s) && Slot(s, x) < 16
    decreases x
  {
    x == a || (x > 0 && Descends(s, Parent(s, x), a))
  }

  lemma {:induction false} NotBelow(s: Sys, x: int, a: int)
    requires Orderly(s) && Slot(s, x) < 16 && Descends(s, x, a)
    ensures a <= x
    decreases x
  {
    if x != a {
      NotBelow(s, Parent(s, x), a);
    }
  }

  lemma {:induction false} FromIdle(s: Sys, x: int)
    requires Orderly(s) && Slot(s, x) < 16
    ensures Descends(s, x, 0)
    decreases x
  {
    if x > 0 {
      FromIdle(s, Parent(s, x));
    }
  }

  /** A child in slot `k`: found under its pid, its parent above it. */
  lemma ChildSlot(s: Sys, pid: int, k: nat)
    requires Orderly(s) && Slot(s, pid) < 16 && k < 16 && IsChild(s, pid, k)
    ensures var c := s.tasks[k].pid;
            pid < c < s.nextPid && c > 0 && Slot(s, c) == k && Parent(s, c) == pid && Level(s, c) == Level(s, pid) + 1
  {
    hide FindPid;
    assert k > 0;
    assert HasParent(s, k);
    var c := s.tasks[k].pid;
    assert Slot(s, c) < 16 by { FoundIn(s, c, k); }
  }

  lemma FoundIn(s: Sys, c: int, k: nat)
    requires k < 16 && Used(s.tasks[k]) && s.tasks[k].pid == c
    ensures Slot(s, c) <= k
  {
  }

  /** A process below a child of `pid` is below `pid`. */
  lemma {:induction false} ThroughChild(s: Sys, x: int, pid: int, k: nat)
    requires Orderly(s) && Slot(s, x) < 16 && Slot(s, pid) < 16 && k < 16 && IsChild(s, pid, k)
    requires Descends(s, x, s.tasks[k].pid)
    ensures Descends(s, x, pid) && x > pid
    decreases x
  {
    hide FindPid, Slot;
    ChildSlot(s, pid, k);
    NotBelow(s, x, s.tasks[k].pid);
    if x != s.tasks[k].pid {
      ThroughChild(s, Parent(s, x), pid, k);
    }
  }

  /** The branch below `pid` that leads to `x`. */
  lemma {:induction false} Branch(s: Sys, x: int, pid: int) returns (k: nat)
    requires Orderly(s) && Slot(s, x) < 16 && Slot(s, pid) < 16 && Descends(s, x, pid) && x != pid
    ensures k < 16 && IsChild(s, pid, k) && Descends(s, x, s.tasks[k].pid)
    decreases x
  {
    hide FindPid;
    if Parent(s, x) == pid {
      k := Slot(s, x);
    } else {
      k := Branch(s, Parent(s, x), pid);
    }
  }

  /** No process is below two children of the same parent. */
  lemma {:induction false} OneBranch(s: Sys, x: int, pid: int, k: nat, j: nat)
    requires Orderly(s) && Slot(s, x) < 16 && Slot(s, pid) < 16 && k < 16 && j < 16
    requires IsChild(s, pid, k) && IsChild(s, pid, j) && Descends(s, x, s.tasks[k].pid) && Descends(s, x, s.tasks[j].pid)
    ensures k == j
    decreases x
  {
    hide FindPid, Slot;
    ChildSlot(s, pid, k);
    ChildSlot(s, pid, j);
    if x == s.tasks[k].pid || x == s.tasks[j].pid {
      if s.tasks[k].pid != s.tasks[j].pid {
        NotBelow(s, pid, if x == s.tasks[k].pid then s.tasks[j].pid else s.tasks[k].pid);
      }
    } else {
      OneBranch(s, Parent(s, x), pid, k, j);
    }
  }

  /** How many children of `pid` from slot `i` on have `x` below them. */
  ghost function Hits(s: Sys, pid: int, i: nat, x: int): nat
    requires Orderly(s) && i <= 16 && Slot(s, x) < 16
    decreases 16 - i
  {
    if i == 16 then 0
    else (if IsChild(s, pid, i) && Descends(s, x, s.tasks[i].pid) then 1 else 0) + Hits(s, pid, i + 1, x)
  }

  lemma {:induction false} NoHit(s: Sys, pid: int, i: nat, x: int)
    requires Orderly(s) && i <= 16 && Slot(s, x) < 16
    requires forall k :: i <= k < 16 && IsChild(s, pid, k) ==> !Descends(s, x, s.tasks[k].pid)
    ensures Hits(s, pid, i, x) == 0
    decreases 16 - i
  {
    hide Orderly, Slot, Descends;
    if i < 16 {
      NoHit(s, pid, i + 1, x);
    }
  }

  lemma {:induction false} OneHit(s: Sys, pid: int, i: nat, x: int, k: nat)
    requires Orderly(s) && i <= k < 16 && Slot(s, x) < 16 && IsChild(s, pid, k) && Descends(s, x, s.tasks[k].pid)
    requires forall j :: 0 <= j < 16 && j != k && IsChild(s, pid, j) ==> !Descends(s, x, s.tasks[j].pid)
    ensures Hits(s, pid, i, x) == 1
    decreases 16 - i
  {
    hide Orderly, Slot, Descends;
    if i == k {
      NoHit(s, pid, i + 1, x);
    } else {
      OneHit(s, pid, i + 1, x, k);
    }
  }

  lemma HitsIs(s: Sys, pid: int, x: int)
    requires Orderly(s) && Slot(s, x) < 16 && Slot(s, pid) < 16
    ensures Hits(s, pid, 0, x) == if Descends(s, x, pid) && x != pid then 1 else 0
  {
    hide Orderly, Slot, Descends, Hits;
    if Descends(s, x, pid) && x != pid {
      var k := Branch(s, x, pid);
      forall j | 0 <= j < 16 && j != k && IsChild(s, pid, j) ensures !Descends(s, x, s.tasks[j].pid) {
        if Descends(s, x, s.tasks[j].pid) {
          OneBranch(s, x, pid, k, j);
        }
      }
      OneHit(s, pid, 0, x, k);
    } else {
      forall k | 0 <= k < 16 && IsChild(s, pid, k) ensures !Descends(s, x, s.tasks[k].pid) {
        if Descends(s, x, s.tasks[k].pid) {
          ThroughChild(s, x, pid, k);
        }
      }
      NoHit(s, pid, 0, x);
    }
  }

  /** How often a line for `x` at indentation `l` is printed below `pid`. */
  lemma {:induction false} NodeLines(s: Sys, pid: int, x: int, l: nat)
    requires Orderly(s) && Slot(s, pid) < 16
    ensures multiset(Node(s, pid, Level(s, pid)))[(x, l)]
         == if Slot(s, x) < 16 && l == Level(s, x) && Descends(s, x, pid) then 1 else 0
    decreases s.nextPid - pid, 17
  {
    hide Orderly, Slot, Level, Kids, Hits;
    var kids := Kids(s, pid, Level(s, pid), 0);
    KidsLines(s, pid, 0, x, l);
    assert multiset(Node(s, pid, Level(s, pid))) == multiset{(pid, Level(s, pid))} + multiset(kids);
    if Slot(s, x) < 16 {
      HitsIs(s, pid, x);
    }
  }

  lemma {:induction false} KidsLines(s: Sys, pid: int, i: nat, x: int, l: nat)
    requires Orderly(s) && Slot(s, pid) < 16 && i <= 16
    ensures multiset(Kids(s, pid, Level(s, pid), i))[(x, l)]
         == if Slot(s, x) < 16 && l == Level(s, x) then Hits(s, pid, i, x) else 0
    decreases s.nextPid - pid, 16 - i
  {
    hide Orderly, Slot, Level, Node, Descends;
    if i < 16 {
      KidsLines(s, pid, i + 1, x, l);
      if IsChild(s, pid, i) {
        ChildSlot(s, pid, i);
        NodeLines(s, s.tasks[i].pid, x, l);
      }
    }
  }

  /** The whole dump: each process on exactly one line, indented by its distance from idle, and no other line. */
  lemma TreeListsAll(s: Sys, x: int, l: nat)
    requires TableOk(s)
    ensures Orderly(s) && multiset(Node(s, 0, 0))[(x, l)] == if Slot(s, x) < 16 && l == Level(s, x) then 1 else 0
  {
    hide UsedCount, TaskInv.FdsOk, StampsOk, SlicesOk, OneRunning, NoLostWakeup;
    assert Slot(s, 0) < 16 by { FoundIn(s, 0, 0); }
    NodeLines(s, 0, x, l);
    if Slot(s, x) < 16 {
      FromIdle(s, x);
    }
  }
}
