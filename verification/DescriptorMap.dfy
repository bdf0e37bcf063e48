/** The descriptor tables as one map from a process and a descriptor to an open file: what each call does to all of it. */
module DescriptorMap {
  import opened Bytes
  import opened Descriptors

  /** What the table of `pid` stores for `fd`, or -1. */
  function Stored(d: Fds, pid: int, fd: int): int {
    var p := FindProcess(d.procs, pid, 0);
    if p < 16 && 0 <= fd < 16 then d.procs[p].fd[fd] else -1
  }

  /** Whether `fd` of `pid` is to be closed by exec. */
  predicate Marked(d: Fds, pid: int, fd: int) {
    var p := FindProcess(d.procs, pid, 0);
    p < 16 && 0 <= fd < 16 && d.procs[p].cloexec[fd]
  }

  /** While the counts are right, whatever a table stores is the name of an open file. */
  lemma NamedStored(d: Fds, pid: int, fd: int)
    requires FdsOk(d)
    ensures Named(d, pid, fd) == Stored(d, pid, fd)
  {
    hide Balanced, FindProcess;
    var p := FindProcess(d.procs, pid, 0);
    if p < 16 && 0 <= fd < 16 {
      SlotPid(d, pid);
      assert ProcessOk(d.procs[p]);
      if d.procs[p].fd[fd] >= 0 {
        NamedUsed(d, p, fd);
      }
    }
  }

  /** A change confined to slot `p` shows in nobody else's descriptors. */
  lemma StoredElsewhere(d: Fds, e: Fds, p: nat, q: int, j: int)
    requires p < 16 && SameSlots(d, e, p) && q != d.procs[p].pid
    ensures Stored(e, q, j) == Stored(d, q, j) && Marked(e, q, j) == Marked(d, q, j)
  {
    hide FindProcess;
    SlotsOwn(d, e, p, q);
  }

  /** Only open descriptors are marked. */
  lemma MarkedOpen(d: Fds, pid: int, fd: int)
    requires FdsOk(d) && Marked(d, pid, fd)
    ensures OpenFd(d, FindProcess(d.procs, pid, 0), fd)
  {
    hide Balanced, FindProcess;
    SlotPid(d, pid);
    assert ProcessOk(d.procs[FindProcess(d.procs, pid, 0)]);
  }

  /** `minifs_close` takes one descriptor away, if it was open, and no other. */
  lemma CloseMap(d: Fds, pid: int, fd: int, q: int, j: int)
    requires FdsOk(d)
    ensures Named(Close(d, pid, fd).0, q, j) == if q == pid && j == fd then -1 else Named(d, q, j)
    ensures Marked(Close(d, pid, fd).0, q, j) == (Marked(d, q, j) && !(q == pid && j == fd))
  {
    hide FdsOk, Named, FindProcess;
    var (e, status) := Close(d, pid, fd);
    CloseOk(d, pid, fd);
    if Marked(d, pid, fd) {
      MarkedOpen(d, pid, fd);
    }
    NamedStored(d, q, j);
    NamedStored(e, q, j);
    var p := FindProcess(d.procs, pid, 0);
    if p < 16 {
      SlotPid(d, pid);
      SlotsOwn(d, e, p, pid);
      if q != pid {
        StoredElsewhere(d, e, p, q, j);
      }
    }
  }

  /** `minifs_dup2` gives one descriptor the file of another, and changes no other. */
  lemma Dup2Map(d: Fds, pid: int, oldfd: int, newfd: int, q: int, j: int)
    requires FdsOk(d)
    ensures var (e, status) := Dup2(d, pid, oldfd, newfd);
            && Named(e, q, j) == (if status >= 0 && q == pid && j == newfd then Named(d, pid, oldfd) else Named(d, q, j))
            && Marked(e, q, j) == (Marked(d, q, j) && !(status >= 0 && q == pid && j == newfd && oldfd != newfd))
  {
    hide FdsOk, Named, FindProcess;
    var (e, status) := Dup2(d, pid, oldfd, newfd);
    Dup2Ok(d, pid, oldfd, newfd);
    NamedStored(d, q, j);
    NamedStored(e, q, j);
    NamedStored(d, pid, oldfd);
    var p := FindProcess(d.procs, pid, 0);
    if p < 16 {
      SlotPid(d, pid);
      SlotsOwn(d, e, p, pid);
      if q != pid {
        StoredElsewhere(d, e, p, q, j);
      }
    }
  }

  /** `minifs_set_cloexec` changes one mark, if the descriptor is open, and no name. */
  lemma CloexecMap(d: Fds, pid: int, fd: int, on: bool, q: int, j: int)
    requires FdsOk(d)
    ensures var (e, status) := SetCloexec(d, pid, fd, on);
            && Named(e, q, j) == Named(d, q, j)
            && Marked(e, q, j) == (if status == 0 && q == pid && j == fd then on else Marked(d, q, j))
  {
    hide FdsOk, Named, FindProcess;
    var (e, status) := SetCloexec(d, pid, fd, on);
    CloexecOk(d, pid, fd, on);
    NamedStored(d, q, j);
    NamedStored(e, q, j);
    var p := FindProcess(d.procs, pid, 0);
    if p < 16 {
      SlotPid(d, pid);
      SlotsOwn(d, e, p, pid);
      if q != pid {
        StoredElsewhere(d, e, p, q, j);
      }
    }
  }

  /** `minifs_close_exec_fds` takes away exactly the marked descriptors of one process. */
  lemma CloseExecMap(d: Fds, pid: int, q: int, j: int)
    requires FdsOk(d)
    ensures var e := CloseExec(d, pid);
            && Named(e, q, j) == (if q == pid && Marked(d, q, j) then -1 else Named(d, q, j))
            && Marked(e, q, j) == (q != pid && Marked(d, q, j))
  {
    hide Named, FindProcess, Balanced, CloseMarked;
    var e := CloseExec(d, pid);
    CloseExecOk(d, pid);
    NamedStored(d, q, j);
    NamedStored(e, q, j);
    var p := FindProcess(d.procs, pid, 0);
    if p < 16 {
      SlotPid(d, pid);
      CloseMarkedOk(d, p, 0);
      SlotsOwn(d, e, p, pid);
      if q != pid {
        StoredElsewhere(d, e, p, q, j);
      }
    }
  }

  /** `minifs_close_all` takes away every descriptor of one process and none of any other. */
  lemma CloseAllMap(d: Fds, pid: int, q: int, j: int)
    requires FdsOk(d)
    ensures Named(CloseAll(d, pid), q, j) == if q == pid then -1 else Named(d, q, j)
  {
    hide Named, FindProcess, Balanced, CloseFrom;
    var e := CloseAll(d, pid);
    CloseAllOk(d, pid);
    NamedStored(d, q, j);
    NamedStored(e, q, j);
    assert q == pid ==> !OwnsTable(e, q);
    var p := FindProcess(d.procs, pid, 0);
    if p < 16 && q != pid {
      SlotPid(d, pid);
      CloseFromOk(d, p, 0);
      SameOwner(d, e, q);
    }
  }

  /** A process whose own table did not change, while no other table of its pid appeared. */
  lemma SameOwner(d: Fds, e: Fds, q: int)
    requires FdsOk(d) && FdsOk(e) && (OwnsTable(e, q) <==> OwnsTable(d, q))
    requires forall i :: 0 <= i < 16 && d.procs[i].used && d.procs[i].pid == q ==> e.procs[i] == d.procs[i]
    ensures FindProcess(e.procs, q, 0) == FindProcess(d.procs, q, 0)
    ensures forall j :: Stored(e, q, j) == Stored(d, q, j) && Marked(e, q, j) == Marked(d, q, j)
  {
    hide Balanced, FindProcess;
    if OwnsTable(d, q) {
      SlotPid(d, q);
      SlotPid(e, q);
    }
  }

  /** `minifs_process_init` touches the descriptors of nobody who has some. */
  lemma InitMap(d: Fds, pid: int, q: int, j: int)
    requires FdsOk(d) && (OwnsTable(d, q) || q != pid)
    ensures Named(ProcessInit(d, pid).0, q, j) == Named(d, q, j) && Marked(ProcessInit(d, pid).0, q, j) == Marked(d, q, j)
  {
    hide Named, ProcessInit, Balanced, FindProcess;
    var e := ProcessInit(d, pid).0;
    InitOk(d, pid);
    InitProcesses(d, pid);
    NamedStored(d, q, j);
    NamedStored(e, q, j);
    SameOwner(d, e, q);
  }

  /** A new process starts with the console: descriptor 0 to read from it, 1 and 2 to write to it, each an open file of its own,
      and nothing else. */
  lemma InitNames(d: Fds, pid: int, j: int)
    requires FdsOk(d) && !OwnsTable(d, pid) && ProcessInit(d, pid).1 >= 0
    ensures var e := ProcessInit(d, pid).0;
            && (j == 0 <==> IsConsole(d, e, Named(e, pid, j), ConsoleIn, 0))
            && (j == 1 || j == 2 <==> IsConsole(d, e, Named(e, pid, j), ConsoleOut, 1))
            && (!(0 <= j <= 2) ==> Named(e, pid, j) == -1) && !Marked(e, pid, j)
            && Named(e, pid, 0) < Named(e, pid, 1) < Named(e, pid, 2)
  {
    hide Balanced, FindProcess, FreeProcess, FreeFile, Named;
    var e := ProcessInit(d, pid).0;
    InitOk(d, pid) by { hide ProcessInit; }
    InitFinds(d, pid) by { hide ProcessInit; }
    var p := FreeProcess(d.procs, 0);
    SlotPid(e, pid);
    assert FindProcess(e.procs, pid, 0) == p by { OnlySlot(e, pid, p); }
    forall x ensures Named(e, pid, x) == Stored(e, pid, x) {
      NamedStored(e, pid, x);
    }
  }

  lemma OnlySlot(e: Fds, pid: int, p: nat)
    requires PidsDistinct(e.procs) && p < 16 && e.procs[p].used && e.procs[p].pid == pid
    ensures FindProcess(e.procs, pid, 0) == p
  {
  }

  /** Open file `k` is new, and one of the console's with one reference. */
  predicate IsConsole(d: Fds, e: Fds, k: int, kind: Kind, flags: int) {
    0 <= k < 64 && !d.files[k].used && e.files[k] == OpenFile(true, 1, kind, flags, 0, 0)
  }

  /** `minifs_process_fork`: the child names what the parent names, with the same marks; nobody else's names change. */
  lemma ForkMap(d: Fds, parent: int, child: int, q: int, j: int)
    requires FdsOk(d) && parent != child
    ensures var (e, status) := ProcessFork(d, parent, child);
            && (status == 0 && q == child ==> Named(e, q, j) == Named(d, parent, j) && Marked(e, q, j) == Marked(d, parent, j))
            && (q != child ==> Named(e, q, j) == Named(d, q, j) && Marked(e, q, j) == Marked(d, q, j))
  {
    hide Named, ProcessInit, Balanced, FindProcess, CopyFds, ProcessOk, Stored, Marked;
    var (e, status) := ProcessFork(d, parent, child);
    ForkOk(d, parent, child);
    var p := FindProcess(d.procs, parent, 0);
    var (a, given) := ProcessInit(d, child);
    if p < 16 && given >= 0 {
      InitOk(d, child);
      ForkSlots(d, parent, child);
      var c := FindProcess(a.procs, child, 0);
      if q != child {
        InitMap(d, child, q, j);
        NamedStored(a, q, j);
        NamedStored(e, q, j);
        StoredElsewhere(a, e, c, q, j);
      } else {
        SlotsOwn(a, e, c, child);
        CopiedMarks(d, parent, e, child, j);
      }
    } else if p < 16 && q != child {
      InitMap(d, child, q, j);
    }
  }

  lemma CopiedMarks(d: Fds, parent: int, e: Fds, child: int, j: int)
    requires FindProcess(d.procs, parent, 0) < 16 && FindProcess(e.procs, child, 0) < 16
    requires e.procs[FindProcess(e.procs, child, 0)].cloexec == d.procs[FindProcess(d.procs, parent, 0)].cloexec
    ensures Marked(e, child, j) == Marked(d, parent, j)
  {
    hide FindProcess;
  }

  /** What fork does to the table slots. */
  lemma ForkSlots(d: Fds, parent: int, child: int)
    requires FdsOk(d) && parent != child && OwnsTable(d, parent) && ProcessInit(d, child).1 >= 0
    ensures var a := ProcessInit(d, child).0;
            var e := ProcessFork(d, parent, child).0;
            var c := FindProcess(a.procs, child, 0);
            && c < 16 && a.procs[c].pid == child && SameSlots(a, e, c)
            && e.procs[c].cloexec == d.procs[FindProcess(d.procs, parent, 0)].cloexec
  {
    hide Balanced, ProcessInit, CopyFds, Named, NoNewFiles, FindProcess, ProcessOk;
    var p := FindProcess(d.procs, parent, 0);
    var a := ProcessInit(d, child).0;
    InitOk(d, child);
    InitProcesses(d, child);
    InitFinds(d, child);
    SlotPid(d, parent);
    SlotPid(a, child);
    CopyBits(a, p, FindProcess(a.procs, child, 0));
  }

  /** The end of `minifs_open`: one more name, for a file nobody had open under that number. */
  lemma InstallMap(d: Fds, pid: int, flags: int, inode: u32, offset: u32, q: int, j: int)
    requires FdsOk(d) && OwnsTable(d, pid)
    ensures var (e, fd) := Install(d, FindProcess(d.procs, pid, 0), flags, inode, offset);
            && (!(fd >= 0 && q == pid && j == fd) ==> Named(e, q, j) == Named(d, q, j))
            && Marked(e, q, j) == (Marked(d, q, j) && !(fd >= 0 && q == pid && j == fd))
  {
    hide Named, Balanced, FindProcess, FreeFile, FreeFd, ProcessOk;
    var p := FindProcess(d.procs, pid, 0);
    SlotPid(d, pid);
    var (e, fd) := Install(d, p, flags, inode, offset);
    InstallOk(d, pid, flags, inode, offset);
    NamedStored(d, q, j);
    NamedStored(e, q, j);
    assert SameSlots(d, e, p);
    SlotsOwn(d, e, p, pid);
    if q != pid {
      StoredElsewhere(d, e, p, q, j);
    }
  }

  // ---------------------------------------------------------------- when there is room for a table

  predicate FreeAt(d: Fds, k: int) {
    0 <= k < 64 && !d.files[k].used
  }

  /** A free table, and an open file each for input, output and errors. */
  ghost predicate RoomForTable(d: Fds) {
    && (exists p :: 0 <= p < 16 && !d.procs[p].used)
    && exists i, j, k :: FreeAt(d, i) && FreeAt(d, j) && FreeAt(d, k) && i < j < k
  }

  /** Taking an open file takes the lowest free one and leaves the others as free as they were. */
  lemma AllocTakes(d: Fds, kind: Kind, flags: int, inode: u32)
    ensures var (e, x) := Alloc(d, kind, flags, inode);
            && (x < 0 ==> e == d && forall k :: 0 <= k < 64 ==> !FreeAt(d, k))
            && (x >= 0 ==> FreeAt(d, x) && (forall k :: 0 <= k < x ==> !FreeAt(d, k))
                           && forall k :: 0 <= k < 64 ==> (FreeAt(e, k) <==> FreeAt(d, k) && k != x))
  {
    hide FreeFile;
  }

  /** `minifs_process_init` for a process without a table succeeds exactly when there is room. */
  lemma InitIff(d: Fds, pid: int)
    requires !OwnsTable(d, pid)
    ensures ProcessInit(d, pid).1 >= 0 <==> RoomForTable(d)
  {
    hide FindProcess, FreeProcess, Alloc;
    var p := FreeProcess(d.procs, 0);
    if p < 16 {
      assert !d.procs[p].used;
      var d0 := d.(procs := d.procs[p := Process(true, pid, NoFds(), NoBits())]);
      ThreeAllocs(d, d0);
    } else {
      assert forall q :: 0 <= q < 16 ==> d.procs[q].used;
    }
  }

  lemma ThreeAllocs(d: Fds, d0: Fds)
    requires d0.files == d.files
    ensures var (d1, a) := Alloc(d0, ConsoleIn, 0, 0);
            var (d2, b) := Alloc(d1, ConsoleOut, 1, 0);
            var (d3, c) := Alloc(d2, ConsoleOut, 1, 0);
            a >= 0 && b >= 0 && c >= 0 <==> exists i, j, k :: FreeAt(d, i) && FreeAt(d, j) && FreeAt(d, k) && i < j < k
  {
    hide Alloc;
    var (d1, a) := Alloc(d0, ConsoleIn, 0, 0);
    var (d2, b) := Alloc(d1, ConsoleOut, 1, 0);
    var (d3, c) := Alloc(d2, ConsoleOut, 1, 0);
    AllocTakes(d0, ConsoleIn, 0, 0);
    AllocTakes(d1, ConsoleOut, 1, 0);
    AllocTakes(d2, ConsoleOut, 1, 0);
    forall k ensures FreeAt(d, k) <==> FreeAt(d0, k) {
    }
    if a >= 0 && b >= 0 && c >= 0 {
      assert FreeAt(d0, a) && FreeAt(d1, b) && FreeAt(d2, c);
      assert FreeAt(d, a) && FreeAt(d, b) && FreeAt(d, c) && a < b < c;
    }
    if i, j, k :| FreeAt(d, i) && FreeAt(d, j) && FreeAt(d, k) && i < j < k {
      assert FreeAt(d0, i) && FreeAt(d0, j) && FreeAt(d0, k);
      assert a >= 0 && a <= i;
      assert FreeAt(d1, j) && FreeAt(d1, k);
      assert b >= 0 && b <= j;
      assert FreeAt(d2, k);
    }
  }

  /** Fork fails for no other reason. */
  lemma ForkIff(d: Fds, parent: int, child: int)
    requires OwnsTable(d, parent) && !OwnsTable(d, child)
    ensures ProcessFork(d, parent, child).1 >= 0 <==> RoomForTable(d)
  {
    hide ProcessInit, CopyFds, FindProcess, RoomForTable;
    InitIff(d, child);
  }
}
