/** The descriptor tables as minifs.c keeps them, updated in place and proved against the model. */
module FdTable {
  import opened Bytes
  import opened Descriptors

  class DescriptorTable {
    const files: array<OpenFile>
    const procs: array<Process>

    predicate Valid()
      reads this
    {
      files.Length == 64 && procs.Length == 16
    }

    function State(): Fds
      requires Valid()
      reads this, files, procs
    {
      Fds(files[..], procs[..])
    }

    /** The zeroed tables of `minifs_init`. */
    constructor ()
      ensures Valid() && fresh(files) && fresh(procs) && State() == Fds(NoFiles(), NoProcesses())
    {
      files := new OpenFile[64](i => OpenFile(false, 0, ConsoleIn, 0, 0, 0));
      procs := new Process[16](i => NoProcess());
      new;
      assert files[..] == NoFiles() && procs[..] == NoProcesses();
    }

    method PutFile(k: nat, f: OpenFile)
      requires Valid() && k < 64
      modifies files
      ensures State() == old(State()).(files := old(State()).files[k := f])
    {
      files[k] := f;
      assert files[..] == old(files[..])[k := f];
    }

    method PutProcess(p: nat, q: Process)
      requires Valid() && p < 16
      modifies procs
      ensures State() == old(State()).(procs := old(State()).procs[p := q])
    {
      procs[p] := q;
      assert procs[..] == old(procs[..])[p := q];
    }

    /** `find_process` */
    method Find(pid: int) returns (p: nat)
      requires Valid()
      ensures p == FindProcess(procs[..], pid, 0)
    {
      p := 0;
      while p < 16
        invariant p <= 16 && FindProcess(procs[..], pid, 0) == FindProcess(procs[..], pid, p)
      {
        if procs[p].used && procs[p].pid == pid {
          return;
        }
        p := p + 1;
      }
    }

    /** `alloc_ofd` */
    method AllocOfd(kind: Kind, flags: int, inode: u32) returns (k: int)
      requires Valid()
      modifies files
      ensures (State(), k) == Alloc(old(State()), kind, flags, inode)
    {
      k := 0;
      while k < 64
        invariant 0 <= k <= 64 && State() == old(State())
        invariant FreeFile(files[..], 0) == FreeFile(files[..], k)
      {
        if !files[k].used {
          PutFile(k, OpenFile(true, 1, kind, flags, inode, 0));
          return;
        }
        k := k + 1;
      }
      return -1;
    }

    /** `put_ofd` */
    method PutOfd(k: int)
      requires Valid()
      modifies files
      ensures State() == Put(old(State()), k)
    {
      if k < 0 || k >= 64 || !files[k].used {
        return;
      }
      var f := files[k].(refs := files[k].refs - 1);
      PutFile(k, if f.refs == 0 then f.(used := false) else f);
    }

    method FirstFree() returns (p: nat)
      requires Valid()
      ensures p == FreeProcess(procs[..], 0)
    {
      p := 0;
      while p < 16
        invariant p <= 16 && FreeProcess(procs[..], 0) == FreeProcess(procs[..], p)
      {
        if !procs[p].used {
          return;
        }
        p := p + 1;
      }
    }

    /** `minifs_process_init` */
    method Init(pid: int) returns (status: int)
      requires Valid()
      modifies files, procs
      ensures (State(), status) == ProcessInit(old(State()), pid)
    {
      hide FindProcess, FreeProcess, FreeFile, Alloc, Put, NoFds, NoBits;
      var p := Find(pid);
      if p < 16 {
        return 0;
      }
      p := FirstFree();
      if p == 16 {
        return -1;
      }
      PutProcess(p, Process(true, pid, NoFds(), NoBits()));
      var input := AllocOfd(ConsoleIn, 0, 0);
      var output := AllocOfd(ConsoleOut, 1, 0);
      var error := AllocOfd(ConsoleOut, 1, 0);
      if input < 0 || output < 0 || error < 0 {
        PutOfd(input);
        PutOfd(output);
        PutOfd(error);
        PutProcess(p, procs[p].(used := false));
        return -1;
      }
      PutProcess(p, procs[p].(fd := procs[p].fd[0 := input]));
      PutProcess(p, procs[p].(fd := procs[p].fd[1 := output]));
      PutProcess(p, procs[p].(fd := procs[p].fd[2 := error]));
      return 0;
    }

    /** Gives descriptor `i` of slot `p` back and leaves `v` in its place. */
    method Give(p: nat, i: nat, v: int)
      requires Valid() && p < 16 && i < 16
      modifies files, procs
      ensures State() == SetFd(Put(old(State()), old(procs[p]).fd[i]), p, i, v)
    {
      hide Put;
      if procs[p].fd[i] >= 0 {
        PutOfd(procs[p].fd[i]);
      } else {
        PutNone(State(), procs[p].fd[i]);
      }
      PutKeeps(old(State()), old(procs[p]).fd[i]);
      PutProcess(p, procs[p].(fd := procs[p].fd[i := v]));
    }

    /** `minifs_process_fork` */
    method Fork(parent: int, child: int) returns (status: int)
      requires Valid()
      modifies files, procs
      ensures (State(), status) == ProcessFork(old(State()), parent, child)
    {
      hide FindProcess, ProcessInit, CopyFds;
      var p := Find(parent);
      if p == 16 {
        return -1;
      }
      status := Init(child);
      InitFinds(old(State()), child);
      if status < 0 {
        return -1;
      }
      var c := Find(child);
      PutProcess(c, procs[c].(cloexec := procs[p].cloexec));
      CopyAll(p, c);
      return 0;
    }

    method CopyAll(p: nat, c: nat)
      requires Valid() && p < 16 && c < 16
      modifies files, procs
      ensures State() == CopyFds(old(State()), p, c, 0)
    {
      hide Put, SetFd;
      var i := 0;
      while i < 16
        invariant 0 <= i <= 16 && CopyFds(State(), p, c, i) == CopyFds(old(State()), p, c, 0)
      {
        ghost var s := State();
        var k := procs[p].fd[i];
        Give(c, i, k);
        if 0 <= k < 64 {
          PutFile(k, files[k].(refs := files[k].refs + 1));
        }
        assert State() == Rename(s, c, i, k);
        i := i + 1;
      }
    }

    /** `minifs_close_all` */
    method CloseEverything(pid: int)
      requires Valid()
      modifies files, procs
      ensures State() == CloseAll(old(State()), pid)
    {
      hide FindProcess, Put, SetFd, NoBits;
      var p := Find(pid);
      if p == 16 {
        return;
      }
      var i := 0;
      while i < 16
        invariant 0 <= i <= 16 && CloseFrom(State(), p, i) == CloseFrom(old(State()), p, 0)
      {
        Give(p, i, -1);
        i := i + 1;
      }
      PutProcess(p, procs[p].(cloexec := NoBits(), used := false));
    }

    /** `minifs_set_cloexec` */
    method Mark(pid: int, fd: int, on: bool) returns (status: int)
      requires Valid()
      modifies procs
      ensures (State(), status) == SetCloexec(old(State()), pid, fd, on)
    {
      hide FindProcess;
      var p := Find(pid);
      if p == 16 || fd < 0 || fd >= 16 || procs[p].fd[fd] < 0 {
        return -1;
      }
      PutProcess(p, procs[p].(cloexec := procs[p].cloexec[fd := on]));
      return 0;
    }

    /** Gives descriptor `i` of slot `p` back and clears its bit. */
    method CloseSlot(p: nat, i: nat)
      requires Valid() && p < 16 && i < 16
      modifies files, procs
      ensures State() == SetMark(Drop(old(State()), p, i), p, i, false)
    {
      hide Put;
      Give(p, i, -1);
      PutProcess(p, procs[p].(cloexec := procs[p].cloexec[i := false]));
    }

    /** `minifs_close_exec_fds` */
    method CloseMarkedFds(pid: int)
      requires Valid()
      modifies files, procs
      ensures State() == CloseExec(old(State()), pid)
    {
      hide FindProcess, Drop, SetMark;
      var p := Find(pid);
      if p == 16 {
        return;
      }
      var i := 0;
      while i < 16
        invariant 0 <= i <= 16 && CloseMarked(State(), p, i) == CloseMarked(old(State()), p, 0)
      {
        if procs[p].cloexec[i] {
          CloseSlot(p, i);
        }
        i := i + 1;
      }
    }

    /** `minifs_close` */
    method CloseFd(pid: int, fd: int) returns (status: int)
      requires Valid()
      modifies files, procs
      ensures (State(), status) == Close(old(State()), pid, fd)
    {
      hide FindProcess, Put, SetFd;
      var p := Find(pid);
      if p == 16 || fd < 0 || fd >= 16 || procs[p].fd[fd] < 0 {
        return -1;
      }
      CloseSlot(p, fd);
      return 0;
    }

    /** `minifs_dup2` */
    method Duplicate(pid: int, oldfd: int, newfd: int) returns (r: int)
      requires Valid() && FdsOk(State())
      modifies files, procs
      ensures (State(), r) == Dup2(old(State()), pid, oldfd, newfd)
    {
      hide FindProcess, Put, SetFd, FdsOk;
      var p := Find(pid);
      if p == 16 || oldfd < 0 || oldfd >= 16 || newfd < 0 || newfd >= 16 || procs[p].fd[oldfd] < 0 {
        return -1;
      }
      if oldfd == newfd {
        return newfd;
      }
      FdRange(State(), p, oldfd);
      var k := procs[p].fd[oldfd];
      Give(p, newfd, k);
      PutFile(k, files[k].(refs := files[k].refs + 1));
      PutProcess(p, procs[p].(cloexec := procs[p].cloexec[newfd := false]));
      return newfd;
    }

    /** `install_fd`: the descriptor, or -1. */
    method InstallFd(p: nat, k: int) returns (fd: int)
      requires Valid() && p < 16
      modifies procs
      ensures var s, f := old(State()), FreeFd(old(procs[p]).fd, 0);
              if f == 16 then fd == -1 && State() == s else fd == f && State() == SetMark(SetFd(s, p, f, k), p, f, false)
    {
      fd := 0;
      while fd < 16
        invariant 0 <= fd <= 16 && State() == old(State())
        invariant FreeFd(procs[p].fd, 0) == FreeFd(procs[p].fd, fd)
      {
        if procs[p].fd[fd] < 0 {
          PutProcess(p, procs[p].(fd := procs[p].fd[fd := k]));
          PutProcess(p, procs[p].(cloexec := procs[p].cloexec[fd := false]));
          return;
        }
        fd := fd + 1;
      }
      return -1;
    }

    /** The end of `minifs_open`. */
    method OpenInode(p: nat, flags: int, inode: u32, offset: u32) returns (fd: int)
      requires Valid() && p < 16
      modifies files, procs
      ensures (State(), fd) == Install(old(State()), p, flags, inode, offset)
    {
      hide FreeFd, FreeFile, Put;
      var k := AllocOfd(File, flags, inode);
      if k < 0 {
        return -1;
      }
      PutFile(k, files[k].(offset := offset));
      fd := InstallFd(p, k);
      if fd < 0 {
        PutOfd(k);
      }
    }

    /** `get_open_file`: the index of the open file, or -1. */
    method Get(pid: int, fd: int) returns (k: int)
      requires Valid()
      ensures k == Named(State(), pid, fd)
    {
      hide FindProcess;
      var p := Find(pid);
      if p == 16 || fd < 0 || fd >= 16 {
        return -1;
      }
      k := procs[p].fd[fd];
      if k < 0 || k >= 64 || !files[k].used {
        return -1;
      }
    }
  }

  lemma PutNone(d: Fds, k: int)
    requires k < 0
    ensures Put(d, k) == d
  {
  }

  lemma PutKeeps(d: Fds, k: int)
    ensures Put(d, k).procs == d.procs
  {
  }

  lemma FdRange(d: Fds, p: nat, i: nat)
    requires FdsOk(d) && p < 16 && i < 16 && d.procs[p].used
    ensures -1 <= d.procs[p].fd[i] < 64
  {
    hide Balanced;
    assert ProcessOk(d.procs[p]);
  }
}
