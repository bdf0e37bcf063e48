/** The system calls that create, replace and end processes, as syscall.c, task.c and user.c carry them out: task slots,
    descriptor tables, physical memory and satp changed in place, each call proved against the machine. */
module KernelLayer {
  import opened Bytes
  import opened PhysMem
  import opened Mmu
  import opened Spaces
  import opened Programs
  import InitStack
  import SpaceCopy
  import FsBlocks
  import opened FsTree
  import Paths
  import Disk
  import opened MiniFs
  import ProgramFiles
  import T = TaskModel
  import F = FileCalls
  import D = Descriptors
  import K = KernelModel
  import opened TaskTable
  import opened FdTable
  import opened KernelMemory

  class KernelLayer {
    const tasks: TaskTable
    const table: DescriptorTable
    const memory: KernelMemory
    /** `address_space` and `trap_ctx.satp` of each slot. */
    const space: array<Space>
    const saved: array<u64>
    const kernel: Kernel
    var satp: u64
    /** The file system below the descriptor tables: exec reads it, and none of these calls changes it. */
    const disk: MiniFs

    constructor (tasks: TaskTable, table: DescriptorTable, memory: KernelMemory, kernel: Kernel, disk: MiniFs)
      requires tasks.Valid() && table.Valid() && disk.Valid()
      ensures this.tasks == tasks && this.table == table && this.memory == memory && this.kernel == kernel && this.disk == disk
      ensures fresh(space) && fresh(saved) && Valid()
      ensures satp == K.KSatp(kernel) && space[..] == K.NoSpaces() && saved[..] == K.SetSaved(K.NoSatps(), 0, K.KSatp(kernel))
    {
      this.tasks, this.table, this.memory, this.kernel, this.disk := tasks, table, memory, kernel, disk;
      space := new Space[16](i => K.NO_SPACE);
      saved := new u64[16](i => 0);
      satp := K.KSatp(kernel);
      new;
      saved[0] := satp;
      assert space[..] == K.NoSpaces();
      assert saved[..] == K.SetSaved(K.NoSatps(), 0, satp);
    }

    ghost predicate Valid()
      reads this, tasks, table, disk
    {
      tasks.Valid() && table.Valid() && disk.Valid() && space.Length == 16 && saved.Length == 16
    }

    ghost function State(): K.Machine
      requires Valid()
      reads this, tasks, tasks.tasks, table, table.files, table.procs, memory, space, saved, disk
    {
      K.Machine(tasks.State(), F.Machine(disk.State(), table.State()), memory.State(), kernel, space[..], saved[..], satp)
    }

    method SetSpace(i: nat, sp: Space)
      requires Valid() && i < 16
      modifies space
      ensures State() == old(State()).(space := K.SetSpace(old(State()).space, i, sp))
    {
      space[i] := sp;
      assert space[..] == old(space[..])[i := sp];
    }

    method SetSaved(i: nat, v: u64)
      requires Valid() && i < 16
      modifies saved
      ensures State() == old(State()).(saved := K.SetSaved(old(State()).saved, i, v))
    {
      saved[i] := v;
      assert saved[..] == old(saved[..])[i := v];
    }

    /** Slot `i` gets a space and is to be resumed on it. */
    method Settle(i: nat, sp: Space)
      requires Valid() && i < 16
      modifies space, saved
      ensures var was := old(State());
              State() == was.(space := K.SetSpace(was.space, i, sp), saved := K.SetSaved(was.saved, i, K.SpaceSatp(sp)))
    {
      hide Disk.View;
      SetSpace(i, sp);
      SetSaved(i, K.SpaceSatp(sp));
    }

    /** `user_execve` from the point where the new space is ready: it takes over, then the old one goes. */
    method Replace(sp: Space)
      requires Valid() && InMemory(space[tasks.current])
      modifies this`satp, memory, space, saved
      ensures var was := old(State());
              var satp := K.SpaceSatp(sp);
              State() == was.(heap := Destroy(was.heap, was.space[was.tasks.current]), space := K.SetSpace(was.space, was.tasks.current, sp),
                              saved := K.SetSaved(was.saved, was.tasks.current, satp), satp := satp)
    {
      hide Disk.View, Destroy;
      var was := space[tasks.current];
      Settle(tasks.current, sp);
      satp := K.SpaceSatp(sp);
      memory.DestroySpace(was);
    }

    /** `task_create` */
    method Create(shell: bool) returns (pid: int)
      requires Valid()
      modifies tasks, tasks.tasks, table.files, table.procs, saved
      ensures Valid() && (State(), pid) == K.CreateTask(old(State()), shell)
    {
      hide Disk.View, T.Spawn, T.FreeSlot, D.ProcessInit;
      if tasks.taskCount >= 16 {
        return -1;
      }
      var slot := tasks.Free();
      if slot == 16 {
        return -1;
      }
      var status := table.Init(tasks.nextPid);
      SetSaved(slot, satp);
      pid := tasks.Spawn(false, shell, status >= 0);
    }

    /** `sys_fork` with `task_fork_from_trap` */
    method Fork() returns (pid: int)
      requires Valid() && K.InRange(State())
      modifies tasks, tasks.tasks, table.files, table.procs, memory, space, saved
      ensures Valid() && (State(), pid) == K.ForkTask(old(State()))
    {
      hide Disk.View, T.Spawn, T.FreeSlot, D.ProcessFork, SpaceCopy.Clone, Destroy;
      var me := tasks.current;
      var task := tasks.tasks[me];
      if !(task.state != T.Unused && task.hasSpace) {
        return -1;
      }
      var copy := memory.CloneSpace(kernel, space[me]);
      if copy.None? || !InMemory(copy.value) {
        return -1;
      }
      var slot := 16;
      if tasks.taskCount < 16 {
        slot := tasks.Free();
      }
      if slot == 16 {
        memory.DestroySpace(copy.value);
        return -1;
      }
      var status := table.Fork(task.pid, tasks.nextPid);
      Settle(slot, copy.value);
      pid := tasks.Spawn(true, false, status >= 0);
      if pid < 0 {
        memory.DestroySpace(copy.value);
      }
    }

    /** `minifs_resolve_file` */
    method FindFile(cwd: u32, path: seq<byte>) returns (inode: int)
      requires disk.Valid() && FsInv(disk.State()) && 0 !in path
      modifies disk`blockBuffer
      ensures inode == ProgramFiles.FindFile(disk.State(), cwd, path)
    {
      hide Disk.View, FsInv, Paths.Resolve, FsTree.TreeOf;
      inode := disk.Resolve(cwd, path, FsTree.TreeOf(disk.State()));
      if inode < 0 {
        return -1;
      }
      var status: int, record: FsBlocks.Inode;
      status, record := disk.ReadInode(inode);
      if status < 0 || record.mode % 256 != 1 {
        return -1;
      }
    }

    /** `prepare_program` */
    method PrepareProgram(cwd: u32, path: seq<byte>, argv: seq<seq<byte>>, envp: seq<seq<byte>>) returns (r: Option<Loaded>)
      requires KernelInRange(kernel) && disk.Valid() && FsInv(disk.State()) && 0 !in path
      modifies memory, disk`blockBuffer
      ensures (memory.State(), r) == ProgramFiles.PrepareFile(old(memory.State()), kernel, disk.State(), cwd, path, argv, envp)
    {
      hide ProgramFiles.LoadFile, InitStack.BuildStack, Destroy, Disk.View, FsInv, ProgramFiles.FindFile, FsBlocks.RefsMarked, FsBlocks.ByteAt;
      var inode := FindFile(cwd, path);
      if inode < 0 {
        return None;
      }
      Marked(disk.State());
      var loaded, entry := memory.LoadElf(kernel, disk, inode);
      if loaded.None? || !InMemory(loaded.value) {
        return None;
      }
      var sp := memory.BuildInitialStack(loaded.value.pages, argv, envp);
      if sp.None? {
        memory.DestroySpace(loaded.value);
        return None;
      }
      return Some(Loaded(loaded.value, entry, sp.value, |argv|, sp.value + 8, sp.value + 8 + 8 * (|argv| + 1)));
    }

    /** `sys_execve` after the arguments were copied in; `shell` says whether the new name is the shell's. */
    method Exec(cwd: u32, path: seq<byte>, argv: seq<seq<byte>>, envp: seq<seq<byte>>, shell: bool) returns (r: Option<Loaded>)
      requires Valid() && K.InRange(State()) && FsInv(disk.State()) && 0 !in path
      modifies this`satp, tasks.tasks, table.files, table.procs, memory, space, saved, disk`blockBuffer
      ensures Valid() && (State(), r) == K.ExecProgram(old(State()), cwd, path, argv, envp, shell)
    {
      hide T.Step, D.CloseExec, ProgramFiles.PrepareFile, Destroy, Disk.View, FsInv;
      var me := tasks.current;
      var task := tasks.tasks[me];
      r := PrepareProgram(cwd, path, argv, envp);
      if r.None? {
        return;
      }
      if !(task.state != T.Unused && task.hasSpace) {
        memory.DestroySpace(r.value.space);
        return None;
      }
      Replace(r.value.space);
      table.CloseMarkedFds(task.pid);
      tasks.Rename(shell);
    }

    /** `user_init` */
    method Attach(cwd: u32, path: seq<byte>, argv: seq<seq<byte>>, envp: seq<seq<byte>>) returns (r: Option<Loaded>)
      requires Valid() && K.InRange(State()) && FsInv(disk.State()) && 0 !in path
      modifies this`satp, tasks.tasks, memory, space, saved, disk`blockBuffer
      ensures Valid() && (State(), r) == K.AttachProgram(old(State()), cwd, path, argv, envp)
    {
      hide T.Step, ProgramFiles.PrepareFile, Disk.View, FsInv;
      r := PrepareProgram(cwd, path, argv, envp);
      if r.None? {
        return;
      }
      Settle(tasks.current, r.value.space);
      satp := K.SpaceSatp(r.value.space);
      tasks.MarkOwner();
    }

    /** `task_exit` */
    method Exit(code: int)
      requires Valid()
      modifies tasks, tasks.tasks, table.files, table.procs
      ensures Valid() && State() == K.ExitTask(old(State()), code)
    {
      hide Disk.View, T.Exit, D.CloseAll;
      var me := tasks.tasks[tasks.current].pid;
      tasks.Exit(code);
      if me != 0 {
        table.CloseEverything(me);
      }
    }

    /** `task_kill` */
    method Kill(pid: int, code: int) returns (r: int)
      requires Valid()
      modifies tasks, tasks.tasks, table.files, table.procs
      ensures Valid() && (State(), r) == K.KillTask(old(State()), pid, code)
    {
      hide Disk.View, T.Kill, D.CloseAll;
      r := tasks.Kill(pid, code);
      if r >= 0 {
        table.CloseEverything(pid);
      }
    }

    /** `task_waitpid` */
    method Wait(target: int, nohang: bool) returns (r: int, status: int)
      requires Valid() && K.InRange(State())
      modifies tasks, tasks.tasks, table.files, table.procs, memory, space
      ensures Valid() && (State(), r) == K.WaitTask(old(State()), target, nohang)
    {
      hide Disk.View, T.WaitPid, T.FindZombie, D.CloseAll, Destroy, T.HasAwaited;
      var z, found := tasks.ScanChildren(target);
      if z == 16 {
        r, status := tasks.WaitPid(target, nohang);
        return;
      }
      var child := tasks.tasks[z];
      if child.state != T.Unused && child.hasSpace {
        memory.DestroySpace(space[z]);
        SetSpace(z, K.NO_SPACE);
      }
      table.CloseEverything(child.pid);
      r, status := tasks.WaitPid(target, nohang);
    }

    /** `sched_tick` */
    method Tick()
      requires Valid()
      modifies this`satp, tasks, tasks.tasks, saved
      ensures Valid() && State() == K.Trap(old(State()), T.Tick(old(State()).tasks))
    {
      hide Disk.View, T.Tick;
      if tasks.taskCount <= 1 {
        return;
      }
      SetSaved(tasks.current, satp);
      tasks.Tick();
      satp := saved[tasks.current];
    }

    /** `task_reschedule` */
    method Reschedule()
      requires Valid()
      modifies this`satp, tasks, tasks.tasks, saved
      ensures Valid() && State() == K.Trap(old(State()), T.Reschedule(old(State()).tasks))
    {
      hide Disk.View, T.Reschedule;
      if tasks.taskCount <= 1 {
        return;
      }
      SetSaved(tasks.current, satp);
      tasks.Reschedule();
      satp := saved[tasks.current];
    }
  }

  lemma Marked(fs: FsBlocks.Fs)
    requires FsInv(fs)
    ensures FsBlocks.RefsMarked(fs)
  {
  }
}
