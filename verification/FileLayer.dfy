/** The file calls of minifs.c and the transfer loops of syscall.c, in place over a disk and the descriptor tables. */
module FileLayer {
  import opened Bytes
  import opened FsBlocks
  import FsFiles
  import opened FsTree
  import opened Descriptors
  import opened FileCalls
  import opened MiniFs
  import opened FdTable
  import Disk
  import FsRuns
  import SysIo

  class FileLayer {
    const fs: MiniFs
    const table: DescriptorTable

    constructor (fs: MiniFs, table: DescriptorTable)
      ensures this.fs == fs && this.table == table
    {
      this.fs, this.table := fs, table;
    }

    ghost predicate Valid()
      reads this, fs, table
    {
      fs.Valid() && table.Valid()
    }

    ghost function State(): Machine
      requires Valid()
      reads this, fs, table, table.files, table.procs
    {
      Machine(fs.State(), table.State())
    }

    /** `minifs_open` */
    method Open(pid: int, cwd: u32, path: seq<byte>, flags: int) returns (fd: int)
      requires Valid() && MachineOk(State()) && 0 !in path
      modifies fs, table.files, table.procs
      ensures Valid() && (State(), fd) == FileCalls.Open(old(State()), pid, cwd, path, flags)
    {
      hide Disk.View, FindProcess, FlagsOk, FsRuns.OpenFile, Install, FsInv, FdsOk, FilesLive;
      var p := table.Find(pid);
      if p == 16 || !FlagsOk(flags) {
        return -1;
      }
      OpenedNumber(fs.State(), cwd, path, FlagBit(flags, CREATE), FlagBit(flags, TRUNC));
      var number := fs.OpenFile(cwd, path, FlagBit(flags, CREATE), FlagBit(flags, TRUNC));
      if number < 0 {
        return -1;
      }
      var status: int, inode: Inode;
      status, inode := fs.ReadInode(number);
      fd := table.OpenInode(p, flags, number, if FlagBit(flags, APPEND) then inode.size else 0);
    }

    /** `minifs_write` to anything but the console device itself. */
    method Write(pid: int, fd: int, source: seq<byte>) returns (result: int)
      requires Valid() && MachineOk(State())
      modifies fs, table.files
      ensures Valid() && (State(), result) == FileCalls.Write(old(State()), pid, fd, source)
    {
      hide Disk.View, Named, FsFiles.WriteAt, FsInv, FdsOk, FilesLive;
      var k := table.Get(pid, fd);
      if k < 0 {
        return -1;
      }
      var file := table.files[k];
      if file.kind == ConsoleOut {
        return |source|;
      }
      if file.kind != File || file.flags % 4 == 0 {
        return -1;
      }
      var offset: u32 := file.offset;
      if FlagBit(file.flags, APPEND) {
        var status: int, inode: Inode;
        status, inode := fs.ReadInode(file.inode);
        if status < 0 {
          return -1;
        }
        offset := inode.size;
      }
      InvOk(fs.State());
      result := fs.WriteAt(file.inode, offset, source[..FsFiles.Min(|source|, 0xffff_ffff)]);
      table.PutFile(k, file.(offset := (offset + FsFiles.Max(result, 0)) % 0x1_0000_0000));
    }

    /** `minifs_read`; `typed` is what the console supplies. */
    method Read(pid: int, fd: int, length: nat, typed: seq<byte>) returns (result: int, out: seq<byte>)
      requires Valid() && MachineOk(State())
      modifies fs`blockBuffer, table.files
      ensures Valid()
      ensures (State(), if result < 0 then FsFiles.ReadFailed else FsFiles.ReadOk(out))
           == FileCalls.Read(old(State()), pid, fd, length, typed)
      ensures result >= 0 ==> result == |out|
    {
      hide Disk.View, Named, FsFiles.Pread, FsInv, FdsOk, FilesLive;
      var k := table.Get(pid, fd);
      if k < 0 {
        return -1, [];
      }
      var file := table.files[k];
      if file.kind == ConsoleIn {
        return |typed|, typed;
      }
      if file.kind != File || file.flags % 4 == 1 {
        return -1, [];
      }
      InvOk(fs.State());
      result, out := fs.Pread(file.inode, file.offset, FsFiles.Min(length, 0xffff_ffff));
      if result >= 0 {
        table.PutFile(k, file.(offset := (file.offset + result) % 0x1_0000_0000));
      }
    }

    /** Where a seek counts from, or -1. */
    method SeekBase(file: OpenFile, whence: Whence) returns (base: int)
      requires Valid()
      modifies fs`blockBuffer
      ensures Valid() && fs.State() == old(fs.State())
      ensures base == match whence
                      case FromStart => 0
                      case FromHere => file.offset
                      case FromEnd => if file.inode < 256 then fs.State().inodes[file.inode].size else -1
                      case Elsewhere => -1
    {
      match whence {
        case FromStart => return 0;
        case FromHere => return file.offset;
        case FromEnd =>
          var status: int, inode: Inode;
          status, inode := fs.ReadInode(file.inode);
          if status < 0 {
            return -1;
          }
          return inode.size;
        case Elsewhere => return -1;
      }
    }

    /** `minifs_lseek` */
    method Seek(pid: int, fd: int, offset: int, whence: Whence) returns (result: int)
      requires Valid()
      modifies fs`blockBuffer, table.files
      ensures Valid() && (State(), result) == FileCalls.Seek(old(State()), pid, fd, offset, whence)
    {
      hide Disk.View, Named;
      var k := table.Get(pid, fd);
      if k < 0 || table.files[k].kind != File {
        return -1;
      }
      var file := table.files[k];
      var base := SeekBase(file, whence);
      if base < 0 {
        return -1;
      }
      var position := base + offset;
      if position < 0 || position > 65536 {
        return -1;
      }
      table.PutFile(k, file.(offset := position));
      return position;
    }

    /** What `inode_is_open` answers for every inode. */
    method OpenSet() returns (open: set<int>)
      requires Valid()
      ensures open == OpenInodes(table.State())
    {
      open := {};
      var k := 0;
      while k < 64
        invariant 0 <= k <= 64
        invariant open == set j | 0 <= j < k && table.files[j].used && table.files[j].kind == File :: table.files[j].inode
      {
        if table.files[k].used && table.files[k].kind == File {
          open := open + {table.files[k].inode};
        }
        k := k + 1;
      }
      assert forall j :: 0 <= j < 64 ==> table.State().files[j] == table.files[j];
    }

    /** `minifs_unlink` */
    method Unlink(cwd: u32, path: seq<byte>) returns (result: int)
      requires Valid() && MachineOk(State()) && 0 !in path
      modifies fs
      ensures Valid() && (State().fs, result) == FsRuns.UnlinkPath(old(fs.State()), cwd, path, OpenInodes(table.State()))
    {
      hide Disk.View, FsInv, FdsOk, FilesLive, FsRuns.UnlinkPath, OpenInodes;
      var open := OpenSet();
      result := fs.UnlinkPath(cwd, path, open);
    }

    /** `sys_write` */
    method SysWrite(pid: int, fd: int, buffer: seq<byte>, mapped: nat) returns (result: int)
      requires Valid() && MachineOk(State())
      modifies fs, table.files
      ensures Valid() && (State(), result) == SysIo.SysWrite(old(State()), pid, fd, buffer, mapped)
    {
      hide Disk.View, FileCalls.Write, MachineOk;
      if |buffer| == 0 {
        return 0;
      }
      var done := 0;
      while done < |buffer|
        invariant 0 <= done <= |buffer| && Valid() && MachineOk(State())
        invariant SysIo.SysWriteFrom(State(), pid, fd, buffer, mapped, done)
               == SysIo.SysWriteFrom(old(State()), pid, fd, buffer, mapped, 0)
      {
        var chunk := FsFiles.Min(|buffer| - done, 512);
        if done + chunk > mapped {
          return if done == 0 then -1 else done;
        }
        WriteOk(State(), pid, fd, buffer[done..done + chunk]);
        var written := Write(pid, fd, buffer[done..done + chunk]);
        if written < 0 {
          return if done == 0 then -1 else done;
        }
        if written < chunk {
          return done + written;
        }
        done := done + chunk;
      }
      return done;
    }

    /** `sys_read` */
    method SysRead(pid: int, fd: int, length: nat, mapped: nat) returns (result: int, out: seq<byte>)
      requires Valid() && MachineOk(State())
      modifies fs`blockBuffer, table.files
      ensures Valid() && (State(), result, out) == SysIo.SysRead(old(State()), pid, fd, length, mapped)
    {
      hide Disk.View, FileCalls.Read, MachineOk, SysIo.SysReadFrom;
      if length == 0 {
        return 0, [];
      }
      var done := 0;
      out := [];
      assert [] + SysIo.SysReadFrom(State(), pid, fd, length, mapped, 0).2 == SysIo.SysReadFrom(State(), pid, fd, length, mapped, 0).2;
      while done < length
        invariant 0 <= done <= length && Valid() && MachineOk(State())
        invariant var rest := SysIo.SysReadFrom(State(), pid, fd, length, mapped, done);
                  SysIo.SysReadFrom(old(State()), pid, fd, length, mapped, 0) == (rest.0, rest.1, out + rest.2)
      {
        var chunk := FsFiles.Min(length - done, 512);
        ReadOkay(State(), pid, fd, chunk, []);
        ReadAtMost(State(), pid, fd, chunk);
        ReadRound(State(), pid, fd, length, mapped, done);
        assert out + [] == out;
        var received: int, bytes: seq<byte>;
        received, bytes := Read(pid, fd, chunk, []);
        if received < 0 {
          return if done == 0 then -1 else done, out;
        }
        if received == 0 {
          return done, out;
        }
        if done + received > mapped {
          return if done == 0 then -1 else done, out;
        }
        if received < chunk {
          return done + received, out + bytes;
        }
        ghost var rest := SysIo.SysReadFrom(State(), pid, fd, length, mapped, done + received).2;
        assert out + (bytes + rest) == (out + bytes) + rest;
        out := out + bytes;
        done := done + received;
      }
      ReadDone(State(), pid, fd, length, mapped);
      assert out + [] == out;
      return done, out;
    }
  }

  /** One round of the loop of `sys_read`. */
  lemma ReadRound(m: Machine, pid: int, fd: int, len: nat, mapped: nat, done: nat)
    requires done < len
    ensures var chunk := FsFiles.Min(len - done, 512);
            var (e, got) := FileCalls.Read(m, pid, fd, chunk, []);
            var r := SysIo.SysReadFrom(m, pid, fd, len, mapped, done);
            var soFar := if done == 0 then -1 else done;
            match got
            case ReadFailed => r == (e, soFar, [])
            case ReadOk(bytes) =>
              && (|bytes| == 0 ==> r == (e, done, []))
              && (|bytes| > 0 && done + |bytes| > mapped ==> r == (e, soFar, []))
              && (|bytes| > 0 && done + |bytes| <= mapped && |bytes| < chunk ==> r == (e, done + |bytes|, bytes))
              && (|bytes| > 0 && done + |bytes| <= mapped && |bytes| == chunk ==>
                    var rest := SysIo.SysReadFrom(e, pid, fd, len, mapped, done + chunk); r == (rest.0, rest.1, bytes + rest.2))
  {
    hide FileCalls.Read;
    ReadAtMost(m, pid, fd, FsFiles.Min(len - done, 512));
  }

  lemma ReadDone(m: Machine, pid: int, fd: int, len: nat, mapped: nat)
    ensures SysIo.SysReadFrom(m, pid, fd, len, mapped, len) == (m, len, [])
  {
  }

  lemma ReadAtMost(m: Machine, pid: int, fd: int, len: nat)
    ensures var got := FileCalls.Read(m, pid, fd, len, []).1; got.ReadOk? ==> |got.bytes| <= len
  {
  }

  lemma OpenedNumber(f: Fs, cwd: u32, path: seq<byte>, create: bool, trunc: bool)
    ensures FsRuns.OpenFile(f, cwd, path, create, trunc).1 < 256
  {
    hide FsRuns.CreateAt;
  }

  lemma InvOk(f: Fs)
    requires FsInv(f)
    ensures FsFiles.FsOk(f) && RefsMarked(f)
  {
  }
}
