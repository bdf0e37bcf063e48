/** File calls of MiniFS: descriptors over the file system, over whole runs, and the chunked read and write system calls. */
module FileCalls {
  import opened Bytes
  import opened FsBlocks
  import opened FsFiles
  import opened DirTree
  import opened FsTree
  import opened Paths
  import opened Descriptors
  import FsRuns

  datatype Machine = Machine(fs: Fs, fds: Fds)

  // ---------------------------------------------------------------- the calls

  predicate FlagBit(flags: int, bit: nat)
    requires bit > 0
  {
    flags / bit % 2 == 1
  }

  const CREATE := 0x040
  const TRUNC := 0x200
  const APPEND := 0x400

  /** Known bits only, an access mode that exists, and neither truncation nor appending for a reader. */
  predicate FlagsOk(flags: int) {
    && 0 <= flags < 0x800 && flags % 4 != 3 && flags / 4 % 16 == 0 && flags / 0x80 % 4 == 0
    && !(flags % 4 == 0 && (FlagBit(flags, TRUNC) || FlagBit(flags, APPEND)))
  }

  /** `minifs_open` */
  ghost function Open(m: Machine, pid: int, cwd: u32, path: seq<byte>, flags: int): (r: (Machine, int)) {
    var p := FindProcess(m.fds.procs, pid, 0);
    if p == 16 || !FlagsOk(flags) then (m, -1)
    else
      var (f, n) := FsRuns.OpenFile(m.fs, cwd, path, FlagBit(flags, CREATE), FlagBit(flags, TRUNC));
      if n < 0 || n >= 256 then (m.(fs := f), -1)
      else
        var (d, fd) := Install(m.fds, p, flags, n, if FlagBit(flags, APPEND) then f.inodes[n].size else 0);
        (Machine(f, d), fd)
  }

  /** `minifs_write` */
  function Write(m: Machine, pid: int, fd: int, src: seq<byte>): (r: (Machine, int)) {
    var k := Named(m.fds, pid, fd);
    if k < 0 then (m, -1)
    else
      var file := m.fds.files[k];
      if file.kind == ConsoleOut then (m, |src|)
      else if file.kind != File || file.flags % 4 == 0 then (m, -1)
      else if FlagBit(file.flags, APPEND) && file.inode >= 256 then (m, -1)
      else WriteFile(m, k, WritePos(m, k), src[..Min(|src|, 0xffff_ffff)])
  }

  function WriteFile(m: Machine, k: nat, off: u32, src: seq<byte>): (r: (Machine, int))
    requires k < 64
  {
    var (f, done) := WriteAt(m.fs, m.fds.files[k].inode, off, src);
    (Machine(f, SetOffset(m.fds, k, (off + Max(done, 0)) % 0x1_0000_0000)), done)
  }

  /** Where `minifs_write` puts its bytes: at the end of a file opened for appending. */
  function WritePos(m: Machine, k: nat): u32
    requires k < 64 && (FlagBit(m.fds.files[k].flags, APPEND) ==> m.fds.files[k].inode < 256)
  {
    var file := m.fds.files[k];
    if FlagBit(file.flags, APPEND) then m.fs.inodes[file.inode].size else file.offset
  }

  /** `minifs_read`; `typed` is what the console supplies. */
  ghost function Read(m: Machine, pid: int, fd: int, len: nat, typed: seq<byte>): (r: (Machine, FsFiles.Read)) {
    var k := Named(m.fds, pid, fd);
    if k < 0 then (m, ReadFailed)
    else
      var file := m.fds.files[k];
      if file.kind == ConsoleIn then (m, ReadOk(typed))
      else if file.kind != File || file.flags % 4 == 1 then (m, ReadFailed)
      else
        var got := Pread(m.fs, file.inode, file.offset, Min(len, 0xffff_ffff));
        (if got.ReadOk? then m.(fds := SetOffset(m.fds, k, (file.offset + |got.bytes|) % 0x1_0000_0000)) else m, got)
  }

  datatype Whence = FromStart | FromHere | FromEnd | Elsewhere

  /** `minifs_lseek` */
  function Seek(m: Machine, pid: int, fd: int, offset: int, whence: Whence): (r: (Machine, int)) {
    var k := Named(m.fds, pid, fd);
    if k < 0 || m.fds.files[k].kind != File then (m, -1)
    else
      var file := m.fds.files[k];
      if whence == Elsewhere || (whence == FromEnd && file.inode >= 256) then (m, -1)
      else
        var base := match whence
          case FromHere => file.offset
          case FromEnd => m.fs.inodes[file.inode].size
          case _ => 0;
        if 0 <= base + offset <= 65536 then (m.(fds := SetOffset(m.fds, k, base + offset)), base + offset) else (m, -1)
  }

  /** Inodes of open regular files: what `inode_is_open` finds. */
  function OpenInodes(d: Fds): set<int> {
    set k | 0 <= k < 64 && d.files[k].used && d.files[k].kind == File :: d.files[k].inode
  }

  // ---------------------------------------------------------------- runs

  datatype Call =
    | DoInit(pid: int)
    | DoFork(parent: int, child: int)
    | DoCloseAll(pid: int)
    | DoCloseExec(pid: int)
    | DoCloexec(pid: int, fd: int, on: bool)
    | DoOpen(pid: int, cwd: u32, path: seq<byte>, flags: int)
    | DoClose(pid: int, fd: int)
    | DoDup2(pid: int, oldfd: int, newfd: int)
    | DoWrite(pid: int, fd: int, src: seq<byte>)
    | DoRead(pid: int, fd: int, len: nat, typed: seq<byte>)
    | DoSeek(pid: int, fd: int, offset: int, whence: Whence)
    | DoMkdir(cwd: u32, path: seq<byte>)
    | DoUnlink(cwd: u32, path: seq<byte>)

  ghost function Step(m: Machine, c: Call): Machine {
    match c
    case DoInit(pid) => m.(fds := ProcessInit(m.fds, pid).0)
    case DoFork(parent, child) => m.(fds := ProcessFork(m.fds, parent, child).0)
    case DoCloseAll(pid) => m.(fds := CloseAll(m.fds, pid))
    case DoCloseExec(pid) => m.(fds := CloseExec(m.fds, pid))
    case DoCloexec(pid, fd, on) => m.(fds := SetCloexec(m.fds, pid, fd, on).0)
    case DoOpen(pid, cwd, path, flags) => Open(m, pid, cwd, path, flags).0
    case DoClose(pid, fd) => m.(fds := Close(m.fds, pid, fd).0)
    case DoDup2(pid, oldfd, newfd) => m.(fds := Dup2(m.fds, pid, oldfd, newfd).0)
    case DoWrite(pid, fd, src) => Write(m, pid, fd, src).0
    case DoRead(pid, fd, len, typed) => Read(m, pid, fd, len, typed).0
    case DoSeek(pid, fd, offset, whence) => Seek(m, pid, fd, offset, whence).0
    case DoMkdir(cwd, path) => m.(fs := FsRuns.CreateAt(m.fs, cwd, path, MODE_DIR).0)
    case DoUnlink(cwd, path) => m.(fs := FsRuns.UnlinkPath(m.fs, cwd, path, OpenInodes(m.fds)).0)
  }

  /** What callers owe: a working directory in use, a C string for a path, and a child pid different from its parent. */
  predicate Allowed(m: Machine, c: Call) {
    match c
    case DoFork(parent, child) => parent != child
    case DoOpen(_, cwd, path, _) => cwd < 256 && m.fs.inodeUsed[cwd] && 0 !in path
    case DoMkdir(cwd, path) => cwd < 256 && m.fs.inodeUsed[cwd] && 0 !in path
    case _ => true
  }

  predicate IsFile(fs: Fs, n: int) {
    0 <= n < 256 && fs.inodeUsed[n] && fs.inodes[n].mode % 256 == MODE_FILE
  }

  /** No open file names a freed inode, or anything but a regular file. */
  predicate FilesLive(fs: Fs, d: Fds) {
    forall k :: 0 <= k < 64 && d.files[k].used && d.files[k].kind == File ==>
      IsFile(fs, d.files[k].inode) && d.files[k].offset <= 65536
  }

  ghost predicate MachineOk(m: Machine) {
    FsInv(m.fs) && FdsOk(m.fds) && FilesLive(m.fs, m.fds)
  }

  lemma OldFiles(fs: Fs, d: Fds, e: Fds)
    requires FilesLive(fs, d) && NoNewFiles(d, e)
    ensures FilesLive(fs, e)
  {
  }

  /** Calls that touch descriptors only. */
  lemma TableCallOk(m: Machine, c: Call)
    requires MachineOk(m) && Allowed(m, c)
    requires c.DoInit? || c.DoFork? || c.DoCloseAll? || c.DoCloseExec? || c.DoCloexec? || c.DoClose? || c.DoDup2?
    ensures MachineOk(Step(m, c))
  {
    hide FsInv, FdsOk, FilesLive, NoNewFiles, ProcessInit, ProcessFork, CloseAll, CloseExec, SetCloexec, Close, Dup2, OwnsTable,
         Named;
    match c {
    case DoInit(pid) => InitOk(m.fds, pid);
    case DoFork(parent, child) => ForkOk(m.fds, parent, child);
    case DoCloseAll(pid) => CloseAllOk(m.fds, pid);
    case DoCloseExec(pid) => CloseExecOk(m.fds, pid);
    case DoCloexec(pid, fd, on) => CloexecOk(m.fds, pid, fd, on);
    case DoClose(pid, fd) => CloseOk(m.fds, pid, fd);
    case DoDup2(pid, oldfd, newfd) => Dup2Ok(m.fds, pid, oldfd, newfd);
    }
    OldFiles(m.fs, m.fds, Step(m, c).fds);
  }

  /** Creation keeps every regular file in place. */
  lemma CreateKeepsFiles(fs: Fs, cwd: u32, path: seq<byte>, mode: u32, n: int)
    requires FsInv(fs) && cwd < 256 && fs.inodeUsed[cwd] && 0 !in path && IsFile(fs, n)
    requires mode % 256 == MODE_FILE || mode % 256 == MODE_DIR
    ensures IsFile(FsRuns.CreateAt(fs, cwd, path, mode).0, n)
  {
    hide FsInv, FsRuns.CreateAt, TreeOf, ResolveParent, Created, IsFile;
    FsRuns.CreateAtSafe(fs, cwd, path, mode);
    var (p, name) := ResolveParent(TreeOf(fs), cwd, path);
    var (f, r) := FsRuns.CreateAt(fs, cwd, path, mode);
    if p >= 0 {
      CreatedKeeps(fs, f, p, name, mode, r, n);
    }
  }

  lemma CreatedKeeps(fs: Fs, f: Fs, p: nat, name: seq<byte>, mode: u32, r: int, n: int)
    requires Created(fs, f, p, name, mode, r) && IsFile(fs, n)
    ensures IsFile(f, n)
  {
    hide FsInv, AddLeaf, Lookup, Leaked, Content, BlockOf, FreeSlot, Dir, NameField;
    if r >= 0 {
      assert TreeOf(fs).mode[n] % 256 == 1;
      assert n != p;
    }
    assert SameInode(fs, f, n);
  }

  lemma OpenKeepsFiles(fs: Fs, cwd: u32, path: seq<byte>, create: bool, trunc: bool, n: int)
    requires FsInv(fs) && cwd < 256 && fs.inodeUsed[cwd] && 0 !in path && IsFile(fs, n)
    ensures IsFile(FsRuns.OpenFile(fs, cwd, path, create, trunc).0, n)
  {
    hide FsInv, FsRuns.CreateAt, TreeOf, Resolve, Truncate;
    var found := Resolve(TreeOf(fs), cwd, path);
    FsRuns.CreateAtSafe(fs, cwd, path, MODE_FILE);
    CreateKeepsFiles(fs, cwd, path, MODE_FILE, n);
    var (f, x) := if found < 0 && create then FsRuns.CreateAt(fs, cwd, path, MODE_FILE) else (fs, found);
    TruncKeepsFiles(f, x, trunc, n);
  }

  lemma TruncKeepsFiles(f: Fs, x: int, trunc: bool, n: int)
    requires IsFile(f, n)
    ensures 0 <= x < 256 ==> IsFile(Truncate(f, x, FsRuns.Emptied(f.inodes[x])), n)
  {
  }

  lemma UnlinkKeepsFiles(fs: Fs, cwd: u32, path: seq<byte>, open: set<int>, n: int)
    requires FsInv(fs) && IsFile(fs, n) && n in open
    ensures IsFile(FsRuns.UnlinkPath(fs, cwd, path, open).0, n)
  {
    hide FsInv, TreeOf, ResolveParent, Lookup, Unlink, FindName, Leaked, SameInode;
    var (p, name) := ResolveParent(TreeOf(fs), cwd, path);
    if 0 <= p < 0x1_0000_0000 {
      UnlinkSafe(fs, p, name, open);
      var (f, r) := Unlink(fs, p, name, open);
      if r >= 0 {
        var x := Lookup(TreeOf(fs), p, name);
        assert TreeOf(f).used == TreeOf(fs).used[x := false];
        assert TreeOf(f).mode == TreeOf(fs).mode[x := 0];
        assert TreeOf(f).mode[n] == TreeOf(fs).mode[n];
      }
    }
  }

  lemma FilesLiveKept(fs: Fs, f: Fs, d: Fds)
    requires FilesLive(fs, d)
    requires forall k :: 0 <= k < 64 && d.files[k].used && d.files[k].kind == File && IsFile(fs, d.files[k].inode) ==>
               IsFile(f, d.files[k].inode)
    ensures FilesLive(f, d)
  {
  }

  lemma FileSize(fs: Fs, n: nat)
    requires FsInv(fs) && n < 256 && fs.inodes[n].mode % 256 == MODE_FILE
    ensures fs.inodes[n].size <= 65536
  {
    hide FsOk, TreeOk, NoHoles, TreeOf;
    assert InodeSane(fs, n);
  }

  /** `minifs_open`: a descriptor it returns names a new open file for the inode of a regular file. */
  lemma OpenOk(m: Machine, pid: int, cwd: u32, path: seq<byte>, flags: int)
    requires MachineOk(m) && cwd < 256 && m.fs.inodeUsed[cwd] && 0 !in path
    ensures var (e, fd) := Open(m, pid, cwd, path, flags);
            && MachineOk(e)
            && (fd >= 0 ==> var k := Named(e.fds, pid, fd);
                  && k >= 0 && Named(m.fds, pid, fd) == -1 && e.fds.files[k].kind == File && e.fds.files[k].refs == 1
                  && e.fds.files[k].flags == flags && OneNewFile(m.fds, e.fds, k))
  {
    hide FsInv, FsRuns.OpenFile, FdsOk, Install, Named, OneNewFile, IsFile, NoNewFiles, FilesLive, Content, FlagsOk, FindProcess;
    var p := FindProcess(m.fds.procs, pid, 0);
    if p < 16 && FlagsOk(flags) {
      FsRuns.OpenKeepsInv(m.fs, cwd, path, FlagBit(flags, CREATE), FlagBit(flags, TRUNC));
      var (f, n) := FsRuns.OpenFile(m.fs, cwd, path, FlagBit(flags, CREATE), FlagBit(flags, TRUNC));
      forall x | IsFile(m.fs, x) ensures IsFile(f, x) {
        OpenKeepsFiles(m.fs, cwd, path, FlagBit(flags, CREATE), FlagBit(flags, TRUNC), x);
      }
      FilesLiveKept(m.fs, f, m.fds);
      if 0 <= n < 256 {
        FileSize(f, n);
        var offset := if FlagBit(flags, APPEND) then f.inodes[n].size else 0;
        assert IsFile(f, n) by { FileKnown(f, n); }
        InstallLive(f, m.fds, pid, flags, n, offset);
      }
    }
  }

  lemma FileKnown(f: Fs, n: int)
    requires 0 <= n < 256 && f.inodeUsed[n] && f.inodes[n].mode % 256 == MODE_FILE
    ensures IsFile(f, n)
  {
  }

  lemma InstallLive(f: Fs, d: Fds, pid: int, flags: int, n: u32, offset: u32)
    requires FdsOk(d) && FilesLive(f, d) && IsFile(f, n) && offset <= 65536 && FindProcess(d.procs, pid, 0) < 16
    ensures var (e, fd) := Install(d, FindProcess(d.procs, pid, 0), flags, n, offset);
            && FdsOk(e) && FilesLive(f, e)
            && (fd >= 0 ==> var k := Named(e, pid, fd);
                  && k >= 0 && Named(d, pid, fd) == -1 && e.files[k].kind == File && e.files[k].refs == 1
                  && e.files[k].flags == flags && OneNewFile(d, e, k))
  {
    hide FdsOk, Install, Named, IsFile, FindProcess;
    InstallOk(d, pid, flags, n, offset) by { OwnerKnown(d, pid); }
  }

  lemma OwnerKnown(d: Fds, pid: int)
    requires FindProcess(d.procs, pid, 0) < 16
    ensures OwnsTable(d, pid)
  {
  }

  predicate Writable(m: Machine, k: int) {
    0 <= k < 64 && m.fds.files[k].used && m.fds.files[k].kind == File && m.fds.files[k].flags % 4 != 0
  }

  predicate Readable(m: Machine, k: int) {
    0 <= k < 64 && m.fds.files[k].used && m.fds.files[k].kind == File && m.fds.files[k].flags % 4 != 1
  }

  /** What `minifs_write` through a descriptor of a writable file does, to the file, the position and everything else. */
  ghost predicate WroteThrough(m: Machine, e: Machine, k: nat, src: seq<byte>, done: nat)
    requires k < 64 && m.fds.files[k].inode < 256
  {
    var n, off := m.fds.files[k].inode, WritePos(m, k);
    && done <= |src| && off + done <= 65536
    && e.fds == SetOffset(m.fds, k, off + done)
    && OthersSame(m.fs, e.fs, n)
    && e.fs.inodes[n].mode == m.fs.inodes[n].mode
    && Content(e.fs, n) == (if off < 65536 then Overlay(Content(m.fs, n), off, src[..done]) else Content(m.fs, n))
    && (done < |src| ==> Full(e.fs) || off + done == 65536)
    && BlocksAdded(m.fs, e.fs, n, off, done)
  }

  lemma WriteEffect(m: Machine, pid: int, fd: int, src: seq<byte>)
    requires MachineOk(m) && Writable(m, Named(m.fds, pid, fd))
    ensures var k := Named(m.fds, pid, fd);
            var (e, done) := Write(m, pid, fd, src);
            m.fds.files[k].inode < 256 && done >= 0 && WroteThrough(m, e, k, src, done)
  {
    hide FsInv, FdsOk, Named, WriteFile, WroteThrough, WritePos;
    var k := Named(m.fds, pid, fd);
    assert IsFile(m.fs, m.fds.files[k].inode);
    WriteFileEffect(m, k, src);
  }

  lemma WriteFileEffect(m: Machine, k: nat, src: seq<byte>)
    requires FsInv(m.fs) && FilesLive(m.fs, m.fds) && Writable(m, k)
    ensures var n := m.fds.files[k].inode;
            IsFile(m.fs, n) && var (e, done) := WriteFile(m, k, WritePos(m, k), src[..Min(|src|, 0xffff_ffff)]);
            done >= 0 && WroteThrough(m, e, k, src, done)
  {
    hide FdsOk, Leaked, Full, NoHoles, OthersSame, FsOk, TreeOf, TreeOk, Content, InodeSane, WriteFrom, Overlay, BlockOf;
    var n := m.fds.files[k].inode;
    assert IsFile(m.fs, n);
    FileSize(m.fs, n);
    var off := WritePos(m, k);
    var req := src[..Min(|src|, 0xffff_ffff)];
    assert off <= 65536;
    if off < 65536 {
      WriteAtRefines(m.fs, n, off, req);
      var d := WriteAt(m.fs, n, off, req).1;
      assert req[..Min(|req|, 65536 - off)][..d] == src[..d];
    } else {
      SameOthers(m.fs, n);
    }
  }

  lemma SameOthers(fs: Fs, n: nat)
    ensures OthersSame(fs, fs, n)
  {
  }

  lemma OffsetLive(fs: Fs, d: Fds, k: nat, offset: u32)
    requires FilesLive(fs, d) && k < 64 && offset <= 65536
    ensures FilesLive(fs, SetOffset(d, k, offset))
  {
  }

  lemma WriteKeepsFiles(m: Machine, e: Machine, k: nat, n: int)
    requires k < 64 && m.fds.files[k].inode < 256 && OthersSame(m.fs, e.fs, m.fds.files[k].inode)
    requires e.fs.inodes[m.fds.files[k].inode].mode == m.fs.inodes[m.fds.files[k].inode].mode && IsFile(m.fs, n)
    ensures IsFile(e.fs, n)
  {
    hide Content, BlockOf;
    assert n != m.fds.files[k].inode ==> SameInode(m.fs, e.fs, n);
  }

  lemma WriteOk(m: Machine, pid: int, fd: int, src: seq<byte>)
    requires MachineOk(m)
    ensures MachineOk(Write(m, pid, fd, src).0)
  {
    hide FsInv, FdsOk, Named, WriteAt, WroteThrough, WriteFile;
    var k := Named(m.fds, pid, fd);
    if Writable(m, k) {
      assert IsFile(m.fs, m.fds.files[k].inode);
      WriteEffect(m, pid, fd, src);
      WrittenOk(m, k, src);
    }
  }

  lemma WrittenOk(m: Machine, k: nat, src: seq<byte>)
    requires MachineOk(m) && Writable(m, k) && IsFile(m.fs, m.fds.files[k].inode)
    requires var (e, done) := WriteFile(m, k, WritePos(m, k), src[..Min(|src|, 0xffff_ffff)]);
             done >= 0 && WroteThrough(m, e, k, src, done)
    ensures MachineOk(WriteFile(m, k, WritePos(m, k), src[..Min(|src|, 0xffff_ffff)]).0)
  {
    hide FsInv, FdsOk, WriteAt, OthersSame, Content, Overlay, BlocksAdded, Full, IsFile, FilesLive, Named;
    FileUsed(m.fs, m.fds.files[k].inode);
    var n, off := m.fds.files[k].inode, WritePos(m, k);
    FsRuns.WriteKeepsInv(m.fs, n, off, src[..Min(|src|, 0xffff_ffff)]);
    var (e, done) := WriteFile(m, k, off, src[..Min(|src|, 0xffff_ffff)]);
    forall x | IsFile(m.fs, x) ensures IsFile(e.fs, x) {
      WriteKeepsFiles(m, e, k, x);
    }
    FilesLiveKept(m.fs, e.fs, m.fds);
    OffsetLive(e.fs, m.fds, k, off + done);
    OffsetOk(m.fds, k, off + done);
  }

  lemma FileUsed(fs: Fs, n: int)
    requires IsFile(fs, n)
    ensures 0 <= n < 256 && fs.inodeUsed[n] && fs.inodes[n].mode % 256 == MODE_FILE
  {
  }

  /** Reading a file: the bytes at the position, cut at the end of the file, or a failure exactly when they meet a hole;
      the position moves past what was read. */
  lemma ReadEffect(m: Machine, pid: int, fd: int, len: nat, typed: seq<byte>)
    requires MachineOk(m) && Readable(m, Named(m.fds, pid, fd))
    ensures var k := Named(m.fds, pid, fd);
            var n, off := m.fds.files[k].inode, m.fds.files[k].offset;
            var (e, got) := Read(m, pid, fd, len, typed);
            && IsFile(m.fs, n) && off <= 65536
            && (got.ReadOk? <==> CanRead(m.fs, n, off, len))
            && (got.ReadOk? ==> got.bytes == Slice(Content(m.fs, n), off, len))
            && e.fs == m.fs
            && (got.ReadFailed? ==> e == m)
            && (got.ReadOk? ==> off + |got.bytes| <= 65536 && e.fds == SetOffset(m.fds, k, off + |got.bytes|))
  {
    hide FsInv, FdsOk, Named, CanRead, Pread, Content, Slice;
    var k := Named(m.fds, pid, fd);
    assert IsFile(m.fs, m.fds.files[k].inode);
    PreadEffect(m.fs, m.fds.files[k].inode, m.fds.files[k].offset, len);
  }

  lemma PreadEffect(fs: Fs, n: nat, off: u32, len: nat)
    requires FsInv(fs) && IsFile(fs, n) && off <= 65536
    ensures var got := Pread(fs, n, off, Min(len, 0xffff_ffff));
            && (got.ReadOk? <==> CanRead(fs, n, off, len)) && (got.ReadOk? ==> got.bytes == Slice(Content(fs, n), off, len))
            && (got.ReadOk? ==> off + |got.bytes| <= 65536)
  {
    hide FsOk, TreeOk, TreeOf, BlockOf, InodeSane, FsInv;
    FileSize(fs, n);
  }

  lemma ReadOkay(m: Machine, pid: int, fd: int, len: nat, typed: seq<byte>)
    requires MachineOk(m)
    ensures MachineOk(Read(m, pid, fd, len, typed).0)
  {
    hide FsInv, FdsOk, Named, Pread, FilesLive, IsFile, CanRead, Slice;
    var k := Named(m.fds, pid, fd);
    if Readable(m, k) {
      ReadEffect(m, pid, fd, len, typed);
      var (e, got) := Read(m, pid, fd, len, typed);
      if got.ReadOk? {
        OffsetLive(m.fs, m.fds, k, m.fds.files[k].offset + |got.bytes|);
        OffsetOk(m.fds, k, m.fds.files[k].offset + |got.bytes|);
      }
    }
  }

  lemma SeekOk(m: Machine, pid: int, fd: int, offset: int, whence: Whence)
    requires MachineOk(m)
    ensures MachineOk(Seek(m, pid, fd, offset, whence).0)
  {
    hide FsInv, FdsOk, Named, FilesLive;
    var k := Named(m.fds, pid, fd);
    var (e, r) := Seek(m, pid, fd, offset, whence);
    if r >= 0 {
      OffsetLive(m.fs, m.fds, k, r);
      OffsetOk(m.fds, k, r);
    }
  }

  lemma MkdirOk(m: Machine, cwd: u32, path: seq<byte>)
    requires MachineOk(m) && cwd < 256 && m.fs.inodeUsed[cwd] && 0 !in path
    ensures MachineOk(Step(m, DoMkdir(cwd, path)))
  {
    hide FsInv, FdsOk, FilesLive, IsFile, FsRuns.CreateAt, FsRuns.LeaksMore;
    var f := FsRuns.CreateAt(m.fs, cwd, path, MODE_DIR).0;
    FsRuns.MkdirKeepsInv(m.fs, cwd, path);
    forall x | IsFile(m.fs, x) ensures IsFile(f, x) {
      CreateKeepsFiles(m.fs, cwd, path, MODE_DIR, x);
    }
    FilesLiveKept(m.fs, f, m.fds);
  }

  lemma UnlinkOk(m: Machine, cwd: u32, path: seq<byte>)
    requires MachineOk(m)
    ensures MachineOk(Step(m, DoUnlink(cwd, path)))
  {
    hide FsInv, FdsOk, FilesLive, IsFile, FsRuns.UnlinkPath, Leaked;
    var open := OpenInodes(m.fds);
    var f := FsRuns.UnlinkPath(m.fs, cwd, path, open).0;
    FsRuns.RemoveKeepsInv(m.fs, cwd, path, open);
    forall x | IsFile(m.fs, x) && x in open ensures IsFile(f, x) {
      UnlinkKeepsFiles(m.fs, cwd, path, open, x);
    }
    FilesLiveKept(m.fs, f, m.fds);
  }

  /** Every call keeps the file system, the reference counts and the link between them. */
  lemma StepOk(m: Machine, c: Call)
    requires MachineOk(m) && Allowed(m, c)
    ensures MachineOk(Step(m, c))
  {
    hide MachineOk, Open, Write, Read, Seek;
    match c
    case DoOpen(pid, cwd, path, flags) => OpenOk(m, pid, cwd, path, flags);
    case DoWrite(pid, fd, src) => WriteOk(m, pid, fd, src);
    case DoRead(pid, fd, len, typed) => ReadOkay(m, pid, fd, len, typed);
    case DoSeek(pid, fd, offset, whence) => SeekOk(m, pid, fd, offset, whence);
    case DoMkdir(cwd, path) => MkdirOk(m, cwd, path);
    case DoUnlink(cwd, path) => UnlinkOk(m, cwd, path);
    case _ => TableCallOk(m, c);
  }

  ghost function Run(m: Machine, cs: seq<Call>): Machine
    decreases |cs|
  {
    if cs == [] then m else Run(Step(m, cs[0]), cs[1..])
  }

  ghost predicate AllowedRun(m: Machine, cs: seq<Call>)
    decreases |cs|
  {
    cs == [] || (Allowed(m, cs[0]) && AllowedRun(Step(m, cs[0]), cs[1..]))
  }

  /** Over every run of calls, from the state `minifs_init` leaves over a sound file system. */
  lemma {:induction false} RunOk(m: Machine, cs: seq<Call>)
    requires MachineOk(m) && AllowedRun(m, cs)
    ensures MachineOk(Run(m, cs))
    decreases |cs|
  {
    hide MachineOk, Step, Allowed;
    if cs != [] {
      StepOk(m, cs[0]);
      RunOk(Step(m, cs[0]), cs[1..]);
    }
  }

  lemma BootMachineOk(fs: Fs)
    requires FsInv(fs)
    ensures MachineOk(Machine(fs, Fds(NoFiles(), NoProcesses())))
  {
    hide FsInv, FdsOk;
    EmptyOk();
  }
}
