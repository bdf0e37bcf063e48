/** What the file calls answer: open by path and flags, seeking by origin, and which calls a descriptor refuses. */
module CallLaws {
  import opened Bytes
  import opened FsBlocks
  import opened FsFiles
  import opened DirTree
  import opened FsTree
  import opened Paths
  import opened Descriptors
  import opened DescriptorMap
  import opened FileCalls
  import opened PathCalls
  import FsRuns

  // ---------------------------------------------------------------- flags

  /** The flag word of an access mode (0 reading, 1 writing, 2 both) with O_CREATE, O_TRUNC and O_APPEND. */
  function FlagWord(access: nat, create: bool, trunc: bool, append: bool): nat {
    access + (if create then 0x040 else 0) + (if trunc then 0x200 else 0) + (if append then 0x400 else 0)
  }

  /** Combinations open accepts: an access mode that exists, and neither truncation nor appending for a reader. */
  predicate Sensible(access: nat, trunc: bool, append: bool) {
    access <= 2 && (access == 0 ==> !trunc && !append)
  }

  lemma FlagsRead(access: nat, create: bool, trunc: bool, append: bool)
    requires access <= 3
    ensures var w := FlagWord(access, create, trunc, append);
            && w % 4 == access && FlagBit(w, CREATE) == create && FlagBit(w, TRUNC) == trunc && FlagBit(w, APPEND) == append
            && (FlagsOk(w) <==> Sensible(access, trunc, append))
  {
  }

  /** Every word accepted is one of these. */
  lemma FlagsWritten(flags: int)
    requires FlagsOk(flags)
    ensures flags == FlagWord(flags % 4, FlagBit(flags, CREATE), FlagBit(flags, TRUNC), FlagBit(flags, APPEND))
    ensures Sensible(flags % 4, FlagBit(flags, TRUNC), FlagBit(flags, APPEND))
  {
    var a: nat := flags / 4;
    var b: nat := a / 16;
    var c: nat := b / 2;
    var d: nat := c / 4;
    assert flags == 4 * a + flags % 4 && a == 16 * b && b == 2 * c + b % 2 && c == 4 * d && d == 2 * (d / 2) + d % 2;
    assert flags / 0x40 == b && flags / 0x80 == c && flags / 0x200 == d && flags / 0x400 == d / 2;
    assert d / 2 <= 1;
  }

  // ---------------------------------------------------------------- the new descriptor

  /** Before the call: a descriptor for one more open file can be given to `pid`. */
  ghost predicate CanHand(d: Fds, pid: int) {
    (exists k :: FreeAt(d, k)) && exists j :: 0 <= j < 16 && Named(d, pid, j) < 0
  }

  /** What handing out a descriptor for inode `n` at `offset` does: the lowest free one names a new open file, or -1 if there is no
      room; every other name, mark and open file stays. */
  ghost predicate Handed(d: Fds, e: Fds, pid: int, fd: int, flags: int, n: int, offset: int) {
    && (fd >= 0 <==> CanHand(d, pid)) && -1 <= fd < 16
    && (fd >= 0 ==> Named(d, pid, fd) < 0 && (forall j :: 0 <= j < fd ==> Named(d, pid, j) >= 0) && HandedAt(d, e, pid, fd, flags, n, offset))
    && (forall q, j :: !(fd >= 0 && q == pid && j == fd) ==> Named(e, q, j) == Named(d, q, j) && Marked(e, q, j) == Marked(d, q, j))
    && (forall k :: 0 <= k < 64 && d.files[k].used ==> e.files[k] == d.files[k])
  }

  ghost predicate HandedAt(d: Fds, e: Fds, pid: int, fd: int, flags: int, n: int, offset: int) {
    var k := Named(e, pid, fd);
    && 0 <= k < 64 && !d.files[k].used && !Marked(e, pid, fd)
    && e.files[k].used && e.files[k].refs == 1 && e.files[k].kind == File
    && e.files[k].flags == flags && e.files[k].inode == n && e.files[k].offset == offset
  }

  lemma InstallIs(d: Fds, pid: int, flags: int, n: u32, offset: u32)
    requires Descriptors.FdsOk(d) && OwnsTable(d, pid)
    ensures var (e, fd) := Install(d, FindProcess(d.procs, pid, 0), flags, n, offset); Handed(d, e, pid, fd, flags, n, offset)
  {
    hide Descriptors.FdsOk, Install, Named, Marked, FindProcess, OneNewFile;
    var p := FindProcess(d.procs, pid, 0);
    var (e, fd) := Install(d, p, flags, n, offset);
    InstallOk(d, pid, flags, n, offset);
    forall q, j ensures !(fd >= 0 && q == pid && j == fd) ==> Named(e, q, j) == Named(d, q, j) && Marked(e, q, j) == Marked(d, q, j) {
      InstallMap(d, pid, flags, n, offset, q, j);
    }
    if fd >= 0 {
      InstallMap(d, pid, flags, n, offset, pid, fd);
    }
    forall j ensures Named(d, pid, j) == Stored(d, pid, j) {
      NamedStored(d, pid, j);
    }
    InstallFiles(d, p, flags, n, offset);
  }

  lemma InstallFiles(d: Fds, p: nat, flags: int, n: u32, offset: u32)
    requires p < 16
    ensures var (e, fd) := Install(d, p, flags, n, offset);
            && -1 <= fd < 16 && (forall k :: 0 <= k < 64 && d.files[k].used ==> e.files[k] == d.files[k])
            && (fd >= 0 <==> (exists k :: FreeAt(d, k)) && exists j :: 0 <= j < 16 && d.procs[p].fd[j] < 0)
            && (fd >= 0 ==> d.procs[p].fd[fd] < 0 && forall j :: 0 <= j < fd ==> d.procs[p].fd[j] >= 0)
  {
    hide FreeFile;
    FreeFdFirst(d.procs[p].fd, 0);
    var k := FreeFile(d.files, 0);
    assert k < 64 ==> FreeAt(d, k);
  }

  lemma {:induction false} FreeFdFirst(fd: seq<int>, i: nat)
    requires i <= 16 == |fd|
    ensures forall j :: i <= j < FreeFd(fd, i) ==> fd[j] >= 0
    decreases 16 - i
  {
    if i < 16 && fd[i] >= 0 {
      FreeFdFirst(fd, i + 1);
    }
  }

  // ---------------------------------------------------------------- minifs_open

  /** Flags that do not fit together, and processes without a table, are refused without any effect. */
  lemma OpenRefused(m: Machine, pid: int, cwd: u32, path: seq<byte>, flags: int)
    requires !OwnsTable(m.fds, pid)
          || !exists access: nat, create, trunc, append :: Sensible(access, trunc, append) && flags == FlagWord(access, create, trunc, append)
    ensures Open(m, pid, cwd, path, flags) == (m, -1)
  {
    hide FsRuns.OpenFile, Install, FindProcess;
    if FlagsOk(flags) {
      FlagsWritten(flags);
    }
  }

  /** `minifs_open` of a path that leads to inode `n`. Anything but a regular file is refused without any effect. A regular file
      is emptied with O_TRUNC and untouched without, whether or not O_CREATE is given; a descriptor for it, at its start or with
      O_APPEND at its end, is handed out exactly when there is room. */
  lemma OpenExisting(m: Machine, pid: int, cwd: u32, path: seq<byte>, access: nat, create: bool, trunc: bool, append: bool)
    requires MachineOk(m) && Callable(m.fs, cwd, path) && OwnsTable(m.fds, pid) && Sensible(access, trunc, append)
    requires Resolve(TreeOf(m.fs), cwd, path) >= 0
    ensures var w := FlagWord(access, create, trunc, append);
            var (e, fd) := Open(m, pid, cwd, path, w);
            var n := Resolve(TreeOf(m.fs), cwd, path);
            && n < 256
            && (m.fs.inodes[n].mode % 256 != 1 ==> (e, fd) == (m, -1))
            && (m.fs.inodes[n].mode % 256 == 1 ==>
                  && (if trunc then EmptiedFile(m.fs, e.fs, n) else e.fs == m.fs)
                  && Handed(m.fds, e.fds, pid, fd, w, n, if append && !trunc then |Content(m.fs, n)| else 0))
  {
    hide FsInv, TreeOf, Resolve, FsRuns.OpenFile, Install, FindProcess, Descriptors.FdsOk, FilesLive, EmptiedFile, Handed, FlagsOk, FlagBit;
    FlagsRead(access, create, trunc, append);
    OpenFileFound(m.fs, cwd, path, create, trunc);
    var w := FlagWord(access, create, trunc, append);
    var (f, n) := FsRuns.OpenFile(m.fs, cwd, path, create, trunc);
    if n >= 0 {
      assert |Content(m.fs, n)| == m.fs.inodes[n].size;
      assert trunc ==> f.inodes[n].size == 0 by { EmptiedSize(m.fs, f, n, trunc); }
      InstallIs(m.fds, pid, w, n, if append then f.inodes[n].size else 0);
    }
  }

  lemma EmptiedSize(fs: Fs, f: Fs, n: nat, trunc: bool)
    requires trunc ==> EmptiedFile(fs, f, n)
    ensures trunc ==> n < 256 && f.inodes[n].size == 0
  {
    hide TreeOf, OthersSame, Leaked, Content;
  }

  /** `minifs_open` of a path that leads nowhere. Without O_CREATE it is refused without any effect. With it, a new empty file is
      made there exactly when one can be, and a descriptor for its start is handed out exactly when there is room. */
  lemma OpenMissing(m: Machine, pid: int, cwd: u32, path: seq<byte>, access: nat, create: bool, trunc: bool, append: bool)
    requires MachineOk(m) && Callable(m.fs, cwd, path) && OwnsTable(m.fds, pid) && Sensible(access, trunc, append)
    requires Resolve(TreeOf(m.fs), cwd, path) < 0
    ensures var w := FlagWord(access, create, trunc, append);
            var (e, fd) := Open(m, pid, cwd, path, w);
            && (!create ==> (e, fd) == (m, -1))
            && (create && !CanCreateAt(m.fs, cwd, path, 1) ==> fd == -1 && e.fds == m.fds && NothingMade(m.fs, e.fs, cwd, path))
            && (create && CanCreateAt(m.fs, cwd, path, 1) ==>
                  var n := Resolve(TreeOf(e.fs), cwd, path);
                  Appeared(m.fs, e.fs, cwd, path, 1, n) && Handed(m.fds, e.fds, pid, fd, w, n, 0))
  {
    hide FsInv, TreeOf, Resolve, FsRuns.OpenFile, Install, FindProcess, Descriptors.FdsOk, FilesLive, Appeared, NothingMade, CanCreateAt, Handed,
         FlagsOk, FlagBit;
    FlagsRead(access, create, trunc, append);
    OpenFileMissing(m.fs, cwd, path, create, trunc);
    var w := FlagWord(access, create, trunc, append);
    var (f, n) := FsRuns.OpenFile(m.fs, cwd, path, create, trunc);
    if n >= 0 {
      AppearedEmpty(m.fs, f, cwd, path, n);
      InstallIs(m.fds, pid, w, n, 0);
    }
  }

  lemma AppearedEmpty(fs: Fs, f: Fs, cwd: u32, path: seq<byte>, n: int)
    requires Appeared(fs, f, cwd, path, 1, n)
    ensures 0 <= n < 256 && f.inodes[n].size == 0 && Resolve(TreeOf(f), cwd, path) == n
  {
    hide TreeOf, Resolve, ResolveParent, Leaked, Content, SameInode, Lookup;
  }

  /** When `minifs_open` returns a descriptor. */
  lemma OpenIff(m: Machine, pid: int, cwd: u32, path: seq<byte>, access: nat, create: bool, trunc: bool, append: bool)
    requires MachineOk(m) && Callable(m.fs, cwd, path) && access <= 3
    ensures var n := Resolve(TreeOf(m.fs), cwd, path);
            && n < 256
            && (Open(m, pid, cwd, path, FlagWord(access, create, trunc, append)).1 >= 0
                <==> OwnsTable(m.fds, pid) && Sensible(access, trunc, append) && CanHand(m.fds, pid)
                     && if n >= 0 then m.fs.inodes[n].mode % 256 == 1 else create && CanCreateAt(m.fs, cwd, path, 1))
  {
    hide FsInv, TreeOf, Resolve, Open, Descriptors.FdsOk, FilesLive, CanCreateAt, Appeared, NothingMade, EmptiedFile, OwnsTable, CanHand, HandedAt,
         FsRuns.OpenFile;
    var n := Resolve(TreeOf(m.fs), cwd, path);
    FsRuns.InvTreeOk(m.fs);
    ResolveUsed(TreeOf(m.fs), cwd, path);
    FlagsRead(access, create, trunc, append);
    if OwnsTable(m.fds, pid) && Sensible(access, trunc, append) {
      if n >= 0 {
        OpenExisting(m, pid, cwd, path, access, create, trunc, append);
      } else {
        OpenMissing(m, pid, cwd, path, access, create, trunc, append);
      }
    } else {
      NotOpened(m, pid, cwd, path, FlagWord(access, create, trunc, append));
    }
  }

  lemma NotOpened(m: Machine, pid: int, cwd: u32, path: seq<byte>, flags: int)
    requires !OwnsTable(m.fds, pid) || !FlagsOk(flags)
    ensures Open(m, pid, cwd, path, flags) == (m, -1)
  {
    hide FsRuns.OpenFile, Install, FindProcess;
  }

  // ---------------------------------------------------------------- minifs_mkdir and minifs_unlink

  /** `minifs_mkdir` makes an empty directory exactly when one can be made there. */
  lemma MkdirIs(m: Machine, cwd: u32, path: seq<byte>)
    requires MachineOk(m) && Callable(m.fs, cwd, path)
    ensures var e := Step(m, DoMkdir(cwd, path));
            && e.fds == m.fds
            && if CanCreateAt(m.fs, cwd, path, 2) then Appeared(m.fs, e.fs, cwd, path, 2, Resolve(TreeOf(e.fs), cwd, path))
               else NothingMade(m.fs, e.fs, cwd, path)
  {
    hide FsInv, TreeOf, Resolve, FsRuns.CreateAt, Descriptors.FdsOk, FilesLive, Appeared, NothingMade, CanCreateAt;
    CreateAtIs(m.fs, cwd, path, MODE_DIR);
    var (f, n) := FsRuns.CreateAt(m.fs, cwd, path, MODE_DIR);
    if n >= 0 {
      AppearedAt(m.fs, f, cwd, path, MODE_DIR, n);
    }
  }

  lemma AppearedAt(fs: Fs, f: Fs, cwd: u32, path: seq<byte>, mode: u32, n: int)
    requires Appeared(fs, f, cwd, path, mode, n)
    ensures Resolve(TreeOf(f), cwd, path) == n
  {
    hide TreeOf, Resolve, ResolveParent, Leaked, Content, SameInode, Lookup;
  }

  /** Some process has a descriptor for file `n`. */
  ghost predicate Held(d: Fds, n: int) {
    exists pid, fd :: HeldBy(d, n, pid, fd)
  }

  predicate HeldBy(d: Fds, n: int, pid: int, fd: int) {
    var k := Named(d, pid, fd);
    k >= 0 && d.files[k].kind == File && d.files[k].inode == n
  }

  /** `minifs_unlink` succeeds exactly when the name is entered in the directory the rest of the path leads to, is no directory with
      entries, and no process has a descriptor for it; the path then leads nowhere. Otherwise nothing happens. */
  lemma UnlinkIs(m: Machine, cwd: u32, path: seq<byte>)
    requires MachineOk(m) && Callable(m.fs, cwd, path)
    ensures var e := Step(m, DoUnlink(cwd, path));
            var (p, name) := ResolveParent(TreeOf(m.fs), cwd, path);
            && e.fds == m.fds
            && if p >= 0 && CanUnlink(TreeOf(m.fs), p, name, {}) && !Held(m.fds, Lookup(TreeOf(m.fs), p, name))
               then Vanished(m.fs, e.fs, cwd, path, Resolve(TreeOf(m.fs), cwd, path)) else e == m
  {
    hide FsInv, TreeOf, Resolve, ResolveParent, FsRuns.UnlinkPath, Descriptors.FdsOk, FilesLive, Vanished, CanUnlink, Held, Lookup, OpenInodes;
    UnlinkDisk(m.fs, m.fds, cwd, path);
  }

  lemma UnlinkDisk(fs: Fs, d: Fds, cwd: u32, path: seq<byte>)
    requires FsInv(fs) && Descriptors.FdsOk(d) && Callable(fs, cwd, path)
    ensures var (f, r) := FsRuns.UnlinkPath(fs, cwd, path, OpenInodes(d));
            var (p, name) := ResolveParent(TreeOf(fs), cwd, path);
            if p >= 0 && CanUnlink(TreeOf(fs), p, name, {}) && !Held(d, Lookup(TreeOf(fs), p, name))
            then Vanished(fs, f, cwd, path, Resolve(TreeOf(fs), cwd, path)) else f == fs
  {
    hide FsInv, TreeOf, Resolve, ResolveParent, FsRuns.UnlinkPath, Descriptors.FdsOk, Vanished, CanUnlink, Held, Lookup, OpenInodes, TreeOk;
    var t, open := TreeOf(fs), OpenInodes(d);
    var (p, name) := ResolveParent(t, cwd, path);
    UnlinkPathIs(fs, cwd, path, open);
    FsRuns.InvTreeOk(fs);
    if p >= 0 {
      UnlinkHeld(t, p, name, open);
      OpenIsHeld(d, Lookup(t, p, name));
    }
  }

  lemma UnlinkHeld(t: Tree, p: nat, name: seq<byte>, open: set<int>)
    requires TreeOk(t)
    ensures CanUnlink(t, p, name, open) <==> CanUnlink(t, p, name, {}) && Lookup(t, p, name) !in open
  {
    hide TreeOk, Lookup, CString;
    forall i | LiveAt(t, p, i) && IsDir(t, p) && CString(t.entries[p][i].name) == name ensures Lookup(t, p, name) == t.entries[p][i].inode {
      OnlyEntry(t, p, i, name);
    }
    if CanUnlink(t, p, name, {}) && Lookup(t, p, name) !in open {
      var i :| LiveAt(t, p, i) && RemovableAt(t, p, i, name, {});
      assert RemovableAt(t, p, i, name, open);
    }
    if CanUnlink(t, p, name, open) {
      var i :| LiveAt(t, p, i) && RemovableAt(t, p, i, name, open);
      assert RemovableAt(t, p, i, name, {});
    }
  }

  /** What `inode_is_open` finds is what some descriptor names. */
  lemma OpenIsHeld(d: Fds, n: int)
    requires Descriptors.FdsOk(d)
    ensures n in OpenInodes(d) <==> Held(d, n)
  {
    hide Descriptors.FdsOk, Named;
    if n in OpenInodes(d) {
      var k :| 0 <= k < 64 && d.files[k].used && d.files[k].kind == File && d.files[k].inode == n;
      var pid, fd := SomeName(d, k);
      assert HeldBy(d, n, pid, fd);
    }
  }

  /** An open file has a descriptor. */
  lemma SomeName(d: Fds, k: nat) returns (pid: int, fd: int)
    requires Descriptors.FdsOk(d) && k < 64 && d.files[k].used
    ensures Named(d, pid, fd) == k
  {
    hide Count, CountIn, FindProcess, Named;
    assert BalancedAt(d, multiset{}, k);
    var p, i := SomeSlot(d.procs, k);
    pid, fd := d.procs[p].pid, i;
    assert FindProcess(d.procs, pid, 0) == p;
    NamedStored(d, pid, fd);
  }

  lemma {:induction false} SomeSlot(ps: seq<Process>, k: int) returns (p: nat, i: nat)
    requires Count(ps, k) > 0
    ensures p < |ps| && ps[p].used && i < 16 && ps[p].fd[i] == k
    decreases |ps|
  {
    var n := |ps| - 1;
    if CountOf(ps[n], k) > 0 {
      p := n;
      i := SomeIndex(ps[n].fd, k);
    } else {
      p, i := SomeSlot(ps[..n], k);
    }
  }

  lemma {:induction false} SomeIndex(fd: seq<int>, k: int) returns (i: nat)
    requires CountIn(fd, k) > 0
    ensures i < |fd| && fd[i] == k
  {
    var n := |fd| - 1;
    if fd[n] == k {
      i := n;
    } else {
      i := SomeIndex(fd[..n], k);
    }
  }

  // ---------------------------------------------------------------- minifs_lseek

  /** `minifs_lseek`: from the start, from the position, or from the end of the file, by any distance; the position moves there and
      is returned exactly when it lies within 0 and 64 KiB, and otherwise nothing happens. */
  lemma SeekIs(m: Machine, pid: int, fd: int, offset: int, whence: Whence)
    requires MachineOk(m)
    ensures var k := Named(m.fds, pid, fd);
            var (e, r) := Seek(m, pid, fd, offset, whence);
            if k >= 0 && m.fds.files[k].kind == File then
              && m.fds.files[k].inode < 256
              && (whence == FromStart ==> Sought(m, e, k, r, offset))
              && (whence == FromHere ==> Sought(m, e, k, r, m.fds.files[k].offset + offset))
              && (whence == FromEnd ==> Sought(m, e, k, r, |Content(m.fs, m.fds.files[k].inode)| + offset))
              && (whence == Elsewhere ==> (e, r) == (m, -1))
            else (e, r) == (m, -1)
  {
    hide FsInv, Named, Descriptors.FdsOk, ByteAt;
    var k := Named(m.fds, pid, fd);
    if k >= 0 && m.fds.files[k].kind == File {
      assert IsFile(m.fs, m.fds.files[k].inode);
    }
  }

  /** The position of open file `k` is now `to`, and nothing else changed; or `to` is out of range and nothing did. */
  ghost predicate Sought(m: Machine, e: Machine, k: nat, r: int, to: int) {
    if 0 <= to <= 65536 && k < 64 then
      r == to && e == m.(fds := e.fds) && e.fds.procs == m.fds.procs
      && e.fds.files[k].offset == to && e.fds.files[k] == m.fds.files[k].(offset := e.fds.files[k].offset)
      && forall j :: 0 <= j < 64 && j != k ==> e.fds.files[j] == m.fds.files[j]
    else (e, r) == (m, -1)
  }

  // ---------------------------------------------------------------- minifs_write

  /** The first `done` bytes are laid over the contents at the position, or put behind them all for a file opened with O_APPEND, and
      the position moves past them; at 64 KiB nothing is written. The rest is missing only at that limit or on a full disk, and no
      other inode or open file changed. */
  ghost predicate Wrote(m: Machine, e: Machine, k: nat, src: seq<byte>, done: int) {
    && k < 64 && m.fds.files[k].inode < 256 && 0 <= done <= |src|
    && var n, data := m.fds.files[k].inode, src[..done];
       var before, append := Content(m.fs, n), m.fds.files[k].flags / 0x400 % 2 == 1;
       var at := if append then |before| else m.fds.files[k].offset;
       && at + done < 0x1_0000_0000 && (done < |src| ==> Full(e.fs) || at + done == 65536)
       && Content(e.fs, n) == (if append then before + data else if at < 65536 then Overlay(before, at, data) else before)
       && OthersSame(m.fs, e.fs, n) && e.fds == SetOffset(m.fds, k, at + done)
  }

  /** `minifs_write` through a writable descriptor. */
  lemma WriteIs(m: Machine, pid: int, fd: int, src: seq<byte>)
    requires MachineOk(m) && Writable(m, Named(m.fds, pid, fd))
    ensures var (e, done) := Write(m, pid, fd, src); Wrote(m, e, Named(m.fds, pid, fd), src, done)
  {
    hide FsInv, Named, Descriptors.FdsOk, Write, Full, OthersSame, BlocksAdded, FilesLive, Overlay;
    var k := Named(m.fds, pid, fd);
    WriteEffect(m, pid, fd, src);
    var (e, done) := Write(m, pid, fd, src);
    var before := Content(m.fs, m.fds.files[k].inode);
    AtTheEnd(before, src[..done]);
  }

  /** Laid over right behind the end, bytes are appended. */
  lemma AtTheEnd(c: seq<byte>, d: seq<byte>)
    ensures Overlay(c, |c|, d) == c + d
  {
  }

  // ---------------------------------------------------------------- what a descriptor refuses

  /** Writing through anything but the console's output or a file opened for writing fails without any effect; so does reading
      through anything but the console's input or a file opened for reading. */
  lemma Refusals(m: Machine, pid: int, fd: int, src: seq<byte>, len: nat, typed: seq<byte>)
    requires MachineOk(m)
    ensures var k := Named(m.fds, pid, fd);
            && (!Writable(m, k) && !(k >= 0 && m.fds.files[k].kind == ConsoleOut) <==> Write(m, pid, fd, src).1 < 0)
            && (Write(m, pid, fd, src).1 < 0 ==> Write(m, pid, fd, src).0 == m)
            && (!Readable(m, k) && !(k >= 0 && m.fds.files[k].kind == ConsoleIn) ==> FileCalls.Read(m, pid, fd, len, typed) == (m, ReadFailed))
            && (k >= 0 && m.fds.files[k].kind == ConsoleOut ==> Write(m, pid, fd, src) == (m, |src|))
            && (k >= 0 && m.fds.files[k].kind == ConsoleIn ==> FileCalls.Read(m, pid, fd, len, typed) == (m, ReadOk(typed)))
  {
    hide FsInv, Named, Descriptors.FdsOk, WriteFile, Pread, WroteThrough, FilesLive;
    if Writable(m, Named(m.fds, pid, fd)) {
      WriteEffect(m, pid, fd, src);
    }
  }
}
