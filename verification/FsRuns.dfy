/** Whole runs of MiniFS: every sequence of opens, creations, removals and writes keeps ownership, the zero tails
    and the directory tree. */
module FsRuns {
  import opened Bytes
  import opened FsBlocks
  import opened FsFiles
  import opened DirTree
  import opened FsTree
  import opened FsLeaks
  import opened Paths

  /** The record `truncate_inode` leaves. */
  function Emptied(ino: Inode): Inode {
    ino.(direct := NO_BLOCKS, indirect := 0, size := 0)
  }

  /** The part of `minifs_open` that touches the disk: the inode to open, or -1. */
  ghost function OpenFile(fs: Fs, cwd: u32, path: seq<byte>, create: bool, trunc: bool): (r: (Fs, int)) {
    var found := Resolve(TreeOf(fs), cwd, path);
    var (f, n) := if found < 0 && create then CreateAt(fs, cwd, path, MODE_FILE) else (fs, found);
    if n < 0 || n >= 256 || f.inodes[n].mode % 256 != MODE_FILE then (f, -1)
    else if trunc then (Truncate(f, n, Emptied(f.inodes[n])), n)
    else (f, n)
  }

  /** `resolve_parent` followed by `create_node`. */
  function CreateAt(fs: Fs, cwd: u32, path: seq<byte>, mode: u32): (r: (Fs, int)) {
    var (p, name) := ResolveParent(TreeOf(fs), cwd, path);
    if p < 0 || p >= 0x1_0000_0000 then (fs, -1) else CreateNode(fs, p, name, mode)
  }

  /** `minifs_unlink` */
  ghost function UnlinkPath(fs: Fs, cwd: u32, path: seq<byte>, open: set<int>): (r: (Fs, int)) {
    var (p, name) := ResolveParent(TreeOf(fs), cwd, path);
    if p < 0 || p >= 0x1_0000_0000 then (fs, -1) else Unlink(fs, p, name, open)
  }

  datatype Op =
    | Open(cwd: u32, path: seq<byte>, create: bool, trunc: bool)
    | Mkdir(cwd: u32, path: seq<byte>)
    | Remove(cwd: u32, path: seq<byte>, open: set<int>)
    | Write(n: nat, off: u32, src: seq<byte>)

  /** Working directories and files being written are in use. */
  predicate OpLive(fs: Fs, op: Op) {
    match op
    case Open(cwd, path, _, _) => cwd < 256 && fs.inodeUsed[cwd] && 0 !in path
    case Mkdir(cwd, path) => cwd < 256 && fs.inodeUsed[cwd] && 0 !in path
    case Remove(cwd, path, _) => cwd < 256 && fs.inodeUsed[cwd] && 0 !in path
    case Write(n, _, _) => n < 256 && fs.inodeUsed[n]
  }

  ghost function Step(fs: Fs, op: Op): Fs {
    match op
    case Open(cwd, path, create, trunc) => OpenFile(fs, cwd, path, create, trunc).0
    case Mkdir(cwd, path) => CreateAt(fs, cwd, path, MODE_DIR).0
    case Remove(cwd, path, open) => UnlinkPath(fs, cwd, path, open).0
    case Write(n, off, src) => WriteAt(fs, n, off, src).0
  }

  lemma CreateAtSafe(fs: Fs, cwd: u32, path: seq<byte>, mode: u32)
    requires FsInv(fs) && cwd < 256 && fs.inodeUsed[cwd] && 0 !in path
    requires mode % 256 == MODE_FILE || mode % 256 == MODE_DIR
    ensures var (f, r) := CreateAt(fs, cwd, path, mode);
            var (p, name) := ResolveParent(TreeOf(fs), cwd, path);
            (p < 0 && f == fs && r < 0) || (0 <= p < 256 && fs.inodeUsed[p] && Created(fs, f, p, name, mode, r))
  {
    hide CreateNode, Created, Resolve, FsOk, InodeSane, TreeOk, Lookup, Trimmed, LastSlash;
    ResolveUsed(TreeOf(fs), cwd, path);
    ResolveParentAgrees(TreeOf(fs), cwd, path);
    var (p, name) := ResolveParent(TreeOf(fs), cwd, path);
    if 0 <= p < 0x1_0000_0000 {
      CreateNodeSafe(fs, p, name, mode);
    }
  }

  /** Truncation and writing leave the tree alone. */
  lemma FileChanged(fs: Fs, f: Fs, n: nat)
    requires FsInv(fs) && n < 256 && FsOk(f) && OthersSame(fs, f, n)
    requires fs.inodeUsed[n] && fs.inodes[n].mode % 256 == MODE_FILE
    requires f.inodes[n].mode == fs.inodes[n].mode && f.inodes[n].parent == fs.inodes[n].parent
    requires f.inodes[n].size <= 65536
    ensures FsInv(f) && TreeOf(f) == TreeOf(fs)
  {
    hide TreeOk, Content, BlockOf, Table, FsOk;
    var t, u := TreeOf(fs), TreeOf(f);
    forall m | 0 <= m < 256 ensures u.entries[m] == t.entries[m] && u.mode[m] == t.mode[m] && u.parent[m] == t.parent[m]
                                 && InodeSane(f, m)
    {
      if m != n {
        assert SameInode(fs, f, m) && InodeSane(fs, m);
        SameTables(fs, f, m);
      }
    }
    assert u.entries == t.entries;
    assert u.mode == t.mode;
    assert u.parent == t.parent;
  }

  lemma WriteKeepsInv(fs: Fs, n: nat, off: u32, src: seq<byte>)
    requires FsInv(fs) && n < 256 && fs.inodeUsed[n]
    ensures var f := WriteAt(fs, n, off, src).0; FsInv(f) && TreeOf(f) == TreeOf(fs) && Leaked(f) == Leaked(fs)
  {
    hide TreeOk, BlockOf, Table, FsOk, Leaked, WriteFrom, TreeOf;
    if off < 65536 && fs.inodes[n].mode % 256 == MODE_FILE {
      WriteAtRefines(fs, n, off, src);
      var (f, d) := WriteAt(fs, n, off, src);
      assert InodeSane(fs, n);
      assert f.inodes[n].size == |Content(f, n)| <= 65536;
      FileChanged(fs, f, n);
    }
  }

  lemma TruncateKeepsInv(fs: Fs, n: nat)
    requires FsInv(fs) && n < 256 && fs.inodeUsed[n] && fs.inodes[n].mode % 256 == MODE_FILE
    ensures var f := Truncate(fs, n, Emptied(fs.inodes[n]));
            FsInv(f) && TreeOf(f) == TreeOf(fs) && Leaked(f) == Leaked(fs) && Content(f, n) == [] && OthersSame(fs, f, n)
  {
    hide TreeOk, BlockOf, Table, FsOk, Leaked, Freed, TreeOf;
    var f := Truncate(fs, n, Emptied(fs.inodes[n]));
    TruncateSafe(fs, n, Emptied(fs.inodes[n]));
    FileChanged(fs, f, n);
  }

  /** What creating at a path will leak. */
  ghost function PathLeak(fs: Fs, cwd: u32, path: seq<byte>): set<int> {
    var (p, name) := ResolveParent(TreeOf(fs), cwd, path);
    if p < 0 then {} else CreateLeak(fs, p, name)
  }

  /** What an operation will leak: nothing, unless it creates where the last free block goes to waste. */
  ghost function StepLeak(fs: Fs, op: Op): set<int> {
    match op
    case Open(cwd, path, create, _) => if create && Resolve(TreeOf(fs), cwd, path) < 0 then PathLeak(fs, cwd, path) else {}
    case Mkdir(cwd, path) => PathLeak(fs, cwd, path)
    case _ => {}
  }

  /** `after` has leaked exactly `more`. */
  ghost predicate LeaksMore(fs: Fs, after: Fs, more: set<int>) {
    Leaked(after) == Leaked(fs) + more && more !! Leaked(fs) && |more| <= 1
  }

  lemma CreateAtLeaks(fs: Fs, cwd: u32, path: seq<byte>, mode: u32)
    requires FsInv(fs) && cwd < 256 && fs.inodeUsed[cwd] && 0 !in path && (mode % 256 == MODE_FILE || mode % 256 == MODE_DIR)
    ensures LeaksMore(fs, CreateAt(fs, cwd, path, mode).0, PathLeak(fs, cwd, path))
    ensures CreateAt(fs, cwd, path, mode).1 >= 0 ==> PathLeak(fs, cwd, path) == {}
  {
    hide FsInv, CreateNode, Leaked, Resolve, Trimmed, LastSlash, TreeOf, WouldLeak, CanCreate, AllocBlock, FirstFreeInode;
    ResolveUsed(TreeOf(fs), cwd, path) by { InvTreeOk(fs); }
    var (p, name) := ResolveParent(TreeOf(fs), cwd, path);
    if p >= 0 {
      CreateIff(fs, p, name, mode);
    }
  }

  lemma InvTreeOk(fs: Fs)
    requires FsInv(fs)
    ensures TreeOk(TreeOf(fs)) && forall n :: 0 <= n < 256 ==> TreeOf(fs).used[n] == fs.inodeUsed[n]
  {
  }

  lemma OpenKeepsInv(fs: Fs, cwd: u32, path: seq<byte>, create: bool, trunc: bool)
    requires FsInv(fs) && cwd < 256 && fs.inodeUsed[cwd] && 0 !in path
    ensures var (f, n) := OpenFile(fs, cwd, path, create, trunc);
            && FsInv(f) && LeaksMore(fs, f, StepLeak(fs, Open(cwd, path, create, trunc)))
            && (n >= 0 ==> n < 256 && f.inodeUsed[n] && f.inodes[n].mode % 256 == MODE_FILE
                           && (trunc ==> Content(f, n) == []))
  {
    hide TreeOk, BlockOf, Table, FsOk, Leaked, Truncate, TreeOf, InodeSane, CreateAt, Resolve, ResolveParent, Lookup, AddLeaf,
         SameInode, Emptied, PathLeak;
    var found := Resolve(TreeOf(fs), cwd, path);
    ResolveUsed(TreeOf(fs), cwd, path);
    CreateAtSafe(fs, cwd, path, MODE_FILE);
    CreateAtLeaks(fs, cwd, path, MODE_FILE);
    var (f, n) := if found < 0 && create then CreateAt(fs, cwd, path, MODE_FILE) else (fs, found);
    if 0 <= n < 256 && f.inodes[n].mode % 256 == MODE_FILE && trunc {
      TruncateKeepsInv(f, n);
    }
  }

  lemma MkdirKeepsInv(fs: Fs, cwd: u32, path: seq<byte>)
    requires FsInv(fs) && cwd < 256 && fs.inodeUsed[cwd] && 0 !in path
    ensures var f := CreateAt(fs, cwd, path, MODE_DIR).0; FsInv(f) && LeaksMore(fs, f, PathLeak(fs, cwd, path))
  {
    hide TreeOk, BlockOf, Table, FsOk, Leaked, TreeOf, InodeSane, CreateAt, ResolveParent, Lookup, AddLeaf, SameInode;
    CreateAtSafe(fs, cwd, path, MODE_DIR);
    CreateAtLeaks(fs, cwd, path, MODE_DIR);
  }

  lemma RemoveKeepsInv(fs: Fs, cwd: u32, path: seq<byte>, open: set<int>)
    requires FsInv(fs)
    ensures var f := UnlinkPath(fs, cwd, path, open).0; FsInv(f) && Leaked(f) == Leaked(fs)
  {
    hide TreeOk, BlockOf, Table, FsOk, Leaked, TreeOf, InodeSane, Unlink, ResolveParent, Lookup, RemoveLeaf, SameInode;
    var (p, name) := ResolveParent(TreeOf(fs), cwd, path);
    if 0 <= p < 0x1_0000_0000 {
      UnlinkSafe(fs, p, name, open);
    }
  }

  /** Every operation keeps the invariant, and leaks exactly what was said before it. */
  lemma StepSafe(fs: Fs, op: Op)
    requires FsInv(fs) && OpLive(fs, op)
    ensures FsInv(Step(fs, op)) && LeaksMore(fs, Step(fs, op), StepLeak(fs, op))
  {
    hide FsInv, Leaked, OpenFile, CreateAt, UnlinkPath, WriteAt, PathLeak, Resolve;
    match op
    case Open(cwd, path, create, trunc) => OpenKeepsInv(fs, cwd, path, create, trunc);
    case Mkdir(cwd, path) => MkdirKeepsInv(fs, cwd, path);
    case Remove(cwd, path, open) => RemoveKeepsInv(fs, cwd, path, open);
    case Write(n, off, src) => WriteKeepsInv(fs, n, off, src);
  }

  ghost function Run(fs: Fs, ops: seq<Op>): Fs
    decreases |ops|
  {
    if ops == [] then fs else Run(Step(fs, ops[0]), ops[1..])
  }

  /** Every operation of the run acts on inodes in use at that moment. */
  ghost predicate LiveRun(fs: Fs, ops: seq<Op>)
    decreases |ops|
  {
    ops == [] || (OpLive(fs, ops[0]) && LiveRun(Step(fs, ops[0]), ops[1..]))
  }

  /** How many operations of the run waste the last free block. */
  ghost function Wastes(fs: Fs, ops: seq<Op>): nat
    decreases |ops|
  {
    if ops == [] then 0 else |StepLeak(fs, ops[0])| + Wastes(Step(fs, ops[0]), ops[1..])
  }

  lemma LeakCount(fs: Fs, f: Fs, more: set<int>)
    requires LeaksMore(fs, f, more)
    ensures |Leaked(f)| == |Leaked(fs)| + |more|
  {
  }

  /** Over every run: block ownership, zero tails and the directory tree hold at the end, and the number of blocks
      marked but unreferenced has grown by exactly one for each operation that wasted the last free block. */
  lemma {:induction false} RunSafe(fs: Fs, ops: seq<Op>)
    requires FsInv(fs) && LiveRun(fs, ops)
    ensures FsInv(Run(fs, ops))
    ensures |Leaked(Run(fs, ops))| == |Leaked(fs)| + Wastes(fs, ops)
    decreases |ops|
  {
    hide FsInv, Leaked, Step, StepLeak, LeaksMore;
    if ops != [] {
      StepSafe(fs, ops[0]);
      LeakCount(fs, Step(fs, ops[0]), StepLeak(fs, ops[0]));
      RunSafe(Step(fs, ops[0]), ops[1..]);
    }
  }
}
