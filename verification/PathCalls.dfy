/** What open, mkdir and unlink of a path do to the disk: exactly when each succeeds, and what its path leads to afterwards. */
module PathCalls {
  import opened Bytes
  import opened FsBlocks
  import opened FsFiles
  import opened DirTree
  import opened FsTree
  import opened FsLeaks
  import opened Paths
  import opened TreeChanges
  import opened FsRuns

  /** A working directory in use and a C string. */
  predicate Callable(fs: Fs, cwd: u32, path: seq<byte>) {
    cwd < 256 && fs.inodeUsed[cwd] && 0 !in path
  }

  // ---------------------------------------------------------------- creating

  /** Before the call: creating at `path` will succeed. Its last name can be entered where the rest of it leads. */
  ghost predicate CanCreateAt(fs: Fs, cwd: u32, path: seq<byte>, mode: u32) {
    var (p, name) := ResolveParent(TreeOf(fs), cwd, path);
    p >= 0 && CanCreate(fs, p, name, mode)
  }

  /** `path` now leads to the new inode `n`, empty and of that mode; but for the entry in its parent nothing else changed. */
  ghost predicate Appeared(fs: Fs, f: Fs, cwd: u32, path: seq<byte>, mode: u32, n: int) {
    && 0 < n < 256 && !fs.inodeUsed[n] && f.inodeUsed == fs.inodeUsed[n := true]
    && Resolve(TreeOf(f), cwd, path) == n
    && Content(f, n) == [] && Leaked(f) == Leaked(fs)
    && var (p, name) := ResolveParent(TreeOf(fs), cwd, path);
       && 0 <= p < 256 && Lookup(TreeOf(f), p, name) == n && f.inodes[n] == Inode(mode, 0, p, 1, NO_BLOCKS, 0, 0)
       && (forall x :: Lookup(TreeOf(fs), p, x) >= 0 ==> Lookup(TreeOf(f), p, x) == Lookup(TreeOf(fs), p, x))
       && forall m :: 0 <= m < 256 && m != p && m != n ==> SameInode(fs, f, m)
  }

  /** No inode in use changed; at most the block a failing `dir_add` leaves is lost. */
  ghost predicate NothingMade(fs: Fs, f: Fs, cwd: u32, path: seq<byte>) {
    && f.inodeUsed == fs.inodeUsed && (forall m :: 0 <= m < 256 && fs.inodeUsed[m] ==> SameInode(fs, f, m))
    && LeaksMore(fs, f, PathLeak(fs, cwd, path))
  }

  /** Creating at a path: exactly when it succeeds, and what it makes. */
  lemma CreateAtIs(fs: Fs, cwd: u32, path: seq<byte>, mode: u32)
    requires FsInv(fs) && Callable(fs, cwd, path) && (mode % 256 == MODE_FILE || mode % 256 == MODE_DIR)
    ensures var (f, n) := CreateAt(fs, cwd, path, mode);
            && FsInv(f) && (n >= 0 <==> CanCreateAt(fs, cwd, path, mode))
            && (n >= 0 ==> Appeared(fs, f, cwd, path, mode, n))
            && (n < 0 ==> n == -1 && NothingMade(fs, f, cwd, path))
  {
    hide FsInv, TreeOf, ResolveParent, CreateNode, Created, CanCreate, Leaked, SameInode, LeaksMore, PathLeak, Lookup, Resolve, Content;
    CreateAtSafe(fs, cwd, path, mode);
    CreateAtLeaks(fs, cwd, path, mode);
    var (p, name) := ResolveParent(TreeOf(fs), cwd, path);
    var (f, n) := CreateAt(fs, cwd, path, mode);
    if p >= 0 {
      CreateIff(fs, p, name, mode);
      CreatedNumber(fs, p, name, mode);
      if n >= 0 {
        MadeAppears(fs, f, cwd, path, mode, n);
      } else {
        MadeNothing(fs, f, p, name, mode, n);
      }
    } else {
      AllSameRefl(fs);
    }
  }

  lemma CreatedNumber(fs: Fs, p: u32, name: seq<byte>, mode: u32)
    ensures CreateNode(fs, p, name, mode).1 >= -1
  {
    hide DirAdd;
  }

  lemma MadeNothing(fs: Fs, f: Fs, p: nat, name: seq<byte>, mode: u32, n: int)
    requires Created(fs, f, p, name, mode, n) && n < 0
    ensures FsInv(f) && f.inodeUsed == fs.inodeUsed && forall m :: 0 <= m < 256 && fs.inodeUsed[m] ==> SameInode(fs, f, m)
  {
    hide FsInv, SameInode, Leaked;
  }

  lemma MadeAppears(fs: Fs, f: Fs, cwd: u32, path: seq<byte>, mode: u32, n: int)
    requires FsInv(fs) && Callable(fs, cwd, path) && n >= 0
    requires var (p, name) := ResolveParent(TreeOf(fs), cwd, path);
             0 <= p < 256 && fs.inodeUsed[p] && Created(fs, f, p, name, mode, n)
    ensures FsInv(f) && Appeared(fs, f, cwd, path, mode, n)
  {
    hide FsInv, ResolveParent, Leaked, SameInode, Lookup, Resolve, AddLeaf, FreeSlot, NameField, CString, Table;
    var (p, name) := ResolveParent(TreeOf(fs), cwd, path);
    var t, e := TreeOf(fs), Dirent(n, mode, NameField(name));
    var i := FreeSlot(Dir(fs, p), 0);
    ResolveParentAgrees(t, cwd, path);
    LeafAddable(fs, p, name, mode, n);
    assert |Content(f, n)| == f.inodes[n].size;
    NewPath(t, p, i, e, cwd, path);
    forall x | Lookup(t, p, x) >= 0 ensures Lookup(TreeOf(f), p, x) == Lookup(t, p, x) {
      LookupKept(t, p, i, e, p, x);
    }
  }

  lemma LeafAddable(fs: Fs, p: nat, name: seq<byte>, mode: u32, n: int)
    requires FsInv(fs) && p < 256 && fs.inodeUsed[p] && GoodName(name) && 0 < n < 256 && !fs.inodeUsed[n]
    requires IsDir(TreeOf(fs), p) && Lookup(TreeOf(fs), p, name) < 0
    ensures Addable(TreeOf(fs), p, FreeSlot(Dir(fs, p), 0), Dirent(n, mode, NameField(name)))
    ensures CString(NameField(name)) == name
  {
    hide Table, Content, TreeOk, FsOk, FindName, NameField, CString, GoodName, NoHoles;
    CStringOfGoodName(name);
    assert InodeSane(fs, n);
    EmptyTable(fs, n);
    Unfound(TreeOf(fs), p, name);
  }

  lemma Unfound(t: Tree, p: nat, name: seq<byte>)
    requires TreeOk(t) && p < 256 && IsDir(t, p) && Lookup(t, p, name) < 0
    ensures FindName(t.entries[p], name, 0) == |t.entries[p]|
  {
    hide CString, GoodName, NamesUnique, LinkedOnce, Linked, AllRooted;
    var i := FindName(t.entries[p], name, 0);
    assert i < |t.entries[p]| ==> LiveAt(t, p, i);
  }

  // ---------------------------------------------------------------- opening

  /** File `n` is empty, with the mode and the place in the tree it had; no other inode changed and its blocks are free. */
  ghost predicate EmptiedFile(fs: Fs, f: Fs, n: nat) {
    && n < 256 && Content(f, n) == [] && f.inodes[n] == fs.inodes[n].(size := 0, direct := NO_BLOCKS, indirect := 0)
    && TreeOf(f) == TreeOf(fs) && OthersSame(fs, f, n) && Leaked(f) == Leaked(fs)
  }

  lemma TruncateIs(fs: Fs, n: nat)
    requires FsInv(fs) && n < 256 && fs.inodeUsed[n] && fs.inodes[n].mode % 256 == MODE_FILE
    ensures var f := Truncate(fs, n, Emptied(fs.inodes[n])); FsInv(f) && EmptiedFile(fs, f, n)
  {
    hide FsInv, TreeOf, OthersSame, Leaked, Freed;
    TruncateKeepsInv(fs, n);
  }

  /** The disk part of open for a path that leads somewhere: a regular file is opened as it is, or emptied first if truncation
      was asked for, and only then; anything else is refused. `create` makes no difference. */
  lemma OpenFileFound(fs: Fs, cwd: u32, path: seq<byte>, create: bool, trunc: bool)
    requires FsInv(fs) && Callable(fs, cwd, path) && Resolve(TreeOf(fs), cwd, path) >= 0
    ensures var (f, n) := OpenFile(fs, cwd, path, create, trunc);
            var found := Resolve(TreeOf(fs), cwd, path);
            && found < 256 && FsInv(f)
            && (fs.inodes[found].mode % 256 != 1 ==> (f, n) == (fs, -1))
            && (fs.inodes[found].mode % 256 == 1 ==> n == found && if trunc then EmptiedFile(fs, f, n) else f == fs)
  {
    hide FsInv, TreeOf, Resolve, Truncate, EmptiedFile, CreateAt;
    ResolveUsed(TreeOf(fs), cwd, path) by { InvTreeOk(fs); }
    InvTreeOk(fs);
    var found := Resolve(TreeOf(fs), cwd, path);
    if fs.inodes[found].mode % 256 == MODE_FILE {
      TruncateIs(fs, found);
    }
  }

  /** For a path that leads nowhere: a new empty file there, if creation was asked for and only then, exactly when one can be
      made; otherwise -1. `trunc` makes no difference. */
  lemma OpenFileMissing(fs: Fs, cwd: u32, path: seq<byte>, create: bool, trunc: bool)
    requires FsInv(fs) && Callable(fs, cwd, path) && Resolve(TreeOf(fs), cwd, path) < 0
    ensures var (f, n) := OpenFile(fs, cwd, path, create, trunc);
            && FsInv(f) && (n >= 0 <==> create && CanCreateAt(fs, cwd, path, 1))
            && (n >= 0 ==> Appeared(fs, f, cwd, path, 1, n))
            && (n < 0 ==> n == -1 && if create then NothingMade(fs, f, cwd, path) else f == fs)
  {
    hide FsInv, TreeOf, Resolve, Truncate, EmptiedFile, CreateAt, CanCreateAt, Appeared, NothingMade;
    if create {
      CreateAtIs(fs, cwd, path, MODE_FILE);
      var (g, n) := CreateAt(fs, cwd, path, MODE_FILE);
      if n >= 0 {
        NewIsFile(fs, g, cwd, path, n);
        if trunc {
          TruncateIs(g, n);
          StillAppeared(fs, g, Truncate(g, n, Emptied(g.inodes[n])), cwd, path, n);
        }
      }
    }
  }

  lemma NewIsFile(fs: Fs, g: Fs, cwd: u32, path: seq<byte>, n: int)
    requires Appeared(fs, g, cwd, path, MODE_FILE, n)
    ensures 0 <= n < 256 && g.inodeUsed[n] && g.inodes[n].mode % 256 == MODE_FILE
  {
    hide Resolve, ResolveParent, TreeOf, Lookup, SameInode, Leaked, Content;
  }

  /** Truncating a file that was just made changes nothing that was said about it. */
  lemma StillAppeared(fs: Fs, g: Fs, f: Fs, cwd: u32, path: seq<byte>, n: int)
    requires Appeared(fs, g, cwd, path, MODE_FILE, n) && n >= 0 && EmptiedFile(g, f, n)
    ensures Appeared(fs, f, cwd, path, MODE_FILE, n)
  {
    hide Resolve, ResolveParent, Lookup, Leaked, Content, BlockOf, Table;
    assert f.inodes[n].parent == g.inodes[n].parent by {
      assert TreeOf(f).parent[n] == TreeOf(g).parent[n];
    }
    hide TreeOf;
    var (p, name) := ResolveParent(TreeOf(fs), cwd, path);
    forall m | 0 <= m < 256 && m != p && m != n ensures SameInode(fs, f, m) {
      assert SameInode(fs, g, m) && SameInode(g, f, m);
    }
  }

  // ---------------------------------------------------------------- unlinking

  /** Before the call: the name is entered in directory `p`, no open file has its inode, and it is no directory with entries. */
  ghost predicate CanUnlink(t: Tree, p: nat, name: seq<byte>, open: set<int>) {
    p < 256 && IsDir(t, p) && exists i :: LiveAt(t, p, i) && RemovableAt(t, p, i, name, open)
  }

  ghost predicate RemovableAt(t: Tree, p: nat, i: nat, name: seq<byte>, open: set<int>)
    requires LiveAt(t, p, i)
  {
    var n := t.entries[p][i].inode;
    CString(t.entries[p][i].name) == name && n < 256 && n !in open && !(IsDir(t, n) && exists j :: LiveAt(t, n, j))
  }

  /** `minifs_unlink` below the resolved parent: exactly when it succeeds. */
  lemma UnlinkIff(fs: Fs, p: u32, name: seq<byte>, open: set<int>)
    requires FsInv(fs)
    ensures var r := Unlink(fs, p, name, open).1; (r == 0 || r == -1) && (r == 0 <==> CanUnlink(TreeOf(fs), p, name, open))
  {
    hide FsInv, UnlinkAt, MayUnlink, CanUnlink, TreeOf;
    if p < 256 {
      InvTreeOk(fs);
      if MayUnlink(fs, p, name, open) {
        MayCan(fs, p, name, open);
        MaySucceeds(fs, p, name, open);
      }
      if CanUnlink(TreeOf(fs), p, name, open) {
        CanMay(fs, p, name, open);
      }
    } else {
      OutOfTable(TreeOf(fs), p, name, open);
    }
  }

  lemma OutOfTable(t: Tree, p: nat, name: seq<byte>, open: set<int>)
    ensures CanUnlink(t, p, name, open) ==> p < 256
  {
  }

  lemma MayCan(fs: Fs, p: nat, name: seq<byte>, open: set<int>)
    requires TreeOk(TreeOf(fs)) && p < 256 && MayUnlink(fs, p, name, open)
    ensures CanUnlink(TreeOf(fs), p, name, open)
  {
    hide TreeOk, TreeOf, Lookup, CString, HasLive, Dir;
    var t := TreeOf(fs);
    FoundLive(t, p, name);
    NoLive(fs, Lookup(t, p, name));
    assert RemovableAt(t, p, FindName(t.entries[p], name, 0), name, open);
  }

  lemma CanMay(fs: Fs, p: nat, name: seq<byte>, open: set<int>)
    requires TreeOk(TreeOf(fs)) && CanUnlink(TreeOf(fs), p, name, open)
    ensures MayUnlink(fs, p, name, open)
  {
    hide TreeOk, TreeOf, Lookup, CString, HasLive, Dir;
    var t := TreeOf(fs);
    var i :| LiveAt(t, p, i) && RemovableAt(t, p, i, name, open);
    OnlyEntry(t, p, i, name);
    NoLive(fs, t.entries[p][i].inode);
  }

  lemma MaySucceeds(fs: Fs, p: nat, name: seq<byte>, open: set<int>)
    requires FsInv(fs) && p < 256 && MayUnlink(fs, p, name, open)
    ensures Unlink(fs, p, name, open).1 == 0
  {
    hide FsInv, UnlinkAt, FindName, Leaked;
    UnlinkAtSafe(fs, p, name, Lookup(TreeOf(fs), p, name));
  }

  lemma FoundLive(t: Tree, p: nat, name: seq<byte>)
    requires TreeOk(t) && p < 256 && Lookup(t, p, name) >= 0
    ensures var i := FindName(t.entries[p], name, 0); LiveAt(t, p, i) && t.entries[p][i].inode == Lookup(t, p, name) && IsDir(t, p)
  {
    hide TreeOk, CString;
  }

  /** A name is entered once, so looking it up finds that entry. */
  lemma OnlyEntry(t: Tree, p: nat, i: nat, name: seq<byte>)
    requires TreeOk(t) && LiveAt(t, p, i) && IsDir(t, p) && CString(t.entries[p][i].name) == name
    ensures Lookup(t, p, name) == t.entries[p][i].inode && 0 < t.entries[p][i].inode < 256
  {
    hide CString, GoodName, LinkedOnce, Linked, AllRooted;
    var j := FindName(t.entries[p], name, 0);
    assert j <= i && LiveAt(t, p, j) && NameAt(t, p, j) == NameAt(t, p, i);
  }

  lemma NoLive(fs: Fs, n: nat)
    requires n < 256
    ensures fs.inodes[n].mode % 256 == MODE_DIR ==> (HasLive(Dir(fs, n)) <==> exists j :: LiveAt(TreeOf(fs), n, j))
    ensures IsDir(TreeOf(fs), n) <==> fs.inodes[n].mode % 256 == MODE_DIR
  {
    hide Table, Content;
    var t, es := TreeOf(fs), Dir(fs, n);
    if fs.inodes[n].mode % 256 == MODE_DIR {
      assert t.entries[n] == es;
      if HasLive(es) {
        var i :| 0 <= i < |es| && Live(es[i]);
        assert LiveAt(t, n, i);
      }
      if j :| LiveAt(t, n, j) {
        assert Live(es[j]);
      }
    }
  }

  /** `path` led to inode `n` and leads nowhere now, `n` is free with its blocks, and no inode but its directory's changed. */
  ghost predicate Vanished(fs: Fs, f: Fs, cwd: u32, path: seq<byte>, n: int) {
    && Resolve(TreeOf(fs), cwd, path) == n && (cwd != n ==> Resolve(TreeOf(f), cwd, path) < 0)
    && 0 < n < 256 && fs.inodeUsed[n] && f.inodeUsed == fs.inodeUsed[n := false]
    && Leaked(f) == Leaked(fs) && f.inodes[n] == FREE_INODE
    && forall m :: 0 <= m < 256 && m != ResolveParent(TreeOf(fs), cwd, path).0 && m != n ==> SameInode(fs, f, m)
  }

  /** `minifs_unlink` of a path: exactly when it succeeds, and what it leaves. */
  lemma UnlinkPathIs(fs: Fs, cwd: u32, path: seq<byte>, open: set<int>)
    requires FsInv(fs) && Callable(fs, cwd, path)
    ensures var (f, r) := UnlinkPath(fs, cwd, path, open);
            var (p, name) := ResolveParent(TreeOf(fs), cwd, path);
            && FsInv(f) && (r == 0 || r == -1) && (r < 0 ==> f == fs)
            && (r == 0 <==> p >= 0 && CanUnlink(TreeOf(fs), p, name, open))
            && (r == 0 ==> var n := Resolve(TreeOf(fs), cwd, path); n !in open && Vanished(fs, f, cwd, path, n))
  {
    hide FsInv, TreeOf, ResolveParent, Unlink, CanUnlink, Leaked, SameInode, Resolve, Lookup, Unlinked, Vanished, TreeOk;
    InvTreeOk(fs);
    ResolveUsed(TreeOf(fs), cwd, path);
    ResolveParentAgrees(TreeOf(fs), cwd, path);
    var (p, name) := ResolveParent(TreeOf(fs), cwd, path);
    if p >= 0 {
      UnlinkIff(fs, p, name, open);
      UnlinkSafe(fs, p, name, open);
      var (f, r) := Unlink(fs, p, name, open);
      if r == 0 {
        var n := Lookup(TreeOf(fs), p, name);
        UnlinkedFacts(fs, f, p, name, n);
        if cwd != n {
          NoEntries(TreeOf(fs), p, name, open);
          GoneAfter(fs, f, p, name, n, cwd, path);
        }
        assert Vanished(fs, f, cwd, path, n) by { ItVanished(fs, f, cwd, path, p, n); }
      }
    }
  }

  lemma ItVanished(fs: Fs, f: Fs, cwd: u32, path: seq<byte>, p: nat, n: nat)
    requires Resolve(TreeOf(fs), cwd, path) == n && (cwd != n ==> Resolve(TreeOf(f), cwd, path) < 0)
    requires 0 < n < 256 && fs.inodeUsed[n] && f.inodeUsed == fs.inodeUsed[n := false]
    requires Leaked(f) == Leaked(fs) && f.inodes[n] == FREE_INODE && ResolveParent(TreeOf(fs), cwd, path).0 == p
    requires forall m :: 0 <= m < 256 && m != p && m != n ==> SameInode(fs, f, m)
    ensures Vanished(fs, f, cwd, path, n)
  {
    hide TreeOf, ResolveParent, Leaked, SameInode, Resolve;
  }

  /** What can be unlinked has no live entries. */
  lemma NoEntries(t: Tree, p: nat, name: seq<byte>, open: set<int>)
    requires TreeOk(t) && CanUnlink(t, p, name, open)
    ensures forall j :: !LiveAt(t, Lookup(t, p, name), j)
  {
    hide CString, GoodName, LinkedOnce, Linked, AllRooted, NamesUnique, Lookup, FindName;
    var i :| LiveAt(t, p, i) && RemovableAt(t, p, i, name, open);
    OnlyEntry(t, p, i, name);
  }

  lemma UnlinkedFacts(fs: Fs, f: Fs, p: nat, name: seq<byte>, n: nat)
    requires p < 256 && 0 < n < 256 && Unlinked(fs, f, p, name, n)
    ensures FsInv(f) && Leaked(f) == Leaked(fs) && f.inodes[n] == FREE_INODE && f.inodeUsed == fs.inodeUsed[n := false]
    ensures forall m :: 0 <= m < 256 && m != p && m != n ==> SameInode(fs, f, m)
  {
    hide FsInv, Leaked, SameInode, Lookup, FindName, Table, Content;
    assert TreeOf(f).used == TreeOf(fs).used[n := false];
  }

  lemma GoneAfter(fs: Fs, f: Fs, p: nat, name: seq<byte>, n: nat, cwd: u32, path: seq<byte>)
    requires FsInv(fs) && p < 256 && 0 < n < 256 && Unlinked(fs, f, p, name, n) && Resolve(TreeOf(fs), cwd, path) == n
    requires cwd < 256 && fs.inodeUsed[cwd] && cwd != n && forall j :: !LiveAt(TreeOf(fs), n, j)
    ensures Resolve(TreeOf(f), cwd, path) < 0
  {
    hide FsInv, Leaked, SameInode, Lookup, FindName, TreeOf, Resolve, RemoveLeaf, TreeOk;
    InvTreeOk(fs);
    OldPath(TreeOf(fs), p, FindName(TreeOf(fs).entries[p], name, 0), n, cwd, path);
  }
}
