/** A working directory that was removed: exactly when creating something in it damages the file system. */
module StaleDir {
  import opened Bytes
  import opened FsBlocks
  import opened FsFiles
  import opened DirTree
  import opened FsTree
  import opened FsLeaks

  /** An inode that is its own parent never reaches the root. */
  lemma {:induction false} SelfNotRooted(t: Tree, n: nat, k: nat)
    requires 0 < n < 256 && t.parent[n] == n
    ensures !Rooted(t, n, k)
  {
    if k > 0 {
      SelfNotRooted(t, n, k - 1);
    }
  }

  /** An entry stored in a directory not in use, or an inode entered in itself, is no tree. */
  lemma StrayEntry(f: Fs, p: nat, i: nat, c: nat)
    requires p < 256 && 0 < c < 256 && IsDir(TreeOf(f), p) && i < |Dir(f, p)| && Dir(f, p)[i].inode == c
    requires !f.inodeUsed[p] || (p == c && f.inodes[c].parent == c)
    ensures !TreeOk(TreeOf(f))
  {
    hide Table, Content, CString, GoodName, NamesUnique, LinkedOnce, Linked;
    var t := TreeOf(f);
    assert LiveAt(t, p, i);
    if TreeOk(t) && t.used[p] {
      var k: nat :| Rooted(t, c, k);
      SelfNotRooted(t, c, k);
    }
  }

  /** A successful creation below an inode that is not in use always breaks the tree. */
  lemma CreateUnused(fs: Fs, p: nat, name: seq<byte>, mode: u32)
    requires FsInv(fs) && p < 256 && !fs.inodeUsed[p] && CreateNode(fs, p, name, mode).1 >= 0
    requires mode % 256 == MODE_FILE || mode % 256 == MODE_DIR
    ensures !FsInv(CreateNode(fs, p, name, mode).0)
  {
    hide EnsureBlock, AllocBlock, Table, Content, TreeOk, BlockOf, Leaked, Owned, ZeroTail, FindName, NameField, DirAdd, NoHoles,
         SameInode;
    var c := FirstFreeInode(fs.inodeUsed, 1);
    assert InodeSane(fs, c) && InodeSane(fs, p);
    NewInodeSafe(fs, c, mode, p);
    var f1 := WithNewInode(fs, c, mode, p);
    SaneBeside(fs, c, mode, p);
    DirAddRefines(f1, p, name, c, mode);
    var (f, r) := DirAdd(f1, p, name, c, mode);
    var es := Dir(f1, p);
    StrayEntry(f, p, FreeSlot(es, 0), c);
  }

  /** A creation that fails below an inode that is not in use harms nothing. */
  lemma FailedStale(fs: Fs, p: nat, name: seq<byte>, mode: u32)
    requires FsInv(fs) && p < 256 && CreateNode(fs, p, name, mode).1 < 0
    requires mode % 256 == MODE_FILE || mode % 256 == MODE_DIR
    ensures FsInv(CreateNode(fs, p, name, mode).0)
  {
    hide EnsureBlock, AllocBlock, Table, Content, TreeOk, BlockOf, Leaked, Owned, ZeroTail, FindName, NameField, DirAdd, NoHoles,
         SameInode, CanAdd, WouldLeak, EntryAdded, AtMostOneLeak;
    var c := FirstFreeInode(fs.inodeUsed, 1);
    if c < 256 {
      assert InodeSane(fs, c) && InodeSane(fs, p);
      NewInodeSafe(fs, c, mode, p);
      var f1 := WithNewInode(fs, c, mode, p);
      SaneBeside(fs, c, mode, p);
      DirAddRefines(f1, p, name, c, mode);
      CreateFails(fs, f1, DirAdd(f1, p, name, c, mode).0, c, mode, p);
    }
  }

  /** What keeps the file system sound when something is created: that the directory is in use, or that nothing can be created
      there. Both are known before the call. */
  lemma CreateKeepsIff(fs: Fs, p: nat, name: seq<byte>, mode: u32)
    requires FsInv(fs) && p < 256 && GoodName(name) && (mode % 256 == MODE_FILE || mode % 256 == MODE_DIR)
    ensures FsInv(CreateNode(fs, p, name, mode).0) <==> fs.inodeUsed[p] || !CanCreate(fs, p, name, mode)
  {
    hide FsInv, CreateNode, Leaked, TreeOf, SameInode, Lookup, CanCreate;
    CreateIff(fs, p, name, mode);
    if fs.inodeUsed[p] {
      CreateNodeSafe(fs, p, name, mode);
    } else if CanCreate(fs, p, name, mode) {
      CreateUnused(fs, p, name, mode);
    } else {
      FailedStale(fs, p, name, mode);
    }
  }

  /** What `CanCreate` asks below an inode that is not in use: a name of proper length, a free inode and a free block, and that
      the record there is a directory's, or becomes one because the very inode is handed out again. */
  lemma StaleCan(fs: Fs, p: nat, name: seq<byte>, mode: u32)
    requires FsInv(fs) && p < 256 && !fs.inodeUsed[p]
    ensures var c := FirstFreeInode(fs.inodeUsed, 1);
            var becomes := if p == c then mode else fs.inodes[p].mode;
            CanCreate(fs, p, name, mode) <==> c < 256 && 0 < |name| <= 55 && OneFree(fs) && becomes % 256 == MODE_DIR
  {
    hide Content, TreeOk, FsOk, FreeSlot, Table, OneFree, FirstFreeInode;
    assert InodeSane(fs, p);
    EmptyFirst(fs, p);
    EmptyTable(fs, p);
    assert BlockOf(fs, p, 0) == 0;
  }

  /**
   * The failing case does happen: with a data block free, `mkdir` in a removed working directory whose inode is the
   * lowest free one hands out that same inode, enters it in itself and succeeds.
   */
  lemma StaleMkdir(fs: Fs, p: nat, name: seq<byte>)
    requires FsInv(fs) && GoodName(name) && p == FirstFreeInode(fs.inodeUsed, 1) < 256
    requires OneFree(fs)
    ensures CreateNode(fs, p, name, MODE_DIR).1 == p && !FsInv(CreateNode(fs, p, name, MODE_DIR).0)
  {
    hide FsInv, Leaked, DirAdd, WithNewInode, FirstFreeInode, OneFree, CanAdd;
    CreateIff(fs, p, name, MODE_DIR);
    CreateUnused(fs, p, name, MODE_DIR);
  }
}
