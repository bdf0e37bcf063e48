/** When a block is marked that nothing names: exactly when `dir_add` gets the last free block for an indirect block and then
    fails for want of another. */
module FsLeaks {
  import opened Bytes
  import opened FsBlocks
  import opened FsFiles
  import opened DirTree
  import opened FsTree

  /** What creating `name` in `p` will leak: nothing, or the one free block. */
  ghost function CreateLeak(fs: Fs, p: nat, name: seq<byte>): set<int> {
    if p < 256 && FirstFreeInode(fs.inodeUsed, 1) < 256 && WouldLeak(fs, p, name) then {AllocBlock(fs).1} else {}
  }

  /** A directory with no entries has its first slot free. */
  lemma EmptyFirst(fs: Fs, d: nat)
    requires d < 256 && fs.inodes[d].size == 0
    ensures Dir(fs, d) == [] && FreeSlot(Dir(fs, d), 0) == 0
  {
    EmptyTable(fs, d);
  }

  /** Setting up a new inode changes neither what another directory needs nor what is free. */
  lemma BesideNew(fs: Fs, c: nat, mode: u32, p: nat, name: seq<byte>)
    requires c < 256 && p < 256 && p != c && FsOk(fs) && InodeSane(fs, c) && !fs.inodeUsed[c]
    ensures var f := WithNewInode(fs, c, mode, p);
            && (WouldLeak(f, p, name) <==> WouldLeak(fs, p, name)) && (CanAdd(f, p, name) <==> CanAdd(fs, p, name))
            && AllocBlock(f).1 == AllocBlock(fs).1
  {
    hide Content, BlockOf, Leaked, Owned, FsOk, FreeSlot, Table, FirstFree, NoHoles;
    NewInodeSafe(fs, c, mode, p);
    var f := WithNewInode(fs, c, mode, p);
    assert SameInode(fs, f, p);
    SameTables(fs, f, p);
    LookupSame(fs, f, p, name);
    SameRoom(fs, f, p, 0);
    SameRoom(fs, f, p, FreeSlot(Dir(fs, p), 0) / 8);
    SameFree(f, fs);
    SameTwo(f, fs);
  }

  lemma SameTwo(f: Fs, g: Fs)
    requires f.dataUsed == g.dataUsed
    ensures TwoFree(f) <==> TwoFree(g)
  {
    if b, c :| IsFree(f, b) && IsFree(f, c) && b != c {
      assert IsFree(g, b) && IsFree(g, c);
    }
    if b, c :| IsFree(g, b) && IsFree(g, c) && b != c {
      assert IsFree(f, b) && IsFree(f, c);
    }
  }

  /** Neither the new inode nor any other one is left odd by setting the new one up. */
  lemma SaneBeside(fs: Fs, c: nat, mode: u32, p: nat)
    requires c < 256 && p < 256 && FsOk(fs) && InodeSane(fs, p) && InodeSane(fs, c) && !fs.inodeUsed[c]
    requires mode % 256 == MODE_FILE || mode % 256 == MODE_DIR
    ensures InodeSane(WithNewInode(fs, c, mode, p), p)
  {
    hide Content, BlockOf, Leaked, Owned, FsOk;
    NewInodeSafe(fs, c, mode, p);
    var f := WithNewInode(fs, c, mode, p);
    if p != c {
      assert SameInode(fs, f, p);
    }
  }

  /** Before the call: `create_node` will succeed. A directory not in use can only be the new inode itself, or one whose
      record was left as a directory. */
  ghost predicate CanCreate(fs: Fs, p: nat, name: seq<byte>, mode: u32) {
    var c := FirstFreeInode(fs.inodeUsed, 1);
    && p < 256 && c < 256
    && if p == c then 0 < |name| <= 55 && mode % 256 == MODE_DIR && OneFree(fs) else CanAdd(fs, p, name)
  }

  /** The directory the new inode would be in is that inode itself. */
  lemma InItself(fs: Fs, c: nat, mode: u32, name: seq<byte>)
    requires c < 256 && FsOk(fs) && InodeSane(fs, c) && !fs.inodeUsed[c]
    ensures var f := WithNewInode(fs, c, mode, c);
            && (CanAdd(f, c, name) <==> 0 < |name| <= 55 && mode % 256 == MODE_DIR && OneFree(fs))
            && !WouldLeak(f, c, name) && !WouldLeak(fs, c, name)
  {
    hide Content, Leaked, Owned, FsOk, FreeSlot, Table, OneFree, NoHoles;
    var f := WithNewInode(fs, c, mode, c);
    EmptyFirst(f, c);
    EmptyFirst(fs, c);
    EmptyTable(f, c);
    SameFree(f, fs);
    assert BlockOf(f, c, 0) == 0;
  }

  /** What `dir_add` can do inside `create_node`, told from the state before it. */
  lemma AddInside(fs: Fs, c: nat, mode: u32, p: nat, name: seq<byte>)
    requires c == FirstFreeInode(fs.inodeUsed, 1) < 256 && p < 256 && FsInv(fs)
    ensures var f := WithNewInode(fs, c, mode, p);
            && (CanAdd(f, p, name) <==> CanCreate(fs, p, name, mode))
            && (WouldLeak(f, p, name) <==> WouldLeak(fs, p, name)) && AllocBlock(f).1 == AllocBlock(fs).1
  {
    hide CanAdd, WouldLeak, TreeOk, FsOk, FirstFree, FirstFreeInode, OneFree;
    assert InodeSane(fs, c);
    if p == c {
      InItself(fs, c, mode, name);
    } else {
      BesideNew(fs, c, mode, p, name);
    }
  }

  /** `create_node` below any inode, in use or not: when it succeeds, and exactly what it leaks. */
  lemma CreateIff(fs: Fs, p: u32, name: seq<byte>, mode: u32)
    requires FsInv(fs) && (mode % 256 == MODE_FILE || mode % 256 == MODE_DIR)
    ensures CreateNode(fs, p, name, mode).1 >= 0 <==> CanCreate(fs, p, name, mode)
    ensures Leaked(CreateNode(fs, p, name, mode).0) == Leaked(fs) + CreateLeak(fs, p, name)
    ensures CreateNode(fs, p, name, mode).1 >= 0 ==> CreateLeak(fs, p, name) == {}
    ensures CreateLeak(fs, p, name) !! Leaked(fs)
  {
    hide CanAdd, WouldLeak, TreeOk, CanCreate, EnsureBlock, AllocBlock, Leaked, Owned, ZeroTail, DirAdd, InodeSane, SameInode,
         Lookup, EntryAdded;
    var c := FirstFreeInode(fs.inodeUsed, 1);
    if c < 256 {
      assert InodeSane(fs, c);
      NewInodeSafe(fs, c, mode, p);
      var f1 := WithNewInode(fs, c, mode, p);
      if p < 256 {
        assert InodeSane(fs, p);
        SaneBeside(fs, c, mode, p);
        AddInside(fs, c, mode, p, name);
      } else {
        NoNumber(fs, p, name, mode);
      }
      DirAddRefines(f1, p, name, c, mode);
      var (f2, r) := DirAdd(f1, p, name, c, mode);
      if r < 0 {
        LeakOne(f1, f2);
        SameButBits(f2, f2.(inodeUsed := f2.inodeUsed[c := false]));
        LeakChanges(f1);
      } else {
        NoLeak(f1, p, name);
        assert Leaked(f2) == Leaked(f1) by { AddedLeaks(f1, f2, p, Dirent(c, mode, NameField(name))); }
      }
    } else {
      NoNumber(fs, p, name, mode);
    }
  }

  /** Wherever it is made, in a directory in use or not, a creation leaves every block with one owner. */
  lemma CreateBlocksOk(fs: Fs, p: u32, name: seq<byte>, mode: u32)
    requires FsInv(fs) && (mode % 256 == MODE_FILE || mode % 256 == MODE_DIR)
    ensures FsOk(CreateNode(fs, p, name, mode).0)
  {
    hide CanAdd, WouldLeak, TreeOk, EnsureBlock, AllocBlock, Leaked, Owned, ZeroTail, DirAdd, InodeSane, SameInode, Lookup, OthersSame, Dir;
    var c := FirstFreeInode(fs.inodeUsed, 1);
    if c < 256 {
      assert InodeSane(fs, c);
      NewInodeSafe(fs, c, mode, p);
      var f1 := WithNewInode(fs, c, mode, p);
      if p < 256 {
        assert InodeSane(fs, p);
        SaneBeside(fs, c, mode, p);
      }
      DirAddRefines(f1, p, name, c, mode);
      var (f2, r) := DirAdd(f1, p, name, c, mode);
      if r < 0 {
        LeakOne(f1, f2);
        SameButBits(f2, f2.(inodeUsed := f2.inodeUsed[c := false]));
      }
    }
  }

  lemma NoNumber(fs: Fs, p: nat, name: seq<byte>, mode: u32)
    requires FirstFreeInode(fs.inodeUsed, 1) == 256 || p >= 256
    ensures !CanCreate(fs, p, name, mode)
  {
  }

  lemma AddedLeaks(f1: Fs, f2: Fs, p: nat, e: Dirent)
    requires p < 256 && EntryAdded(f1, f2, p, e)
    ensures Leaked(f2) == Leaked(f1)
  {
    hide Leaked, FsOk, OthersSame, Dir, NoHoles;
  }

  /** Taking a block changes the state. */
  lemma LeakChanges(fs: Fs)
    ensures AllocBlock(fs).1 >= 0 ==> AllocBlock(fs).0 != fs
  {
    var (f, b) := AllocBlock(fs);
    if b >= 0 {
      assert f.dataUsed[b] && !fs.dataUsed[b];
    }
  }

  /** What can be added leaks nothing. */
  lemma NoLeak(fs: Fs, d: nat, name: seq<byte>)
    requires d < 256 && FsOk(fs) && CanAdd(fs, d, name)
    ensures !WouldLeak(fs, d, name)
  {
    hide Dir, TreeOf, Lookup, FreeSlot, OneFree, TwoFree, ZeroTail;
    var i := FreeSlot(Dir(fs, d), 0) / 8;
    if 10 <= i < 138 && fs.inodes[d].indirect == 0 {
      assert BlockOf(fs, d, i) == 0 by { assert Ref(fs, Slot(d, i - 10)) == 0; }
    }
  }

  /** A directory of eighty live entries, the last free block, and one more name: the creation fails and the block is lost. */
  lemma EightyEntries(fs: Fs, p: nat, name: seq<byte>, mode: u32)
    requires FsInv(fs) && p < 256 && fs.inodeUsed[p] && fs.inodes[p].mode % 256 == MODE_DIR && GoodName(name)
    requires mode % 256 == MODE_FILE || mode % 256 == MODE_DIR
    requires |Dir(fs, p)| == 80 && (forall i :: 0 <= i < 80 ==> Live(Dir(fs, p)[i])) && fs.inodes[p].indirect == 0
    requires FirstFreeInode(fs.inodeUsed, 1) < 256 && OneFree(fs) && !TwoFree(fs) && Lookup(TreeOf(fs), p, name) < 0
    ensures var (f, r) := CreateNode(fs, p, name, mode);
            r < 0 && AllocBlock(fs).1 !in Leaked(fs) && Leaked(f) == Leaked(fs) + {AllocBlock(fs).1}
  {
    hide FsInv, Leaked, CreateNode, Lookup, TreeOf, Dir, FirstFreeInode, OneFree, TwoFree, AllocBlock;
    var i := FreeSlot(Dir(fs, p), 0);
    assert i == 80;
    CreateIff(fs, p, name, mode);
  }
}
