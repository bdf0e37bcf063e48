/** Directories of MiniFS: entry tables read out of directory contents, and how `dir_add`, `create_node`,
    `dir_remove` and `minifs_unlink` act on the stored tree. */
module FsTree {
  import opened Bytes
  import opened FsBlocks
  import opened FsFiles
  import opened DirTree

  // ---------------------------------------------------------------- entry tables

  function DirentAt(c: seq<byte>, i: nat): Dirent
    requires 64 * i + 64 <= |c|
  {
    Dirent(U32At(c, 64 * i), U32At(c, 64 * i + 4), c[64 * i + 8..64 * i + 64])
  }

  function DirentBytes(e: Dirent): (r: seq<byte>)
    requires |e.name| == 56
    ensures |r| == 64
  {
    U32Bytes(e.inode) + U32Bytes(e.mode) + e.name
  }

  /** Where each field of an entry lies in its 64 bytes. */
  lemma DirentLayout(e: Dirent)
    requires |e.name| == 56
    ensures var r := DirentBytes(e); U32At(r, 0) == e.inode && U32At(r, 4) == e.mode && r[8..] == e.name
  {
    hide U32Bytes, U32At;
    var r := DirentBytes(e);
    assert r[0..4] == U32Bytes(e.inode) && r[4..8] == U32Bytes(e.mode) && r[8..] == e.name;
    U32Is(r, 0, e.inode);
    U32Is(r, 4, e.mode);
  }

  lemma {:induction false} DirentRoundTrip(c: seq<byte>, i: nat, e: Dirent)
    requires |e.name| == 56 && 64 * i + 64 <= |c|
    requires c[64 * i..64 * i + 64] == DirentBytes(e)
    ensures DirentAt(c, i) == e
  {
    var r := DirentBytes(e);
    U32RoundTrip(e.inode);
    U32RoundTrip(e.mode);
    assert r == U32Bytes(e.inode) + (U32Bytes(e.mode) + e.name);
    assert r[0..4] == U32Bytes(e.inode);
    assert r[4..64] == U32Bytes(e.mode) + e.name;
    assert r[4..8] == r[4..64][0..4] == U32Bytes(e.mode);
    assert r[8..64] == r[4..64][4..60] == e.name;
    SubSlice(c, 64 * i, 64, 0, 4);
    SubSlice(c, 64 * i, 64, 4, 8);
    SubSlice(c, 64 * i, 64, 8, 64);
    assert U32Bytes(e.inode)[0..4] == U32Bytes(e.inode) && U32Bytes(e.mode)[0..4] == U32Bytes(e.mode);
    U32Local(c, 64 * i, U32Bytes(e.inode), 0);
    U32Local(c, 64 * i + 4, U32Bytes(e.mode), 0);
  }

  /** Entries depend on their own 64 bytes only. */
  lemma {:induction false} DirentLocal(c: seq<byte>, d: seq<byte>, i: nat)
    requires 64 * i + 64 <= |c| && 64 * i + 64 <= |d|
    requires c[64 * i..64 * i + 64] == d[64 * i..64 * i + 64]
    ensures DirentAt(c, i) == DirentAt(d, i)
  {
    SubSlice(c, 64 * i, 64, 0, 4);
    SubSlice(d, 64 * i, 64, 0, 4);
    SubSlice(c, 64 * i, 64, 4, 8);
    SubSlice(d, 64 * i, 64, 4, 8);
    SubSlice(c, 64 * i, 64, 8, 64);
    SubSlice(d, 64 * i, 64, 8, 64);
    U32Local(c, 64 * i, d, 64 * i);
    U32Local(c, 64 * i + 4, d, 64 * i + 4);
  }

  /** The entry table stored in the bytes of a directory. */
  function Table(c: seq<byte>): (es: seq<Dirent>)
    ensures |es| == |c| / 64
    ensures forall i :: 0 <= i < |es| ==> es[i] == DirentAt(c, i)
  {
    seq(|c| / 64, i requires 0 <= i < |c| / 64 => DirentAt(c, i))
  }

  function Dir(fs: Fs, n: nat): (es: seq<Dirent>)
    requires n < 256
  {
    Table(Content(fs, n))
  }

  lemma {:induction false} TablePut(c: seq<byte>, i: nat, e: Dirent)
    requires |e.name| == 56 && |c| % 64 == 0 && i <= |c| / 64
    ensures Table(Overlay(c, 64 * i, DirentBytes(e))) == PutEntry(Table(c), i, e)
  {
    var r := Overlay(c, 64 * i, DirentBytes(e));
    assert r[64 * i..64 * i + 64] == DirentBytes(e);
    DirentRoundTrip(r, i, e);
    forall j | 0 <= j < |c| / 64 && j != i ensures DirentAt(r, j) == DirentAt(c, j) {
      assert r[64 * j..64 * j + 64] == c[64 * j..64 * j + 64];
      DirentLocal(r, c, j);
    }
  }

  lemma {:induction false} TableErase(c: seq<byte>, i: nat)
    requires i < |c| / 64
    ensures Table(Overlay(c, 64 * i, U32Bytes(NONE))) == Table(c)[i := DirentAt(c, i).(inode := NONE)]
  {
    var r := Overlay(c, 64 * i, U32Bytes(NONE));
    U32RoundTrip(NONE);
    assert r[64 * i..64 * i + 4] == U32Bytes(NONE) == U32Bytes(NONE)[0..4];
    U32Local(r, 64 * i, U32Bytes(NONE), 0);
    assert r[64 * i + 4..64 * i + 8] == c[64 * i + 4..64 * i + 8];
    U32Local(r, 64 * i + 4, c, 64 * i + 4);
    assert r[64 * i + 8..64 * i + 64] == c[64 * i + 8..64 * i + 64];
    forall j | 0 <= j < |c| / 64 && j != i ensures DirentAt(r, j) == DirentAt(c, j) {
      assert r[64 * j..64 * j + 64] == c[64 * j..64 * j + 64];
      DirentLocal(r, c, j);
    }
  }

  // ---------------------------------------------------------------- the tree in the file system

  function TreeOf(fs: Fs): (t: Tree)
    ensures t.used == fs.inodeUsed
    ensures forall n :: 0 <= n < 256 ==>
              && t.mode[n] == fs.inodes[n].mode && t.parent[n] == fs.inodes[n].parent
              && t.entries[n] == if t.mode[n] % 256 == 2 then Dir(fs, n) else []
  {
    Tree(fs.inodeUsed,
         seq(256, n requires 0 <= n < 256 => fs.inodes[n].mode),
         seq(256, n requires 0 <= n < 256 => fs.inodes[n].parent),
         seq(256, n requires 0 <= n < 256 => if fs.inodes[n].mode % 256 == 2 then Dir(fs, n) else []))
  }

  /** Free inodes own nothing; directories are whole tables without holes; files fit the size limit. */
  ghost predicate InodeSane(fs: Fs, n: nat)
    requires n < 256
  {
    var ino := fs.inodes[n];
    && (!fs.inodeUsed[n] ==> ino.size == 0 && ino.direct == NO_BLOCKS && ino.indirect == 0)
    && (fs.inodeUsed[n] ==> ino.mode % 256 == MODE_FILE || ino.mode % 256 == MODE_DIR)
    && (ino.mode % 256 == MODE_DIR ==> ino.size % 64 == 0 && ino.size <= 138 * 512 && NoHoles(fs, n))
    && (ino.mode % 256 == MODE_FILE ==> ino.size <= 65536)
  }

  ghost predicate FsInv(fs: Fs) {
    && FsOk(fs)
    && (forall n :: 0 <= n < 256 ==> InodeSane(fs, n))
    && TreeOk(TreeOf(fs))
  }

  // ---------------------------------------------------------------- dir_add

  function NameField(name: seq<byte>): (r: seq<byte>)
    requires |name| <= 55
    ensures |r| == 56
  {
    name + Zeros(56 - |name|)
  }

  /** Eight entries fill a block exactly. */
  lemma EntryFits(i: nat)
    ensures 64 * i % 512 == 64 * (i % 8) && 64 * i / 512 == i / 8
  {
    assert 64 * i == 512 * (i / 8) + 64 * (i % 8);
  }

  /** Stores an entry at index `i` of directory `d`. */
  function PutDirent(fs: Fs, d: nat, i: nat, e: Dirent): (r: (Fs, int))
    requires d < 256 && i <= 1104 && |e.name| == 56
  {
    EntryFits(i);
    WriteChunk(fs, d, 64 * i, DirentBytes(e))
  }

  /** `dir_add`: 0, or -1. A failing call never stores the directory's record. */
  function DirAdd(fs: Fs, d: nat, name: seq<byte>, child: u32, mode: u32): (r: (Fs, int)) {
    if Lookup(TreeOf(fs), d, name) >= 0 || !(0 < |name| <= 55) then (fs, -1)
    else if d >= 256 || fs.inodes[d].mode % 256 != MODE_DIR then (fs, -1)
    else if fs.inodes[d].size > 138 * 512 then (fs, -1)
    else
      var (f, b) := PutDirent(fs, d, FreeSlot(Dir(fs, d), 0), Dirent(child, mode, NameField(name)));
      if b < 0 then (f.(inodes := fs.inodes), -1) else (f, 0)
  }

  /** Only the marks of the data map may have changed, and at most one of them. */
  ghost predicate AtMostOneLeak(fs: Fs, after: Fs) {
    after == fs || (AllocBlock(fs).1 >= 0 && after == AllocBlock(fs).0)
  }

  /** Every inode is as before. */
  ghost predicate AllSame(fs: Fs, after: Fs) {
    && after.inodeUsed == fs.inodeUsed
    && forall m :: 0 <= m < 256 ==> SameInode(fs, after, m)
  }

  /** Before the call: `dir_add` will find a free slot behind the direct blocks of a directory without an indirect block,
      get the only free block for that, and then fail for want of a second one. */
  ghost predicate WouldLeak(fs: Fs, d: nat, name: seq<byte>)
    requires d < 256
  {
    && 0 < |name| <= 55 && fs.inodes[d].mode % 256 == MODE_DIR && Lookup(TreeOf(fs), d, name) < 0
    && 10 <= FreeSlot(Dir(fs, d), 0) / 8 < 138 && fs.inodes[d].indirect == 0 && OneFree(fs) && !TwoFree(fs)
  }

  /** Before the call: `dir_add` will succeed. */
  ghost predicate CanAdd(fs: Fs, d: nat, name: seq<byte>)
    requires d < 256
  {
    && 0 < |name| <= 55 && fs.inodes[d].mode % 256 == MODE_DIR && Lookup(TreeOf(fs), d, name) < 0
    && HasRoom(fs, d, FreeSlot(Dir(fs, d), 0) / 8)
  }

  lemma FailedEnsure(fs: Fs, n: nat, i: nat)
    requires n < 256 && Owned(fs) && EnsureBlock(fs, n, i).1 < 0
    ensures var f := EnsureBlock(fs, n, i).0.(inodes := fs.inodes);
            f == if 10 <= i < 138 && fs.inodes[n].indirect == 0 && OneFree(fs) then AllocBlock(fs).0 else fs
  {
    AllocIff(fs);
  }

  /** Marking one block that nothing names: the only trace a failed `dir_add` can leave. */
  lemma LeakOne(fs: Fs, after: Fs)
    requires FsOk(fs) && AtMostOneLeak(fs, after)
    ensures FsOk(after) && AllSame(fs, after)
    ensures Leaked(fs) <= Leaked(after)
    ensures Leaked(after) == Leaked(fs) + if after == fs then {} else {AllocBlock(fs).1}
    ensures AllocBlock(fs).1 !in Leaked(fs)
    ensures forall b, c :: b in Leaked(after) - Leaked(fs) && c in Leaked(after) - Leaked(fs) ==> b == c
  {
    if after != fs {
      var b := AllocBlock(fs).1;
      forall l: Loc | IsLoc(l) ensures Ref(after, l) == Ref(fs, l) {
        SlotsKept(fs, after, l, b);
      }
      forall m, k | 0 <= m < 256 && 0 <= k ensures ByteAt(after, m, k) == ByteAt(fs, m, k) {
        if k / 512 < 138 {
          assert IsLoc(LocOf(m, k / 512));
        }
      }
      forall m | 0 <= m < 256 ensures SameInode(fs, after, m) {
        forall i | 0 <= i < 138 ensures BlockOf(after, m, i) == BlockOf(fs, m, i) {
          assert IsLoc(LocOf(m, i));
        }
      }
      forall c ensures Referenced(after, c) <==> Referenced(fs, c) {
        if Referenced(fs, c) {
          var l: Loc :| IsLoc(l) && Ref(fs, l) == c;
          assert Ref(after, l) == c;
        }
      }
    }
  }

  /** What a successful `dir_add` leaves. */
  ghost predicate EntryAdded(fs: Fs, f: Fs, d: nat, e: Dirent)
    requires d < 256
  {
    && FsOk(f) && Leaked(f) == Leaked(fs) && OthersSame(fs, f, d)
    && f.inodes[d].mode == fs.inodes[d].mode && f.inodes[d].parent == fs.inodes[d].parent
    && Dir(f, d) == PutEntry(Dir(fs, d), FreeSlot(Dir(fs, d), 0), e)
    && f.inodes[d].size % 64 == 0 && f.inodes[d].size <= 138 * 512 && NoHoles(f, d)
  }

  /** `dir_add`: when it succeeds and what it leaves then; a failure changes nothing unless it leaks the indirect block. */
  lemma {:induction false} DirAddRefines(fs: Fs, d: nat, name: seq<byte>, child: u32, mode: u32)
    requires FsOk(fs) && (d < 256 ==> InodeSane(fs, d))
    ensures var (f, r) := DirAdd(fs, d, name, child, mode);
            && (r >= 0 <==> d < 256 && CanAdd(fs, d, name))
            && (r < 0 ==> f == if d < 256 && WouldLeak(fs, d, name) then AllocBlock(fs).0 else fs)
            && (r < 0 && d < 256 && WouldLeak(fs, d, name) ==> AllocBlock(fs).1 >= 0)
            && (r < 0 ==> AtMostOneLeak(fs, f))
            && (r >= 0 ==> d < 256 && |name| <= 55 && fs.inodes[d].mode % 256 == MODE_DIR
                           && Lookup(TreeOf(fs), d, name) < 0
                           && EntryAdded(fs, f, d, Dirent(child, mode, NameField(name))))
  {
    hide DirAdd, CanAdd, WouldLeak, AllocBlock, EntryAdded, Lookup, TreeOf, InodeSane, FsOk;
    DirAddIff(fs, d, name, child, mode);
    if DirAdd(fs, d, name, child, mode).1 >= 0 {
      DirAddEffect(fs, d, name, child, mode);
    }
  }

  lemma DirAddIff(fs: Fs, d: nat, name: seq<byte>, child: u32, mode: u32)
    requires FsOk(fs) && (d < 256 ==> InodeSane(fs, d))
    ensures var (f, r) := DirAdd(fs, d, name, child, mode);
            && (r >= 0 <==> d < 256 && CanAdd(fs, d, name))
            && (r < 0 ==> f == if d < 256 && WouldLeak(fs, d, name) then AllocBlock(fs).0 else fs)
            && (r < 0 && d < 256 && WouldLeak(fs, d, name) ==> AllocBlock(fs).1 >= 0)
  {
    hide EnsureBlock, FsOk, OneFree, TwoFree, AllocBlock, BlockOf, Content, Table, TreeOf, Lookup, FreeSlot, NameField, DirentBytes, NoHoles;
    if !(Lookup(TreeOf(fs), d, name) >= 0 || !(0 < |name| <= 55)) && d < 256 && fs.inodes[d].mode % 256 == MODE_DIR {
      var i := FreeSlot(Dir(fs, d), 0);
      EntryFits(i);
      EnsureRoom(fs, d, i / 8);
    }
  }

  lemma DirAddEffect(fs: Fs, d: nat, name: seq<byte>, child: u32, mode: u32)
    requires FsOk(fs) && (d < 256 ==> InodeSane(fs, d)) && DirAdd(fs, d, name, child, mode).1 >= 0
    ensures d < 256 && |name| <= 55 && fs.inodes[d].mode % 256 == MODE_DIR && Lookup(TreeOf(fs), d, name) < 0
    ensures EntryAdded(fs, DirAdd(fs, d, name, child, mode).0, d, Dirent(child, mode, NameField(name)))
  {
    hide EnsureBlock, Leaked, Owned, ZeroTail, Full;
    var f := DirAdd(fs, d, name, child, mode).0;
    var i := FreeSlot(Dir(fs, d), 0);
    EntryFits(i);
    var e := Dirent(child, mode, NameField(name));
    EnsureInRange(fs, d, i / 8);
    WriteChunkRefines(fs, d, 64 * i, DirentBytes(e));
    EntryStored(fs, f, d, i, e, WriteChunk(fs, d, 64 * i, DirentBytes(e)).1);
  }

  lemma EnsureRoom(fs: Fs, n: nat, i: nat)
    requires n < 256 && FsOk(fs)
    ensures EnsureBlock(fs, n, i).1 >= 0 <==> HasRoom(fs, n, i)
    ensures EnsureBlock(fs, n, i).1 < 0 ==>
              var leaks := 10 <= i < 138 && fs.inodes[n].indirect == 0 && OneFree(fs) && !TwoFree(fs);
              EnsureBlock(fs, n, i).0.(inodes := fs.inodes) == if leaks then AllocBlock(fs).0 else fs
    ensures OneFree(fs) ==> AllocBlock(fs).1 >= 0
    ensures TwoFree(fs) ==> OneFree(fs)
  {
    hide EnsureBlock;
    AllocIff(fs);
    EnsureIff(fs, n, i);
    if EnsureBlock(fs, n, i).1 < 0 {
      FailedEnsure(fs, n, i);
    }
  }

  lemma EnsureInRange(fs: Fs, n: nat, i: nat)
    requires n < 256 && EnsureBlock(fs, n, i).1 >= 0
    ensures i < 138
  {
  }

  lemma EntryStored(fs: Fs, f: Fs, d: nat, i: nat, e: Dirent, b: int)
    requires d < 256 && InodeSane(fs, d) && fs.inodes[d].mode % 256 == MODE_DIR && |e.name| == 56
    requires i == FreeSlot(Dir(fs, d), 0) && i / 8 < 138 && b >= 0
    requires ChunkWritten(fs, f, d, 64 * i, DirentBytes(e), b)
    ensures EntryAdded(fs, f, d, e)
  {
    hide FsOk, OthersSame, Leaked, Full, BlockOf, BlocksAdded, NoHoles, ByteAt, FreeSlot, DirentBytes;
    TablePut(Content(fs, d), i, e);
    assert |Content(f, d)| == Max(|Content(fs, d)|, 64 * i + 64);
  }

  // ---------------------------------------------------------------- create_node

  function FirstFreeInode(used: seq<bool>, i: nat): (r: nat)
    requires i <= 256 == |used|
    ensures i <= r <= 256
    ensures r < 256 ==> !used[r]
    ensures forall k :: i <= k < r ==> used[k]
    decreases 256 - i
  {
    if i == 256 || !used[i] then i else FirstFreeInode(used, i + 1)
  }

  function NewInode(mode: u32, parent: u32): Inode {
    Inode(mode, 0, parent, 1, NO_BLOCKS, 0, 0)
  }

  /** The state after the inode was marked and its record written. */
  function WithNewInode(fs: Fs, c: nat, mode: u32, parent: u32): (r: Fs)
    requires c < 256
  {
    SetInode(fs, c, NewInode(mode, parent)).(inodeUsed := fs.inodeUsed[c := true])
  }

  /** `create_node`: the new inode number, or -1. */
  function CreateNode(fs: Fs, p: u32, name: seq<byte>, mode: u32): (r: (Fs, int)) {
    var c := FirstFreeInode(fs.inodeUsed, 1);
    if c == 256 then (fs, -1)
    else
      var (f, r) := DirAdd(WithNewInode(fs, c, mode, p), p, name, c, mode);
      if r < 0 then (f.(inodeUsed := f.inodeUsed[c := false]), -1) else (f, c)
  }

  lemma NewInodeSafe(fs: Fs, c: nat, mode: u32, p: u32)
    requires c < 256 && FsOk(fs) && InodeSane(fs, c) && !fs.inodeUsed[c]
    ensures var f := WithNewInode(fs, c, mode, p);
            && FsOk(f) && Leaked(f) == Leaked(fs) && Content(f, c) == [] && NoHoles(f, c)
            && forall m :: 0 <= m < 256 && m != c ==> SameInode(fs, f, m)
  {
    var f := WithNewInode(fs, c, mode, p);
    forall l: Loc | IsLoc(l) ensures Ref(f, l) == Ref(fs, l) {
    }
    OwnedTransfer(fs, f);
    forall m, k | 0 <= m < 256 && 0 <= k ensures ByteAt(f, m, k) == ByteAt(fs, m, k) {
      if k / 512 < 138 {
        assert IsLoc(LocOf(m, k / 512));
      }
    }
    forall m | 0 <= m < 256 && m != c ensures SameInode(fs, f, m) {
      forall i | 0 <= i < 138 ensures BlockOf(f, m, i) == BlockOf(fs, m, i) {
        assert IsLoc(LocOf(m, i));
      }
    }
  }

  /** Directory tables of untouched inodes are untouched. */
  lemma SameTables(fs: Fs, after: Fs, m: nat)
    requires m < 256 && SameInode(fs, after, m)
    ensures TreeOf(after).mode[m] == TreeOf(fs).mode[m]
    ensures TreeOf(after).parent[m] == TreeOf(fs).parent[m]
    ensures TreeOf(after).entries[m] == TreeOf(fs).entries[m]
    ensures InodeSane(fs, m) && after.inodeUsed[m] == fs.inodeUsed[m] ==> InodeSane(after, m)
  {
  }

  /** `f1` is `fs` with the empty inode `c` added, `f` is `f1` with entry `e` added to `p`. */
  ghost predicate LinkSteps(fs: Fs, f1: Fs, f: Fs, p: nat, c: nat, mode: u32, e: Dirent) {
    && p < 256 && 0 < c < 256 && p != c && e.inode == c && e.mode == mode && |e.name| == 56
    && !fs.inodeUsed[c] && f1 == WithNewInode(fs, c, mode, p)
    && Content(f1, c) == [] && NoHoles(f1, c)
    && (forall m :: 0 <= m < 256 && m != c ==> SameInode(fs, f1, m))
    && fs.inodes[p].mode % 256 == MODE_DIR && EntryAdded(f1, f, p, e)
  }

  lemma {:induction false} CreatedTable(fs: Fs, f1: Fs, f: Fs, p: nat, c: nat, mode: u32, e: Dirent, m: nat)
    requires LinkSteps(fs, f1, f, p, c, mode, e) && m < 256
    ensures var u, v := TreeOf(f), AddLeaf(TreeOf(fs), p, FreeSlot(Dir(fs, p), 0), e);
            u.mode[m] == v.mode[m] && u.parent[m] == v.parent[m] && u.entries[m] == v.entries[m]
  {
    hide FreeSlot, EnsureBlock, Leaked, Owned, ZeroTail, Content, Table, BlockOf, NoHoles, FsOk;
    if m != c && m != p {
      assert SameInode(fs, f1, m) && SameInode(f1, f, m);
      SameTables(fs, f1, m);
      SameTables(f1, f, m);
    } else if m == p {
      assert SameInode(fs, f1, p);
      SameTables(fs, f1, p);
    } else {
      assert SameInode(f1, f, c);
      EmptyTable(f, c);
    }
  }

  /** The tree after a successful `create_node`. */
  lemma {:induction false} CreatedTree(fs: Fs, f1: Fs, f: Fs, p: nat, c: nat, mode: u32, e: Dirent)
    requires LinkSteps(fs, f1, f, p, c, mode, e)
    ensures TreeOf(f) == AddLeaf(TreeOf(fs), p, FreeSlot(Dir(fs, p), 0), e)
  {
    hide FreeSlot, EnsureBlock, Leaked, Owned, ZeroTail, Content, Table, BlockOf, NoHoles, FsOk, SameInode;
    var u := TreeOf(f);
    var v := AddLeaf(TreeOf(fs), p, FreeSlot(Dir(fs, p), 0), e);
    forall m | 0 <= m < 256 ensures u.mode[m] == v.mode[m] && u.parent[m] == v.parent[m] && u.entries[m] == v.entries[m] {
      CreatedTable(fs, f1, f, p, c, mode, e, m);
    }
    assert u.used == v.used;
    assert u.mode == v.mode;
    assert u.parent == v.parent;
    assert u.entries == v.entries;
  }

  /** Records of free inodes do not matter to the tree. */
  lemma TreeFrame(t: Tree, u: Tree)
    requires TreeOk(t) && u.used == t.used && u.entries == t.entries
    requires forall n :: 0 <= n < 256 && t.used[n] ==> u.mode[n] == t.mode[n] && u.parent[n] == t.parent[n]
    ensures TreeOk(u)
  {
    hide CString, GoodName;
    forall d, i ensures LiveAt(u, d, i) <==> LiveAt(t, d, i) {
    }
    assert EntriesOk(u) && NamesUnique(u) && LinkedOnce(u);
    forall n | 0 <= n < 256 && u.used[n] ensures exists k: nat :: Rooted(u, n, k) {
      var k: nat :| Rooted(t, n, k);
      RootedKept(t, u, n, k);
    }
    forall n | 0 < n < 256 && u.used[n]
      ensures u.parent[n] < 256 && exists i :: LiveAt(u, u.parent[n], i) && u.entries[u.parent[n]][i].inode == n
    {
      var i :| LiveAt(t, t.parent[n], i) && t.entries[t.parent[n]][i].inode == n;
      assert LiveAt(u, t.parent[n], i);
    }
  }

  /** `create_node` under an inode in use: either a new empty node is linked under `p` and nothing else changes,
      or the tree and every file are as before and at most one block was lost. */
  ghost predicate Created(fs: Fs, f: Fs, p: nat, name: seq<byte>, mode: u32, r: int) {
    && FsInv(f)
    && (r < 0 ==>
          && f.inodeUsed == fs.inodeUsed
          && (forall m :: 0 <= m < 256 && fs.inodeUsed[m] ==> SameInode(fs, f, m))
          && Leaked(fs) <= Leaked(f)
          && forall b, c :: b in Leaked(f) - Leaked(fs) && c in Leaked(f) - Leaked(fs) ==> b == c)
    && (r >= 0 ==>
          && p < 256 && 0 < r < 256 && |name| <= 55 && !fs.inodeUsed[r] && IsDir(TreeOf(fs), p)
          && f.inodeUsed == fs.inodeUsed[r := true] && f.inodes[r] == Inode(mode, 0, p, 1, NO_BLOCKS, 0, 0)
          && Lookup(TreeOf(fs), p, name) < 0 && Lookup(TreeOf(f), p, name) == r
          && TreeOf(f) == AddLeaf(TreeOf(fs), p, FreeSlot(Dir(fs, p), 0), Dirent(r, mode, NameField(name)))
          && Content(f, r) == [] && Leaked(f) == Leaked(fs)
          && forall m :: 0 <= m < 256 && m != p && m != r ==> SameInode(fs, f, m))
  }

  /** States whose inodes in use agree hold the same tree. */
  lemma SameTree(fs: Fs, f: Fs)
    requires TreeOk(TreeOf(fs)) && f.inodeUsed == fs.inodeUsed
    requires forall m :: 0 <= m < 256 && fs.inodeUsed[m] ==> SameInode(fs, f, m)
    requires forall m :: 0 <= m < 256 && !fs.inodeUsed[m] ==> fs.inodes[m].size == 0 == f.inodes[m].size
    ensures TreeOk(TreeOf(f))
  {
    hide TreeOk, Content, BlockOf, Table;
    var t, u := TreeOf(fs), TreeOf(f);
    forall m | 0 <= m < 256
      ensures u.entries[m] == t.entries[m] && (t.used[m] ==> u.mode[m] == t.mode[m] && u.parent[m] == t.parent[m])
    {
      if fs.inodeUsed[m] {
        SameTables(fs, f, m);
      } else {
        EmptyTable(fs, m);
        EmptyTable(f, m);
      }
    }
    assert u.entries == t.entries;
    TreeFrame(t, u);
  }

  lemma CreateFails(fs: Fs, f1: Fs, f2: Fs, c: nat, mode: u32, p: u32)
    requires FsInv(fs) && 0 < c < 256 && !fs.inodeUsed[c] && f1 == WithNewInode(fs, c, mode, p)
    requires AtMostOneLeak(f1, f2)
    ensures Created(fs, f2.(inodeUsed := f2.inodeUsed[c := false]), p, [], mode, -1)
  {
    hide EnsureBlock, AllocBlock, Table, Content, TreeOk;
    NewInodeSafe(fs, c, mode, p);
    LeakOne(f1, f2);
    var f := f2.(inodeUsed := f2.inodeUsed[c := false]);
    assert f.inodeUsed == fs.inodeUsed;
    SameButBits(f2, f);
    forall m | 0 <= m < 256 && m != c ensures SameInode(fs, f, m) && InodeSane(f, m) {
      assert SameInode(fs, f1, m) && SameInode(f1, f2, m) && SameInode(f2, f, m);
      assert InodeSane(fs, m);
      SameTables(fs, f, m);
    }
    assert SameInode(f1, f2, c) && SameInode(f2, f, c);
    assert InodeSane(f, c);
    SameTree(fs, f) by {
      forall m | 0 <= m < 256 && !fs.inodeUsed[m] ensures fs.inodes[m].size == 0 == f.inodes[m].size {
        assert InodeSane(fs, m) && InodeSane(f, m);
      }
    }
  }

  lemma EmptyTable(fs: Fs, m: nat)
    requires m < 256 && fs.inodes[m].size == 0
    ensures TreeOf(fs).entries[m] == []
  {
    assert |Content(fs, m)| == 0;
  }

  /** The inode map is not read by any inode. */
  lemma SameButBits(f: Fs, g: Fs)
    requires FsOk(f) && g == f.(inodeUsed := g.inodeUsed)
    ensures FsOk(g) && Leaked(g) == Leaked(f) && forall m :: 0 <= m < 256 ==> SameInode(f, g, m)
  {
    forall l: Loc | IsLoc(l) ensures Ref(g, l) == Ref(f, l) {
    }
    OwnedTransfer(f, g);
    forall m, k | 0 <= m < 256 && 0 <= k ensures ByteAt(g, m, k) == ByteAt(f, m, k) {
      if k / 512 < 138 {
        assert IsLoc(LocOf(m, k / 512));
      }
    }
    forall m | 0 <= m < 256 ensures SameInode(f, g, m) {
      forall i | 0 <= i < 138 ensures BlockOf(g, m, i) == BlockOf(f, m, i) {
        assert IsLoc(LocOf(m, i));
      }
    }
  }

  lemma {:induction false} CreatedInodes(fs: Fs, f1: Fs, f: Fs, c: nat, mode: u32, p: u32, e: Dirent)
    requires FsInv(fs) && 0 < c < 256 && !fs.inodeUsed[c] && f1 == WithNewInode(fs, c, mode, p)
    requires p < 256 && fs.inodeUsed[p] && fs.inodes[p].mode % 256 == MODE_DIR
    requires mode % 256 == MODE_FILE || mode % 256 == MODE_DIR
    requires Content(f1, c) == [] && NoHoles(f1, c)
    requires forall m :: 0 <= m < 256 && m != c ==> SameInode(fs, f1, m)
    requires EntryAdded(f1, f, p, e)
    ensures forall m :: 0 <= m < 256 && m != p && m != c ==> SameInode(fs, f, m)
    ensures forall m :: 0 <= m < 256 ==> InodeSane(f, m)
    ensures Content(f, c) == [] && f.inodes[c] == NewInode(mode, p) && f.inodeUsed == fs.inodeUsed[c := true]
  {
    hide EnsureBlock, AllocBlock, Table, Content, TreeOk, BlockOf, Leaked, Owned, ZeroTail, FreeSlot;
    forall m | 0 <= m < 256 && m != p && m != c ensures SameInode(fs, f, m) && InodeSane(f, m) {
      assert SameInode(fs, f1, m) && SameInode(f1, f, m) && InodeSane(fs, m);
      SameTables(fs, f, m);
    }
    assert SameInode(f1, f, c);
    assert f.inodeUsed == fs.inodeUsed[c := true];
    assert InodeSane(f, c);
    assert InodeSane(f, p);
  }

  lemma {:induction false} CreateSucceeds(fs: Fs, f1: Fs, f: Fs, c: nat, mode: u32, p: u32, name: seq<byte>)
    requires FsInv(fs) && 0 < c < 256 && !fs.inodeUsed[c] && f1 == WithNewInode(fs, c, mode, p)
    requires p < 256 && fs.inodeUsed[p] && fs.inodes[p].mode % 256 == MODE_DIR
    requires GoodName(name) && (mode % 256 == MODE_FILE || mode % 256 == MODE_DIR)
    requires Lookup(TreeOf(fs), p, name) < 0
    requires EntryAdded(f1, f, p, Dirent(c, mode, NameField(name)))
    ensures Created(fs, f, p, name, mode, c)
  {
    hide EnsureBlock, AllocBlock, Table, Content, TreeOk, BlockOf, Leaked, Owned, ZeroTail, FreeSlot, FindName, GoodName,
         NameField, InodeSane, SameInode, AddLeaf, TreeOf, Lookup, NoHoles, OthersSame, WithNewInode, Dir;
    assert InodeSane(fs, c);
    CStringOfGoodName(name);
    NewInodeSafe(fs, c, mode, p);
    var e := Dirent(c, mode, NameField(name));
    CreatedTree(fs, f1, f, p, c, mode, e);
    CreatedInodes(fs, f1, f, c, mode, p, e);
    FreeTable(fs, c);
    assert TreeOf(fs).entries[p] == Dir(fs, p);
    LinkedTree(TreeOf(fs), p, e, name);
  }

  lemma FreeTable(fs: Fs, c: nat)
    requires c < 256 && InodeSane(fs, c) && !fs.inodeUsed[c]
    ensures |TreeOf(fs).entries[c]| == 0
  {
    EmptyTable(fs, c);
  }

  lemma CStringOfGoodName(name: seq<byte>)
    requires GoodName(name)
    ensures |name| <= 55 && CString(NameField(name)) == name
  {
    CStringOfField(name);
  }

  lemma CStringOfField(name: seq<byte>)
    requires |name| <= 55 && 0 !in name
    ensures CString(NameField(name)) == name
  {
    CStringOf(name, Zeros(56 - |name|));
  }

  /** The new name is found, and finds the new inode. */
  lemma {:induction false} LinkedTree(t: Tree, p: nat, e: Dirent, name: seq<byte>)
    requires TreeOk(t) && p < 256 && t.used[p] && IsDir(t, p) && 0 < e.inode < 256 && !t.used[e.inode]
    requires |t.entries[e.inode]| == 0 && |e.name| == 56 && CString(e.name) == name && GoodName(name)
    requires Lookup(t, p, name) < 0
    ensures var u := AddLeaf(t, p, FreeSlot(t.entries[p], 0), e);
            TreeOk(u) && Lookup(u, p, name) == e.inode
  {
    hide CString, GoodName, NamesUnique, LinkedOnce, Linked, AllRooted;
    var i := FreeSlot(t.entries[p], 0);
    var u := AddLeaf(t, p, i, e);
    AddLeafOk(t, p, i, e);
    AddLeafLive(t, p, i, e);
    assert u.entries[p] == PutEntry(t.entries[p], i, e);
    var j := FindName(u.entries[p], name, 0);
    assert j <= i;
  }

  /** The tree survives `create_node` under any inode in use. */
  lemma {:induction false} CreateNodeSafe(fs: Fs, p: u32, name: seq<byte>, mode: u32)
    requires FsInv(fs) && p < 256 && fs.inodeUsed[p]
    requires GoodName(name) && (mode % 256 == MODE_FILE || mode % 256 == MODE_DIR)
    ensures var (f, r) := CreateNode(fs, p, name, mode); Created(fs, f, p, name, mode, r)
  {
    hide TreeOf, DirAdd, SameInode, EntryAdded, AtMostOneLeak, Lookup, CanAdd, WouldLeak, FsInv, InodeSane, FsOk, NoHoles, Created, GoodName,
         NameField, Leaked, Content;
    var c := FirstFreeInode(fs.inodeUsed, 1);
    if c < 256 {
      InvParts(fs, c);
      InvParts(fs, p);
      NewInodeSafe(fs, c, mode, p);
      var f1 := WithNewInode(fs, c, mode, p);
      SameTables(fs, f1, p);
      DirAddRefines(f1, p, name, c, mode);
      var (f2, r) := DirAdd(f1, p, name, c, mode);
      if r < 0 {
        CreateFails(fs, f1, f2, c, mode, p);
        FailedName(fs, f2.(inodeUsed := f2.inodeUsed[c := false]), p, [], name, mode);
      } else {
        LookupSame(fs, f1, p, name);
        CreateSucceeds(fs, f1, f2, c, mode, p, name);
      }
    } else {
      NothingCreated(fs, p, name, mode);
    }
  }

  lemma InvParts(fs: Fs, n: nat)
    requires FsInv(fs) && n < 256
    ensures FsOk(fs) && InodeSane(fs, n)
  {
    hide FsOk, InodeSane, TreeOk, TreeOf;
  }

  /** A failed creation says nothing about the name. */
  lemma FailedName(fs: Fs, f: Fs, p: nat, a: seq<byte>, b: seq<byte>, mode: u32)
    requires Created(fs, f, p, a, mode, -1)
    ensures Created(fs, f, p, b, mode, -1)
  {
    hide FsInv, SameInode, Leaked;
  }

  lemma NothingCreated(fs: Fs, p: nat, name: seq<byte>, mode: u32)
    requires FsInv(fs)
    ensures Created(fs, fs, p, name, mode, -1)
  {
    hide FsInv, Leaked;
  }

  lemma LookupSame(fs: Fs, f: Fs, p: nat, name: seq<byte>)
    requires p < 256 && SameInode(fs, f, p)
    ensures Lookup(TreeOf(f), p, name) == Lookup(TreeOf(fs), p, name)
  {
    SameTables(fs, f, p);
  }

  lemma AllSameRefl(fs: Fs)
    ensures AllSame(fs, fs)
  {
  }

  // ---------------------------------------------------------------- unlink

  predicate HasLive(es: seq<Dirent>) {
    exists i :: 0 <= i < |es| && Live(es[i])
  }

  /** `dir_remove` at index `i`: the entry becomes a tombstone. */
  function Erase(fs: Fs, d: nat, i: nat): (r: Fs)
    requires d < 256
  {
    PutBytes(fs, BlockOf(fs, d, i / 8), 64 * (i % 8), U32Bytes(NONE))
  }

  /** The checks of `minifs_unlink`: the name is there, is not the root, no open file names its inode, and a
      directory has no live entry. */
  predicate MayUnlink(fs: Fs, p: nat, name: seq<byte>, open: set<int>) {
    var n := Lookup(TreeOf(fs), p, name);
    0 < n < 256 && n !in open && !(fs.inodes[n].mode % 256 == MODE_DIR && HasLive(Dir(fs, n)))
  }

  /** Truncating inode `n`, clearing its record, erasing its entry in `p` and freeing its number. */
  ghost function UnlinkAt(fs: Fs, p: nat, name: seq<byte>, n: nat): (r: (Fs, int))
    requires p < 256 && n < 256
  {
    var f := Truncate(fs, n, FREE_INODE);
    var i := FindName(Dir(f, p), name, 0);
    if i == |Dir(f, p)| then (f, -1)
    else (Erase(f, p, i).(inodeUsed := fs.inodeUsed[n := false]), 0)
  }

  /** `minifs_unlink` below the resolved parent `p`: 0, or -1. */
  ghost function Unlink(fs: Fs, p: u32, name: seq<byte>, open: set<int>): (r: (Fs, int)) {
    if p < 256 && MayUnlink(fs, p, name, open) then UnlinkAt(fs, p, name, Lookup(TreeOf(fs), p, name))
    else (fs, -1)
  }

  lemma {:induction false} EraseRefines(fs: Fs, d: nat, i: nat)
    requires d < 256 && FsOk(fs) && NoHoles(fs, d) && fs.inodes[d].size % 64 == 0 && fs.inodes[d].size <= 138 * 512
    requires i < |Dir(fs, d)|
    ensures var f := Erase(fs, d, i);
            && FsOk(f) && Leaked(f) == Leaked(fs) && OthersSame(fs, f, d)
            && f.inodes == fs.inodes && f.inodeUsed == fs.inodeUsed && NoHoles(f, d)
            && Dir(f, d) == Dir(fs, d)[i := Dir(fs, d)[i].(inode := NONE)]
  {
    hide Leaked, Owned, ZeroTail;
    EntryFits(i);
    var f := Erase(fs, d, i);
    assert 64 * i + 64 <= fs.inodes[d].size;
    assert BlockOf(fs, d, i / 8) != 0;
    assert fs.inodes[d := fs.inodes[d]] == fs.inodes;
    assert f.inodes == fs.inodes;
    assert f == SetSize(f, d, fs.inodes[d].size);
    assert Max(fs.inodes[d].size, 64 * i + 4) == fs.inodes[d].size;
    ChunkStored(fs, d, 64 * i, U32Bytes(NONE), f);
    TableErase(Content(fs, d), i);
  }

  ghost predicate Unlinked(fs: Fs, f: Fs, p: nat, name: seq<byte>, n: nat)
    requires p < 256 && 0 < n < 256
  {
    var t := TreeOf(fs);
    var i := FindName(t.entries[p], name, 0);
    && FsInv(f) && Leaked(f) == Leaked(fs)
    && LiveAt(t, p, i) && t.entries[p][i].inode == n
    && TreeOf(f) == RemoveLeaf(t, p, i, n) && Lookup(TreeOf(f), p, name) < 0
    && (forall m :: 0 <= m < 256 && m != p && m != n ==> SameInode(fs, f, m))
    && f.inodes[n] == FREE_INODE
  }

  /** The two states between truncation and the end of `minifs_unlink`, inode by inode. */
  lemma {:induction false} UnlinkInodes(fs: Fs, f1: Fs, f: Fs, p: nat, i: nat, n: nat)
    requires FsInv(fs) && p < 256 && 0 < n < 256 && n != p
    requires fs.inodes[p].mode % 256 == MODE_DIR && i < |Dir(fs, p)|
    requires f1 == Truncate(fs, n, FREE_INODE) && f == Erase(f1, p, i).(inodeUsed := fs.inodeUsed[n := false])
    ensures FsOk(f) && Leaked(f) == Leaked(fs) && f.inodes == f1.inodes
    ensures forall m :: 0 <= m < 256 && m != p && m != n ==> SameInode(fs, f, m)
    ensures forall m :: 0 <= m < 256 ==> InodeSane(f, m)
    ensures Dir(f, p) == Dir(fs, p)[i := Dir(fs, p)[i].(inode := NONE)]
  {
    hide Table, Content, TreeOk, BlockOf, Leaked, Owned, ZeroTail, Freed, FreeSlot;
    assert InodeSane(fs, p);
    TruncateSafe(fs, n, FREE_INODE);
    assert SameInode(fs, f1, p);
    EraseRefines(f1, p, i);
    var f2 := Erase(f1, p, i);
    SameButBits(f2, f);
    assert SameInode(f2, f, p) && SameInode(f2, f, n) && SameInode(f1, f2, n);
    forall m | 0 <= m < 256 && m != p && m != n ensures SameInode(fs, f, m) && InodeSane(f, m) {
      assert SameInode(fs, f1, m) && SameInode(f1, f2, m) && SameInode(f2, f, m) && InodeSane(fs, m);
      SameTables(fs, f, m);
    }
    assert InodeSane(f, p);
    assert InodeSane(f, n);
  }

  lemma {:induction false} UnlinkTree(fs: Fs, f: Fs, p: nat, i: nat, n: nat)
    requires p < 256 && 0 < n < 256 && n != p && fs.inodes[p].mode % 256 == MODE_DIR
    requires LiveAt(TreeOf(fs), p, i)
    requires forall m :: 0 <= m < 256 && m != p && m != n ==> SameInode(fs, f, m)
    requires f.inodes[n] == FREE_INODE && f.inodes[p] == fs.inodes[p] && f.inodeUsed == fs.inodeUsed[n := false]
    requires Dir(f, p) == Dir(fs, p)[i := Dir(fs, p)[i].(inode := NONE)]
    ensures TreeOf(f) == RemoveLeaf(TreeOf(fs), p, i, n)
  {
    hide Table, Content, BlockOf;
    var t, u := TreeOf(fs), TreeOf(f);
    var v := RemoveLeaf(t, p, i, n);
    forall m | 0 <= m < 256 ensures u.mode[m] == v.mode[m] && u.parent[m] == v.parent[m] && u.entries[m] == v.entries[m] {
      if m != n && m != p {
        SameTables(fs, f, m);
      } else if m == n {
        EmptyTable(f, n);
      }
    }
    assert u.mode == v.mode;
    assert u.parent == v.parent;
    assert u.entries == v.entries;
  }

  lemma {:induction false} UnlinkAtTree(fs: Fs, p: nat, i: nat, n: nat)
    requires FsInv(fs) && LiveAt(TreeOf(fs), p, i) && 0 < n < 256 && TreeOf(fs).entries[p][i].inode == n && n != p
    ensures var f1 := Truncate(fs, n, FREE_INODE);
            var f := Erase(f1, p, i).(inodeUsed := fs.inodeUsed[n := false]);
            && Dir(f1, p) == Dir(fs, p)
            && TreeOf(f) == RemoveLeaf(TreeOf(fs), p, i, n)
            && FsOk(f) && Leaked(f) == Leaked(fs) && f.inodes[n] == FREE_INODE
            && (forall m :: 0 <= m < 256 && m != p && m != n ==> SameInode(fs, f, m))
            && (forall m :: 0 <= m < 256 ==> InodeSane(f, m))
  {
    hide Table, Content, BlockOf, Leaked, Owned, ZeroTail, Freed, InodeSane, Truncate, Erase, FsOk, RemoveLeaf, SameInode,
         OthersSame, TreeOk;
    var f1 := Truncate(fs, n, FREE_INODE);
    SameParentTable(fs, f1, p, n);
    var f := Erase(f1, p, i).(inodeUsed := fs.inodeUsed[n := false]);
    UnlinkInodes(fs, f1, f, p, i, n);
    TruncatedRecords(fs, f1, n);
    UnlinkTree(fs, f, p, i, n);
  }

  lemma {:induction false} UnlinkAtSafe(fs: Fs, p: nat, name: seq<byte>, n: nat)
    requires FsInv(fs) && p < 256 && 0 < n < 256 && Lookup(TreeOf(fs), p, name) == n
    requires !(fs.inodes[n].mode % 256 == MODE_DIR && HasLive(Dir(fs, n)))
    ensures var (f, r) := UnlinkAt(fs, p, name, n); r == 0 && fs.inodeUsed[n] && Unlinked(fs, f, p, name, n)
  {
    hide Table, Content, BlockOf, Leaked, Owned, ZeroTail, Freed, InodeSane, Truncate, Erase, NamesUnique,
         LinkedOnce, Linked, AllRooted, CString, GoodName, FsOk, RemoveLeaf, SameInode, HasLive, OthersSame;
    hide EntriesOk, TreeOk, FindName;
    var t := TreeOf(fs);
    var i := FindName(t.entries[p], name, 0);
    LookupLive(t, p, name);
    LeafRemovable(fs, p, i, n);
    RemovedTree(t, p, i, n, name);
    UnlinkAtTree(fs, p, i, n);
  }

  lemma LookupLive(t: Tree, p: nat, name: seq<byte>)
    requires p < 256 && Lookup(t, p, name) >= 0
    ensures var i := FindName(t.entries[p], name, 0);
            LiveAt(t, p, i) && t.entries[p][i].inode == Lookup(t, p, name)
  {
  }

  lemma {:induction false} RemovedTree(t: Tree, p: nat, i: nat, n: nat, name: seq<byte>)
    requires Removable(t, p, i, n) && i == FindName(t.entries[p], name, 0)
    ensures var u := RemoveLeaf(t, p, i, n); TreeOk(u) && Lookup(u, p, name) < 0
    ensures n != p && t.used[n]
  {
    hide RemoveLeaf, NamesUnique, LinkedOnce, Linked, AllRooted, CString, GoodName;
    RemoveLeafLive(t, p, i, n);
    RemoveLeafOk(t, p, i, n);
    NameGone(t, p, i, n, name);
  }

  /** `minifs_unlink` either changes nothing, or removes one leaf of the tree, frees exactly its blocks and its
      number, and leaves every other inode alone. */
  lemma {:induction false} UnlinkSafe(fs: Fs, p: u32, name: seq<byte>, open: set<int>)
    requires FsInv(fs)
    ensures var (f, r) := Unlink(fs, p, name, open);
            && (r < 0 ==> f == fs)
            && (r >= 0 ==> p < 256 && var n := Lookup(TreeOf(fs), p, name);
                             0 < n < 256 && n !in open && fs.inodeUsed[n] && Unlinked(fs, f, p, name, n))
  {
    hide UnlinkAt, Unlinked, FsInv;
    if p < 256 && MayUnlink(fs, p, name, open) {
      UnlinkAtSafe(fs, p, name, Lookup(TreeOf(fs), p, name));
    }
  }

  lemma LeafRemovable(fs: Fs, p: nat, i: nat, n: nat)
    requires FsInv(fs) && LiveAt(TreeOf(fs), p, i) && n < 256 && TreeOf(fs).entries[p][i].inode == n
    requires !(fs.inodes[n].mode % 256 == MODE_DIR && HasLive(Dir(fs, n)))
    ensures Removable(TreeOf(fs), p, i, n)
  {
    hide NamesUnique, LinkedOnce, Linked, AllRooted, EntriesOk, FsOk, InodeSane;
  }

  lemma SameParentTable(fs: Fs, f1: Fs, p: nat, n: nat)
    requires p < 256 && n < 256 && p != n && FsOk(fs) && f1 == Truncate(fs, n, FREE_INODE)
    ensures Dir(f1, p) == Dir(fs, p)
  {
    TruncateSafe(fs, n, FREE_INODE);
    assert SameInode(fs, f1, p);
  }

  lemma TruncatedRecords(fs: Fs, f1: Fs, n: nat)
    requires n < 256 && f1 == Truncate(fs, n, FREE_INODE)
    ensures f1.inodes == fs.inodes[n := FREE_INODE]
  {
  }

  lemma {:induction false} NameGone(t: Tree, p: nat, i: nat, n: nat, name: seq<byte>)
    requires Removable(t, p, i, n) && n != p && i == FindName(t.entries[p], name, 0)
    ensures Lookup(RemoveLeaf(t, p, i, n), p, name) < 0
  {
    hide CString, GoodName, Linked, AllRooted, LinkedOnce, EntriesOk;
    var u := RemoveLeaf(t, p, i, n);
    assert u.entries[p] == t.entries[p][i := t.entries[p][i].(inode := NONE)];
    assert NameAt(t, p, i) == name;
    forall j | LiveAt(u, p, j) ensures NameAt(u, p, j) != name {
      assert LiveAt(t, p, j) && NameAt(t, p, j) == NameAt(u, p, j);
    }
    var k := FindName(u.entries[p], name, 0);
    assert k < |u.entries[p]| ==> LiveAt(u, p, k);
  }
}
