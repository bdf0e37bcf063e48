/** When an import goes through: exactly when there are inodes and blocks enough for the tree and no name or file is too long. */
module MkfsFits {
  import opened Bytes
  import opened FsBlocks
  import opened FsFiles
  import opened DirTree
  import opened FsTree
  import opened FsLeaks
  import opened BlockCounts
  import opened Mkfs
  import opened MkfsImport
  import MkfsImage
  import MiniFs
  import Paths
  import Disk

  // ---------------------------------------------------------------- what a tree costs

  function Inodes(kids: seq<Node>): nat
    decreases kids
  {
    if kids == [] then 0 else 1 + (match kids[0] case DirNode(_, below) => Inodes(below) case _ => 0) + Inodes(kids[1..])
  }

  /** The blocks entry number `k` of a directory takes: one for each eight entries, and the indirect block with the eleventh. */
  function EntryCost(k: nat): nat {
    (if k % 8 == 0 then 1 else 0) + if k == 80 then 1 else 0
  }

  function NodeCost(node: Node): nat
    decreases node
  {
    match node
    case FileNode(_, _, bytes) => BlocksFor(|bytes|)
    case DirNode(_, below) => Blocks(below, 0)
  }

  /** The blocks for importing `kids` into a directory of `k` entries. */
  function Blocks(kids: seq<Node>, k: nat): nat
    decreases kids
  {
    if kids == [] then 0 else EntryCost(k) + NodeCost(kids[0]) + Blocks(kids[1..], k + 1)
  }

  /** No file is longer than 64 KiB and no name than 55 bytes. */
  predicate SizesOk(kids: seq<Node>)
    decreases kids
  {
    && (forall i :: 0 <= i < |kids| ==> |kids[i].name| <= 55)
    && (forall i :: 0 <= i < |kids| && kids[i].FileNode? ==> |kids[i].bytes| <= 65536)
    && (forall i :: 0 <= i < |kids| && kids[i].DirNode? ==> SizesOk(kids[i].children))
  }

  predicate NodeSizeOk(node: Node) {
    && |node.name| <= 55
    && match node
       case FileNode(_, _, bytes) => |bytes| <= 65536
       case DirNode(_, below) => SizesOk(below)
  }

  lemma SizesStep(kids: seq<Node>)
    requires kids != []
    ensures SizesOk(kids) <==> NodeSizeOk(kids[0]) && SizesOk(kids[1..])
  {
    var r := kids[1..];
    assert forall i :: 0 <= i < |r| ==> r[i] == kids[i + 1];
    if NodeSizeOk(kids[0]) && SizesOk(r) {
      forall i | 0 <= i < |kids| ensures |kids[i].name| <= 55 && (kids[i].FileNode? ==> |kids[i].bytes| <= 65536)
        ensures kids[i].DirNode? ==> SizesOk(kids[i].children)
      {
        if i > 0 {
          assert kids[i] == r[i - 1];
        }
      }
    }
  }

  // ---------------------------------------------------------------- the builder's books

  /** Every inode has the blocks its size calls for and no others. */
  ghost predicate Tight(fs: Fs) {
    forall n :: 0 <= n < 256 ==> TightAt(fs, n)
  }

  ghost predicate TightAt(fs: Fs, n: nat)
    requires n < 256
  {
    Exactly(fs, n, (fs.inodes[n].size + 511) / 512)
  }

  lemma TightSame(fs: Fs, f: Fs, n: nat)
    requires n < 256 && TightAt(fs, n) && SameInode(fs, f, n)
    ensures TightAt(f, n)
  {
    hide BlockOf, Content;
  }

  function FreeInodes(fs: Fs): int {
    256 - |Used(fs)|
  }

  function UpTo(n: nat): (r: set<nat>)
    ensures |r| == n && forall m: nat :: m in r <==> m < n
  {
    if n == 0 then {} else UpTo(n - 1) + {n - 1}
  }

  lemma Smaller<A>(a: set<A>, b: set<A>)
    requires a <= b
    ensures |a| <= |b|
  {
    assert b == a + (b - a);
  }

  /** An inode is free exactly when one is left to count. */
  lemma InodeLeft(fs: Fs)
    requires fs.inodeUsed[0]
    ensures FreeInodes(fs) >= 0 && (FirstFreeInode(fs.inodeUsed, 1) < 256 <==> FreeInodes(fs) >= 1)
  {
    hide UpTo;
    var c := FirstFreeInode(fs.inodeUsed, 1);
    assert Used(fs) <= UpTo(256);
    Smaller(Used(fs), UpTo(256));
    if c < 256 {
      assert Used(fs) <= UpTo(256) - {c};
      Smaller(Used(fs), UpTo(256) - {c});
    } else {
      forall m: nat ensures m in Used(fs) <==> m in UpTo(256) {
      }
      assert Used(fs) == UpTo(256);
    }
  }

  lemma OneMoreUsed(fs: Fs, f: Fs, c: nat)
    requires c < 256 && !fs.inodeUsed[c] && f.inodeUsed == fs.inodeUsed[c := true]
    ensures FreeInodes(f) == FreeInodes(fs) - 1
  {
    assert Used(f) == Used(fs) + {c};
  }

  // ---------------------------------------------------------------- one entry

  /** A directory without tombstones has fewer entries than there are inodes. */
  lemma DirSmall(fs: Fs, p: nat)
    requires Ready(fs, p)
    ensures |Dir(fs, p)| <= 255 && |Dir(fs, p)| == fs.inodes[p].size / 64 && fs.inodes[p].size == 64 * |Dir(fs, p)|
    ensures FreeSlot(Dir(fs, p), 0) == |Dir(fs, p)| && NoHoles(fs, p)
  {
    hide BlockOf, ZeroFree, FsOk, CString, NamesUnique, Linked, AllRooted;
    var es := Dir(fs, p);
    assert InodeSane(fs, p);
    assert AllLive(es);
    FreeAtEnd(es);
    EntriesApart(fs, p);
    DistinctEntries(es, |es|);
  }

  lemma EntriesApart(fs: Fs, p: nat)
    requires FsInv(fs) && p < 256 && fs.inodes[p].mode % 256 == MODE_DIR && AllLive(Dir(fs, p))
    ensures forall i :: 0 <= i < |Dir(fs, p)| ==> 0 < Dir(fs, p)[i].inode < 256
    ensures forall i, j :: 0 <= i < j < |Dir(fs, p)| ==> Dir(fs, p)[i].inode != Dir(fs, p)[j].inode
  {
    hide Table, Content, FsOk, CString, GoodName, NamesUnique, Linked, AllRooted, InodeSane;
    var t, es := TreeOf(fs), Dir(fs, p);
    assert t.entries[p] == es;
    forall i | 0 <= i < |es| ensures LiveAt(t, p, i) && 0 < es[i].inode < 256 {
      assert LiveAt(t, p, i);
    }
    forall i, j | 0 <= i < j < |es| ensures es[i].inode != es[j].inode {
      assert LiveAt(t, p, i) && LiveAt(t, p, j);
    }
  }

  function InodesOf(es: seq<Dirent>, n: nat): set<nat>
    requires n <= |es|
  {
    if n == 0 then {} else InodesOf(es, n - 1) + {es[n - 1].inode as nat}
  }

  lemma {:induction false} DistinctEntries(es: seq<Dirent>, n: nat)
    requires n <= |es| && (forall i :: 0 <= i < n ==> 0 < es[i].inode < 256)
    requires forall i, j :: 0 <= i < j < n ==> es[i].inode != es[j].inode
    ensures |InodesOf(es, n)| == n && InodesOf(es, n) <= UpTo(256) - {0} && n <= 255
    ensures forall x: nat :: x in InodesOf(es, n) ==> exists i :: 0 <= i < n && es[i].inode == x
  {
    hide UpTo;
    if n > 0 {
      DistinctEntries(es, n - 1);
    }
    Smaller(InodesOf(es, n), UpTo(256) - {0});
  }

  /** What the next entry of a directory takes is told by how many it has. */
  lemma NextEntry(fs: Fs, p: nat)
    requires Ready(fs, p) && TightAt(fs, p)
    ensures var k := |Dir(fs, p)|; k / 8 < 138 && EnsureCost(fs, p, k / 8) == EntryCost(k)
    ensures var k := |Dir(fs, p)|; TopOk(fs, p) && (k / 8 <= 10 || BlockOf(fs, p, 10) != 0)
  {
    hide BlockOf, BuilderOk, FreeSlot, Dir;
    DirSmall(fs, p);
    var k := |Dir(fs, p)|;
    assert (64 * k + 511) / 512 == (k + 7) / 8;
    assert (k / 8 < (k + 7) / 8) == (k % 8 != 0);
  }

  /** There is room for the entry exactly when that many blocks are free. */
  lemma RoomIff(fs: Fs, n: nat, i: nat)
    requires n < 256 && i < 138
    ensures HasRoom(fs, n, i) <==> |FreeSet(fs)| >= EnsureCost(fs, n, i)
  {
    hide BlockOf, FreeSet, OneFree, TwoFree;
    FreeCounts(fs);
  }

  /** Adding a node: when it goes through, what it takes, and that the books stay right. */
  lemma AddNodeSpends(fs: Fs, p: nat, name: seq<byte>, mode: u32)
    requires Ready(fs, p) && Tight(fs) && HostName(name) && Lookup(TreeOf(fs), p, name) < 0
    requires mode % 256 == MODE_FILE || mode % 256 == MODE_DIR
    ensures var (f, c) := AddNode(fs, p, name, mode);
            var k := |Dir(fs, p)|;
            && c < 256 && (c >= 0 <==> |name| <= 55 && FreeInodes(fs) >= 1 && |FreeSet(fs)| >= EntryCost(k))
            && (c >= 0 ==> |FreeSet(f)| == |FreeSet(fs)| - EntryCost(k) && FreeInodes(f) == FreeInodes(fs) - 1
                           && Tight(f) && |Dir(f, p)| == k + 1 && Dir(f, c) == [])
  {
    hide AddNode, CreateNode, FsInv, ZeroFree, TreeOf, Lookup, SameInode, Table, Content, AllLive, Tight, FreeSet, EnsureCost, EntryCost,
         FreeInodes, FirstFreeInode, BlockOf, CanAdd, FreeSlot, Dir, Exactly, GoodName, HostName;
    LongName(fs, p, name, mode);
    if |name| <= 55 {
      TightOne(fs, p);
      DirSmall(fs, p);
      NextEntry(fs, p);
      AddNodeSame(fs, p, name, mode) by { DirTreeOf(fs, p); }
      CreateIff(fs, p, name, mode);
      RootInUse(fs);
      InodeLeft(fs);
      RoomIff(fs, p, |Dir(fs, p)| / 8);
      CanIff(fs, p, name, mode);
      if AddNode(fs, p, name, mode).1 >= 0 {
        CreatedSpends(fs, p, name, mode);
      }
    }
  }

  lemma TightOne(fs: Fs, p: nat)
    requires Tight(fs) && p < 256
    ensures TightAt(fs, p)
  {
    hide TightAt;
  }

  lemma DirTreeOf(fs: Fs, p: nat)
    requires p < 256 && fs.inodes[p].mode % 256 == MODE_DIR
    ensures IsDir(TreeOf(fs), p)
  {
    hide Table, Content;
  }

  lemma RootInUse(fs: Fs)
    requires BuilderOk(fs)
    ensures fs.inodeUsed[0]
  {
    hide Table, Content, EntriesOk, NamesUnique, LinkedOnce, Linked, AllRooted, FsOk, InodeSane, ZeroFree, AllLive;
  }

  lemma CanIff(fs: Fs, p: nat, name: seq<byte>, mode: u32)
    requires Ready(fs, p) && GoodName(name) && Lookup(TreeOf(fs), p, name) < 0
    ensures CanCreate(fs, p, name, mode) <==> FirstFreeInode(fs.inodeUsed, 1) < 256 && HasRoom(fs, p, |Dir(fs, p)| / 8)
  {
    hide BuilderOk, TreeOf, Lookup, HasRoom, FreeSlot, Dir, OneFree, FirstFreeInode;
    DirSmall(fs, p);
  }

  /** The blocks and records a successful creation leaves. */
  lemma CreatedSpends(fs: Fs, p: nat, name: seq<byte>, mode: u32)
    requires Ready(fs, p) && Tight(fs) && GoodName(name) && Lookup(TreeOf(fs), p, name) < 0 && CreateNode(fs, p, name, mode).1 >= 0
    requires mode % 256 == MODE_FILE || mode % 256 == MODE_DIR
    ensures var (f, c) := CreateNode(fs, p, name, mode);
            var k := |Dir(fs, p)|;
            && c < 256 && |FreeSet(f)| == |FreeSet(fs)| - EntryCost(k) && FreeInodes(f) == FreeInodes(fs) - 1
            && Tight(f) && |Dir(f, p)| == k + 1 && Dir(f, c) == []
  {
    hide ZeroFree, TreeOf, Lookup, SameInode, Table, Content, AllLive, Tight, FreeSet, EnsureCost, EntryCost, FreeInodes, FirstFreeInode,
         BlockOf, WriteChunk, FsOk, TreeOk, Exactly, Leaked, OthersSame, FreeSlot, Dir, NoHoles, GoodName, NameField;
    var c := FirstFreeInode(fs.inodeUsed, 1);
    var k := |Dir(fs, p)|;
    DirSmall(fs, p);
    NextEntry(fs, p) by { TightOne(fs, p); }
    assert InodeSane(fs, c) && InodeSane(fs, p);
    NewInodeSafe(fs, c, mode, p);
    var f1 := WithNewInode(fs, c, mode, p);
    assert SameInode(fs, f1, p);
    SameDirs(fs, f1, p);
    EntryFits(k);
    var e := Dirent(c, mode, NameField(name));
    var f := WriteChunk(f1, p, 64 * k, DirentBytes(e)).0;
    SaneBeside(fs, c, mode, p);
    DirAddRefines(f1, p, name, c, mode);
    ChunkSpends(f1, p, 64 * k, DirentBytes(e));
    WriteChunkRefines(f1, p, 64 * k, DirentBytes(e));
    SameFreeSet(f1, fs);
    SameCost(fs, f1, p, k / 8);
    OneMoreUsed(fs, f, c) by { OthersUsed(f1, f, p); }
    AddedDir(f1, f, p, c, e, k);
    BooksAfter(fs, f1, f, c, mode, p, k) by { AddedSame(f1, f, p, e); }
  }

  lemma AddedSame(f1: Fs, f: Fs, p: nat, e: Dirent)
    requires p < 256 && EntryAdded(f1, f, p, e)
    ensures OthersSame(f1, f, p)
  {
    hide Leaked, FsOk, FreeSlot, Dir, NoHoles, OthersSame;
  }

  lemma SameDirs(fs: Fs, f: Fs, p: nat)
    requires p < 256 && SameInode(fs, f, p)
    ensures Dir(f, p) == Dir(fs, p) && f.inodes[p] == fs.inodes[p]
  {
    hide Table, Content, BlockOf;
  }

  lemma SameCost(fs: Fs, f: Fs, n: nat, i: nat)
    requires n < 256 && i < 138 && SameInode(fs, f, n)
    ensures EnsureCost(f, n, i) == EnsureCost(fs, n, i) && (TopOk(f, n) <==> TopOk(fs, n)) && BlockOf(f, n, 10) == BlockOf(fs, n, 10)
  {
    hide Content, BlockOf;
  }

  lemma OthersUsed(f1: Fs, f: Fs, p: nat)
    requires OthersSame(f1, f, p)
    ensures f.inodeUsed == f1.inodeUsed
  {
  }

  /** After an entry every inode has the blocks its size calls for. */
  lemma BooksAfter(fs: Fs, f1: Fs, f: Fs, c: nat, mode: u32, p: nat, k: nat)
    requires Tight(fs) && c < 256 && p < 256 && p != c && k / 8 < 138 && f1 == WithNewInode(fs, c, mode, p)
    requires forall m :: 0 <= m < 256 && m != c ==> SameInode(fs, f1, m)
    requires OthersSame(f1, f, p) && BlocksAdded(f1, f, p, 64 * k, 64) && TopOk(f, p)
    requires fs.inodes[p].size == 64 * k && f.inodes[p].size == 64 * (k + 1)
    ensures Tight(f)
  {
    hide BlockOf, Content, SameInode, Tight;
    forall n | 0 <= n < 256 ensures TightAt(f, n) {
      if n == p {
        assert SameInode(fs, f1, p);
        TightOne(fs, p);
        EntryBlocks(fs, f1, f, p, k);
      } else if n == c {
        assert SameInode(f1, f, c);
        NewTight(fs, f1, c, mode, p);
        TightSame(f1, f, c);
      } else {
        assert SameInode(fs, f1, n) && SameInode(f1, f, n);
        TightOne(fs, n);
        TightSame(fs, f1, n);
        TightSame(f1, f, n);
      }
    }
    assert Tight(f) by { AllTight(f); }
  }

  lemma AllTight(f: Fs)
    requires forall n :: 0 <= n < 256 ==> TightAt(f, n)
    ensures Tight(f)
  {
    hide TightAt;
  }

  lemma NewTight(fs: Fs, f1: Fs, c: nat, mode: u32, p: u32)
    requires c < 256 && f1 == WithNewInode(fs, c, mode, p)
    ensures TightAt(f1, c)
  {
  }

  lemma EntryBlocks(fs: Fs, f1: Fs, f: Fs, p: nat, k: nat)
    requires p < 256 && SameInode(fs, f1, p) && TightAt(fs, p) && k / 8 < 138 && fs.inodes[p].size == 64 * k
    requires BlocksAdded(f1, f, p, 64 * k, 64) && TopOk(f, p) && f.inodes[p].size == 64 * (k + 1)
    ensures TightAt(f, p)
  {
    hide BlockOf, Content;
    assert (64 * k + 511) / 512 == (k + 7) / 8 && (64 * (k + 1) + 511) / 512 == (k + 8) / 8;
    forall j | 0 <= j < 138 ensures BlockOf(f, p, j) != 0 <==> j < (k + 8) / 8 {
      assert Overlaps(64 * k, 64, j) <==> j == k / 8;
      assert j < (k + 8) / 8 <==> j < (k + 7) / 8 || j == k / 8;
    }
  }

  lemma AddedDir(f1: Fs, f: Fs, p: nat, c: nat, e: Dirent, k: nat)
    requires p < 256 && c < 256 && p != c && EntryAdded(f1, f, p, e) && FreeSlot(Dir(f1, p), 0) == |Dir(f1, p)| == k
    requires Content(f1, c) == []
    ensures |Dir(f, p)| == k + 1 && Dir(f, c) == [] && f.inodes[p].size / 64 == k + 1 && f.inodes[p].size == 64 * (k + 1)
  {
    hide Leaked, FsOk, FreeSlot, BlockOf, NoHoles;
    assert SameInode(f1, f, c);
    assert |Content(f, p)| == f.inodes[p].size;
  }

  // ---------------------------------------------------------------- one file

  /** `write_file` into a new inode: when it goes through and what it takes. */
  lemma WriteFileSpends(fs: Fs, c: nat, node: Node)
    requires BuilderOk(fs) && Tight(fs) && c < 256 && fs.inodeUsed[c] && node.FileNode?
    requires fs.inodes[c].mode == ModeOf(node) && fs.inodes[c].size == 0
    ensures var (g, ok) := WriteFile(fs, c, node.bytes);
            && (ok <==> |node.bytes| <= 65536 && |FreeSet(fs)| >= BlocksFor(|node.bytes|))
            && (ok ==> |FreeSet(g)| == |FreeSet(fs)| - BlocksFor(|node.bytes|) && Tight(g) && FreeInodes(g) == FreeInodes(fs))
  {
    hide WriteFile, WriteFrom, FsInv, FsOk, ZeroFree, TreeOf, Table, Content, BlockOf, Leaked, Full, AllLive, OthersSame, Tight, FreeSet,
         BlocksFor, Exactly, FreeInodes;
    var data := node.bytes;
    FsOkPart(fs);
    WriteFileSame(fs, c, data);
    if |data| <= 65536 {
      assert SetSize(fs, c, 0) == fs by { assert fs.inodes[c := fs.inodes[c]] == fs.inodes; }
      assert data[..|data|] == data;
      assert WriteAt(fs, c, 0, data) == WriteFrom(fs, c, 0, data);
      TightOne(fs, c);
      NewFileSpends(fs, c, data);
      var (g, d) := WriteFrom(fs, c, 0, data);
      if d == |data| {
        WriteAtRefines(fs, c, 0, data);
        SizeAfter(fs, g, c, data);
        OthersUsed(fs, g, c);
        assert FreeInodes(g) == FreeInodes(fs) by { SameInodes(fs, g); }
        FileBooks(fs, g, c, data);
      }
    }
  }

  lemma SameInodes(fs: Fs, g: Fs)
    requires g.inodeUsed == fs.inodeUsed
    ensures FreeInodes(g) == FreeInodes(fs)
  {
    assert Used(g) == Used(fs);
  }

  lemma SizeAfter(fs: Fs, g: Fs, c: nat, data: seq<byte>)
    requires c < 256 && fs.inodes[c].size == 0 && Content(g, c) == Overlay(Content(fs, c), 0, data)
    ensures g.inodes[c].size == |data|
  {
    assert |Content(g, c)| == g.inodes[c].size && |Content(fs, c)| == 0;
  }

  lemma FileBooks(fs: Fs, g: Fs, c: nat, data: seq<byte>)
    requires Tight(fs) && c < 256 && OthersSame(fs, g, c) && g.inodes[c].size == |data| && Exactly(g, c, (|data| + 511) / 512)
    ensures Tight(g)
  {
    hide BlockOf, Content, SameInode, Tight, Exactly;
    forall n | 0 <= n < 256 ensures TightAt(g, n) {
      if n != c {
        assert SameInode(fs, g, n);
        TightOne(fs, n);
        TightSame(fs, g, n);
      }
    }
    AllTight(g);
  }

  // ---------------------------------------------------------------- trees

  /** What an import takes and leaves in the books. */
  ghost predicate Spent(fs: Fs, g: Fs, p: nat, entries: nat, inodes: nat, blocks: nat) {
    && p < 256 && Tight(g) && |FreeSet(g)| == |FreeSet(fs)| - blocks && FreeInodes(g) == FreeInodes(fs) - inodes
    && |Dir(g, p)| == |Dir(fs, p)| + entries
  }

  function NodeInodes(node: Node): nat {
    1 + match node case DirNode(_, below) => Inodes(below) case _ => 0
  }

  lemma {:induction false} ImportOneIff(fs: Fs, node: Node, p: nat)
    requires Ready(fs, p) && Tight(fs) && HostName(node.name) && Lookup(TreeOf(fs), p, node.name) < 0
    requires node.DirNode? ==> Importable(node.children)
    ensures var (g, ok) := ImportOne(fs, node, p);
            var cost := EntryCost(|Dir(fs, p)|) + NodeCost(node);
            && (ok <==> NodeSizeOk(node) && FreeInodes(fs) >= NodeInodes(node) && |FreeSet(fs)| >= cost)
            && (ok ==> Spent(fs, g, p, 1, NodeInodes(node), cost))
    decreases node
  {
    hide BuilderOk, AddNode, WriteFile, Grown, Lookup, HostName, Importable, Import, Tight, FreeSet, FreeInodes, Dir, EntryCost, BlocksFor,
         SizesOk, TreeOf, Imported;
    ModeKinds(node);
    AddNodeOk(fs, p, node.name, ModeOf(node)) by { DirTreeOf(fs, p); }
    AddNodeSpends(fs, p, node.name, ModeOf(node));
    var (f, c) := AddNode(fs, p, node.name, ModeOf(node));
    if c >= 0 {
      GrownFacts(fs, f, p, node.name, c, ModeOf(node));
      GrownDir(fs, f, p, node.name, c, ModeOf(node));
      match node
      case FileNode(_, _, bytes) =>
        WriteFileSpends(f, c, node);
        FileOk(f, c, node);
        var (g, ok) := WriteFile(f, c, bytes);
        if ok {
          OtherDir(f, g, c, p);
        }
      case DirNode(_, children) =>
        ImportIff(f, children, c);
        ImportOk(f, children, c);
        var (g, ok) := Import(f, children, c);
        if ok {
          ParentDir(f, g, c, p, children);
        }
    }
  }

  lemma GrownDir(fs: Fs, f: Fs, p: nat, name: seq<byte>, c: int, mode: u32)
    requires Grown(fs, f, p, name, c, mode) && fs.inodeUsed[p]
    ensures c != p && f.inodeUsed[p]
  {
    hide TreeOf, Lookup, SameInode;
  }

  lemma OtherDir(f: Fs, g: Fs, c: nat, p: nat)
    requires OthersSame(f, g, c) && p < 256 && p != c
    ensures Dir(g, p) == Dir(f, p)
  {
    hide SameInode, Dir;
    assert SameInode(f, g, p);
    SameDirs(f, g, p);
  }

  lemma ParentDir(f: Fs, g: Fs, c: nat, p: nat, kids: seq<Node>)
    requires Imported(f, g, c, kids) && p < 256 && p != c && f.inodeUsed[p]
    ensures Dir(g, p) == Dir(f, p)
  {
    hide SameInode, Dir, BuilderOk, TreeOf, Lookup, Holds;
    assert SameInode(f, g, p);
    SameDirs(f, g, p);
  }

  /** Importing succeeds exactly when no name or file is too long and there are inodes and blocks enough. */
  lemma {:induction false} ImportIff(fs: Fs, kids: seq<Node>, p: nat)
    requires Ready(fs, p) && Tight(fs) && Importable(kids)
    requires forall i :: 0 <= i < |kids| ==> Lookup(TreeOf(fs), p, kids[i].name) < 0
    ensures var (g, ok) := Import(fs, kids, p);
            var k := |Dir(fs, p)|;
            && (ok <==> SizesOk(kids) && FreeInodes(fs) >= Inodes(kids) && |FreeSet(fs)| >= Blocks(kids, k))
            && (ok ==> Spent(fs, g, p, |kids|, Inodes(kids), Blocks(kids, k)))
    decreases kids
  {
    hide BuilderOk, ImportOne, Lookup, HostName, TreeOf, Tight, FreeSet, FreeInodes, Dir, EntryCost, NodeCost, SizesOk, Imported, NodeSizeOk;
    if kids == [] {
      assert SizesOk(kids) by { NoSizes(); }
      NeverBelow(fs);
    } else {
      SizesStep(kids);
      ImportOneIff(fs, kids[0], p);
      ImportOneOk(fs, kids[0], p);
      var (f, ok) := ImportOne(fs, kids[0], p);
      if ok {
        RestReady(fs, f, p, kids);
        ImportIff(f, kids[1..], p);
      }
    }
  }

  lemma NoSizes()
    ensures SizesOk([])
  {
  }

  lemma NeverBelow(fs: Fs)
    requires BuilderOk(fs)
    ensures FreeInodes(fs) >= 0
  {
    hide BuilderOk;
    RootInUse(fs);
    InodeLeft(fs);
  }

  /** A tree fits an image: at most 255 files and directories, no name or file too long, on at most 15322 blocks. */
  predicate Fits(kids: seq<Node>) {
    SizesOk(kids) && Inodes(kids) <= 255 && Blocks(kids, 0) <= 15322
  }

  /** `import_tree` into an empty builder succeeds exactly when the tree fits. */
  lemma ImportFits(kids: seq<Node>)
    requires Importable(kids)
    ensures Import(MkfsImage.EmptyFs(), kids, 0).1 <==> Fits(kids)
  {
    hide Import, MkfsImage.EmptyFs, BuilderOk, Lookup, Importable, Tight, FreeSet, FreeInodes, SizesOk, Inodes, Blocks, Dir;
    var fs := MkfsImage.EmptyFs();
    MkfsImage.EmptyOk();
    EmptyBooks();
    forall x ensures Lookup(TreeOf(fs), 0, x) < 0 {
      MkfsImage.EmptyLookup(x);
    }
    ImportIff(fs, kids, 0);
  }

  lemma EmptyBooks()
    ensures var fs := MkfsImage.EmptyFs();
            Ready(fs, 0) && Tight(fs) && FreeInodes(fs) == 255 && |FreeSet(fs)| == 15322 && Dir(fs, 0) == []
  {
    hide BuilderOk, FreeSet, FreeInodes, Tight, BlockOf;
    var fs := MkfsImage.EmptyFs();
    MkfsImage.EmptyOk();
    assert FreeInodes(fs) == 255 by { EmptyInodes(); }
    assert |FreeSet(fs)| == 15322 by { EmptyBlocks(); }
    forall n | 0 <= n < 256 ensures TightAt(fs, n) {
      forall j | 0 <= j < 138 ensures BlockOf(fs, n, j) == 0 {
        NoBlocks(n, j);
      }
    }
    AllTight(fs);
    EmptyTable(fs, 0);
  }

  lemma NoBlocks(n: nat, j: nat)
    requires n < 256 && j < 138
    ensures BlockOf(MkfsImage.EmptyFs(), n, j) == 0
  {
    hide MkfsImage.EmptyFs;
    assert IsLoc(LocOf(n, j));
    MkfsImage.EmptyRefs(LocOf(n, j));
  }

  lemma EmptyInodes()
    ensures FreeInodes(MkfsImage.EmptyFs()) == 255
  {
    assert Used(MkfsImage.EmptyFs()) == {0};
  }

  function Between(lo: int, n: nat): (r: set<int>)
    ensures |r| == n && forall b :: b in r <==> lo <= b < lo + n
  {
    if n == 0 then {} else Between(lo, n - 1) + {lo + n - 1}
  }

  lemma EmptyBlocks()
    ensures |FreeSet(MkfsImage.EmptyFs())| == 15322
  {
    hide Between;
    var fs := MkfsImage.EmptyFs();
    forall b ensures b in FreeSet(fs) <==> b in Between(38, 15322) {
    }
    assert FreeSet(fs) == Between(38, 15322);
  }

  /** From a host tree to the kernel: every importable tree that fits is built, mounted and read back, path by path and byte
      for byte. */
  lemma FitsAndReads(kids: seq<Node>, names: seq<seq<byte>>, node: Node, cwd: u32)
    requires Importable(kids) && Fits(kids)
    requires node.FileNode? && MkfsImage.LeadsTo(kids, names, node) && |Paths.JoinPath(names)| < 256
    ensures var (g, ok) := Import(MkfsImage.EmptyFs(), kids, 0);
            var image := MkfsImage.Finish(g);
            var fs := Disk.View(image);
            && ok && MiniFs.SuperOk(image[0]) && FsInv(fs)
            && var c := Paths.Resolve(TreeOf(fs), cwd, Paths.JoinPath(names));
               && 0 <= c < 256 && fs.inodes[c].mode == (if node.exec then 0x101 else 1)
               && |node.bytes| <= 65536 && Pread(fs, c, 0, |node.bytes|) == ReadOk(node.bytes)
  {
    hide Import, MkfsImage.EmptyFs, MkfsImage.Finish, Disk.View, FsInv, TreeOf, Importable, Fits, MiniFs.SuperOk, Pread, Paths.Resolve;
    ImportFits(kids);
    MkfsImage.MkfsRoundTrip(kids, names, node, cwd);
  }
}
