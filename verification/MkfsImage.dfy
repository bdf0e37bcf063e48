/** The finished image: what the kernel finds on a disk built by mkfs_minifs.py. */
module MkfsImage {
  import opened Bytes
  import opened FsBlocks
  import opened FsFiles
  import opened DirTree
  import opened FsTree
  import opened Paths
  import opened Disk
  import opened Mkfs
  import opened MkfsImport
  import MiniFs

  // ---------------------------------------------------------------- the empty builder

  const ROOT: Inode := Inode(2, 0, 0, 1, NO_BLOCKS, 0, 0)

  /** `MiniFSBuilder.__init__` */
  function EmptyFs(): (fs: Fs)
    ensures forall n :: 0 <= n < 256 ==> fs.inodeUsed[n] == (n == 0) && fs.inodes[n] == if n == 0 then ROOT else FREE_INODE
    ensures forall b :: 0 <= b < 16384 ==> fs.dataUsed[b] == (b < 38 || b >= 15360)
    ensures forall b :: 0 <= b < 16346 ==> fs.data[b] == Zeros(512)
  {
    Fs(seq(256, n => n == 0), seq(16384, b => b < 38 || b >= 15360), seq<Inode>(256, n => if n == 0 then ROOT else FREE_INODE),
       seq<Sector>(16346, b => Zeros(512)))
  }

  lemma EmptyRefs(l: Loc)
    requires IsLoc(l)
    ensures Ref(EmptyFs(), l) == 0
  {
    hide EmptyFs;
  }

  lemma EmptyBytes(n: nat, k: nat)
    requires n < 256
    ensures ByteAt(EmptyFs(), n, k) == 0
  {
    hide EmptyFs;
    if k / 512 < 138 {
      var l := LocOf(n, k / 512);
      assert IsLoc(l);
      EmptyRefs(l);
    }
  }

  lemma EmptyOk()
    ensures BuilderOk(EmptyFs())
  {
    hide EmptyFs, BlockOf, TreeOk, TreeOf, ByteAt;
    var fs := EmptyFs();
    forall l: Loc | IsLoc(l) ensures Ref(fs, l) == 0 {
      EmptyRefs(l);
    }
    forall n, k | 0 <= n < 256 && 0 <= k ensures ByteAt(fs, n, k) == 0 {
      EmptyBytes(n, k);
    }
    forall n | 0 <= n < 256 ensures Dir(fs, n) == [] {
      assert |Content(fs, n)| == 0;
    }
    EmptyTree();
  }

  lemma EmptyTree()
    ensures TreeOk(TreeOf(EmptyFs()))
  {
    hide EmptyFs;
    var fs := EmptyFs();
    var t := TreeOf(fs);
    forall n | 0 <= n < 256 ensures t.entries[n] == [] {
      assert |Content(fs, n)| == 0;
    }
    assert Rooted(t, 0, 0);
  }

  // ---------------------------------------------------------------- finish

  function SuperWords(): (ws: seq<u32>)
    ensures |ws| == 12
  {
    [0x4d46_5332, 2, 15360, 256, 1, 1, 2, 4, 6, 32, 38, 65536]
  }

  function SuperSector(): (s: Sector) {
    Splice(Zeros(512), 0, WordBytes(SuperWords()))
  }

  function PutInodeBits(d: Image, used: seq<bool>, i: nat): (r: Image)
    requires i <= 256 == |used|
    decreases 256 - i
  {
    if i == 256 then d else PutInodeBits(if used[i] then d[1 := SetBit(d[1], i, true)] else d, used, i + 1)
  }

  /** Sets bit `b` of the data map in the sector that holds it. */
  function PutDataBit(d: Image, b: nat): (r: Image)
    requires b < 16384
  {
    var m := SetBit(DataMap(d), b, true);
    var k := b / 4096;
    d[2 + k := m[512 * k..512 * k + 512]]
  }

  function PutDataBits(d: Image, used: seq<bool>, i: nat): (r: Image)
    requires i <= 16384 == |used|
    decreases 16384 - i
  {
    if i == 16384 then d else PutDataBits(if used[i] then PutDataBit(d, i) else d, used, i + 1)
  }

  function PutInodes(d: Image, fs: Fs, i: nat): (r: Image)
    requires i <= 256
    decreases 256 - i
  {
    if i == 256 then d
    else
      PutInodes(if fs.inodeUsed[i] then d[6 + i / 8 := PutInode(d[6 + i / 8], 64 * (i % 8), fs.inodes[i])] else d, fs, i + 1)
  }

  /** The image before `finish`: zeros, and the blocks written so far. */
  function Bare(fs: Fs): (d: Image) {
    Blank()[..38] + fs.data
  }

  /** `finish` */
  function Finish(fs: Fs): (d: Image) {
    PutInodes(PutDataBits(PutInodeBits(WithSuper(Bare(fs)), fs.inodeUsed, 0), fs.dataUsed, 0), fs, 0)
  }

  function WithSuper(d: Image): (e: Image) {
    d[0 := SuperSector()]
  }

  lemma BareView(fs: Fs)
    ensures var v := View(Bare(fs));
            && v.data == fs.data
            && (forall n :: 0 <= n < 256 ==> !v.inodeUsed[n] && v.inodes[n] == FREE_INODE)
            && (forall b :: 0 <= b < 16384 ==> !v.dataUsed[b])
  {
    hide Bit, InodeAt, Blank;
    var d := Bare(fs);
    assert d[38..] == fs.data;
    assert d[1] == ZERO_SECTOR && d[2] == ZERO_SECTOR && d[3] == ZERO_SECTOR && d[4] == ZERO_SECTOR && d[5] == ZERO_SECTOR;
    assert forall k :: 0 <= k < 2048 ==> DataMap(d)[k] == 0;
    forall n | 0 <= n < 256 ensures !BitAt(d[1], n) && InodeAt(d[6 + n / 8], 64 * (n % 8)) == FREE_INODE {
      BitsOfZero(d[1][n / 8], n % 8);
      assert d[6 + n / 8] == ZERO_SECTOR;
      ZeroInode(64 * (n % 8));
    }
    forall b | 0 <= b < 16384 ensures !BitAt(DataMap(d), b) {
      BitsOfZero(DataMap(d)[b / 8], b % 8);
    }
  }

  lemma ZeroInode(o: nat)
    requires o + 64 <= 512
    ensures InodeAt(ZERO_SECTOR, o) == FREE_INODE
  {
    var ws := WordsAt(ZERO_SECTOR, o, 16);
    assert forall i :: 0 <= i < 16 ==> ws[i] == 0;
    assert ws[4..14] == NO_BLOCKS;
  }

  lemma SuperView(d: Image, s: Sector)
    ensures View(d[0 := s]) == View(d)
  {
    var e: Image := d[0 := s];
    assert DataMap(e) == DataMap(d);
    assert InodeTable(e) == InodeTable(d);
    assert e[38..] == d[38..];
  }

  lemma {:induction false} InodeBitsView(d: Image, used: seq<bool>, i: nat)
    requires i <= 256 == |used| && forall n :: 0 <= n < 256 ==> View(d).inodeUsed[n] == (n < i && used[n])
    ensures View(PutInodeBits(d, used, i)) == View(d).(inodeUsed := used) && PutInodeBits(d, used, i)[0] == d[0]
    decreases 256 - i
  {
    hide View, SetBit;
    if i == 256 {
      assert View(d).inodeUsed == used;
    } else {
      var e: Image := if used[i] then d[1 := SetBit(d[1], i, true)] else d;
      if used[i] {
        ViewPutInodeBit(d, i, true);
      }
      InodeBitsView(e, used, i + 1);
    }
  }

  lemma {:induction false} DataBitsView(d: Image, used: seq<bool>, i: nat)
    requires i <= 16384 == |used| && forall b :: 0 <= b < 16384 ==> View(d).dataUsed[b] == (b < i && used[b])
    ensures View(PutDataBits(d, used, i)) == View(d).(dataUsed := used) && PutDataBits(d, used, i)[0] == d[0]
    decreases 16384 - i
  {
    hide View, SetBit, DataMap;
    if i == 16384 {
      assert View(d).dataUsed == used;
    } else {
      var e: Image := if used[i] then PutDataBit(d, i) else d;
      if used[i] {
        ViewPutDataBit(d, i, true);
      }
      DataBitsView(e, used, i + 1);
    }
  }

  lemma {:induction false} InodesView(d: Image, fs: Fs, i: nat)
    requires i <= 256 && forall n :: 0 <= n < 256 ==> View(d).inodes[n] == if n < i then fs.inodes[n] else FREE_INODE
    requires forall n :: 0 <= n < 256 && !fs.inodeUsed[n] ==> fs.inodes[n] == FREE_INODE
    ensures View(PutInodes(d, fs, i)) == View(d).(inodes := fs.inodes) && PutInodes(d, fs, i)[0] == d[0]
    decreases 256 - i
  {
    hide View, PutInode;
    if i == 256 {
      assert View(d).inodes == fs.inodes;
    } else {
      var e: Image := if fs.inodeUsed[i] then d[6 + i / 8 := PutInode(d[6 + i / 8], 64 * (i % 8), fs.inodes[i])] else d;
      if fs.inodeUsed[i] {
        ViewPutInode(d, i, fs.inodes[i]);
      }
      InodesView(e, fs, i + 1);
    }
  }

  lemma SuperReads()
    ensures MiniFs.SuperOk(SuperSector())
  {
    WordsRoundTrip(Zeros(512), 0, SuperWords());
  }

  /** The kernel mounts the finished image and finds exactly the file system that was built. */
  lemma FinishView(fs: Fs)
    requires forall n :: 0 <= n < 256 && !fs.inodeUsed[n] ==> fs.inodes[n] == FREE_INODE
    ensures View(Finish(fs)) == fs && MiniFs.SuperOk(Finish(fs)[0])
  {
    hide View, PutInodeBits, PutDataBits, PutInodes, Bare, SuperSector, MiniFs.SuperOk;
    BareView(fs);
    SuperReads();
    var d0: Image := Bare(fs)[0 := SuperSector()];
    SuperView(Bare(fs), SuperSector());
    InodeBitsView(d0, fs.inodeUsed, 0);
    var d1 := PutInodeBits(d0, fs.inodeUsed, 0);
    DataBitsView(d1, fs.dataUsed, 0);
    var d2 := PutDataBits(d1, fs.dataUsed, 0);
    InodesView(d2, fs, 0);
  }

  // ---------------------------------------------------------------- paths

  lemma {:induction false} JoinedComponents(names: seq<seq<byte>>)
    requires forall i :: 0 <= i < |names| ==> GoodName(names[i])
    ensures Components(JoinPath(names)) == names
  {
    if names != [] {
      var n := |names| - 1;
      JoinedComponents(names[..n]);
      var a := JoinPath(names[..n]);
      ComponentsAppend(a, names[n], []);
      assert a + [SLASH] + names[n] + [] == a + [SLASH] + names[n];
      assert names == names[..n] + [names[n]];
    }
  }

  lemma {:induction false} JoinedStarts(names: seq<seq<byte>>)
    requires names != []
    ensures JoinPath(names) != [] && JoinPath(names)[0] == SLASH
  {
    if |names| > 1 {
      JoinedStarts(names[..|names| - 1]);
    }
  }

  /** The names lead from a directory with these children to `node`. */
  ghost predicate LeadsTo(kids: seq<Node>, names: seq<seq<byte>>, node: Node)
    decreases |names|, 1
  {
    names != [] && exists i :: 0 <= i < |kids| && Follows(kids[i], names, node)
  }

  ghost predicate Follows(kid: Node, names: seq<seq<byte>>, node: Node)
    requires names != []
    decreases |names|, 0
  {
    && kid.name == names[0]
    && if |names| == 1 then kid == node else kid.DirNode? && LeadsTo(kid.children, names[1..], node)
  }

  lemma {:induction false} WalkHolds(fs: Fs, d: nat, kids: seq<Node>, names: seq<seq<byte>>, node: Node, before: set<nat>)
    requires d < 256 && node.FileNode? && LeadsTo(kids, names, node) && FsInv(fs)
    requires forall i :: 0 <= i < |kids| ==> Holds(fs, d, kids[i], before)
    ensures forall i :: 0 <= i < |names| ==> GoodName(names[i])
    ensures Walk(TreeOf(fs), d, names) >= 0 && FileHeld(fs, Walk(TreeOf(fs), d, names), node)
    decreases |names|
  {
    hide TreeOf, Lookup, FileHeld, FsInv, GoodName, Holds, Walk;
    var i :| 0 <= i < |kids| && Follows(kids[i], names, node);
    HeldChild(fs, d, kids[i], before);
    var c := Lookup(TreeOf(fs), d, names[0]);
    FoundGood(fs, d, names[0]);
    WalkStep(TreeOf(fs), d, names);
    if |names| == 1 {
      assert names[1..] == [];
      WalkEnd(TreeOf(fs), c);
    } else {
      WalkHolds(fs, c, kids[i].children, names[1..], node, before);
      forall j | 0 <= j < |names| ensures GoodName(names[j]) {
        if j > 0 {
          assert names[j] == names[1..][j - 1];
        }
      }
    }
  }

  lemma HeldChild(fs: Fs, d: nat, kid: Node, before: set<nat>)
    requires Holds(fs, d, kid, before)
    ensures var c := Lookup(TreeOf(fs), d, kid.name);
            && 0 <= c < 256 && (kid.FileNode? ==> FileHeld(fs, c, kid))
            && (kid.DirNode? ==> forall i :: 0 <= i < |kid.children| ==> Holds(fs, c, kid.children[i], before))
  {
    hide TreeOf, Lookup, FileHeld;
  }

  /** A proper name that is found leads on. */
  lemma WalkStep(t: Tree, d: nat, names: seq<seq<byte>>)
    requires names != [] && GoodName(names[0]) && Lookup(t, d, names[0]) >= 0
    ensures Walk(t, d, names) == Walk(t, Lookup(t, d, names[0]), names[1..])
  {
    hide Lookup;
  }

  lemma WalkEnd(t: Tree, c: nat)
    ensures Walk(t, c, []) == c
  {
  }

  /** Whatever is found in a sound directory has a proper name. */
  lemma FoundGood(fs: Fs, d: nat, name: seq<byte>)
    requires FsInv(fs) && Lookup(TreeOf(fs), d, name) >= 0
    ensures GoodName(name)
  {
    hide TreeOf, GoodName, CString, NamesUnique, LinkedOnce, Linked, AllRooted, FsOk;
    var t := TreeOf(fs);
    assert LiveAt(t, d, FindName(t.entries[d], name, 0));
  }

  /** mkfs to kernel round trip: for every importable tree that fits, the kernel mounts the image, the file system on it is
      sound, and every imported file with a path short enough for the kernel resolves and reads back byte for byte. */
  lemma MkfsRoundTrip(kids: seq<Node>, names: seq<seq<byte>>, node: Node, cwd: u32)
    requires Importable(kids) && Import(EmptyFs(), kids, 0).1
    requires node.FileNode? && LeadsTo(kids, names, node) && |JoinPath(names)| < 256
    ensures var image := Finish(Import(EmptyFs(), kids, 0).0);
            var fs := View(image);
            && MiniFs.SuperOk(image[0]) && FsInv(fs)
            && var c := Resolve(TreeOf(fs), cwd, JoinPath(names));
               && 0 <= c < 256 && fs.inodes[c].mode == (if node.exec then 0x101 else 1)
               && |node.bytes| <= 65536 && Pread(fs, c, 0, |node.bytes|) == ReadOk(node.bytes)
  {
    hide Import, Finish, View, BuilderOk, EmptyFs, FsInv, TreeOf, Lookup, Walk, GoodName, Importable, Components, FileHeld, MiniFs.SuperOk;
    var g := Import(EmptyFs(), kids, 0).0;
    ImportFromEmpty(kids);
    FinishView(g);
    WalkHolds(g, 0, kids, names, node, Used(EmptyFs()));
    JoinedComponents(names);
    JoinedStarts(names);
    HeldReads(g, Walk(TreeOf(g), 0, names), node);
  }

  lemma ImportFromEmpty(kids: seq<Node>)
    requires Importable(kids) && Import(EmptyFs(), kids, 0).1
    ensures var g := Import(EmptyFs(), kids, 0).0;
            && FsInv(g) && (forall n :: 0 <= n < 256 && !g.inodeUsed[n] ==> g.inodes[n] == FREE_INODE)
            && forall i :: 0 <= i < |kids| ==> Holds(g, 0, kids[i], Used(EmptyFs()))
  {
    hide Import, EmptyFs, FsInv, ZeroFree, Lookup, Importable, Holds, AllLive;
    EmptyOk();
    forall x ensures Lookup(TreeOf(EmptyFs()), 0, x) < 0 {
      EmptyLookup(x);
    }
    ImportOk(EmptyFs(), kids, 0);
  }

  lemma EmptyLookup(x: seq<byte>)
    ensures Lookup(TreeOf(EmptyFs()), 0, x) < 0
  {
    hide EmptyFs;
    assert |Content(EmptyFs(), 0)| == 0;
  }

  lemma HeldReads(fs: Fs, c: nat, node: Node)
    requires FsInv(fs) && FileHeld(fs, c, node)
    ensures fs.inodes[c].mode == ModeOf(node) && c < 256
    ensures |node.bytes| <= 65536 && Pread(fs, c, 0, |node.bytes|) == ReadOk(node.bytes)
  {
    hide FsOk, TreeOk, TreeOf, HoleIn, NoHoles, Content, BlockOf;
    assert InodeSane(fs, c);
    assert |Content(fs, c)| == fs.inodes[c].size;
    NoHoleInside(fs, c, 0, |node.bytes|);
    assert Content(fs, c)[0..|node.bytes|] == node.bytes;
  }
}
