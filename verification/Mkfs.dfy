/** The image builder of mkfs_minifs.py, block by block, and why it builds what the kernel's own operations would build: on an
    image whose free blocks are still zero, each of its steps is one of theirs. */
module Mkfs {
  import opened Bytes
  import opened FsBlocks
  import opened FsFiles
  import opened DirTree
  import opened FsTree

  // ---------------------------------------------------------------- the builder

  /** `alloc_block`: the lowest free block, marked; -1 stands for the exception. */
  function TakeBlock(fs: Fs): (r: (Fs, int)) {
    var b := FirstFree(fs.dataUsed, 38);
    if b == 15360 then (fs, -1) else (fs.(dataUsed := fs.dataUsed[b := true]), b as int)
  }

  /** `file_block` with allocation */
  function FileBlock(fs: Fs, n: nat, i: nat): (r: (Fs, int))
    requires n < 256
  {
    if i < 10 then
      if fs.inodes[n].direct[i] != 0 then (fs, fs.inodes[n].direct[i] as int)
      else
        var (f, b) := TakeBlock(fs);
        if b < 0 then (fs, -1) else (SetDirect(f, n, i, b), b)
    else if i >= 138 then (fs, -1)
    else
      var (f, top) := TopBlock(fs, n);
      if top < 0 then (f, -1)
      else
        var e := SlotOf(f, f.inodes[n], i - 10);
        if e != 0 then (f, e as int)
        else
          var (g, b) := TakeBlock(f);
          if b < 0 then (f, -1) else (PutBytes(g, top, 4 * (i - 10), U32Bytes(b)), b)
  }

  function TopBlock(fs: Fs, n: nat): (r: (Fs, int))
    requires n < 256
  {
    if fs.inodes[n].indirect != 0 then (fs, fs.inodes[n].indirect as int)
    else
      var (f, b) := TakeBlock(fs);
      if b < 0 then (fs, -1) else (SetIndirect(f, n, b), b)
  }

  /** The block loop of `write_file` from byte `off` on. */
  function WriteBlocks(fs: Fs, n: nat, off: nat, src: seq<byte>): (r: (Fs, bool))
    requires n < 256
    decreases |src|
  {
    if src == [] then (fs, true)
    else
      var (f, b) := FileBlock(fs, n, off / 512);
      if b < 0 then (f, false)
      else
        var chunk := Min(|src|, 512);
        WriteBlocks(PutBytes(f, b, 0, src[..chunk]), n, off + chunk, src[chunk..])
  }

  /** `write_file` */
  function WriteFile(fs: Fs, n: nat, data: seq<byte>): (r: (Fs, bool))
    requires n < 256
  {
    if |data| > 65536 then (fs, false)
    else
      var (g, ok) := WriteBlocks(fs, n, 0, data);
      if !ok then (g, false) else (SetSize(g, n, |data|), true)
  }

  /** `add_dirent` */
  function AddDirent(fs: Fs, p: nat, name: seq<byte>, child: u32, mode: u32): (r: (Fs, bool))
    requires p < 256
  {
    if name == [] || |name| > 55 || SLASH in name then (fs, false)
    else
      var index := fs.inodes[p].size / 64;
      var (f, b) := FileBlock(fs, p, index / 8);
      if b < 0 || f.inodes[p].size + 64 >= 0x1_0000_0000 then (f, false)
      else
        var g := PutBytes(f, b, 64 * (index % 8), DirentBytes(Dirent(child, mode, NameField(name))));
        (SetSize(g, p, g.inodes[p].size + 64), true)
  }

  /** `alloc_inode` followed by `add_dirent`: the new number; -1 stands for the exceptions. */
  function AddNode(fs: Fs, p: nat, name: seq<byte>, mode: u32): (r: (Fs, int))
    requires p < 256
  {
    var c := FirstFreeInode(fs.inodeUsed, 1);
    if c == 256 then (fs, -1)
    else
      var (f, ok) := AddDirent(WithNewInode(fs, c, mode, p), p, name, c, mode);
      if ok then (f, c as int) else (f, -1)
  }

  // ---------------------------------------------------------------- the same as the kernel

  /** Free blocks still hold the zeros of the empty image. */
  ghost predicate ZeroFree(fs: Fs) {
    forall b :: 38 <= b < 15360 && !fs.dataUsed[b] ==> fs.data[b - 38] == Zeros(512)
  }

  lemma TakeSame(fs: Fs)
    requires ZeroFree(fs)
    ensures TakeBlock(fs) == AllocBlock(fs)
    ensures var (f, b) := AllocBlock(fs); b < 15360 && ZeroFree(f) && (b >= 0 ==> f.dataUsed[b] && f.inodes == fs.inodes)
  {
    hide FirstFree, Zeros;
    var b := FirstFree(fs.dataUsed, 38);
    if b < 15360 {
      assert fs.data[b - 38 := Zeros(512)] == fs.data;
    }
  }

  /** Writing into a used block keeps free blocks zero. */
  lemma PutUsed(fs: Fs, b: nat, o: nat, t: seq<byte>)
    requires ZeroFree(fs) && o + |t| <= 512 && (IsDataBlock(b) ==> fs.dataUsed[b])
    ensures ZeroFree(PutBytes(fs, b, o, t))
  {
    hide Splice, Zeros;
  }

  lemma TopSame(fs: Fs, n: nat)
    requires ZeroFree(fs) && n < 256
    ensures TopBlock(fs, n) == EnsureIndirect(fs, n) && ZeroFree(EnsureIndirect(fs, n).0)
  {
    hide AllocBlock, TakeBlock, ZeroFree;
    TakeSame(fs);
    var (f, b) := AllocBlock(fs);
    if b >= 0 {
      ZeroOnlyData(f, SetIndirect(f, n, b));
    }
  }

  lemma ZeroOnlyData(fs: Fs, f: Fs)
    requires ZeroFree(fs) && f.data == fs.data && f.dataUsed == fs.dataUsed
    ensures ZeroFree(f)
  {
  }

  /** The block an inode's record names is marked. */
  lemma TopMarked(fs: Fs, n: nat)
    requires Owned(fs) && n < 256 && fs.inodes[n].indirect != 0
    ensures IsDataBlock(fs.inodes[n].indirect) && fs.dataUsed[fs.inodes[n].indirect]
  {
    var l := Indirect(n);
    assert IsLoc(l) && Ref(fs, l) == fs.inodes[n].indirect;
  }

  /** `file_block` is `ensure_inode_block`. */
  lemma FileBlockSame(fs: Fs, n: nat, i: nat)
    requires ZeroFree(fs) && Owned(fs) && n < 256
    ensures SameBlock(FileBlock(fs, n, i), EnsureBlock(fs, n, i))
  {
    hide FileBlock, EnsureBlock, ZeroFree;
    if i >= 138 {
      TooFar(fs, n, i);
    } else if i < 10 {
      DirectSame(fs, n, i);
    } else {
      SlotSame(fs, n, i);
    }
  }

  lemma TooFar(fs: Fs, n: nat, i: nat)
    requires n < 256 && i >= 138
    ensures FileBlock(fs, n, i).1 < 0 && EnsureBlock(fs, n, i).1 < 0
  {
  }

  lemma RefMarked(fs: Fs, l: Loc)
    requires Owned(fs) && IsLoc(l) && Ref(fs, l) != 0
    ensures IsDataBlock(Ref(fs, l)) && fs.dataUsed[Ref(fs, l)]
  {
  }

  /** What the two allocators agree on. */
  ghost predicate SameBlock(x: (Fs, int), y: (Fs, int)) {
    (x.1 < 0 <==> y.1 < 0) && (x.1 >= 0 ==> x == y && ZeroFree(x.0) && (IsDataBlock(x.1) ==> x.0.dataUsed[x.1]))
  }

  lemma DirectSame(fs: Fs, n: nat, i: nat)
    requires ZeroFree(fs) && Owned(fs) && n < 256 && i < 10
    ensures SameBlock(FileBlock(fs, n, i), EnsureBlock(fs, n, i))
  {
    hide AllocBlock, TakeBlock, ZeroFree, Owned;
    TakeSame(fs);
    if fs.inodes[n].direct[i] != 0 {
      RefMarked(fs, Direct(n, i));
    } else {
      var (f, b) := AllocBlock(fs);
      if b >= 0 {
        ZeroOnlyData(f, SetDirect(f, n, i, b));
      }
    }
  }

  lemma SlotSame(fs: Fs, n: nat, i: nat)
    requires ZeroFree(fs) && Owned(fs) && n < 256 && 10 <= i < 138
    ensures SameBlock(FileBlock(fs, n, i), EnsureBlock(fs, n, i))
  {
    hide AllocBlock, TakeBlock, ZeroFree, Owned, U32Bytes, EnsureIndirect, TopBlock, PutBytes, Ensured, SlotOf;
    TopSame(fs, n);
    var (f, top) := EnsureIndirect(fs, n);
    if top >= 0 {
      TopOwned(fs, n);
      TopMarked(f, n);
      var e := SlotOf(f, f.inodes[n], i - 10);
      if e != 0 {
        RefMarked(f, Slot(n, i - 10));
      } else {
        TakeSame(f);
        var (g, b) := AllocBlock(f);
        if b >= 0 {
          AllocKeeps(f, top);
          PutUsed(g, top, 4 * (i - 10), U32Bytes(b));
          PutMarks(g, top, 4 * (i - 10), U32Bytes(b));
        }
      }
    }
  }

  lemma TopOwned(fs: Fs, n: nat)
    requires Owned(fs) && n < 256 && EnsureIndirect(fs, n).1 >= 0
    ensures var (f, top) := EnsureIndirect(fs, n); Owned(f) && f.inodes[n].indirect == top && top != 0
  {
    hide Ensured, BlockOf, ByteAt, Leaked;
    EnsuredIndirect(fs, n);
  }

  lemma AllocKeeps(fs: Fs, b: nat)
    requires b < 16384 && fs.dataUsed[b]
    ensures AllocBlock(fs).0.dataUsed[b]
  {
  }

  lemma PutMarks(fs: Fs, b: nat, o: nat, t: seq<byte>)
    requires o + |t| <= 512
    ensures PutBytes(fs, b, o, t).dataUsed == fs.dataUsed && PutBytes(fs, b, o, t).inodes == fs.inodes
    ensures PutBytes(fs, b, o, t).inodeUsed == fs.inodeUsed
  {
  }

  // ---------------------------------------------------------------- write_file

  /** The size in the record plays no part in finding blocks. */
  lemma SizeFree(fs: Fs, n: nat, i: nat, z: u32)
    requires n < 256
    ensures var (f, b) := FileBlock(fs, n, i);
            FileBlock(SetSize(fs, n, z), n, i) == (SetSize(f, n, z), b)
  {
    hide FirstFree, SlotOf, U32Bytes, Splice;
    var (f, b) := FileBlock(fs, n, i);
    var (g, c) := FileBlock(SetSize(fs, n, z), n, i);
    SlotSize(fs, n, i, z);
    assert g.inodes == SetSize(f, n, z).inodes;
  }

  lemma SlotSize(fs: Fs, n: nat, i: nat, z: u32)
    requires n < 256
    ensures TopBlock(SetSize(fs, n, z), n) == (SetSize(TopBlock(fs, n).0, n, z), TopBlock(fs, n).1)
    ensures 10 <= i < 138 ==>
              var f := TopBlock(fs, n).0; SlotOf(SetSize(f, n, z), SetSize(f, n, z).inodes[n], i - 10) == SlotOf(f, f.inodes[n], i - 10)
  {
    hide FirstFree;
    var f, g := TopBlock(fs, n).0, TopBlock(SetSize(fs, n, z), n).0;
    assert g.inodes == SetSize(f, n, z).inodes;
  }

  lemma PutSize(fs: Fs, n: nat, b: nat, o: nat, t: seq<byte>, z: u32)
    requires n < 256 && o + |t| <= 512
    ensures PutBytes(SetSize(fs, n, z), b, o, t) == SetSize(PutBytes(fs, b, o, t), n, z)
  {
  }

  lemma SizeTwice(fs: Fs, n: nat, y: u32, z: u32)
    requires n < 256
    ensures SetSize(SetSize(fs, n, y), n, z) == SetSize(fs, n, z)
  {
  }

  lemma SizeOwned(fs: Fs, n: nat, z: u32)
    requires n < 256 && Owned(fs) && ZeroFree(fs)
    ensures Owned(SetSize(fs, n, z)) && ZeroFree(SetSize(fs, n, z))
  {
    forall l: Loc | IsLoc(l) ensures Ref(SetSize(fs, n, z), l) == Ref(fs, l) {
    }
  }

  /** The block loop is the kernel's copy loop, but for the size it keeps for the end. */
  lemma {:induction false} WriteBlocksSame(fs: Fs, n: nat, off: nat, src: seq<byte>, z: u32)
    requires n < 256 && Owned(fs) && ZeroFree(fs) && off % 512 == 0 && off + |src| <= 65536 && z <= off
    ensures var (g, ok) := WriteBlocks(fs, n, off, src);
            var (f, d) := WriteFrom(SetSize(fs, n, z), n, off, src);
            && (ok <==> d == |src|)
            && (ok ==> f == SetSize(g, n, if src == [] then z else off + |src|) && ZeroFree(g))
    decreases |src|
  {
    hide FileBlock, EnsureBlock, ZeroFree, Owned, PutBytes, SetSize;
    if src != [] {
      var chunk := Min(|src|, 512);
      FileBlockSame(fs, n, off / 512);
      SizeOwned(fs, n, z);
      FileBlockSame(SetSize(fs, n, z), n, off / 512);
      SizeFree(fs, n, off / 512, z);
      var (f, b) := FileBlock(fs, n, off / 512);
      if b >= 0 {
        WriteStep(fs, n, off, src, z, chunk);
      }
    }
  }

  /** One round of both loops. */
  lemma WriteStep(fs: Fs, n: nat, off: nat, src: seq<byte>, z: u32, chunk: nat)
    requires n < 256 && Owned(fs) && ZeroFree(fs) && off % 512 == 0 && off + |src| <= 65536 && z <= off
    requires src != [] && chunk == Min(|src|, 512) && FileBlock(fs, n, off / 512).1 >= 0
    ensures var (g, ok) := WriteBlocks(fs, n, off, src);
            var (f, d) := WriteFrom(SetSize(fs, n, z), n, off, src);
            && (ok <==> d == |src|)
            && (ok ==> f == SetSize(g, n, off + |src|) && ZeroFree(g))
    decreases |src|, 0
  {
    hide FileBlock, ZeroFree, Owned, PutBytes, SetSize, WriteChunk, WriteBlocks, WriteFrom;
    var (f, b) := FileBlock(fs, n, off / 512);
    var t := src[..chunk];
    RoundSame(fs, n, off, t, z);
    var u := PutBytes(f, b, 0, t);
    UnrollBlocks(fs, n, off, src, chunk);
    UnrollFrom(SetSize(fs, n, z), n, off, src, chunk, SetSize(u, n, off + chunk), b);
    if |src| > chunk {
      assert (off + chunk) % 512 == 0;
      WriteBlocksSame(u, n, off + chunk, src[chunk..], off + chunk);
    } else {
      assert src[chunk..] == [];
      UnrollNothing(u, n, off + chunk);
      UnrollNothing(SetSize(u, n, off + chunk), n, off + chunk);
    }
  }

  lemma UnrollNothing(fs: Fs, n: nat, off: nat)
    requires n < 256
    ensures WriteBlocks(fs, n, off, []) == (fs, true) && (off <= 65536 ==> WriteFrom(fs, n, off, []) == (fs, 0))
  {
  }

  lemma UnrollBlocks(fs: Fs, n: nat, off: nat, src: seq<byte>, chunk: nat)
    requires n < 256 && src != [] && chunk == Min(|src|, 512) && FileBlock(fs, n, off / 512).1 >= 0
    ensures var (f, b) := FileBlock(fs, n, off / 512);
            WriteBlocks(fs, n, off, src) == WriteBlocks(PutBytes(f, b, 0, src[..chunk]), n, off + chunk, src[chunk..])
  {
    hide FileBlock, PutBytes;
  }

  lemma UnrollFrom(fs: Fs, n: nat, off: nat, src: seq<byte>, chunk: nat, u: Fs, b: int)
    requires n < 256 && off % 512 == 0 && off + |src| <= 65536 && src != [] && chunk == Min(|src|, 512) && b >= 0
    requires WriteChunk(fs, n, off, src[..chunk]) == (u, b)
    ensures var (g, d) := WriteFrom(u, n, off + chunk, src[chunk..]); WriteFrom(fs, n, off, src) == (g, chunk + d)
  {
    hide WriteChunk;
  }

  lemma RoundSame(fs: Fs, n: nat, off: nat, t: seq<byte>, z: u32)
    requires n < 256 && Owned(fs) && ZeroFree(fs) && off % 512 == 0 && |t| <= 512 && off + |t| <= 65536 && z <= off
    requires FileBlock(fs, n, off / 512).1 >= 0
    ensures var (f, b) := FileBlock(fs, n, off / 512);
            var u := PutBytes(f, b, 0, t);
            Owned(u) && ZeroFree(u) && WriteChunk(SetSize(fs, n, z), n, off, t) == (SetSize(u, n, off + |t|), b)
  {
    hide FileBlock, EnsureBlock, ZeroFree, Owned, PutBytes, SetSize, Ensured, WriteChunk, BlockOf;
    var (f, b) := FileBlock(fs, n, off / 512);
    FileBlockSame(fs, n, off / 512);
    EnsureBlockSafe(fs, n, off / 512);
    EnsuredFacts(fs, f, n, off / 512, b);
    SizeOwned(fs, n, z);
    FileBlockSame(SetSize(fs, n, z), n, off / 512);
    SizeFree(fs, n, off / 512, z);
    var u := PutBytes(f, b, 0, t);
    PutSize(f, n, b, 0, t, z);
    PutUsed(f, b, 0, t);
    PutOwned(f, n, off / 512, b, t);
    SizeTwice(u, n, z, off + |t|);
    ChunkIs(SetSize(fs, n, z), SetSize(f, n, z), n, off, t, b, u, z);
  }

  lemma EnsuredFacts(fs: Fs, f: Fs, n: nat, i: nat, b: int)
    requires n < 256 && Ensured(fs, f, n, i, b) && b >= 0
    ensures Owned(f) && IsDataBlock(b) && BlockOf(f, n, i) == b && i < 138 && f.inodes[n].size == fs.inodes[n].size
    ensures f.inodes[n].mode == fs.inodes[n].mode
  {
    hide BlockOf, ByteAt, Leaked, Owned;
  }

  lemma PutOwned(fs: Fs, n: nat, i: nat, b: nat, t: seq<byte>)
    requires n < 256 && Owned(fs) && i < 138 && BlockOf(fs, n, i) == b && b != 0 && |t| <= 512
    ensures Owned(PutBytes(fs, b, 0, t))
  {
    hide PutBytes, ByteAt;
    assert 512 * i / 512 == i && 512 * i % 512 == 0;
    PutBytesAt(fs, n, 512 * i, t);
    OwnedTransfer(fs, PutBytes(fs, b, 0, t)) by { PutMarks(fs, b, 0, t); }
  }

  /** The kernel's round, from the builder's. */
  lemma ChunkIs(fs: Fs, f: Fs, n: nat, off: nat, t: seq<byte>, b: int, u: Fs, z: u32)
    requires n < 256 && off % 512 == 0 && |t| <= 512 && off + |t| < 0x1_0000_0000 && b >= 0
    requires EnsureBlock(fs, n, off / 512) == (f, b) && PutBytes(f, b, 0, t) == SetSize(u, n, z) && z <= off
    ensures WriteChunk(fs, n, off, t) == (SetSize(SetSize(u, n, z), n, off + |t|), b)
  {
    hide EnsureBlock, PutBytes;
  }

  /** `write_file` on a new file is the kernel's write of all its bytes at the start. */
  lemma WriteFileSame(fs: Fs, n: nat, data: seq<byte>)
    requires n < 256 && Owned(fs) && ZeroFree(fs) && fs.inodes[n].size == 0 && fs.inodes[n].mode % 256 == MODE_FILE
    ensures var (f, ok) := WriteFile(fs, n, data);
            && (ok <==> |data| <= 65536 && WriteAt(fs, n, 0, data).1 == |data|)
            && (ok ==> f == WriteAt(fs, n, 0, data).0 && ZeroFree(f))
  {
    hide WriteBlocks, WriteFrom, ZeroFree, Owned;
    if |data| <= 65536 {
      WriteBlocksSame(fs, n, 0, data, 0);
      assert SetSize(fs, n, 0) == fs by { assert fs.inodes[n := fs.inodes[n]] == fs.inodes; }
      assert data[..Min(|data|, 65536)] == data;
      var g := WriteBlocks(fs, n, 0, data).0;
      SizeData(g, n, |data|);
    }
  }

  lemma SizeData(fs: Fs, n: nat, z: u32)
    requires n < 256
    ensures SetSize(fs, n, z).data == fs.data && SetSize(fs, n, z).dataUsed == fs.dataUsed
    ensures ZeroFree(fs) ==> ZeroFree(SetSize(fs, n, z))
  {
  }

  // ---------------------------------------------------------------- add_dirent

  /** A directory without tombstones. */
  predicate AllLive(es: seq<Dirent>) {
    forall i :: 0 <= i < |es| ==> Live(es[i])
  }

  /** `add_dirent` is `dir_add` in a directory that has never lost an entry. */
  lemma AddDirentSame(fs: Fs, p: nat, name: seq<byte>, child: u32, mode: u32)
    requires p < 256 && FsOk(fs) && ZeroFree(fs) && InodeSane(fs, p) && fs.inodes[p].mode % 256 == MODE_DIR
    requires AllLive(Dir(fs, p)) && Lookup(TreeOf(fs), p, name) < 0 && 0 < |name| <= 55 && SLASH !in name
    ensures var (f, ok) := AddDirent(fs, p, name, child, mode);
            var (g, r) := DirAdd(fs, p, name, child, mode);
            (ok <==> r >= 0) && (ok ==> f == g && ZeroFree(f))
  {
    hide AddDirent, ZeroFree, FsOk, TreeOf, NoHoles, Table, Lookup, DirentBytes, NameField, WriteChunk, InodeSane, FreeSlot, AllLive;
    DirSize(fs, p);
    EntryFits(fs.inodes[p].size / 64);
    OwnedPart(fs);
    AddDirentChunk(fs, p, name, child, mode, fs.inodes[p].size / 64);
  }

  /** Storing the entry is one round of the kernel's write. */
  lemma AddDirentChunk(fs: Fs, p: nat, name: seq<byte>, child: u32, mode: u32, index: nat)
    requires p < 256 && Owned(fs) && ZeroFree(fs) && fs.inodes[p].size == 64 * index <= 138 * 512
    requires 0 < |name| <= 55 && SLASH !in name && 64 * index % 512 + 64 <= 512
    ensures var (f, ok) := AddDirent(fs, p, name, child, mode);
            var (g, b) := WriteChunk(fs, p, 64 * index, DirentBytes(Dirent(child, mode, NameField(name))));
            (ok <==> b >= 0) && (ok ==> f == g && ZeroFree(f))
  {
    hide FileBlock, EnsureBlock, ZeroFree, Owned, PutBytes, DirentBytes, NameField, Ensured, SetSize;
    EntryFits(index);
    FileBlockSame(fs, p, index / 8);
    EnsureBlockSafe(fs, p, index / 8);
    var (f, b) := FileBlock(fs, p, index / 8);
    if b >= 0 {
      EnsuredFacts(fs, f, p, index / 8, b);
      var t := DirentBytes(Dirent(child, mode, NameField(name)));
      PutMarks(f, b, 64 * (index % 8), t);
      PutUsed(f, b, 64 * (index % 8), t);
      var g := PutBytes(f, b, 64 * (index % 8), t);
      SizeData(g, p, g.inodes[p].size + 64);
    }
  }

  lemma OwnedPart(fs: Fs)
    requires FsOk(fs)
    ensures Owned(fs)
  {
  }

  lemma DirSize(fs: Fs, p: nat)
    requires p < 256 && InodeSane(fs, p) && fs.inodes[p].mode % 256 == MODE_DIR && AllLive(Dir(fs, p))
    ensures FreeSlot(Dir(fs, p), 0) == fs.inodes[p].size / 64 && fs.inodes[p].size == 64 * (fs.inodes[p].size / 64)
    ensures fs.inodes[p].size <= 138 * 512
  {
    hide NoHoles, FreeSlot;
    FreeAtEnd(Dir(fs, p));
  }

  lemma FreeAtEnd(es: seq<Dirent>)
    requires AllLive(es)
    ensures FreeSlot(es, 0) == |es|
  {
  }

  /** What the builder keeps: a sound file system, zero free blocks, blank free inodes, and no tombstones. */
  ghost predicate BuilderOk(fs: Fs) {
    && FsInv(fs) && ZeroFree(fs) && (forall n :: 0 <= n < 256 && !fs.inodeUsed[n] ==> fs.inodes[n] == FREE_INODE)
    && forall d :: 0 <= d < 256 && fs.inodes[d].mode % 256 == MODE_DIR ==> AllLive(Dir(fs, d))
  }

  /** `alloc_inode` and `add_dirent` together are `create_node`. */
  lemma AddNodeSame(fs: Fs, p: nat, name: seq<byte>, mode: u32)
    requires BuilderOk(fs) && p < 256 && fs.inodeUsed[p] && IsDir(TreeOf(fs), p) && GoodName(name)
    requires Lookup(TreeOf(fs), p, name) < 0
    ensures var (f, c) := AddNode(fs, p, name, mode);
            var (g, r) := CreateNode(fs, p, name, mode);
            (c >= 0 <==> r >= 0) && (c >= 0 ==> (f, c) == (g, r) && ZeroFree(f))
  {
    hide AddDirent, DirAdd, ZeroFree, FsOk, TreeOf, Table, Content, TreeOk, Lookup, FirstFreeInode, NoHoles;
    var c := FirstFreeInode(fs.inodeUsed, 1);
    if c < 256 {
      assert InodeSane(fs, c) && InodeSane(fs, p);
      NewInodeSafe(fs, c, mode, p);
      var f := WithNewInode(fs, c, mode, p);
      NewInodeZero(fs, c, mode, p);
      NewInodeDir(fs, c, mode, p, name);
      AddDirentSame(f, p, name, c, mode);
    }
  }

  lemma NewInodeZero(fs: Fs, c: nat, mode: u32, p: u32)
    requires c < 256 && ZeroFree(fs)
    ensures ZeroFree(WithNewInode(fs, c, mode, p))
  {
  }

  /** A directory looks the same beside a new inode. */
  lemma NewInodeDir(fs: Fs, c: nat, mode: u32, p: nat, name: seq<byte>)
    requires c < 256 && p < 256 && c != p && SameInode(fs, WithNewInode(fs, c, mode, p), p) && InodeSane(fs, p)
    requires IsDir(TreeOf(fs), p) && AllLive(Dir(fs, p)) && fs.inodeUsed[p]
    ensures var f := WithNewInode(fs, c, mode, p);
            && InodeSane(f, p) && f.inodes[p].mode % 256 == MODE_DIR && AllLive(Dir(f, p))
            && Lookup(TreeOf(f), p, name) == Lookup(TreeOf(fs), p, name)
  {
    hide Table, Content, BlockOf, FindName;
    var f := WithNewInode(fs, c, mode, p);
    assert Dir(f, p) == Dir(fs, p);
  }
}
