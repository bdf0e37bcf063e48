/** File contents of MiniFS: the byte sequence an inode stands for, and how `write_at`,
    `minifs_pread` and `truncate_inode` act on it. */
module FsFiles {
  import opened Bytes
  import opened FsBlocks

  const MODE_FILE := 1
  const MODE_DIR := 2

  function Min(a: int, b: int): int {
    if a <= b then a else b
  }

  function Max(a: int, b: int): int {
    if a <= b then b else a
  }

  /** The bytes of inode `n`; holes are zeros. */
  function Content(fs: Fs, n: nat): (c: seq<byte>)
    requires n < 256
    ensures |c| == fs.inodes[n].size
    ensures forall k :: 0 <= k < |c| ==> c[k] == ByteAt(fs, n, k)
  {
    seq(fs.inodes[n].size, k requires 0 <= k => ByteAt(fs, n, k))
  }

  /** `d` written over `c` at offset `o`; a gap past the end of `c` is filled with zeros. */
  function Overlay(c: seq<byte>, o: nat, d: seq<byte>): (r: seq<byte>)
    ensures |r| == Max(|c|, o + |d|)
    ensures forall k :: 0 <= k < |r| ==>
              r[k] == if o <= k < o + |d| then d[k - o] else if k < |c| then c[k] else 0
  {
    seq(Max(|c|, o + |d|), k requires 0 <= k =>
      if o <= k < o + |d| then d[k - o] else if k < |c| then c[k] else 0)
  }

  /** Whatever a block holds past the end of its file is zero. */
  ghost predicate ZeroTail(fs: Fs) {
    forall n, k :: 0 <= n < 256 && fs.inodes[n].size <= k ==> ByteAt(fs, n, k) == 0
  }

  ghost predicate FsOk(fs: Fs) {
    Owned(fs) && ZeroTail(fs)
  }

  /** No logical block below the end of the file is missing. */
  ghost predicate NoHoles(fs: Fs, n: nat)
    requires n < 256
  {
    forall i :: 0 <= i < 138 && 512 * i < fs.inodes[n].size ==> BlockOf(fs, n, i) != 0
  }

  /** Logical block `i` holds some of the `len` bytes from `off` on. */
  ghost predicate Overlaps(off: nat, len: nat, i: int) {
    0 < len && 512 * i < off + len && off < 512 * i + 512
  }

  /** Inode `n` has the blocks it had, and those of the `len` bytes from `off` on. */
  ghost predicate BlocksAdded(fs: Fs, after: Fs, n: nat, off: nat, len: nat)
    requires n < 256
  {
    forall i :: 0 <= i < 138 ==> (BlockOf(after, n, i) != 0 <==> BlockOf(fs, n, i) != 0 || Overlaps(off, len, i))
  }

  ghost predicate Full(fs: Fs) {
    forall b :: 38 <= b < 15360 ==> fs.dataUsed[b]
  }

  /** Inode `m` is exactly as before: its record, its block map and its bytes. */
  ghost predicate SameInode(fs: Fs, after: Fs, m: nat)
    requires m < 256
  {
    && after.inodes[m] == fs.inodes[m]
    && (forall i :: 0 <= i < 138 ==> BlockOf(after, m, i) == BlockOf(fs, m, i))
    && Content(after, m) == Content(fs, m)
  }

  ghost predicate OthersSame(fs: Fs, after: Fs, n: nat) {
    && after.inodeUsed == fs.inodeUsed
    && forall m :: 0 <= m < 256 && m != n ==> SameInode(fs, after, m)
  }

  // ---------------------------------------------------------------- writing

  function SetSize(fs: Fs, n: nat, size: u32): (r: Fs)
    requires n < 256
  {
    SetInode(fs, n, fs.inodes[n].(size := size))
  }

  /** Writes `t` inside one logical block of inode `n`, allocating it when missing, and extends the size. */
  function WriteChunk(fs: Fs, n: nat, off: nat, t: seq<byte>): (r: (Fs, int))
    requires n < 256 && off % 512 + |t| <= 512 && off + |t| < 0x1_0000_0000
  {
    var (f, b) := EnsureBlock(fs, n, off / 512);
    if b < 0 then (f, -1)
    else
      var g := PutBytes(f, b, off % 512, t);
      (SetSize(g, n, Max(g.inodes[n].size, off + |t|)), b)
  }

  /** The copy loop of `write_at`: how far it gets and what it leaves. */
  function WriteFrom(fs: Fs, n: nat, off: nat, src: seq<byte>): (r: (Fs, nat))
    requires n < 256 && off + |src| <= 65536
    ensures r.1 <= |src|
    decreases |src|
  {
    if src == [] then (fs, 0)
    else
      var chunk := Min(|src|, 512 - off % 512);
      var (f, b) := WriteChunk(fs, n, off, src[..chunk]);
      if b < 0 then (f, 0)
      else
        var (g, d) := WriteFrom(f, n, off + chunk, src[chunk..]);
        (g, chunk + d)
  }

  /** `write_at`: the number of bytes written, or -1. */
  function WriteAt(fs: Fs, n: nat, off: u32, src: seq<byte>): (r: (Fs, int))
  {
    if off >= 65536 then (fs, 0)
    else if n >= 256 || fs.inodes[n].mode % 256 != MODE_FILE then (fs, -1)
    else
      WriteFrom(SetSize(fs, n, Max(fs.inodes[n].size, off)), n, off, src[..Min(|src|, 65536 - off)])
  }

  /** Storing bytes in a content block changes exactly those bytes, and no block number anywhere. */
  lemma PutBytesAt(fs: Fs, n: nat, off: nat, t: seq<byte>)
    requires n < 256 && off / 512 < 138 && off % 512 + |t| <= 512
    requires Owned(fs) && BlockOf(fs, n, off / 512) != 0
    ensures var after := PutBytes(fs, BlockOf(fs, n, off / 512), off % 512, t);
            && (forall l: Loc :: IsLoc(l) ==> Ref(after, l) == Ref(fs, l))
            && (forall m, k :: 0 <= m < 256 && 0 <= k ==>
                  ByteAt(after, m, k) == if m == n && off <= k < off + |t| then t[k - off] else ByteAt(fs, m, k))
  {
    var l0 := LocOf(n, off / 512);
    var b := Ref(fs, l0);
    assert IsLoc(l0) && BlockOf(fs, n, off / 512) == b;
    var after := PutBytes(fs, b, off % 512, t);
    forall l: Loc | IsLoc(l) ensures Ref(after, l) == Ref(fs, l) {
      if l.Slot? {
        assert Ref(fs, Indirect(l.n)) == fs.inodes[l.n].indirect;
      }
    }
    forall m, k | 0 <= m < 256 && 0 <= k
      ensures ByteAt(after, m, k) == if m == n && off <= k < off + |t| then t[k - off] else ByteAt(fs, m, k)
    {
      PutByteAt(fs, n, off, t, m, k);
    }
  }

  lemma PutByteAt(fs: Fs, n: nat, off: nat, t: seq<byte>, m: nat, k: nat)
    requires n < 256 && off / 512 < 138 && off % 512 + |t| <= 512 && m < 256
    requires Owned(fs) && BlockOf(fs, n, off / 512) != 0
    ensures ByteAt(PutBytes(fs, BlockOf(fs, n, off / 512), off % 512, t), m, k)
         == if m == n && off <= k < off + |t| then t[k - off] else ByteAt(fs, m, k)
  {
    var l0 := LocOf(n, off / 512);
    var after := PutBytes(fs, Ref(fs, l0), off % 512, t);
    assert IsLoc(l0);
    if k / 512 < 138 {
      var l := LocOf(m, k / 512);
      assert IsLoc(l);
      if l.Slot? {
        assert IsLoc(Indirect(m)) && Ref(fs, Indirect(m)) == fs.inodes[m].indirect;
      }
      assert Ref(after, l) == Ref(fs, l);
      if Ref(fs, l) == Ref(fs, l0) && Ref(fs, l) != 0 {
        assert l == l0;
        assert k / 512 == off / 512;
      }
    }
  }

  /** States with the same block numbers and marks are owned alike. */
  lemma OwnedTransfer(fs: Fs, after: Fs)
    requires Owned(fs) && after.dataUsed == fs.dataUsed
    requires forall l: Loc :: IsLoc(l) ==> Ref(after, l) == Ref(fs, l)
    ensures Owned(after) && Leaked(after) == Leaked(fs)
  {
    forall b ensures Referenced(after, b) <==> Referenced(fs, b) {
      if Referenced(fs, b) {
        var l: Loc :| IsLoc(l) && Ref(fs, l) == b;
        assert Ref(after, l) == b;
      }
    }
  }

  /** What one chunk does to the whole file system. */
  ghost predicate ChunkWritten(fs: Fs, after: Fs, n: nat, off: nat, t: seq<byte>, r: int)
    requires n < 256
  {
    && FsOk(after) && Leaked(after) == Leaked(fs)
    && OthersSame(fs, after, n)
    && after.inodes[n].mode == fs.inodes[n].mode && after.inodes[n].parent == fs.inodes[n].parent
    && (NoHoles(fs, n) ==> NoHoles(after, n)) && BlocksAdded(fs, after, n, off, if r < 0 then 0 else |t|)
    && (r >= 0 ==> Content(after, n) == Overlay(Content(fs, n), off, t) && BlockOf(after, n, off / 512) != 0)
    && (r < 0 ==> Content(after, n) == Content(fs, n) && Full(after))
  }

  lemma EnsureFails(fs: Fs, n: nat, i: nat)
    requires n < 256 && i < 138 && EnsureBlock(fs, n, i).1 < 0
    ensures Full(EnsureBlock(fs, n, i).0)
  {
  }

  /** Allocating a block leaves every file as it was. */
  lemma EnsuredFiles(fs: Fs, f: Fs, n: nat, i: nat, r: int)
    requires n < 256 && FsOk(fs) && Ensured(fs, f, n, i, r)
    ensures FsOk(f) && OthersSame(fs, f, n) && Content(f, n) == Content(fs, n)
    ensures NoHoles(fs, n) ==> NoHoles(f, n)
  {
    forall m | 0 <= m < 256 && m != n ensures SameInode(fs, f, m) {
    }
  }

  /** Storing a chunk in a block that is there. */
  lemma ChunkStored(f: Fs, n: nat, off: nat, t: seq<byte>, after: Fs)
    requires n < 256 && off / 512 < 138 && off % 512 + |t| <= 512 && 0 < |t|
    requires FsOk(f) && off <= f.inodes[n].size && BlockOf(f, n, off / 512) != 0
    requires after == SetSize(PutBytes(f, BlockOf(f, n, off / 512), off % 512, t), n, Max(f.inodes[n].size, off + |t|))
    ensures FsOk(after) && Leaked(after) == Leaked(f) && OthersSame(f, after, n)
    ensures forall i :: 0 <= i < 138 ==> BlockOf(after, n, i) == BlockOf(f, n, i)
    ensures Content(after, n) == Overlay(Content(f, n), off, t)
  {
    PutBytesAt(f, n, off, t);
    var g := PutBytes(f, BlockOf(f, n, off / 512), off % 512, t);
    forall l: Loc | IsLoc(l) ensures Ref(after, l) == Ref(f, l) {
      assert Ref(after, l) == Ref(g, l);
    }
    OwnedTransfer(f, after);
    ResizedBytes(g, after, n);
    forall m, i | 0 <= m < 256 && 0 <= i < 138 ensures BlockOf(after, m, i) == BlockOf(f, m, i) {
      assert IsLoc(LocOf(m, i));
    }
    forall m | 0 <= m < 256 && m != n ensures SameInode(f, after, m) {
    }
  }

  lemma WriteChunkRefines(fs: Fs, n: nat, off: nat, t: seq<byte>)
    requires n < 256 && off / 512 < 138 && off % 512 + |t| <= 512 && 0 < |t|
    requires FsOk(fs) && off <= fs.inodes[n].size
    ensures var (after, r) := WriteChunk(fs, n, off, t); ChunkWritten(fs, after, n, off, t, r)
  {
    var (f, b) := EnsureBlock(fs, n, off / 512);
    EnsureBlockSafe(fs, n, off / 512);
    EnsuredFiles(fs, f, n, off / 512, b);
    if b < 0 {
      EnsureFails(fs, n, off / 512);
    } else {
      var after := WriteChunk(fs, n, off, t).0;
      ChunkStored(f, n, off, t, after);
      OthersTransitive(fs, f, after, n);
      if NoHoles(fs, n) {
        StillNoHoles(f, after, n, off, t);
      }
    }
  }

  lemma StillNoHoles(f: Fs, after: Fs, n: nat, off: nat, t: seq<byte>)
    requires n < 256 && off % 512 + |t| <= 512 && off / 512 < 138
    requires NoHoles(f, n) && off <= f.inodes[n].size && BlockOf(f, n, off / 512) != 0
    requires after.inodes[n].size == Max(f.inodes[n].size, off + |t|)
    requires forall i :: 0 <= i < 138 ==> BlockOf(after, n, i) == BlockOf(f, n, i)
    ensures NoHoles(after, n)
  {
    forall i | 0 <= i < 138 && 512 * i < after.inodes[n].size ensures BlockOf(after, n, i) != 0 {
      assert i != off / 512 ==> 512 * i < f.inodes[n].size;
    }
  }

  /** Changing the recorded size moves no block and no byte. */
  lemma ResizedBytes(g: Fs, after: Fs, n: nat)
    requires n < 256 && after == SetSize(g, n, after.inodes[n].size)
    ensures forall m, k :: 0 <= m < 256 && 0 <= k ==> ByteAt(after, m, k) == ByteAt(g, m, k)
    ensures forall m, i :: 0 <= m < 256 && 0 <= i < 138 ==> BlockOf(after, m, i) == BlockOf(g, m, i)
  {
  }

  /** What a whole write does: `d` bytes of `src` laid over the file at `off`. */
  ghost predicate Written(fs: Fs, after: Fs, n: nat, off: nat, src: seq<byte>, d: nat)
    requires n < 256
  {
    && FsOk(after) && Leaked(after) == Leaked(fs)
    && OthersSame(fs, after, n)
    && after.inodes[n].mode == fs.inodes[n].mode && after.inodes[n].parent == fs.inodes[n].parent
    && d <= |src|
    && Content(after, n) == Overlay(Content(fs, n), off, src[..d])
    && (d < |src| ==> Full(after))
    && BlocksAdded(fs, after, n, off, d)
    && (NoHoles(fs, n) && off <= fs.inodes[n].size ==> NoHoles(after, n))
  }

  lemma {:induction false} WriteFromRefines(fs: Fs, n: nat, off: nat, src: seq<byte>)
    requires n < 256 && off + |src| <= 65536
    requires FsOk(fs) && off <= fs.inodes[n].size
    ensures var (after, d) := WriteFrom(fs, n, off, src); Written(fs, after, n, off, src, d)
    decreases |src|
  {
    hide WriteChunk, Leaked, FsOk, OthersSame, Full, NoHoles, BlocksAdded, BlockOf, ByteAt, Overlay, Written;
    if src == [] {
      NothingWritten(fs, n, off, src);
    } else {
      var chunk := Min(|src|, 512 - off % 512);
      assert 0 < chunk && off % 512 + chunk <= 512 && off / 512 < 138;
      var (f, b) := WriteChunk(fs, n, off, src[..chunk]);
      WriteChunkRefines(fs, n, off, src[..chunk]);
      if b >= 0 {
        assert f.inodes[n].size >= off + chunk by { ChunkSize(fs, f, n, off, src[..chunk], b); }
        WriteFromRefines(f, n, off + chunk, src[chunk..]);
        var (g, d) := WriteFrom(f, n, off + chunk, src[chunk..]);
        WrittenTwice(fs, f, g, n, off, src, chunk, d, b);
      } else {
        ChunkFailed(fs, f, n, off, src, chunk, b);
      }
    }
  }

  lemma ChunkSize(fs: Fs, f: Fs, n: nat, off: nat, t: seq<byte>, b: int)
    requires n < 256 && b >= 0 && ChunkWritten(fs, f, n, off, t, b)
    ensures f.inodes[n].size >= off + |t|
  {
    hide FsOk, OthersSame, Leaked, Full, NoHoles, BlocksAdded, BlockOf, ByteAt;
    assert f.inodes[n].size == |Content(f, n)|;
  }

  lemma NothingWritten(fs: Fs, n: nat, off: nat, src: seq<byte>)
    requires n < 256 && FsOk(fs) && off <= fs.inodes[n].size && src == []
    ensures Written(fs, fs, n, off, src, 0)
  {
    assert Overlay(Content(fs, n), off, src[..0]) == Content(fs, n);
  }

  lemma ChunkFailed(fs: Fs, f: Fs, n: nat, off: nat, src: seq<byte>, chunk: nat, b: int)
    requires n < 256 && chunk <= |src| && off <= fs.inodes[n].size && b < 0
    requires ChunkWritten(fs, f, n, off, src[..chunk], b)
    ensures Written(fs, f, n, off, src, 0)
  {
    assert Overlay(Content(fs, n), off, src[..0]) == Content(fs, n);
  }

  lemma WrittenTwice(fs: Fs, f: Fs, g: Fs, n: nat, off: nat, src: seq<byte>, chunk: nat, d: nat, b: int)
    requires n < 256 && chunk <= |src| && off <= fs.inodes[n].size && b >= 0
    requires ChunkWritten(fs, f, n, off, src[..chunk], b)
    requires Written(f, g, n, off + chunk, src[chunk..], d)
    ensures Written(fs, g, n, off, src, chunk + d)
  {
    hide Overlay, ByteAt, FsOk, SameInode, OthersSame, Leaked, Full, BlockOf, NoHoles, BlocksAdded;
    OverlayTwice(Content(fs, n), off, src[..chunk], src[chunk..][..d]);
    AddedTwice(fs, f, g, n, off, chunk, d);
    assert src[..chunk] + src[chunk..][..d] == src[..chunk + d];
    OthersTransitive(fs, f, g, n);
  }

  lemma AddedTwice(f: Fs, g: Fs, h: Fs, n: nat, off: nat, a: nat, b: nat)
    requires n < 256 && BlocksAdded(f, g, n, off, a) && BlocksAdded(g, h, n, off + a, b)
    ensures BlocksAdded(f, h, n, off, a + b)
  {
    forall i | 0 <= i < 138 ensures BlockOf(h, n, i) != 0 <==> BlockOf(f, n, i) != 0 || Overlaps(off, a + b, i) {
      assert Overlaps(off, a + b, i) <==> Overlaps(off, a, i) || Overlaps(off + a, b, i);
    }
  }

  /** Two adjacent overlays are one. */
  lemma OverlayTwice(c: seq<byte>, off: nat, a: seq<byte>, b: seq<byte>)
    ensures Overlay(Overlay(c, off, a), off + |a|, b) == Overlay(c, off, a + b)
  {
  }

  lemma OthersTransitive(a: Fs, b: Fs, c: Fs, n: nat)
    requires OthersSame(a, b, n) && OthersSame(b, c, n)
    ensures OthersSame(a, c, n)
  {
    forall m | 0 <= m < 256 && m != n ensures SameInode(a, c, m) {
      assert SameInode(a, b, m) && SameInode(b, c, m);
    }
  }

  /** Raising the size to `off` appends zeros and nothing else. */
  lemma Extended(fs: Fs, n: nat, off: u32)
    requires n < 256 && FsOk(fs)
    ensures var after := SetSize(fs, n, Max(fs.inodes[n].size, off));
            && FsOk(after) && Leaked(after) == Leaked(fs) && OthersSame(fs, after, n)
            && Content(after, n) == Overlay(Content(fs, n), off, [])
            && forall i :: 0 <= i < 138 ==> BlockOf(after, n, i) == BlockOf(fs, n, i)
  {
    var after := SetSize(fs, n, Max(fs.inodes[n].size, off));
    forall l: Loc | IsLoc(l) ensures Ref(after, l) == Ref(fs, l) {
    }
    OwnedTransfer(fs, after);
    ResizedBytes(fs, after, n);
  }

  /** `write_at` on any offset: the result is the old file, zero-filled up to the offset, with the written
      prefix laid over it; every other inode is untouched; no block is leaked even when the disk fills
      mid-write, and the write is short only then. */
  lemma WriteAtRefines(fs: Fs, n: nat, off: u32, src: seq<byte>)
    requires n < 256 && FsOk(fs) && fs.inodes[n].mode % 256 == MODE_FILE && off < 65536
    ensures var (after, d) := WriteAt(fs, n, off, src);
            var req := src[..Min(|src|, 65536 - off)];
            d >= 0 && Written(fs, after, n, off, req, d)
  {
    hide BlockOf, FsOk, WriteFrom, Leaked, Full, SameInode;
    var req := src[..Min(|src|, 65536 - off)];
    var start := SetSize(fs, n, Max(fs.inodes[n].size, off));
    Extended(fs, n, off);
    WriteFromRefines(start, n, off, req);
    var (after, d) := WriteFrom(start, n, off, req);
    OthersTransitive(fs, start, after, n);
    OverlayPadded(Content(fs, n), off, req[..d]);
    if off <= fs.inodes[n].size {
      assert start == fs by {
        assert fs.inodes[n := fs.inodes[n]] == fs.inodes;
      }
    }
  }

  lemma OverlayPadded(c: seq<byte>, off: nat, d: seq<byte>)
    ensures Overlay(Overlay(c, off, []), off, d) == Overlay(c, off, d)
  {
  }

  // ---------------------------------------------------------------- reading

  datatype Read = ReadFailed | ReadOk(bytes: seq<byte>)

  /** Some logical block that overlaps `[off, off + len)` is missing. */
  ghost predicate HoleIn(fs: Fs, n: nat, off: nat, len: nat)
    requires n < 256
  {
    exists i :: 0 <= i && Overlaps(off, len, i) && BlockOf(fs, n, i) == 0
  }

  /** `minifs_pread`: exactly the requested slice of the file, cut at its end; it fails on anything that is
      not a file, and precisely when the slice meets a hole. */
  ghost function Pread(fs: Fs, n: nat, off: u32, len: u32): Read {
    if n >= 256 || fs.inodes[n].mode % 256 != MODE_FILE then ReadFailed
    else if off >= fs.inodes[n].size then ReadOk([])
    else
      var l := Min(len, fs.inodes[n].size - off);
      if l > 0 && HoleIn(fs, n, off, l) then ReadFailed else ReadOk(Content(fs, n)[off..off + l])
  }

  /** The bytes from `off` on, at most `len` of them. */
  function Slice(c: seq<byte>, off: nat, len: nat): seq<byte> {
    if off < |c| then c[off..off + Min(len, |c| - off)] else []
  }

  /** No part of the requested slice lies in a hole. */
  ghost predicate CanRead(fs: Fs, n: nat, off: nat, len: nat)
    requires n < 256
  {
    !HoleIn(fs, n, off, |Slice(Content(fs, n), off, len)|)
  }

  /** Two adjacent ranges have a hole when one of them has. */
  lemma HoleSplit(fs: Fs, n: nat, off: nat, a: nat, b: nat)
    requires n < 256
    ensures HoleIn(fs, n, off, a + b) <==> HoleIn(fs, n, off, a) || HoleIn(fs, n, off + a, b)
  {
    if i :| 0 <= i && Overlaps(off, a + b, i) && BlockOf(fs, n, i) == 0 {
      assert Overlaps(off, a, i) || Overlaps(off + a, b, i);
    }
    if i :| 0 <= i && Overlaps(off, a, i) && BlockOf(fs, n, i) == 0 {
      assert Overlaps(off, a + b, i);
    }
    if i :| 0 <= i && Overlaps(off + a, b, i) && BlockOf(fs, n, i) == 0 {
      assert Overlaps(off, a + b, i);
    }
  }

  /** Reading back what was just written, wherever it was written. */
  lemma ReadAfterWrite(fs: Fs, n: nat, off: u32, src: seq<byte>)
    requires n < 256 && FsOk(fs) && fs.inodes[n].mode % 256 == MODE_FILE && off < 65536
    ensures var (after, d) := WriteAt(fs, n, off, src);
            0 <= d <= |src| && d < 0x1_0000_0000 && Pread(after, n, off, d) == ReadOk(src[..d])
  {
    hide WriteAt, FsOk, OthersSame, Leaked, Full, BlockOf, BlocksAdded, NoHoles, HoleIn, ByteAt;
    var (after, d) := WriteAt(fs, n, off, src);
    WriteAtRefines(fs, n, off, src);
    var req := src[..Min(|src|, 65536 - off)];
    assert req[..d] == src[..d];
    var c := Content(after, n);
    assert c == Overlay(Content(fs, n), off, src[..d]);
    assert c[off..off + d] == src[..d];
    if d > 0 {
      WrittenNoHole(fs, after, n, off, d);
    }
  }

  lemma WrittenNoHole(fs: Fs, after: Fs, n: nat, off: nat, d: nat)
    requires n < 256 && off + d <= 65536 && BlocksAdded(fs, after, n, off, d)
    ensures !HoleIn(after, n, off, d)
  {
    forall i | 0 <= i && Overlaps(off, d, i) ensures BlockOf(after, n, i) != 0 {
      assert i < 138;
    }
  }

  /** Before the call: `write_at` will store at least one byte. */
  ghost predicate Stores(fs: Fs, n: nat, off: u32, src: seq<byte>) {
    n < 256 && off < 65536 && fs.inodes[n].mode % 256 == MODE_FILE && src != [] && HasRoom(fs, n, off / 512)
  }

  lemma StoresIff(fs: Fs, n: nat, off: u32, src: seq<byte>)
    requires FsOk(fs)
    ensures WriteAt(fs, n, off, src).1 > 0 <==> Stores(fs, n, off, src)
  {
    if n < 256 && off < 65536 && fs.inodes[n].mode % 256 == MODE_FILE && src != [] {
      var start := SetSize(fs, n, Max(fs.inodes[n].size, off));
      Extended(fs, n, off);
      EnsureIff(start, n, off / 512);
      SameRoom(fs, start, n, off / 512);
    }
  }

  lemma SameRoom(fs: Fs, f: Fs, n: nat, i: nat)
    requires n < 256 && f.dataUsed == fs.dataUsed && f.inodes[n].indirect == fs.inodes[n].indirect
    requires forall j :: 0 <= j < 138 ==> BlockOf(f, n, j) == BlockOf(fs, n, j)
    ensures HasRoom(f, n, i) <==> HasRoom(fs, n, i)
  {
    hide BlockOf;
    SameFree(f, fs);
    if b, c :| IsFree(f, b) && IsFree(f, c) && b != c {
      assert IsFree(fs, b) && IsFree(fs, c);
    }
    if b, c :| IsFree(fs, b) && IsFree(fs, c) && b != c {
      assert IsFree(f, b) && IsFree(f, c);
    }
  }

  /** Every block between the end of the file and `off` is there; the block of `off` itself too unless it is about to be made. */
  ghost predicate GapFilled(fs: Fs, n: nat, off: nat, stores: bool)
    requires n < 256
  {
    forall i :: fs.inodes[n].size <= 512 * i && (if stores then 512 * i + 512 <= off else 512 * i < off) ==> BlockOf(fs, n, i) != 0
  }

  /** When a write to a file without holes leaves one: exactly when the gap between the old end and the offset is not filled. */
  lemma HolesAfterWrite(fs: Fs, n: nat, off: u32, src: seq<byte>)
    requires n < 256 && FsOk(fs) && NoHoles(fs, n)
    ensures NoHoles(WriteAt(fs, n, off, src).0, n)
       <==> off >= 65536 || fs.inodes[n].mode % 256 != MODE_FILE || GapFilled(fs, n, off, Stores(fs, n, off, src))
  {
    hide WriteFrom, FsOk, OthersSame, Leaked, Full, BlockOf, Stores;
    StoresIff(fs, n, off, src);
    if off < 65536 && fs.inodes[n].mode % 256 == MODE_FILE {
      var (after, d) := WriteAt(fs, n, off, src);
      WriteAtRefines(fs, n, off, src);
      assert after.inodes[n].size == |Content(after, n)| == Max(fs.inodes[n].size, off + d);
      forall i | 0 <= i < 138 ensures Overlaps(off, d, i) <==> (d > 0 && 512 * i < off + d && off < 512 * i + 512) {
      }
      if NoHoles(after, n) {
        forall i | fs.inodes[n].size <= 512 * i && (if d > 0 then 512 * i + 512 <= off else 512 * i < off)
          ensures BlockOf(fs, n, i) != 0
        {
          assert 0 <= i < 138 && 512 * i < after.inodes[n].size && !Overlaps(off, d, i);
        }
      }
    }
  }

  /** Nothing can be stored, yet the size grows: on a full disk a write past the end of an empty file leaves only a hole. */
  lemma FullDiskHole(fs: Fs, n: nat, off: u32, src: seq<byte>)
    requires n < 256 && FsOk(fs) && fs.inodes[n].mode % 256 == MODE_FILE && 0 < off < 65536
    requires fs.inodes[n].size == 0 && (forall i :: 0 <= i < 138 ==> BlockOf(fs, n, i) == 0) && (src == [] || !OneFree(fs))
    ensures NoHoles(fs, n)
    ensures var (after, d) := WriteAt(fs, n, off, src);
            d == 0 && after.inodes[n].size == off && !NoHoles(after, n) && Pread(after, n, 0, 1) == ReadFailed
  {
    hide WriteFrom, FsOk, OthersSame, Leaked, Full, BlockOf;
    var (after, d) := WriteAt(fs, n, off, src);
    StoresIff(fs, n, off, src);
    WriteAtRefines(fs, n, off, src);
    assert !Stores(fs, n, off, src) by {
      if b, c :| IsFree(fs, b) && IsFree(fs, c) && b != c {
        assert OneFree(fs);
      }
    }
    assert after.inodes[n].size == |Content(after, n)| == off;
    assert !Overlaps(off, d, 0) && Overlaps(0, 1, 0);
    assert BlockOf(after, n, 0) == 0;
  }

  /** A gap that is left reads as zeros in the contents, but `minifs_pread` refuses it. */
  lemma SparseRead(fs: Fs, n: nat, off: u32, src: seq<byte>)
    requires n < 256 && FsOk(fs) && fs.inodes[n].mode % 256 == MODE_FILE && 512 <= off < 65536
    requires fs.inodes[n].size == 0 && BlockOf(fs, n, 0) == 0 && Stores(fs, n, off, src)
    ensures var after := WriteAt(fs, n, off, src).0;
            Content(after, n) != [] && Content(after, n)[0] == 0 && Pread(after, n, 0, 1) == ReadFailed
  {
    hide WriteAt, FsOk, OthersSame, Leaked, Full, BlockOf;
    var (after, d) := WriteAt(fs, n, off, src);
    StoresIff(fs, n, off, src);
    WriteAtRefines(fs, n, off, src);
    assert !Overlaps(off, d, 0) && Overlaps(0, 1, 0);
    assert BlockOf(after, n, 0) == 0;
  }

  lemma NoHoleInside(fs: Fs, n: nat, off: nat, len: nat)
    requires n < 256 && NoHoles(fs, n) && off + len <= fs.inodes[n].size <= 138 * 512
    ensures !HoleIn(fs, n, off, len)
  {
  }

  // ---------------------------------------------------------------- truncation

  /** `b` is stored in a place that belongs to inode `n`. */
  ghost predicate BelongsTo(fs: Fs, n: nat, b: int) {
    exists l: Loc :: IsLoc(l) && l.n == n && Ref(fs, l) == b
  }

  /** The data map after every block of inode `n` was freed. */
  ghost function Freed(fs: Fs, n: nat): (used: seq<bool>)
    ensures |used| == 16384
  {
    seq(16384, b requires 0 <= b < 16384 => fs.dataUsed[b] && !(IsDataBlock(b) && BelongsTo(fs, n, b)))
  }

  /** `truncate_inode` on the caller's copy of record `n`, then stored as `ino`, which names no block. */
  ghost function Truncate(fs: Fs, n: nat, ino: Inode): (r: Fs)
    requires n < 256
  {
    SetInode(fs, n, ino).(dataUsed := Freed(fs, n))
  }

  /** Truncation frees exactly the blocks of `n`, leaks none and touches no other inode. */
  lemma TruncateSafe(fs: Fs, n: nat, ino: Inode)
    requires n < 256 && FsOk(fs)
    requires ino.size == 0 && ino.indirect == 0 && ino.direct == NO_BLOCKS
    ensures var after := Truncate(fs, n, ino);
            && FsOk(after) && Leaked(after) == Leaked(fs) && OthersSame(fs, after, n)
            && Content(after, n) == [] && forall b :: !(b != 0 && BelongsTo(after, n, b))
  {
    var after := Truncate(fs, n, ino);
    forall l: Loc | IsLoc(l) ensures Ref(after, l) == if l.n == n then 0 else Ref(fs, l) {
    }
    TruncateOwned(fs, after, n);
    forall m, k | 0 <= m < 256 && 0 <= k ensures ByteAt(after, m, k) == if m == n then 0 else ByteAt(fs, m, k) {
      if k / 512 < 138 {
        assert IsLoc(LocOf(m, k / 512));
      }
    }
    forall m | 0 <= m < 256 && m != n ensures SameInode(fs, after, m) {
      forall i | 0 <= i < 138 ensures BlockOf(after, m, i) == BlockOf(fs, m, i) {
        assert IsLoc(LocOf(m, i));
      }
    }
  }

  lemma TruncateOwned(fs: Fs, after: Fs, n: nat)
    requires n < 256 && Owned(fs) && after.dataUsed == Freed(fs, n)
    requires forall l: Loc :: IsLoc(l) ==> Ref(after, l) == if l.n == n then 0 else Ref(fs, l)
    ensures Owned(after) && Leaked(after) == Leaked(fs)
  {
    forall l: Loc | IsLoc(l) && Ref(after, l) != 0
      ensures IsDataBlock(Ref(after, l)) && after.dataUsed[Ref(after, l)]
    {
      assert Ref(after, l) == Ref(fs, l);
      assert !BelongsTo(fs, n, Ref(fs, l));
    }
    forall b | 38 <= b < 15360 ensures b in Leaked(after) <==> b in Leaked(fs) {
      if Referenced(fs, b) && !BelongsTo(fs, n, b) {
        var l: Loc :| IsLoc(l) && Ref(fs, l) == b;
        assert Ref(after, l) == b;
      }
      if Referenced(after, b) {
        var l: Loc :| IsLoc(l) && Ref(after, l) == b;
        assert Ref(fs, l) == b;
      }
    }
  }
}
