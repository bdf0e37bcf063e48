/** How many free blocks writing takes: exactly when a file or a directory entry still fits. */
module BlockCounts {
  import opened Bytes
  import opened FsBlocks
  import opened FsFiles

  /** The free data blocks. */
  function FreeSet(fs: Fs): set<int> {
    set b | 38 <= b < 15360 && IsFree(fs, b)
  }

  lemma FreeCounts(fs: Fs)
    ensures OneFree(fs) <==> |FreeSet(fs)| >= 1
    ensures TwoFree(fs) <==> |FreeSet(fs)| >= 2
  {
    var a := FreeSet(fs);
    if b :| IsFree(fs, b) {
      assert b in a;
      assert |a - {b}| == |a| - 1;
      if c :| IsFree(fs, c) && c != b {
        assert c in a - {b};
        assert TwoFree(fs);
        assert |a - {b} - {c}| == |a| - 2;
      } else {
        assert a - {b} == {};
        assert !TwoFree(fs);
      }
    } else {
      assert a == {};
    }
  }

  lemma AllocSpends(fs: Fs)
    ensures AllocBlock(fs).1 >= 0 <==> |FreeSet(fs)| >= 1
    ensures AllocBlock(fs).1 >= 0 ==> |FreeSet(AllocBlock(fs).0)| == |FreeSet(fs)| - 1
  {
    AllocIff(fs);
    FreeCounts(fs);
    var (f, b) := AllocBlock(fs);
    if b >= 0 {
      assert IsFree(fs, b);
      forall x ensures x in FreeSet(f) <==> x in FreeSet(fs) - {b} {
      }
      assert FreeSet(f) == FreeSet(fs) - {b};
    }
  }

  lemma SameFreeSet(f: Fs, g: Fs)
    requires f.dataUsed == g.dataUsed
    ensures FreeSet(f) == FreeSet(g)
  {
    forall x ensures IsFree(f, x) <==> IsFree(g, x) {
    }
  }

  /** How many blocks `ensure_inode_block` takes. */
  function EnsureCost(fs: Fs, n: nat, i: nat): nat
    requires n < 256
  {
    if BlockOf(fs, n, i) != 0 then 0 else if i >= 10 && fs.inodes[n].indirect == 0 then 2 else 1
  }

  /** The indirect block is there only for blocks that are. */
  predicate TopOk(fs: Fs, n: nat)
    requires n < 256
  {
    fs.inodes[n].indirect == 0 <==> BlockOf(fs, n, 10) == 0
  }

  lemma EnsureSpends(fs: Fs, n: nat, i: nat)
    requires n < 256 && i < 138 && Owned(fs)
    ensures var (f, r) := EnsureBlock(fs, n, i);
            && (r >= 0 <==> |FreeSet(fs)| >= EnsureCost(fs, n, i))
            && (r >= 0 ==> |FreeSet(f)| == |FreeSet(fs)| - EnsureCost(fs, n, i))
            && (r >= 0 && i < 10 ==> f.inodes[n].indirect == fs.inodes[n].indirect)
            && (r >= 0 && i >= 10 ==> f.inodes[n].indirect != 0)
  {
    hide OneFree, TwoFree, FreeSet;
    EnsureIff(fs, n, i);
    FreeCounts(fs);
    AllocSpends(fs);
    var (f, r) := EnsureBlock(fs, n, i);
    if r >= 0 {
      if i < 10 {
        SpendDirect(fs, n, i);
      } else {
        SpendSlot(fs, n, i);
      }
    }
  }

  lemma SpendDirect(fs: Fs, n: nat, i: nat)
    requires n < 256 && i < 10 && EnsureBlock(fs, n, i).1 >= 0
    ensures var f := EnsureBlock(fs, n, i).0;
            |FreeSet(f)| == |FreeSet(fs)| - EnsureCost(fs, n, i) && f.inodes[n].indirect == fs.inodes[n].indirect
  {
    hide FreeSet;
    AllocSpends(fs);
    var f := EnsureBlock(fs, n, i).0;
    if fs.inodes[n].direct[i] == 0 {
      SameFreeSet(f, AllocBlock(fs).0);
    }
  }

  lemma SpendSlot(fs: Fs, n: nat, i: nat)
    requires n < 256 && 10 <= i < 138 && Owned(fs) && EnsureBlock(fs, n, i).1 >= 0
    ensures var f := EnsureBlock(fs, n, i).0;
            |FreeSet(f)| == |FreeSet(fs)| - EnsureCost(fs, n, i) && f.inodes[n].indirect != 0
  {
    hide FreeSet;
    var f := EnsureBlock(fs, n, i).0;
    var (f1, top) := EnsureIndirect(fs, n);
    EnsuredIndirect(fs, n);
    AllocSpends(fs);
    AllocSpends(f1);
    if fs.inodes[n].indirect == 0 {
      SameFreeSet(f1, AllocBlock(fs).0);
      assert BlockOf(fs, n, i) == 0 by { assert Ref(fs, Slot(n, i - 10)) == 0; }
      assert BlockOf(f1, n, i) == 0;
    }
    if SlotOf(f1, f1.inodes[n], i - 10) == 0 {
      SameFreeSet(f, AllocBlock(f1).0);
    }
  }

  /** One chunk: whether it fits, what it takes, and what becomes of the indirect block. */
  lemma ChunkSpends(fs: Fs, n: nat, off: nat, t: seq<byte>)
    requires n < 256 && off / 512 < 138 && off % 512 + |t| <= 512 && 0 < |t| && FsOk(fs) && off <= fs.inodes[n].size
    ensures var (f, r) := WriteChunk(fs, n, off, t);
            && (r >= 0 <==> |FreeSet(fs)| >= EnsureCost(fs, n, off / 512))
            && (r >= 0 ==> |FreeSet(f)| == |FreeSet(fs)| - EnsureCost(fs, n, off / 512))
            && (r >= 0 ==> (f.inodes[n].indirect == 0 <==> fs.inodes[n].indirect == 0 && off / 512 < 10))
  {
    hide FreeSet, EnsureBlock, BlockOf, OthersSame, Leaked, Full, Content, FsOk, EnsureCost;
    var i := off / 512;
    EnsureSpends(fs, n, i) by { OwnedOf(fs); }
    var (e, b) := EnsureBlock(fs, n, i);
    var (f, r) := WriteChunk(fs, n, off, t);
    if r >= 0 {
      SameFreeSet(f, e);
    }
  }

  lemma OwnedOf(fs: Fs)
    requires FsOk(fs)
    ensures Owned(fs)
  {
  }

  // ---------------------------------------------------------------- writes at any offset

  /** How many of the logical blocks from `i` up to `j` are missing. */
  function Missing(fs: Fs, n: nat, i: nat, j: nat): nat
    requires n < 256
    decreases j - i
  {
    if i >= j then 0 else (if BlockOf(fs, n, i) == 0 then 1 else 0) + Missing(fs, n, i + 1, j)
  }

  /** How many blocks `len` bytes from `off` on take: the missing ones they overlap, and a missing indirect block. */
  function WriteCost(fs: Fs, n: nat, off: nat, len: nat): nat
    requires n < 256
  {
    if len == 0 then 0
    else
      var last := (off + len - 1) / 512;
      Missing(fs, n, off / 512, last + 1) + if last >= 10 && fs.inodes[n].indirect == 0 then 1 else 0
  }

  lemma {:induction false} MissingSame(fs: Fs, f: Fs, n: nat, i: nat, j: nat)
    requires n < 256 && forall k :: i <= k < j ==> (BlockOf(f, n, k) == 0 <==> BlockOf(fs, n, k) == 0)
    ensures Missing(f, n, i, j) == Missing(fs, n, i, j)
    decreases j - i
  {
    hide BlockOf;
    if i < j {
      assert BlockOf(f, n, i) == 0 <==> BlockOf(fs, n, i) == 0;
      MissingSame(fs, f, n, i + 1, j);
    }
  }

  lemma NoIndirect(fs: Fs, n: nat, i: nat)
    requires n < 256 && i >= 10 && fs.inodes[n].indirect == 0
    ensures BlockOf(fs, n, i) == 0
  {
  }

  /** What the first chunk takes and what is left for the rest make the whole. */
  lemma CostStep(fs: Fs, f: Fs, n: nat, off: nat, chunk: nat, len: nat)
    requires n < 256 && off + len <= 65536 && 0 < len && 0 < chunk && off % 512 + chunk <= 512
    requires chunk <= len ==> BlocksAdded(fs, f, n, off, chunk)
    requires f.inodes[n].indirect == 0 <==> fs.inodes[n].indirect == 0 && off / 512 < 10
    ensures len <= chunk ==> WriteCost(fs, n, off, len) == EnsureCost(fs, n, off / 512)
    ensures chunk < len && off % 512 + chunk == 512 ==>
              WriteCost(fs, n, off, len) == EnsureCost(fs, n, off / 512) + WriteCost(f, n, off + chunk, len - chunk)
  {
    hide BlockOf;
    var i, last := off / 512, (off + len - 1) / 512;
    if i >= 10 && fs.inodes[n].indirect == 0 {
      NoIndirect(fs, n, i);
    }
    if len <= chunk {
      assert last == i;
      assert Missing(fs, n, i + 1, i + 1) == 0;
    } else if off % 512 + chunk == 512 {
      assert (off + chunk) / 512 == i + 1 && last < 138;
      forall k | i + 1 <= k < last + 1 ensures BlockOf(f, n, k) == 0 <==> BlockOf(fs, n, k) == 0 {
        assert !Overlaps(off, chunk, k);
      }
      MissingSame(fs, f, n, i + 1, last + 1);
    }
  }

  /** The copy loop gets as far as byte `t` exactly when there are free blocks for the first `t` bytes. */
  lemma {:induction false} WriteFromSpends(fs: Fs, n: nat, off: nat, src: seq<byte>, t: nat)
    requires n < 256 && off + |src| <= 65536 && FsOk(fs) && off <= fs.inodes[n].size && t <= |src|
    ensures var (f, d) := WriteFrom(fs, n, off, src);
            && (d >= t <==> |FreeSet(fs)| >= WriteCost(fs, n, off, t))
            && (d >= t == |src| ==> |FreeSet(f)| == |FreeSet(fs)| - WriteCost(fs, n, off, t))
            && (d >= t == |src| > 0 ==> (f.inodes[n].indirect == 0 <==> fs.inodes[n].indirect == 0 && (off + t - 1) / 512 < 10))
    decreases |src|
  {
    hide FreeSet, WriteChunk, BlockOf, WriteCost, FsOk, EnsureCost, OthersSame, Leaked, Full, BlocksAdded;
    if t == 0 {
      assert WriteCost(fs, n, off, 0) == 0 by { NoCost(fs, n, off); }
    } else {
      var chunk := Min(|src|, 512 - off % 512);
      assert 0 < chunk && off / 512 < 138;
      ChunkSpends(fs, n, off, src[..chunk]);
      WriteChunkRefines(fs, n, off, src[..chunk]);
      var (f, r) := WriteChunk(fs, n, off, src[..chunk]);
      if r >= 0 {
        CostStep(fs, f, n, off, chunk, t);
        assert f.inodes[n].size == |Content(f, n)| >= off + chunk;
        if t > chunk {
          WriteFromSpends(f, n, off + chunk, src[chunk..], t - chunk);
        } else if chunk == |src| {
          assert src[chunk..] == [];
        }
      } else {
        CostMore(fs, n, off, t);
      }
    }
  }

  lemma NoCost(fs: Fs, n: nat, off: nat)
    requires n < 256
    ensures WriteCost(fs, n, off, 0) == 0
  {
  }

  /** Any byte at all needs the block it is in. */
  lemma CostMore(fs: Fs, n: nat, off: nat, len: nat)
    requires n < 256 && len > 0
    ensures WriteCost(fs, n, off, len) >= EnsureCost(fs, n, off / 512)
  {
    hide BlockOf;
    assert (off + len - 1) / 512 >= off / 512;
  }

  /** `write_at` at any offset: it stores at least `t` of the bytes it may store exactly when the free blocks cover the missing
      ones they overlap and a missing indirect block, and a complete write takes just those. */
  lemma WriteAtSpends(fs: Fs, n: nat, off: u32, src: seq<byte>, t: nat)
    requires n < 256 && FsOk(fs) && fs.inodes[n].mode % 256 == MODE_FILE && off < 65536 && t <= Min(|src|, 65536 - off)
    ensures var (f, d) := WriteAt(fs, n, off, src);
            && (d >= t <==> |FreeSet(fs)| >= WriteCost(fs, n, off, t))
            && (d >= t == Min(|src|, 65536 - off) ==> |FreeSet(f)| == |FreeSet(fs)| - WriteCost(fs, n, off, t))
  {
    hide FreeSet, BlockOf, FsOk, OthersSame, Leaked, WriteFrom;
    var start := SetSize(fs, n, Max(fs.inodes[n].size, off));
    Extended(fs, n, off);
    WriteFromSpends(start, n, off, src[..Min(|src|, 65536 - off)], t);
    SameFreeSet(start, fs);
    if t > 0 {
      assert (off + t - 1) / 512 < 138;
      MissingSame(fs, start, n, off / 512, (off + t - 1) / 512 + 1);
    }
  }

  // ---------------------------------------------------------------- a file from the start

  /** Inode `n` has exactly its first `i` blocks, and the indirect block only if one of them needs it. */
  predicate Exactly(fs: Fs, n: nat, i: nat)
    requires n < 256
  {
    (forall j :: 0 <= j < 138 ==> (BlockOf(fs, n, j) != 0 <==> j < i)) && TopOk(fs, n)
  }

  /** Blocks for a file of `len` bytes, with the indirect block where it is needed. */
  function BlocksFor(len: nat): nat {
    var k := (len + 511) / 512;
    k + if k > 10 then 1 else 0
  }

  lemma {:induction false} AllMissing(fs: Fs, n: nat, i: nat, j: nat)
    requires n < 256 && i <= j && forall k :: i <= k < j ==> BlockOf(fs, n, k) == 0
    ensures Missing(fs, n, i, j) == j - i
    decreases j - i
  {
    hide BlockOf;
    if i < j {
      AllMissing(fs, n, i + 1, j);
    }
  }

  lemma WroteNothing(fs: Fs, n: nat)
    requires n < 256
    ensures WriteFrom(fs, n, 0, []) == (fs, 0)
  {
  }

  /** Filling a file that has no blocks. */
  lemma NewFileSpends(fs: Fs, n: nat, src: seq<byte>)
    requires n < 256 && |src| <= 65536 && FsOk(fs) && Exactly(fs, n, 0)
    ensures var (f, d) := WriteFrom(fs, n, 0, src);
            && (d == |src| <==> |FreeSet(fs)| >= BlocksFor(|src|))
            && (d == |src| ==> |FreeSet(f)| == |FreeSet(fs)| - BlocksFor(|src|) && Exactly(f, n, (|src| + 511) / 512))
  {
    hide FreeSet, BlockOf, FsOk, OthersSame, Leaked, WriteFrom, Full;
    WriteFromSpends(fs, n, 0, src, |src|);
    WriteFromRefines(fs, n, 0, src);
    var (f, d) := WriteFrom(fs, n, 0, src);
    if src == [] {
      assert f == fs by { WroteNothing(fs, n); }
    } else {
      AllMissing(fs, n, 0, (|src| - 1) / 512 + 1);
    }
    if d == |src| {
      forall j | 0 <= j < 138 ensures BlockOf(f, n, j) != 0 <==> j < (|src| + 511) / 512 {
        assert Overlaps(0, |src|, j) <==> j < (|src| + 511) / 512;
      }
      assert BlockOf(f, n, 10) != 0 <==> 10 < (|src| + 511) / 512;
    }
  }
}
