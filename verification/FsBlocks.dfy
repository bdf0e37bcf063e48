/** MiniFS as typed state: inode records, the two allocation maps and 512-byte blocks.
    Block allocation, the block map of an inode and truncation, with the ownership invariant:
    every block number stored anywhere is in the data area, marked, and stored exactly once. */
module FsBlocks {
  import opened Bytes

  // A block has 512 bytes; 256 inodes have 10 direct blocks each and an indirect block of 128 numbers.
  const DATA_START := 38
  const BLOCK_COUNT := 15360
  const MAX_BLOCKS := 138

  type Sector = s: seq<byte> | |s| == 512 witness Zeros(512)

  datatype InodeRecord = Inode(mode: u32, size: u32, parent: u32, links: u32,
                               direct: seq<u32>, indirect: u32, reserved: u32)

  type Inode = i: InodeRecord | |i.direct| == 10
    witness Inode(0, 0, 0, 0, [0, 0, 0, 0, 0, 0, 0, 0, 0, 0], 0, 0)

  const NO_BLOCKS: seq<u32> := [0, 0, 0, 0, 0, 0, 0, 0, 0, 0]
  const FREE_INODE: Inode := Inode(0, 0, 0, 0, NO_BLOCKS, 0, 0)

  datatype FsRecord = Fs(inodeUsed: seq<bool>, dataUsed: seq<bool>, inodes: seq<Inode>, data: seq<Sector>)

  /** `data[b - DATA_START]` is block `b`. */
  type Fs = f: FsRecord |
      |f.inodeUsed| == 256 && |f.dataUsed| == 16384 && |f.inodes| == 256 && |f.data| == 16384 - 38
    witness Fs(seq(256, i => false), seq(16384, i => false), seq(256, i => FREE_INODE),
               seq(16384 - 38, i => Zeros(512)))

  predicate IsDataBlock(b: int) {
    DATA_START <= b < BLOCK_COUNT
  }

  // ---------------------------------------------------------------- references

  /** The places where a block number is stored. */
  datatype Loc = Direct(n: nat, i: nat) | Indirect(n: nat) | Slot(n: nat, s: nat)

  predicate IsLoc(l: Loc) {
    match l
    case Direct(n, i) => n < 256 && i < 10
    case Indirect(n) => n < 256
    case Slot(n, s) => n < 256 && s < 128
  }

  /** Entry `s` of the indirect block of `ino`. */
  function SlotOf(fs: Fs, ino: Inode, s: nat): u32
    requires s < 128
  {
    if IsDataBlock(ino.indirect) then U32At(fs.data[ino.indirect - 38], 4 * s) else 0
  }

  function Ref(fs: Fs, l: Loc): u32
    requires IsLoc(l)
  {
    match l
    case Direct(n, i) => fs.inodes[n].direct[i]
    case Indirect(n) => fs.inodes[n].indirect
    case Slot(n, s) => SlotOf(fs, fs.inodes[n], s)
  }

  /** Where the number of logical block `i` of inode `n` is stored. */
  function LocOf(n: nat, i: nat): Loc {
    if i < 10 then Direct(n, i) else Slot(n, i - 10)
  }

  /** `inode_block`: the block holding logical block `i` of inode `n`, 0 for a hole. */
  function BlockOf(fs: Fs, n: nat, i: nat): u32
    requires n < 256
  {
    if i < MAX_BLOCKS then Ref(fs, LocOf(n, i)) else 0
  }

  ghost predicate RefsMarked(fs: Fs) {
    forall l: Loc :: IsLoc(l) && Ref(fs, l) != 0 ==> IsDataBlock(Ref(fs, l)) && fs.dataUsed[Ref(fs, l)]
  }

  ghost predicate RefsOnce(fs: Fs) {
    forall l: Loc, m: Loc :: IsLoc(l) && IsLoc(m) && Ref(fs, l) != 0 && Ref(fs, l) == Ref(fs, m) ==> l == m
  }

  ghost predicate Owned(fs: Fs) {
    RefsMarked(fs) && RefsOnce(fs)
  }

  ghost predicate Referenced(fs: Fs, b: int) {
    exists l: Loc :: IsLoc(l) && Ref(fs, l) == b
  }

  /** Blocks that are marked although nothing names them. */
  ghost function Leaked(fs: Fs): set<int> {
    set b | 38 <= b < 15360 && fs.dataUsed[b] && !Referenced(fs, b)
  }

  // ---------------------------------------------------------------- allocation

  function FirstFree(used: seq<bool>, i: nat): (r: nat)
    requires i <= 15360 <= |used|
    ensures i <= r <= 15360
    ensures r < 15360 ==> !used[r]
    ensures forall k :: i <= k < r ==> used[k]
    decreases 15360 - i
  {
    if i == 15360 || !used[i] then i else FirstFree(used, i + 1)
  }

  /** `alloc_data_block`: the lowest free block, marked and zeroed, or -1. */
  function AllocBlock(fs: Fs): (r: (Fs, int)) {
    var b := FirstFree(fs.dataUsed, 38);
    if b == 15360 then (fs, -1)
    else (fs.(dataUsed := fs.dataUsed[b := true], data := fs.data[b - 38 := Zeros(512)]), b)
  }

  function SetInode(fs: Fs, n: nat, ino: Inode): (r: Fs)
    requires n < 256
  {
    fs.(inodes := fs.inodes[n := ino])
  }

  function SetDirect(fs: Fs, n: nat, i: nat, b: u32): (r: Fs)
    requires n < 256 && i < 10
  {
    SetInode(fs, n, fs.inodes[n].(direct := fs.inodes[n].direct[i := b]))
  }

  function SetIndirect(fs: Fs, n: nat, b: u32): (r: Fs)
    requires n < 256
  {
    SetInode(fs, n, fs.inodes[n].(indirect := b))
  }

  /** Overwrites part of block `b`; numbers outside the data area never get here when ownership holds. */
  function PutBytes(fs: Fs, b: nat, o: nat, t: seq<byte>): (r: Fs)
    requires o + |t| <= 512
  {
    if IsDataBlock(b) then fs.(data := fs.data[b - 38 := Splice(fs.data[b - 38], o, t)]) else fs
  }

  /** `ensure_inode_block` on a state whose inode record `n` is the caller's copy:
      the block of logical index `i`, allocated when missing, or -1. */
  function EnsureBlock(fs: Fs, n: nat, i: nat): (r: (Fs, int))
    requires n < 256
  {
    if i >= 138 then (fs, -1)
    else if i < 10 then
      if fs.inodes[n].direct[i] != 0 then (fs, fs.inodes[n].direct[i])
      else
        var (f, b) := AllocBlock(fs);
        if b < 0 then (fs, -1) else (SetDirect(f, n, i, b), b)
    else
      var (f1, top) := EnsureIndirect(fs, n);
      if top < 0 then (fs, -1)
      else
        var e := SlotOf(f1, f1.inodes[n], i - 10);
        if e != 0 then (f1, e)
        else
          var (f2, b) := AllocBlock(f1);
          if b < 0 then (f1, -1)
          else
            (PutBytes(f2, top, 4 * (i - 10), U32Bytes(b)), b)
  }

  /** The indirect block of inode `n`, allocated when missing, or -1. */
  function EnsureIndirect(fs: Fs, n: nat): (r: (Fs, int))
    requires n < 256
  {
    if fs.inodes[n].indirect != 0 then (fs, fs.inodes[n].indirect)
    else
      var (f, b) := AllocBlock(fs);
      if b < 0 then (fs, -1) else (SetIndirect(f, n, b), b)
  }

  // ------------------------------------------------- one reference at a time

  /** `after` stores `b` at `l0`, which stored nothing before; every other place is unchanged. */
  ghost predicate RefAdded(before: Fs, after: Fs, l0: Loc, b: int) {
    && IsLoc(l0)
    && Ref(before, l0) == 0 && Ref(after, l0) == b
    && forall l: Loc :: IsLoc(l) && l != l0 ==> Ref(after, l) == Ref(before, l)
  }

  lemma AddRef(before: Fs, after: Fs, l0: Loc, b: int)
    requires Owned(before) && RefAdded(before, after, l0, b)
    requires IsDataBlock(b) && !before.dataUsed[b] && after.dataUsed == before.dataUsed[b := true]
    ensures Owned(after)
    ensures Leaked(after) == Leaked(before)
  {
    assert !Referenced(before, b);
    forall c | c != b ensures c > 0 ==> (Referenced(after, c) <==> Referenced(before, c)) {
      if c > 0 && Referenced(before, c) {
        var l: Loc :| IsLoc(l) && Ref(before, l) == c;
        assert Ref(after, l) == c;
      }
    }
    assert Referenced(after, b);
  }

  lemma DirectAdded(fs: Fs, n: nat, i: nat)
    requires n < 256 && i < 10 && Owned(fs) && fs.inodes[n].direct[i] == 0
    requires AllocBlock(fs).1 >= 0
    ensures var (f, b) := AllocBlock(fs); RefAdded(fs, SetDirect(f, n, i, b), Direct(n, i), b)
  {
    var (f, b) := AllocBlock(fs);
    var after := SetDirect(f, n, i, b);
    forall l: Loc | IsLoc(l) && l != Direct(n, i) ensures Ref(after, l) == Ref(fs, l) {
      SlotsKept(fs, after, l, b);
    }
  }

  lemma IndirectAdded(fs: Fs, n: nat)
    requires n < 256 && Owned(fs) && fs.inodes[n].indirect == 0
    requires AllocBlock(fs).1 >= 0
    ensures var (f, b) := AllocBlock(fs); RefAdded(fs, SetIndirect(f, n, b), Indirect(n), b)
  {
    var (f, b) := AllocBlock(fs);
    var after := SetIndirect(f, n, b);
    forall l: Loc | IsLoc(l) && l != Indirect(n) ensures Ref(after, l) == Ref(fs, l) {
      if l.Slot? && l.n == n {
        assert after.data[b - 38] == Zeros(512);
      } else {
        SlotsKept(fs, after, l, b);
      }
    }
  }

  /** A place keeps its number when only an unmarked block was overwritten. */
  lemma SlotsKept(fs: Fs, after: Fs, l: Loc, b: int)
    requires Owned(fs) && IsLoc(l) && IsDataBlock(b) && !fs.dataUsed[b]
    requires forall c :: 0 <= c < |fs.data| && c != b - 38 ==> after.data[c] == fs.data[c]
    requires l.Direct? ==> after.inodes[l.n].direct[l.i] == fs.inodes[l.n].direct[l.i]
    requires !l.Direct? ==> after.inodes[l.n].indirect == fs.inodes[l.n].indirect
    ensures Ref(after, l) == Ref(fs, l)
  {
    if l.Slot? {
      assert Ref(fs, Indirect(l.n)) == fs.inodes[l.n].indirect;
    }
  }

  lemma SlotAdded(fs: Fs, n: nat, s: nat)
    requires n < 256 && s < 128 && Owned(fs) && fs.inodes[n].indirect != 0
    requires Ref(fs, Slot(n, s)) == 0 && AllocBlock(fs).1 >= 0
    ensures IsDataBlock(fs.inodes[n].indirect)
    ensures var (f, b) := AllocBlock(fs);
            RefAdded(fs, PutBytes(f, fs.inodes[n].indirect, 4 * s, U32Bytes(b)), Slot(n, s), b)
  {
    var (f, b) := AllocBlock(fs);
    var top := fs.inodes[n].indirect;
    assert Ref(fs, Indirect(n)) == top;
    var after := PutBytes(f, top, 4 * s, U32Bytes(b));
    assert f.data[top - 38] == fs.data[top - 38];
    forall l: Loc | IsLoc(l) ensures Ref(after, l) == if l == Slot(n, s) then b else Ref(fs, l) {
      if l.Slot? && l.n == n {
        SlotWritten(fs.data[top - 38], s, b, l.s);
      } else if l.Slot? {
        assert Ref(fs, Indirect(l.n)) == fs.inodes[l.n].indirect;
      }
    }
  }

  lemma SlotWritten(d: Sector, s: nat, b: u32, t: nat)
    requires s < 128 && t < 128
    ensures U32At(Splice(d, 4 * s, U32Bytes(b)), 4 * t) == if t == s then b else U32At(d, 4 * t)
  {
    if t == s {
      U32InSplice(d, 4 * s, U32Bytes(b), 4 * s);
      U32RoundTrip(b);
    }
  }

  // ---------------------------------------------------------------- file bytes

  /** Byte `k` of inode `n`; a hole reads as zero here. */
  function ByteAt(fs: Fs, n: nat, k: nat): byte
    requires n < 256
  {
    var b := BlockOf(fs, n, k / 512);
    if IsDataBlock(b) then fs.data[b - 38][k % 512] else 0
  }

  /** Adding one reference to a zeroed block changes no byte of any inode. */
  lemma BytesKept(before: Fs, after: Fs, l0: Loc, b: int, top: Loc, m: nat, k: nat)
    requires Owned(before) && RefAdded(before, after, l0, b)
    requires IsDataBlock(b) && !before.dataUsed[b] && after.data[b - 38] == Zeros(512)
    requires top.Indirect? && IsLoc(top)
    requires forall c :: 0 <= c < |before.data| && c != b - 38 && c != Ref(before, top) - 38 ==> after.data[c] == before.data[c]
    requires m < 256
    ensures ByteAt(after, m, k) == ByteAt(before, m, k)
  {
    if k / 512 < 138 {
      var l := LocOf(m, k / 512);
      assert IsLoc(l) && l != top;
      assert l != l0 ==> Ref(after, l) == Ref(before, l);
    }
  }

  /** The record fields that allocation leaves alone. */
  predicate SameHeader(a: Inode, b: Inode) {
    a.mode == b.mode && a.size == b.size && a.parent == b.parent && a.links == b.links && a.reserved == b.reserved
  }

  /** What `ensure_inode_block` guarantees of the block map when it ends with `r`. */
  ghost predicate Ensured(fs: Fs, after: Fs, n: nat, i: nat, r: int)
    requires n < 256
  {
    && Owned(after) && Leaked(after) == Leaked(fs)
    && after.inodeUsed == fs.inodeUsed
    && (forall m :: 0 <= m < 256 && m != n ==> after.inodes[m] == fs.inodes[m])
    && SameHeader(after.inodes[n], fs.inodes[n])
    && (forall m, j :: 0 <= m < 256 && 0 <= j < 138 && !(m == n && j == i) ==> BlockOf(after, m, j) == BlockOf(fs, m, j))
    && (forall m, k :: 0 <= m < 256 && 0 <= k ==> ByteAt(after, m, k) == ByteAt(fs, m, k))
    && (r < 0 ==> BlockOf(after, n, i) == BlockOf(fs, n, i) && (i >= 138 || BlockOf(fs, n, i) == 0))
    && (r >= 0 ==> i < 138 && IsDataBlock(r) && BlockOf(after, n, i) == r)
  }

  lemma EnsuredDirect(fs: Fs, n: nat, i: nat)
    requires n < 256 && i < 10 && Owned(fs)
    ensures var (after, r) := EnsureBlock(fs, n, i); Ensured(fs, after, n, i, r)
  {
    var (after, r) := EnsureBlock(fs, n, i);
    assert Ref(fs, Direct(n, i)) == fs.inodes[n].direct[i];
    if fs.inodes[n].direct[i] == 0 && r >= 0 {
      DirectAdded(fs, n, i);
      AddRef(fs, after, Direct(n, i), r);
      forall m, k | 0 <= m < 256 && 0 <= k ensures ByteAt(after, m, k) == ByteAt(fs, m, k) {
        BytesKept(fs, after, Direct(n, i), r, Indirect(n), m, k);
      }
    }
  }

  /** The indirect block alone: no logical block of any inode moves. */
  lemma EnsuredIndirect(fs: Fs, n: nat)
    requires n < 256 && Owned(fs)
    ensures var (after, r) := EnsureIndirect(fs, n);
            && Ensured(fs, after, n, 138, -1)
            && (r >= 0 ==> after.inodes[n].indirect == r && after.inodes[n].direct == fs.inodes[n].direct)
            && (r < 0 ==> after == fs && fs.inodes[n].indirect == 0)
  {
    var (after, r) := EnsureIndirect(fs, n);
    if fs.inodes[n].indirect == 0 && r >= 0 {
      IndirectAdded(fs, n);
      AddRef(fs, after, Indirect(n), r);
      forall m, k | 0 <= m < 256 && 0 <= k ensures ByteAt(after, m, k) == ByteAt(fs, m, k) {
        BytesKept(fs, after, Indirect(n), r, Indirect(n), m, k);
      }
    }
  }

  lemma EnsuredSlot(fs: Fs, n: nat, i: nat)
    requires n < 256 && 10 <= i < 138 && Owned(fs) && fs.inodes[n].indirect != 0
    ensures var (after, r) := EnsureBlock(fs, n, i); Ensured(fs, after, n, i, r)
  {
    var (after, r) := EnsureBlock(fs, n, i);
    var e := Ref(fs, Slot(n, i - 10));
    if e == 0 && r >= 0 {
      SlotAdded(fs, n, i - 10);
      assert Ref(fs, Indirect(n)) == fs.inodes[n].indirect;
      AddRef(fs, after, Slot(n, i - 10), r);
      forall m, k | 0 <= m < 256 && 0 <= k ensures ByteAt(after, m, k) == ByteAt(fs, m, k) {
        BytesKept(fs, after, Slot(n, i - 10), r, Indirect(n), m, k);
      }
    }
  }

  /** `ensure_inode_block` keeps ownership, leaks nothing, moves no other block and changes no byte. */
  lemma EnsureBlockSafe(fs: Fs, n: nat, i: nat)
    requires n < 256 && Owned(fs)
    ensures var (after, r) := EnsureBlock(fs, n, i); Ensured(fs, after, n, i, r)
  {
    if i < 10 {
      EnsuredDirect(fs, n, i);
    } else if i < 138 {
      var (f1, top) := EnsureIndirect(fs, n);
      EnsuredIndirect(fs, n);
      if top >= 0 {
        EnsuredSlot(f1, n, i);
        assert EnsureBlock(f1, n, i) == EnsureBlock(fs, n, i);
      }
    }
  }

  // ---------------------------------------------------------------- when there is room

  predicate IsFree(fs: Fs, b: int) {
    38 <= b < 15360 && !fs.dataUsed[b]
  }

  /** A data block is free. */
  ghost predicate OneFree(fs: Fs) {
    exists b :: IsFree(fs, b)
  }

  /** Two data blocks are free. */
  ghost predicate TwoFree(fs: Fs) {
    exists b, c :: IsFree(fs, b) && IsFree(fs, c) && b != c
  }

  /** Logical block `i` of inode `n` is there, or there are free blocks for it and for the indirect block it may need. */
  ghost predicate HasRoom(fs: Fs, n: nat, i: nat)
    requires n < 256
  {
    i < 138 && (BlockOf(fs, n, i) != 0 || (if i >= 10 && fs.inodes[n].indirect == 0 then TwoFree(fs) else OneFree(fs)))
  }

  lemma AllocIff(fs: Fs)
    ensures AllocBlock(fs).1 >= 0 <==> OneFree(fs)
    ensures AllocBlock(fs).1 >= 0 ==> (OneFree(AllocBlock(fs).0) <==> TwoFree(fs))
  {
    var (f, r) := AllocBlock(fs);
    if r >= 0 {
      assert IsFree(fs, r);
      if b :| IsFree(f, b) {
        assert IsFree(fs, b) && b != r;
      }
      if b, c :| IsFree(fs, b) && IsFree(fs, c) && b != c {
        assert IsFree(f, if b == r then c else b);
      }
    }
  }

  /** `ensure_inode_block` succeeds exactly when there is room. */
  lemma EnsureIff(fs: Fs, n: nat, i: nat)
    requires n < 256 && Owned(fs)
    ensures EnsureBlock(fs, n, i).1 >= 0 <==> HasRoom(fs, n, i)
  {
    AllocIff(fs);
    if 10 <= i < 138 && fs.inodes[n].indirect == 0 {
      assert BlockOf(fs, n, i) == 0 by { assert Ref(fs, Slot(n, i - 10)) == 0; }
      var (f1, top) := EnsureIndirect(fs, n);
      EnsuredIndirect(fs, n);
      if top >= 0 {
        assert BlockOf(f1, n, i) == 0;
        var a := AllocBlock(fs).0;
        assert f1.dataUsed == a.dataUsed;
        assert OneFree(f1) <==> OneFree(a) by { SameFree(f1, a); }
        AllocIff(f1);
      }
    }
  }

  lemma SameFree(f: Fs, g: Fs)
    requires f.dataUsed == g.dataUsed
    ensures OneFree(f) <==> OneFree(g)
  {
    if b :| IsFree(f, b) {
      assert IsFree(g, b);
    }
    if b :| IsFree(g, b) {
      assert IsFree(f, b);
    }
  }
}
