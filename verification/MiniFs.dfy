/** The kernel's MiniFS, step by step: a disk of sectors, the in-memory data map and the two scratch buffers, changed in
    place. Every method is proved equal to the operation on the stored file system that it implements. */
module MiniFs {
  import opened Bytes
  import opened FsBlocks
  import opened FsFiles
  import opened DirTree
  import opened FsTree
  import FsLeaks
  import opened Paths
  import PathLaws
  import opened FsRuns
  import opened Disk

  /** `copy_bytes` from `src[p..]` into `dst` at `o`. */
  method CopyBytes(dst: seq<byte>, o: nat, src: seq<byte>, p: nat, len: nat) returns (r: seq<byte>)
    requires o + len <= |dst| && p + len <= |src|
    ensures r == Splice(dst, o, src[p..p + len])
  {
    r := dst;
    var i := 0;
    while i < len
      invariant 0 <= i <= len && |r| == |dst|
      invariant forall k :: 0 <= k < |dst| ==> r[k] == if o <= k < o + i then src[p + k - o] else dst[k]
    {
      r := r[o + i := src[p + i]];
      i := i + 1;
    }
  }

  /** `str_equal` of a NUL-terminated field and a name. */
  method StrEqual(a: seq<byte>, b: seq<byte>) returns (eq: bool)
    requires |CString(a)| < |a| && 0 !in b
    ensures eq == (CString(a) == b)
  {
    var s := CString(a);
    var i := 0;
    while i < |a| && a[i] == (if i < |b| then b[i] else 0)
      invariant 0 <= i <= |s| && i <= |b| && s[..i] == b[..i]
    {
      if a[i] == 0 {
        assert i == |s|;
        assert i == |b|;
        return true;
      }
      assert i < |s|;
      i := i + 1;
    }
    var x, y := a[i], if i < |b| then b[i] else 0;
    assert s == b ==> x == y;
    return false;
  }

  /** `next_component`, with the cursor as an index: 1 and the next name, 0 at the end, -1 for a name that is too long. */
  method NextComponent(path: seq<byte>, start: nat) returns (status: int, pos: nat, component: seq<byte>)
    requires start <= |path|
    ensures start <= pos <= |path| && -1 <= status <= 1
    ensures status == 0 ==> Components(path[start..]) == []
    ensures status == 1 ==> pos > start && |component| <= 55
                            && Components(path[start..]) == [component] + Components(path[pos..])
    ensures status == -1 ==> Components(path[start..]) != [] && |Components(path[start..])[0]| > 55
  {
    hide Components;
    pos := SkipSlashes(path, start);
    if pos == |path| {
      NoComponents();
      assert path[pos..] == [];
      return 0, pos, [];
    }
    var q := pos;
    var fits: bool;
    fits, pos, component := TakeName(path, q);
    if !fits {
      TooLong(path, q);
      return -1, pos, component;
    }
    SplitComponent(path, q, pos);
    return 1, pos, component;
  }

  method SkipSlashes(path: seq<byte>, start: nat) returns (pos: nat)
    requires start <= |path|
    ensures start <= pos <= |path| && (pos < |path| ==> path[pos] != SLASH)
    ensures Components(path[start..]) == Components(path[pos..])
  {
    pos := start;
    while pos < |path| && path[pos] == SLASH
      invariant start <= pos <= |path|
      invariant Components(path[start..]) == Components(path[pos..])
    {
      assert path[pos..][1..] == path[pos + 1..];
      pos := pos + 1;
    }
  }

  method TakeName(path: seq<byte>, q: nat) returns (fits: bool, pos: nat, component: seq<byte>)
    requires q < |path| && path[q] != SLASH
    ensures q <= pos <= |path| && component == path[q..pos] && |component| <= 55 && SLASH !in component
    ensures fits ==> q < pos && (pos < |path| ==> path[pos] == SLASH)
    ensures !fits ==> pos == q + 55 && pos < |path| && path[pos] != SLASH
  {
    pos := q;
    component := [];
    while pos < |path| && path[pos] != SLASH
      invariant q <= pos <= |path| && component == path[q..pos] && |component| <= 55
      invariant SLASH !in component
    {
      if |component| >= 55 {
        return false, pos, component;
      }
      component := component + [path[pos]];
      pos := pos + 1;
    }
    return true, pos, component;
  }

  lemma NoComponents()
    ensures Components([]) == []
  {
  }

  lemma SplitComponent(path: seq<byte>, q: nat, pos: nat)
    requires q < pos <= |path| && SLASH !in path[q..pos] && (pos < |path| ==> path[pos] == SLASH)
    ensures Components(path[q..]) == [path[q..pos]] + Components(path[pos..])
  {
    var c := path[q..pos];
    assert path[q..] == c + path[pos..];
    NameLengthOf(c, path[pos..]);
    assert path[q..][..|c|] == c && path[q..][|c|..] == path[pos..];
    assert path[q..][0] == c[0];
  }

  /** The two scans of `resolve_parent`: the length without trailing slashes, and the last slash before it. */
  method SplitLast(path: seq<byte>) returns (length: nat, slash: int)
    requires path != []
    ensures length == Trimmed(path, |path|) && slash == LastSlash(path, length)
  {
    length := |path|;
    while length > 1 && path[length - 1] == SLASH
      invariant 1 <= length <= |path|
      invariant Trimmed(path, |path|) == Trimmed(path, length)
    {
      length := length - 1;
    }
    slash := -1;
    var i := 0;
    while i < length
      invariant 0 <= i <= length && slash == LastSlash(path, i)
    {
      if path[i] == SLASH {
        slash := i;
      }
      i := i + 1;
    }
  }

  lemma TooLong(path: seq<byte>, q: nat)
    requires q + 56 <= |path| && SLASH !in path[q..q + 55] && path[q + 55] != SLASH
    ensures Components(path[q..]) != [] && |Components(path[q..])[0]| > 55
  {
    var p := path[q..];
    forall k | 0 <= k < 56 ensures p[k] != SLASH {
      assert k < 55 ==> p[k] == path[q..q + 55][k];
    }
  }

  class MiniFs {
    var disk: seq<Sector>
    var bitmap: seq<byte>
    var blockBuffer: Sector
    var indirectBuffer: Sector

    ghost predicate Valid()
      reads this
    {
      |disk| == 16384 && bitmap == DataMap(disk)
    }

    /** The file system on the disk. */
    ghost function State(): (fs: Fs)
      requires Valid()
      reads this
    {
      View(disk)
    }

    // -------------------------------------------------------------- sectors

    method BlockRead(sector: int) returns (status: int, buffer: Sector)
      requires |disk| == 16384
      ensures status == if 0 <= sector < 16384 then 0 else -1
      ensures status == 0 ==> buffer == disk[sector]
    {
      if !(0 <= sector < 16384) {
        return -1, ZERO_SECTOR;
      }
      return 0, disk[sector];
    }

    method BlockWrite(sector: int, buffer: Sector) returns (status: int)
      requires |disk| == 16384
      modifies this`disk
      ensures status == if 0 <= sector < 16384 then 0 else -1
      ensures disk == if status == 0 then old(disk)[sector := buffer] else old(disk)
    {
      if !(0 <= sector < 16384) {
        return -1;
      }
      disk := disk[sector := buffer];
      return 0;
    }

    /** `block_read` of a data block. */
    method ReadData(b: int) returns (buffer: Sector)
      requires Valid() && IsDataBlock(b)
      ensures buffer == State().data[b - 38]
    {
      var status: int;
      status, buffer := BlockRead(b);
    }

    /** `block_write` of a data block. */
    method WriteData(b: int, buffer: Sector) returns (status: int)
      requires Valid() && IsDataBlock(b)
      modifies this`disk
      ensures Valid() && status == 0
      ensures State() == old(State()).(data := old(State()).data[b - 38 := buffer])
    {
      hide View;
      ViewPutBlock(disk, b, buffer);
      assert DataMap(disk[b := buffer]) == DataMap(disk);
      status := BlockWrite(b, buffer);
    }

    /** `load_bitmap` of the data map, as `minifs_init` does it. */
    method LoadBitmap()
      requires |disk| == 16384
      modifies this`bitmap
      ensures Valid()
    {
      bitmap := [];
      var i := 0;
      while i < 4
        invariant 0 <= i <= 4
        invariant bitmap == DataMap(disk)[..512 * i]
      {
        var status, sector := BlockRead(2 + i);
        assert DataMap(disk)[512 * i..512 * i + 512] == sector;
        bitmap := bitmap + sector;
        i := i + 1;
      }
    }

    // -------------------------------------------------------------- inodes

    method ReadInode(number: int) returns (status: int, inode: Inode)
      requires Valid()
      modifies this`blockBuffer
      ensures status == if 0 <= number < 256 then 0 else -1
      ensures status == 0 ==> inode == State().inodes[number]
    {
      if !(0 <= number < 256) {
        return -1, FREE_INODE;
      }
      status, blockBuffer := BlockRead(6 + number / 8);
      inode := InodeAt(blockBuffer, 64 * (number % 8));
    }

    method WriteInode(number: int, inode: Inode) returns (status: int)
      requires Valid()
      modifies this`disk, this`blockBuffer
      ensures Valid()
      ensures status == if 0 <= number < 256 then 0 else -1
      ensures State() == if status == 0 then SetInode(old(State()), number, inode) else old(State())
    {
      hide View;
      if !(0 <= number < 256) {
        return -1;
      }
      ViewPutInode(disk, number, inode);
      status, blockBuffer := BlockRead(6 + number / 8);
      var words := WordBytes(InodeWords(inode));
      var buffer := CopyBytes(blockBuffer, 64 * (number % 8), words, 0, 64);
      assert words[0..64] == words;
      blockBuffer := buffer;
      assert DataMap(disk[6 + number / 8 := blockBuffer]) == DataMap(disk);
      status := BlockWrite(6 + number / 8, blockBuffer);
    }

    method AllocInode() returns (number: int)
      requires Valid()
      modifies this`disk, this`blockBuffer
      ensures Valid()
      ensures var c := FirstFreeInode(old(State()).inodeUsed, 1);
              && number == (if c == 256 then -1 else c)
              && State() == if c == 256 then old(State()) else old(State()).(inodeUsed := old(State()).inodeUsed[c := true])
    {
      var status: int;
      status, blockBuffer := BlockRead(1);
      var i := 1;
      while i < 256
        invariant 1 <= i <= 256 && disk == old(disk) && blockBuffer == disk[1]
        invariant FirstFreeInode(State().inodeUsed, 1) == FirstFreeInode(State().inodeUsed, i)
      {
        if !BitAt(blockBuffer, i) {
          ViewPutInodeBit(disk, i, true);
          assert DataMap(disk[1 := SetBit(disk[1], i, true)]) == DataMap(disk);
          blockBuffer := SetBit(blockBuffer, i, true);
          status := BlockWrite(1, blockBuffer);
          return i;
        }
        i := i + 1;
      }
      return -1;
    }

    method FreeInodeNumber(number: int)
      requires Valid()
      modifies this`disk, this`blockBuffer
      ensures Valid()
      ensures State() == if 0 < number < 256 then old(State()).(inodeUsed := old(State()).inodeUsed[number := false])
                         else old(State())
    {
      hide View;
      if number <= 0 || number >= 256 {
        return;
      }
      var status: int;
      ViewPutInodeBit(disk, number, false);
      status, blockBuffer := BlockRead(1);
      assert DataMap(disk[1 := SetBit(disk[1], number, false)]) == DataMap(disk);
      blockBuffer := SetBit(blockBuffer, number, false);
      status := BlockWrite(1, blockBuffer);
    }

    // -------------------------------------------------------------- data blocks

    /** Marks or frees block `b` in memory and writes the one map sector back. */
    method PutDataBit(b: nat, v: bool)
      requires Valid() && IsDataBlock(b)
      modifies this`disk, this`bitmap
      ensures Valid()
      ensures State() == old(State()).(dataUsed := old(State()).dataUsed[b := v])
    {
      hide View;
      ViewPutDataBit(disk, b, v);
      bitmap := SetBit(bitmap, b, v);
      var sector := b / 4096;
      var status := BlockWrite(2 + sector, bitmap[512 * sector..512 * sector + 512]);
    }

    method AllocDataBlock() returns (block: int)
      requires Valid()
      modifies this`disk, this`bitmap, this`blockBuffer
      ensures Valid()
      ensures (State(), block) == AllocBlock(old(State()))
    {
      var i := 38;
      while i < 15360
        invariant 38 <= i <= 15360 && disk == old(disk) && bitmap == old(bitmap)
        invariant FirstFree(State().dataUsed, 38) == FirstFree(State().dataUsed, i)
      {
        if !BitAt(bitmap, i) {
          PutDataBit(i, true);
          blockBuffer := ZERO_SECTOR;
          var status := WriteData(i, blockBuffer);
          return i;
        }
        i := i + 1;
      }
      return -1;
    }

    method FreeDataBlock(block: nat)
      requires Valid()
      modifies this`disk, this`bitmap
      ensures Valid()
      ensures State() == if IsDataBlock(block) then old(State()).(dataUsed := old(State()).dataUsed[block := false])
                         else old(State())
    {
      if block < 38 || block >= 15360 {
        return;
      }
      PutDataBit(block, false);
    }

    // -------------------------------------------------------------- the block map of an inode

    method InodeBlock(inode: Inode, index: nat) returns (block: u32)
      requires Valid() && (inode.indirect == 0 || IsDataBlock(inode.indirect))
      modifies this`blockBuffer
      ensures block == if index < 10 then inode.direct[index] else if index >= 138 then 0 else SlotOf(State(), inode, index - 10)
    {
      if index < 10 {
        return inode.direct[index];
      }
      if index >= 138 || inode.indirect == 0 {
        return 0;
      }
      var status: int;
      status, blockBuffer := BlockRead(inode.indirect);
      return U32At(blockBuffer, 4 * (index - 10));
    }

    /** The indirect block of the caller's copy of the record of inode `n`, allocated when missing. */
    method EnsureIndirectBlock(inode: Inode, ghost n: nat) returns (ok: bool, ino: Inode)
      requires Valid() && n < 256 && RefsMarked(SetInode(State(), n, inode))
      modifies this`disk, this`bitmap, this`blockBuffer
      ensures Valid()
      ensures State().inodes == old(State()).inodes && State().inodeUsed == old(State()).inodeUsed
      ensures var (f, top) := EnsureIndirect(SetInode(old(State()), n, inode), n);
              && ok == (top >= 0)
              && SetInode(State(), n, ino) == f
              && (ok ==> ino.indirect == top && IsDataBlock(top) && State().dataUsed[top])
    {
      hide View, FirstFree;
      ino := inode;
      ghost var v := SetInode(State(), n, inode);
      assert v.inodes[n] == inode && Ref(v, Indirect(n)) == inode.indirect;
      if inode.indirect == 0 {
        var block := AllocDataBlock();
        if block < 0 {
          return false, ino;
        }
        ino := inode.(indirect := block);
        assert v.inodes[n := ino] == State().inodes[n := ino];
      }
      ok := true;
    }

    /** `ensure_inode_block` on the caller's copy of the record of inode `n`. */
    method EnsureInodeBlock(inode: Inode, index: nat, ghost n: nat) returns (block: int, ino: Inode)
      requires Valid() && n < 256 && RefsMarked(SetInode(State(), n, inode))
      modifies this
      ensures Valid()
      ensures State().inodes == old(State()).inodes && State().inodeUsed == old(State()).inodeUsed
      ensures (SetInode(State(), n, ino), block) == EnsureBlock(SetInode(old(State()), n, inode), n, index)
    {
      hide View, FirstFree, EnsureIndirect, RefsMarked;
      ino := inode;
      ghost var v := SetInode(State(), n, inode);
      assert v.inodes[n] == inode;
      if index >= 138 {
        return -1, ino;
      }
      if index < 10 {
        if inode.direct[index] == 0 {
          block := AllocDataBlock();
          if block < 0 {
            return -1, ino;
          }
          ino := inode.(direct := inode.direct[index := block]);
        }
        assert v.inodes[n := ino] == State().inodes[n := ino];
        return ino.direct[index], ino;
      }
      var ok: bool;
      ok, ino := EnsureIndirectBlock(inode, n);
      if !ok {
        IndirectFailed(v, n);
        return -1, ino;
      }
      ghost var f1 := SetInode(State(), n, ino);
      indirectBuffer := ReadData(ino.indirect);
      var slot := index - 10;
      block := U32At(indirectBuffer, 4 * slot);
      if block == 0 {
        block := AllocDataBlock();
        assert AllocBlock(f1) == (SetInode(State(), n, ino), block);
        if block < 0 {
          return -1, ino;
        }
        indirectBuffer := Splice(indirectBuffer, 4 * slot, U32Bytes(block));
        var status := WriteData(ino.indirect, indirectBuffer);
      }
    }

    // -------------------------------------------------------------- truncation

    method TruncateInode(inode: Inode, ghost n: nat) returns (ino: Inode)
      requires Valid() && n < 256 && RefsMarked(SetInode(State(), n, inode))
      modifies this
      ensures Valid() && ino == Emptied(inode)
      ensures State() == old(State()).(dataUsed := Freed(SetInode(old(State()), n, inode), n))
    {
      hide View, RefsMarked, Freed;
      ghost var s0 := State();
      ghost var v := SetInode(s0, n, inode);
      assert inode.indirect == 0 || IsDataBlock(inode.indirect) by { IndirectIsData(v, n); }
      ino := inode;
      var i := 0;
      while i < 10
        invariant 0 <= i <= 10 && Valid()
        invariant State() == s0.(dataUsed := State().dataUsed)
        invariant FreedBlocks(s0.dataUsed, State().dataUsed, inode.direct[..i])
        invariant forall j :: 0 <= j < 10 ==> ino.direct[j] == if j < i then 0 else inode.direct[j]
        invariant ino == inode.(direct := ino.direct)
      {
        ghost var used := State().dataUsed;
        FreeDataBlock(ino.direct[i]);
        FreedOneMore(s0.dataUsed, used, State().dataUsed, inode.direct[..i], inode.direct[i]);
        assert inode.direct[..i] + [inode.direct[i]] == inode.direct[..i + 1];
        ino := ino.(direct := ino.direct[i := 0]);
        i := i + 1;
      }
      assert inode.direct[..10] == inode.direct;
      ghost var freed := inode.direct;
      if ino.indirect != 0 {
        indirectBuffer := ReadData(ino.indirect);
        ghost var slots := Slots(v, n);
        i := 0;
        while i < 128
          invariant 0 <= i <= 128 && Valid() && indirectBuffer == s0.data[inode.indirect - 38]
          invariant State() == s0.(dataUsed := State().dataUsed)
          invariant FreedBlocks(s0.dataUsed, State().dataUsed, inode.direct + slots[..i])
        {
          ghost var used := State().dataUsed;
          FreeDataBlock(U32At(indirectBuffer, 4 * i));
          FreedOneMore(s0.dataUsed, used, State().dataUsed, inode.direct + slots[..i], slots[i]);
          assert inode.direct + slots[..i] + [slots[i]] == inode.direct + slots[..i + 1];
          i := i + 1;
        }
        assert slots[..128] == slots;
        ghost var used := State().dataUsed;
        FreeDataBlock(ino.indirect);
        FreedOneMore(s0.dataUsed, used, State().dataUsed, inode.direct + slots, inode.indirect);
        freed := inode.direct + slots + [inode.indirect];
        ino := ino.(indirect := 0);
      }
      ino := ino.(size := 0);
      assert ino.direct == NO_BLOCKS;
      AllFreed(v, n, State().dataUsed, freed);
    }

    // -------------------------------------------------------------- file bytes

    /** One round of the loop of `write_at`: a chunk of `source` into one logical block. */
    method WriteRound(inode: Inode, ghost n: nat, off: nat, source: seq<byte>, done: nat, chunk: nat)
      returns (block: int, ino: Inode)
      requires Valid() && n < 256 && 0 < chunk && done + chunk <= |source|
      requires off % 512 + chunk <= 512 && off + chunk < 0x1_0000_0000 && FsOk(Sized(State(), n, inode, off))
      modifies this
      ensures Valid() && State().inodes == old(State()).inodes && ino.size == inode.size
      ensures var (f, b) := WriteChunk(Sized(old(State()), n, inode, off), n, off, source[done..done + chunk]);
              && (block < 0 <==> b < 0)
              && f == Sized(State(), n, ino, if block < 0 then off else off + chunk)
    {
      hide View, FsOk, EnsureBlock, WriteChunk, PutBytes, RefsMarked;
      ghost var s1 := State();
      SizedRefs(s1, n, inode, off);
      block, ino := EnsureInodeBlock(inode, off / 512, n);
      ghost var s2 := State();
      ghost var t := source[done..done + chunk];
      StepMatches(s1, n, inode, off, t, s2, ino, block);
      EnsureKeepsSize(SetInode(s1, n, inode), n, off / 512);
      assert SetInode(s2, n, ino).inodes[n] == ino;
      if block >= 0 {
        EnsuredIsData(SetInode(s1, n, inode), n, off / 512);
        blockBuffer := ReadData(block);
        var buffer := CopyBytes(blockBuffer, off % 512, source, done, chunk);
        blockBuffer := buffer;
        PutIsSplice(s2, block, off % 512, t, blockBuffer);
        var status := WriteData(block, blockBuffer);
      }
    }

    method WriteAt(number: nat, offset: u32, source: seq<byte>) returns (result: int)
      requires Valid() && FsOk(State())
      modifies this
      ensures Valid() && (State(), result) == FsFiles.WriteAt(old(State()), number, offset, source)
    {
      hide View, FsOk, EnsureBlock, WriteFrom, WriteChunk;
      if offset >= 65536 {
        return 0;
      }
      var length := Min(|source|, 65536 - offset);
      var status: int, inode: Inode;
      status, inode := ReadInode(number);
      if status < 0 || inode.mode % 256 != 1 {
        return -1;
      }
      ghost var s0 := State();
      ghost var req := source[..length];
      ghost var whole := WriteFrom(Sized(s0, number, inode, offset), number, offset, req);
      Extended(s0, number, offset);
      var off: int := offset;
      var done := 0;
      while done < length
        invariant 0 <= done <= length && off == offset + done && Valid()
        invariant FsOk(Sized(State(), number, inode, off))
        invariant var (g, d) := WriteFrom(Sized(State(), number, inode, off), number, off, req[done..]); whole == (g, done + d)
      {
        var chunk := Min(length - done, 512 - off % 512);
        ghost var v := Sized(State(), number, inode, off);
        assert req[done..][..chunk] == source[done..done + chunk] && req[done..][chunk..] == req[done + chunk..];
        WriteFromUnfold(v, number, off, req[done..]);
        ChunkKeepsOk(v, number, off, source[done..done + chunk]);
        var block: int;
        block, inode := WriteRound(inode, number, off, source, done, chunk);
        if block < 0 {
          break;
        }
        off := off + chunk;
        done := done + chunk;
      }
      assert whole == (Sized(State(), number, inode, off), done) by {
        if done == length {
          assert req[done..] == [];
          WriteNothing(Sized(State(), number, inode, off), number, off);
        }
      }
      if off > inode.size {
        inode := inode.(size := off);
      }
      status := WriteInode(number, inode);
      return done;
    }

    /** One round of the loop of `minifs_pread`: part of one logical block, unless that is a hole. */
    method ReadRound(inode: Inode, ghost n: nat, off: nat, chunk: nat) returns (block: u32, bytes: seq<byte>)
      requires Valid() && RefsMarked(State()) && n < 256 && inode == State().inodes[n]
      requires off % 512 + chunk <= 512 && off + chunk <= inode.size
      modifies this`blockBuffer
      ensures block == BlockOf(State(), n, off / 512)
      ensures block != 0 ==> bytes == Content(State(), n)[off..off + chunk]
    {
      hide View, RefsMarked, BlockOf, Content;
      IndirectIsData(State(), n);
      block := InodeBlock(inode, off / 512);
      InodeBlockIsBlockOf(State(), n, off / 512);
      if block == 0 {
        return 0, [];
      }
      BlockIsData(State(), n, off / 512);
      blockBuffer := ReadData(block);
      SliceOfBlock(State(), n, off, chunk);
      bytes := blockBuffer[off % 512..off % 512 + chunk];
    }

    method Pread(number: nat, offset: u32, length: u32) returns (result: int, out: seq<byte>)
      requires Valid() && RefsMarked(State())
      modifies this`blockBuffer
      ensures FsFiles.Pread(State(), number, offset, length) == if result < 0 then ReadFailed else ReadOk(out)
      ensures result >= 0 ==> result == |out|
    {
      hide View, RefsMarked, BlockOf, Content;
      out := [];
      var status: int, inode: Inode;
      status, inode := ReadInode(number);
      if status < 0 || inode.mode % 256 != 1 {
        return -1, [];
      }
      if offset >= inode.size {
        return 0, [];
      }
      var len := Min(length, inode.size - offset);
      var off: int := offset;
      var done := 0;
      while done < len
        invariant 0 <= done <= len && off == offset + done && |out| == done
        invariant out == Content(State(), number)[offset..off]
        invariant forall i :: 0 < done && offset / 512 <= i && 512 * i < off ==> BlockOf(State(), number, i) != 0
      {
        var chunk := Min(len - done, 512 - off % 512);
        var block, bytes := ReadRound(inode, number, off, chunk);
        if block == 0 {
          assert off / 512 < (offset + len + 511) / 512;
          return -1, [];
        }
        out := out + bytes;
        off := off + chunk;
        done := done + chunk;
      }
      assert !(len > 0 && HoleIn(State(), number, offset, len));
      return done, out;
    }

    // -------------------------------------------------------------- directories

    /** Entry `i` of directory `d`: its block is left in the block buffer. */
    method ReadEntry(inode: Inode, ghost d: nat, i: nat) returns (block: u32, entry: Dirent)
      requires Valid() && RefsMarked(State()) && TableReadable(State(), d)
      requires inode == State().inodes[d] && i < |Dir(State(), d)|
      modifies this`blockBuffer
      ensures IsDataBlock(block) && block == BlockOf(State(), d, i / 8) && blockBuffer == State().data[block - 38]
      ensures entry == Dir(State(), d)[i]
    {
      hide View, RefsMarked, BlockOf, Content, Table;
      IndirectIsData(State(), d);
      block := InodeBlock(inode, i / 8);
      InodeBlockIsBlockOf(State(), d, i / 8);
      EntryBlock(State(), d, i);
      blockBuffer := ReadData(block);
      entry := DirentAt(blockBuffer, i % 8);
    }

    method DirLookup(directory: nat, name: seq<byte>) returns (result: int)
      requires Valid() && RefsMarked(State()) && DirReadable(State(), directory) && 0 !in name
      modifies this`blockBuffer
      ensures result == Lookup(TreeOf(State()), directory, name)
    {
      hide View, RefsMarked, BlockOf, Content, Table, CString;
      var status: int, inode: Inode;
      status, inode := ReadInode(directory);
      if status < 0 || inode.mode % 256 != 2 {
        return -1;
      }
      ghost var es := Dir(State(), directory);
      TableLength(State(), directory);
      var count := inode.size / 64;
      var i := 0;
      while i < count
        invariant 0 <= i <= count
        invariant FindName(es, name, 0) == FindName(es, name, i)
      {
        var block, entry := ReadEntry(inode, directory, i);
        if entry.inode != 0xffff_ffff {
          var same := StrEqual(entry.name, name);
          if same {
            return entry.inode;
          }
        }
        i := i + 1;
      }
      return -1;
    }

    /** The scan of `dir_add` for a tombstone; the end of the table when there is none. */
    method FreeEntry(inode: Inode, ghost d: nat) returns (index: nat)
      requires Valid() && RefsMarked(State()) && TableReadable(State(), d) && inode == State().inodes[d]
      modifies this`blockBuffer
      ensures index == FreeSlot(Dir(State(), d), 0)
    {
      hide View, RefsMarked, BlockOf, Content, Table, CString;
      ghost var es := Dir(State(), d);
      TableLength(State(), d);
      var count := inode.size / 64;
      index := 0;
      while index < count
        invariant 0 <= index <= count
        invariant FreeSlot(es, 0) == FreeSlot(es, index)
      {
        var block, entry := ReadEntry(inode, d, index);
        if entry.inode == 0xffff_ffff {
          return index;
        }
        index := index + 1;
      }
    }

    /** Stores an entry at `index` and, when it succeeds, the directory's record. */
    method StoreEntry(inode: Inode, d: nat, index: nat, name: seq<byte>, child: u32, mode: u32) returns (result: int)
      requires Valid() && FsOk(State()) && d < 256 && inode == State().inodes[d] && |name| <= 55
      requires inode.size % 64 == 0 && index <= inode.size / 64 <= 1104
      modifies this
      ensures Valid()
      ensures var (f, b) := PutDirent(old(State()), d, index, Dirent(child, mode, NameField(name)));
              && result == (if b < 0 then -1 else 0)
              && State() == if b < 0 then f.(inodes := old(State()).inodes) else f
    {
      hide View, FsOk, WriteChunk;
      ghost var s0 := State();
      EntryFits(index);
      var entry := U32Bytes(child) + U32Bytes(mode) + NameField(name);
      assert entry[0..64] == entry;
      SizedSame(s0, d, 64 * index);
      var block: int, ino: Inode;
      block, ino := WriteRound(inode, d, 64 * index, entry, 0, 64);
      if block < 0 {
        return -1;
      }
      if index == inode.size / 64 {
        ino := ino.(size := inode.size + 64);
      }
      var status := WriteInode(d, ino);
      return 0;
    }

    method DirAdd(directory: nat, name: seq<byte>, child: u32, mode: u32) returns (result: int)
      requires Valid() && FsOk(State()) && DirReadable(State(), directory) && 0 !in name
      modifies this
      ensures Valid() && (State(), result) == FsTree.DirAdd(old(State()), directory, name, child, mode)
    {
      hide View, BlockOf, Content, Table, RefsMarked, CString, FsOk, FindName, PutDirent, NoHoles, Lookup, NameField;
      OkMarked(State());
      var found := DirLookup(directory, name);
      if found >= 0 {
        return -1;
      }
      if |name| <= 0 || |name| > 55 {
        return -1;
      }
      var status: int, inode: Inode;
      status, inode := ReadInode(directory);
      if status < 0 || inode.mode % 256 != 2 {
        return -1;
      }
      TableLength(State(), directory);
      var index := FreeEntry(inode, directory);
      result := StoreEntry(inode, directory, index, name, child, mode);
    }

    method CreateNode(parent: u32, name: seq<byte>, mode: u32) returns (number: int)
      requires Valid() && FsInv(State()) && 0 !in name
      modifies this
      ensures Valid() && (State(), number) == FsTree.CreateNode(old(State()), parent, name, mode)
    {
      hide View, FsInv, FsTree.DirAdd, FirstFreeInode, DirReadable, InodeSane, FsOk;
      ghost var s0 := State();
      number := AllocInode();
      if number < 0 {
        return -1;
      }
      ghost var f1 := WithNewInode(s0, number, mode, parent);
      var status := WriteInode(number, Inode(mode, 0, parent, 1, NO_BLOCKS, 0, 0));
      assert State() == f1;
      NewReadable(s0, number, mode, parent);
      var added := DirAdd(parent, name, number, mode);
      if status < 0 || added < 0 {
        FreeInodeNumber(number);
        return -1;
      }
    }

    method DirRemove(directory: nat, name: seq<byte>) returns (result: int)
      requires Valid() && RefsMarked(State()) && TableReadable(State(), directory) && 0 !in name
      modifies this`disk, this`blockBuffer
      ensures Valid()
      ensures var i := FindName(Dir(old(State()), directory), name, 0);
              && result == (if i < |Dir(old(State()), directory)| then 0 else -1)
              && State() == if result == 0 then Erase(old(State()), directory, i) else old(State())
    {
      hide View, RefsMarked, BlockOf, Content, Table, CString, NoHoles;
      var status: int, inode: Inode;
      status, inode := ReadInode(directory);
      ghost var es := Dir(State(), directory);
      TableLength(State(), directory);
      var count := inode.size / 64;
      var i := 0;
      while i < count
        invariant 0 <= i <= count && disk == old(disk)
        invariant FindName(es, name, 0) == FindName(es, name, i)
      {
        var block, entry := ReadEntry(inode, directory, i);
        if entry.inode != 0xffff_ffff {
          var same := StrEqual(entry.name, name);
          if same {
            blockBuffer := Splice(blockBuffer, 64 * (i % 8), U32Bytes(0xffff_ffff));
            result := WriteData(block, blockBuffer);
            return;
          }
        }
        i := i + 1;
      }
      return -1;
    }

    /** The emptiness loop of `minifs_unlink`. */
    method HasLiveEntry(inode: Inode, ghost d: nat) returns (live: bool)
      requires Valid() && RefsMarked(State()) && TableReadable(State(), d) && inode == State().inodes[d]
      modifies this`blockBuffer
      ensures live == HasLive(Dir(State(), d))
    {
      hide View, RefsMarked, BlockOf, Content, Table, CString;
      ghost var es := Dir(State(), d);
      TableLength(State(), d);
      var count := inode.size / 64;
      var i := 0;
      while i < count
        invariant 0 <= i <= count
        invariant forall j :: 0 <= j < i ==> !DirTree.Live(es[j])
      {
        var block, entry := ReadEntry(inode, d, i);
        if entry.inode != 0xffff_ffff {
          return true;
        }
        i := i + 1;
      }
      return false;
    }

    /** The second half of `minifs_unlink`: the inode is emptied, its entry erased and its number freed. */
    method RemoveNode(parent: nat, name: seq<byte>, number: nat, inode: Inode) returns (result: int)
      requires Valid() && parent < 256 && number < 256 && 0 !in name && inode == State().inodes[number]
      requires RefsMarked(State())
      requires var f := Truncate(State(), number, FREE_INODE); RefsMarked(f) && TableReadable(f, parent)
      requires number > 0
      modifies this
      ensures Valid()
      ensures var f := Truncate(old(State()), number, FREE_INODE);
              var i := FindName(Dir(f, parent), name, 0);
              && result == (if i < |Dir(f, parent)| then 0 else -1)
              && State() == if result == 0 then Erase(f, parent, i).(inodeUsed := old(State()).inodeUsed[number := false])
                            else f
    {
      hide View, Content, Table, BlockOf, RefsMarked, TableReadable, Freed, Erase, FindName, CString;
      ghost var s0 := State();
      assert SetInode(s0, number, inode) == s0 by { assert s0.inodes[number := s0.inodes[number]] == s0.inodes; }
      var emptied := TruncateInode(inode, number);
      var status := WriteInode(number, FREE_INODE);
      assert State() == Truncate(s0, number, FREE_INODE);
      result := DirRemove(parent, name);
      if result < 0 {
        return -1;
      }
      ErasedBits(Truncate(s0, number, FREE_INODE), parent, FindName(Dir(Truncate(s0, number, FREE_INODE), parent), name, 0));
      FreeInodeNumber(number);
      return 0;
    }

    /** `minifs_unlink` below a resolved parent; `open` are the inodes that open files name. */
    method UnlinkIn(parent: u32, name: seq<byte>, open: set<int>) returns (result: int)
      requires Valid() && FsInv(State()) && 0 !in name
      modifies this
      ensures Valid() && (State(), result) == Unlink(old(State()), parent, name, open)
    {
      hide View, FsInv, FsOk, Content, Table, BlockOf, RefsMarked, DirReadable, TableReadable, HasLive, Freed, Erase, FindName,
           CString, Lookup, Truncate;
      ghost var s0 := State();
      InvReadable(s0);
      var number := DirLookup(parent, name);
      LookupInRange(s0, parent, name);
      if number <= 0 || number in open {
        return -1;
      }
      var status: int, inode: Inode;
      status, inode := ReadInode(number);
      if status < 0 {
        return -1;
      }
      if inode.mode % 256 == 2 {
        ReadableTable(s0, number);
        var live := HasLiveEntry(inode, number);
        if live {
          return -1;
        }
      }
      TruncatedReadable(s0, parent, name, number);
      result := RemoveNode(parent, name, number, inode);
    }

    // -------------------------------------------------------------- paths

    method Resolve(cwd: u32, path: seq<byte>, ghost t: Tree) returns (result: int)
      requires Valid() && FsInv(State()) && t == TreeOf(State()) && 0 !in path
      modifies this`blockBuffer
      ensures result == Paths.Resolve(t, cwd, path)
    {
      hide View, FsInv, RefsMarked, DirReadable, Lookup, NameLength;
      if path == [] || |path| >= 256 {
        return -1;
      }
      InvReadable(State());
      var current: int := if path[0] == SLASH then 0 else cwd;
      var cursor := 0;
      assert path[0..] == path;
      while true
        invariant 0 <= cursor <= |path| && 0 <= current < 0x1_0000_0000
        invariant Paths.Resolve(t, cwd, path) == Walk(t, current, Components(path[cursor..]))
        decreases |path| - cursor
      {
        var status, next, component := NextComponent(path, cursor);
        if status < 0 {
          return -1;
        }
        if status == 0 {
          return current;
        }
        ghost var cs := Components(path[cursor..]);
        assert cs[0] == component && cs[1..] == Components(path[next..]);
        assert 0 !in component by { ComponentBytes(path[cursor..]); }
        cursor := next;
        if component == [DOT] {
          continue;
        }
        if component == [DOT, DOT] {
          var inode: Inode;
          status, inode := ReadInode(current);
          if status < 0 {
            return -1;
          }
          current := inode.parent;
          continue;
        }
        var child := DirLookup(current, component);
        if child < 0 {
          return -1;
        }
        LookupWord(t, current, component);
        current := child;
      }
    }

    method ResolveParent(cwd: u32, path: seq<byte>, ghost t: Tree) returns (parent: int, name: seq<byte>)
      requires Valid() && FsInv(State()) && t == TreeOf(State()) && 0 !in path
      modifies this`blockBuffer
      ensures var (d, n) := Paths.ResolveParent(t, cwd, path); parent == d && (parent >= 0 ==> name == n)
    {
      hide View, FsInv, Paths.Resolve, TreeOf, Trimmed, LastSlash, NotAName;
      if |path| <= 0 || |path| >= 256 {
        return -1, [];
      }
      var length, slash := SplitLast(path);
      var start := slash + 1;
      name := path[start..length];
      if NotAName(name) {
        return -1, [];
      }
      if slash < 0 {
        return cwd, name;
      }
      if slash == 0 {
        return 0, name;
      }
      parent := Resolve(cwd, path[..slash], t);
    }

    // -------------------------------------------------------------- system calls on paths

    method CreateAt(cwd: u32, path: seq<byte>, mode: u32) returns (number: int)
      requires Valid() && FsInv(State()) && 0 !in path
      modifies this
      ensures Valid() && (State(), number) == FsRuns.CreateAt(old(State()), cwd, path, mode)
    {
      hide View, FsInv, FsTree.CreateNode, Paths.ResolveParent;
      var parent, name := ResolveParent(cwd, path, TreeOf(State()));
      if parent < 0 || parent >= 0x1_0000_0000 {
        return -1;
      }
      assert 0 !in name by { LastNameBytes(TreeOf(State()), cwd, path); }
      number := CreateNode(parent, name, mode);
    }

    /** The part of `minifs_open` that touches the disk. */
    method OpenFile(cwd: u32, path: seq<byte>, create: bool, trunc: bool) returns (number: int)
      requires Valid() && FsInv(State()) && 0 !in path
      modifies this
      ensures Valid() && (State(), number) == FsRuns.OpenFile(old(State()), cwd, path, create, trunc)
    {
      hide View, FsInv, FsRuns.CreateAt, Paths.Resolve, Freed, RefsMarked, TreeOf, Created, Paths.ResolveParent;
      number := Resolve(cwd, path, TreeOf(State()));
      assert RefsMarked(State()) by { InvReadable(State()); }
      if number < 0 && create {
        ghost var s0 := State();
        number := CreateAt(cwd, path, 1);
        CreatedMarked(s0, cwd, path);
      }
      if number < 0 {
        return -1;
      }
      var status: int, inode: Inode;
      status, inode := ReadInode(number);
      if status < 0 || inode.mode % 256 != 1 {
        return -1;
      }
      if trunc {
        ghost var f := State();
        assert SetInode(f, number, inode) == f by { assert f.inodes[number := f.inodes[number]] == f.inodes; }
        inode := TruncateInode(inode, number);
        status := WriteInode(number, inode);
      }
    }

    /** `minifs_unlink` */
    method UnlinkPath(cwd: u32, path: seq<byte>, open: set<int>) returns (result: int)
      requires Valid() && FsInv(State()) && 0 !in path
      modifies this
      ensures Valid() && (State(), result) == FsRuns.UnlinkPath(old(State()), cwd, path, open)
    {
      hide View, FsInv, Unlink, Paths.ResolveParent;
      var parent, name := ResolveParent(cwd, path, TreeOf(State()));
      if parent < 0 || parent >= 0x1_0000_0000 {
        return -1;
      }
      assert 0 !in name by { LastNameBytes(TreeOf(State()), cwd, path); }
      result := UnlinkIn(parent, name, open);
    }

    /** `minifs_chdir` */
    method ChDir(cwd: u32, path: seq<byte>, ghost t: Tree) returns (result: int)
      requires Valid() && FsInv(State()) && t == TreeOf(State()) && 0 !in path
      modifies this`blockBuffer
      ensures result == PathLaws.ChDir(t, cwd, path)
    {
      hide View, FsInv, Paths.Resolve, Table, Content;
      result := Resolve(cwd, path, t);
      if result < 0 {
        return -1;
      }
      var status: int, inode: Inode;
      status, inode := ReadInode(result);
      if status < 0 || inode.mode % 256 != 2 {
        return -1;
      }
    }

    /** The inner loop of `minifs_getcwd`: the name under which `current` is entered in its parent. */
    method NameInParent(parent: Inode, ghost p: nat, current: nat) returns (name: seq<byte>)
      requires Valid() && RefsMarked(State()) && TableReadable(State(), p) && parent == State().inodes[p]
      modifies this`blockBuffer
      ensures var es := Dir(State(), p);
              var i := FindInode(es, current, 0);
              name == if i == |es| then [] else CString(es[i].name)
    {
      hide View, RefsMarked, BlockOf, Content, Table, CString;
      ghost var es := Dir(State(), p);
      TableLength(State(), p);
      var count := parent.size / 64;
      var i := 0;
      while i < count
        invariant 0 <= i <= count
        invariant FindInode(es, current, 0) == FindInode(es, current, i)
      {
        var block, entry := ReadEntry(parent, p, i);
        if entry.inode == current {
          return CString(entry.name);
        }
        i := i + 1;
      }
      return [];
    }

    /** One round of the upward loop of `minifs_getcwd`: the name of `current` and its parent. */
    method StepUp(current: nat, ghost t: Tree) returns (name: seq<byte>, parent: nat)
      requires Valid() && FsInv(State()) && t == TreeOf(State()) && 0 < current < 256 && t.used[current]
      modifies this`blockBuffer
      ensures parent == t.parent[current] < 256 && name == OwnName(t, current) && name != []
    {
      hide View, FsInv, RefsMarked, TreeOk, OwnName, TableReadable, GoodName;
      InvReadable(State());
      InvTree(State());
      OwnNameFound(t, current);
      ParentReadable(State(), current);
      OwnNameIs(State(), current);
      NameNotEmpty(OwnName(t, current));
      var status: int, inode: Inode, above: Inode;
      status, inode := ReadInode(current);
      parent := inode.parent;
      status, above := ReadInode(parent);
      name := NameInParent(above, parent, current);
    }

    /** `minifs_getcwd`: the names are collected from the bottom up, back to front. */
    method GetCwd(cwd: nat, length: nat, ghost k: nat, ghost t: Tree) returns (result: PathResult)
      requires Valid() && FsInv(State()) && t == TreeOf(State()) && Rooted(t, cwd, k)
      modifies this`blockBuffer
      ensures result == Paths.GetCwd(t, cwd, k, length)
    {
      hide View, FsInv, TreeOk, OwnName, TreeOf;
      if length < 2 {
        return NoPath;
      }
      if cwd == 0 {
        return APath([SLASH]);
      }
      var reverse: seq<byte> := [];
      var current := cwd;
      ghost var j := k;
      while current != 0
        invariant Rooted(t, current, j) && |reverse| <= 255
        invariant AbsPath(t, cwd, k) == AbsPath(t, current, j) + Backwards(reverse)
        decreases j
      {
        var name, parent := StepUp(current, t);
        AbsPathStep(t, current, j, reverse, name);
        BackwardsAppend(reverse, name);
        if |name| == 0 || |reverse| + |name| + 1 >= 256 {
          return NoPath;
        }
        reverse := reverse + Backwards(name) + [SLASH];
        current := parent;
        j := j - 1;
      }
      BackwardsLength(reverse);
      assert AbsPath(t, cwd, k) == Backwards(reverse);
      if |reverse| + 1 > length {
        return NoPath;
      }
      return APath(Backwards(reverse));
    }

    /** `minifs_init`: the superblock is checked and the data map loaded. */
    method Init() returns (status: int)
      requires |disk| == 16384
      modifies this`blockBuffer, this`bitmap
      ensures status == if SuperOk(disk[0]) then 0 else -1
      ensures status == 0 ==> Valid()
    {
      status, blockBuffer := BlockRead(0);
      if U32At(blockBuffer, 0) != 0x4d46_5332 || U32At(blockBuffer, 4) != 2 || U32At(blockBuffer, 8) != 15360
         || U32At(blockBuffer, 12) != 256 || U32At(blockBuffer, 40) != 38 || U32At(blockBuffer, 44) != 65536
      {
        return -1;
      }
      LoadBitmap();
    }
  }

  /** The superblock fields `minifs_init` insists on: magic, version, block and inode counts, data start, size limit. */
  predicate SuperOk(s: Sector) {
    var w := WordsAt(s, 0, 12);
    w[0] == 0x4d46_5332 && w[1] == 2 && w[2] == 15360 && w[3] == 256 && w[10] == 38 && w[11] == 65536
  }

  lemma InvTree(fs: Fs)
    requires FsInv(fs)
    ensures TreeOk(TreeOf(fs))
  {
  }

  lemma NameNotEmpty(name: seq<byte>)
    requires GoodName(name)
    ensures |name| > 0
  {
  }

  lemma ParentReadable(fs: Fs, n: nat)
    requires FsInv(fs) && 0 < n < 256 && fs.inodeUsed[n]
    ensures fs.inodes[n].parent < 256 && TableReadable(fs, fs.inodes[n].parent)
  {
    hide CString, Content, Table, GoodName, InodeSane, FsOk;
    var t := TreeOf(fs);
    var i :| LiveAt(t, t.parent[n], i) && t.entries[t.parent[n]][i].inode == n;
    InvTableReadable(fs, t.parent[n]);
  }

  lemma OwnNameIs(fs: Fs, n: nat)
    requires FsInv(fs) && 0 < n < 256 && fs.inodeUsed[n] && fs.inodes[n].parent < 256
    ensures var es := Dir(fs, fs.inodes[n].parent);
            var i := FindInode(es, n, 0);
            OwnName(TreeOf(fs), n) == if i == |es| then [] else CString(es[i].name)
  {
    hide CString, Content, Table, GoodName, InodeSane, FsOk;
    var t := TreeOf(fs);
    var i :| LiveAt(t, t.parent[n], i) && t.entries[t.parent[n]][i].inode == n;
    EntryInDir(t, t.parent[n], i);
  }

  lemma AbsPathStep(t: Tree, n: nat, k: nat, r: seq<byte>, name: seq<byte>)
    requires Rooted(t, n, k) && n != 0 && t.parent[n] < 256 && name == OwnName(t, n)
    ensures k > 0 && Rooted(t, t.parent[n], k - 1)
    ensures AbsPath(t, n, k) + Backwards(r) == AbsPath(t, t.parent[n], k - 1) + Backwards(r + Backwards(name) + [SLASH])
    ensures |AbsPath(t, n, k) + Backwards(r)| >= |r| + |name| + 1
  {
    hide OwnName, Backwards;
    BackwardsAppend(r, name);
    BackwardsLength(r);
    var a, b := AbsPath(t, t.parent[n], k - 1), Backwards(r);
    assert AbsPath(t, n, k) == a + [SLASH] + name;
    assert a + [SLASH] + name + b == a + ([SLASH] + name + b);
  }

  function Backwards(s: seq<byte>): seq<byte> {
    if s == [] then [] else Backwards(s[1..]) + [s[0]]
  }

  lemma {:induction false} BackwardsLength(s: seq<byte>)
    ensures |Backwards(s)| == |s|
  {
    if s != [] {
      BackwardsLength(s[1..]);
    }
  }

  lemma {:induction false} BackwardsConcat(a: seq<byte>, b: seq<byte>)
    ensures Backwards(a + b) == Backwards(b) + Backwards(a)
  {
    if a == [] {
      assert a + b == b;
    } else {
      assert (a + b)[1..] == a[1..] + b;
      BackwardsConcat(a[1..], b);
    }
  }

  lemma {:induction false} BackwardsTwice(s: seq<byte>)
    ensures Backwards(Backwards(s)) == s
  {
    if s != [] {
      BackwardsTwice(s[1..]);
      BackwardsConcat(Backwards(s[1..]), [s[0]]);
      assert Backwards([s[0]]) == [s[0]];
    }
  }

  /** Appending a name back to front puts it, after a slash, before what was collected so far. */
  lemma {:induction false} BackwardsAppend(r: seq<byte>, name: seq<byte>)
    ensures Backwards(r + Backwards(name) + [SLASH]) == [SLASH] + name + Backwards(r)
    ensures |Backwards(name)| == |name|
  {
    BackwardsConcat(r + Backwards(name), [SLASH]);
    BackwardsConcat(r, Backwards(name));
    BackwardsTwice(name);
    BackwardsLength(name);
    assert Backwards([SLASH]) == [SLASH];
  }

  lemma CreatedMarked(fs: Fs, cwd: u32, path: seq<byte>)
    requires FsInv(fs)
    ensures RefsMarked(FsRuns.CreateAt(fs, cwd, path, 1).0)
  {
    hide FsInv, Paths.ResolveParent, FsTree.CreateNode, ZeroTail;
    InvReadable(fs);
    var (p, name) := Paths.ResolveParent(TreeOf(fs), cwd, path);
    if 0 <= p < 0x1_0000_0000 {
      FsLeaks.CreateBlocksOk(fs, p, name, 1);
    }
  }

  lemma {:induction false} ComponentBytes(p: seq<byte>)
    requires 0 !in p
    ensures forall c :: c in Components(p) ==> 0 !in c
    decreases |p|
  {
    if p != [] {
      ComponentBytes(if p[0] == SLASH then p[1..] else p[NameLength(p)..]);
    }
  }

  lemma LookupWord(t: Tree, d: nat, name: seq<byte>)
    ensures Lookup(t, d, name) < 0x1_0000_0000
  {
  }

  lemma LastNameBytes(t: Tree, cwd: u32, path: seq<byte>)
    requires 0 !in path
    ensures 0 !in Paths.ResolveParent(t, cwd, path).1
  {
    hide Paths.Resolve;
  }

  lemma LookupInRange(fs: Fs, p: nat, name: seq<byte>)
    ensures Lookup(TreeOf(fs), p, name) >= 0 ==> p < 256
  {
  }

  lemma ErasedBits(f: Fs, d: nat, i: nat)
    requires d < 256
    ensures Erase(f, d, i).inodeUsed == f.inodeUsed
  {
  }

  /** In a sound file system every directory can be read. */
  lemma InvReadable(fs: Fs)
    requires FsInv(fs)
    ensures RefsMarked(fs) && forall d: nat :: DirReadable(fs, d)
  {
    forall d: nat ensures DirReadable(fs, d) {
      if d < 256 && fs.inodes[d].mode % 256 == MODE_DIR {
        InvTableReadable(fs, d);
      }
    }
  }

  lemma InvTableReadable(fs: Fs, d: nat)
    requires FsInv(fs) && d < 256 && fs.inodes[d].mode % 256 == MODE_DIR
    ensures TableReadable(fs, d)
  {
    hide Content, Table, CString, NamesUnique, LinkedOnce, Linked, AllRooted, FsOk;
    var t := TreeOf(fs);
    assert InodeSane(fs, d);
    forall i | 0 <= i < |Dir(fs, d)| && DirTree.Live(Dir(fs, d)[i])
      ensures |CString(Dir(fs, d)[i].name)| < |Dir(fs, d)[i].name|
    {
      assert LiveAt(t, d, i);
    }
  }

  lemma ReadableTable(fs: Fs, d: nat)
    requires d < 256 && DirReadable(fs, d) && fs.inodes[d].mode % 256 == MODE_DIR
    ensures TableReadable(fs, d)
  {
  }

  /** The state in which `dir_add` runs inside `create_node`. */
  lemma NewReadable(fs: Fs, c: nat, mode: u32, p: u32)
    requires FsInv(fs) && c < 256 && !fs.inodeUsed[c]
    ensures var f := WithNewInode(fs, c, mode, p);
            FsOk(f) && DirReadable(f, p)
  {
    hide Content, Table, CString, TreeOk, TreeOf;
    assert InodeSane(fs, c);
    NewInodeSafe(fs, c, mode, p);
    InvReadable(fs);
    var f := WithNewInode(fs, c, mode, p);
    if p < 256 {
      if p == c {
        TableLength(f, c);
      } else {
        assert SameInode(fs, f, p) && InodeSane(fs, p) && DirReadable(fs, p);
        SameTables(fs, f, p);
      }
    }
  }

  lemma TruncatedReadable(fs: Fs, p: u32, name: seq<byte>, n: nat)
    requires FsInv(fs) && p < 256 && 0 < n < 256 && Lookup(TreeOf(fs), p, name) == n
    requires !(fs.inodes[n].mode % 256 == MODE_DIR && HasLive(Dir(fs, n)))
    ensures RefsMarked(fs)
    ensures var f := Truncate(fs, n, FREE_INODE); RefsMarked(f) && TableReadable(f, p)
  {
    hide Content, Table, CString, TreeOk, Truncate, Lookup, HasLive, FindName, Removable, InodeSane, NoHoles, ZeroTail;
    var t := TreeOf(fs);
    LookupLive(t, p, name);
    var i := FindName(t.entries[p], name, 0);
    LeafRemovable(fs, p, i, n);
    RemoveLeafLive(t, p, i, n);
    TruncateSafe(fs, n, FREE_INODE);
    var f := Truncate(fs, n, FREE_INODE);
    assert SameInode(fs, f, p);
    InvTableReadable(fs, p) by { EntryInDir(t, p, i); }
    SameReadable(fs, f, p);
  }

  lemma EntryInDir(t: Tree, p: nat, i: nat)
    requires TreeOk(t) && LiveAt(t, p, i)
    ensures IsDir(t, p)
  {
  }

  lemma SameReadable(fs: Fs, f: Fs, p: nat)
    requires TableReadable(fs, p) && SameInode(fs, f, p)
    ensures TableReadable(f, p)
  {
    hide Table, CString, Content, BlockOf;
    assert Dir(f, p) == Dir(fs, p);
    assert NoHoles(f, p);
  }

  /** The table of `d` can be read: no hole, and every live name ends. */
  ghost predicate TableReadable(fs: Fs, d: nat) {
    && d < 256 && fs.inodes[d].size % 64 == 0 && fs.inodes[d].size <= 138 * 512 && NoHoles(fs, d)
    && forall i :: 0 <= i < |Dir(fs, d)| && DirTree.Live(Dir(fs, d)[i]) ==>
         |CString(Dir(fs, d)[i].name)| < |Dir(fs, d)[i].name|
  }

  ghost predicate DirReadable(fs: Fs, d: nat) {
    d < 256 && fs.inodes[d].mode % 256 == MODE_DIR ==> TableReadable(fs, d)
  }

  lemma OkMarked(fs: Fs)
    requires FsOk(fs)
    ensures RefsMarked(fs)
  {
  }

  lemma TableLength(fs: Fs, d: nat)
    requires d < 256
    ensures |Dir(fs, d)| == fs.inodes[d].size / 64
  {
  }

  /** Entry `i` lies in block `i / 8`, at its own place there. */
  lemma EntryBlock(fs: Fs, d: nat, i: nat)
    requires d < 256 && RefsMarked(fs) && NoHoles(fs, d) && fs.inodes[d].size <= 138 * 512 && i < |Dir(fs, d)|
    ensures var b := BlockOf(fs, d, i / 8);
            IsDataBlock(b) && DirentAt(fs.data[b - 38], i % 8) == Dir(fs, d)[i]
  {
    hide BlockOf;
    EntryFits(i);
    TableLength(fs, d);
    assert 64 * i + 64 <= fs.inodes[d].size;
    BlockIsData(fs, d, i / 8);
    var b := BlockOf(fs, d, i / 8);
    SliceOfBlock(fs, d, 64 * i, 64);
    DirentSame(fs.data[b - 38], i % 8, Content(fs, d), i);
  }

  lemma {:induction false} DirentSame(x: seq<byte>, i: nat, y: seq<byte>, j: nat)
    requires 64 * i + 64 <= |x| && 64 * j + 64 <= |y|
    requires x[64 * i..64 * i + 64] == y[64 * j..64 * j + 64]
    ensures DirentAt(x, i) == DirentAt(y, j)
  {
    SubSlice(x, 64 * i, 64, 0, 4);
    SubSlice(y, 64 * j, 64, 0, 4);
    SubSlice(x, 64 * i, 64, 4, 8);
    SubSlice(y, 64 * j, 64, 4, 8);
    SubSlice(x, 64 * i, 64, 8, 64);
    SubSlice(y, 64 * j, 64, 8, 64);
    U32Local(x, 64 * i, y, 64 * j);
    U32Local(x, 64 * i + 4, y, 64 * j + 4);
  }

  lemma SizedSame(s: Fs, n: nat, off: int)
    requires n < 256 && 0 <= off <= s.inodes[n].size
    ensures Sized(s, n, s.inodes[n], off) == s
  {
    assert s.inodes[n := s.inodes[n]] == s.inodes;
  }

  lemma InodeBlockIsBlockOf(fs: Fs, n: nat, i: nat)
    requires n < 256
    ensures BlockOf(fs, n, i) == if i < 10 then fs.inodes[n].direct[i] else if i >= 138 then 0
                                 else SlotOf(fs, fs.inodes[n], i - 10)
  {
  }

  lemma BlockIsData(fs: Fs, n: nat, i: nat)
    requires n < 256 && RefsMarked(fs) && BlockOf(fs, n, i) != 0
    ensures IsDataBlock(BlockOf(fs, n, i))
  {
    assert i < 138 && IsLoc(LocOf(n, i));
  }

  lemma SliceOfBlock(fs: Fs, n: nat, off: nat, chunk: nat)
    requires n < 256 && off % 512 + chunk <= 512 && off + chunk <= fs.inodes[n].size
    requires IsDataBlock(BlockOf(fs, n, off / 512))
    ensures fs.data[BlockOf(fs, n, off / 512) - 38][off % 512..off % 512 + chunk] == Content(fs, n)[off..off + chunk]
  {
    hide BlockOf;
    var d := fs.data[BlockOf(fs, n, off / 512) - 38];
    var x, y := d[off % 512..off % 512 + chunk], Content(fs, n)[off..off + chunk];
    forall k | 0 <= k < chunk ensures x[k] == y[k] {
      assert (off + k) / 512 == off / 512 && (off + k) % 512 == off % 512 + k;
      assert y[k] == ByteAt(fs, n, off + k);
    }
  }

  lemma WriteNothing(fs: Fs, n: nat, off: nat)
    requires n < 256 && off <= 65536
    ensures WriteFrom(fs, n, off, []) == (fs, 0)
  {
  }

  lemma ChunkKeepsOk(fs: Fs, n: nat, off: nat, t: seq<byte>)
    requires n < 256 && off / 512 < 138 && off % 512 + |t| <= 512 && 0 < |t|
    requires FsOk(fs) && off <= fs.inodes[n].size
    ensures FsOk(WriteChunk(fs, n, off, t).0)
  {
    WriteChunkRefines(fs, n, off, t);
  }

  /** The state that the caller's copy `ino` of record `n` stands for once the size covers `off`. */
  function Sized(s: Fs, n: nat, ino: Inode, off: int): (r: Fs)
    requires n < 256 && 0 <= off < 0x1_0000_0000
  {
    SetInode(s, n, ino.(size := Max(ino.size, off)))
  }

  lemma SizedRefs(s: Fs, n: nat, ino: Inode, off: int)
    requires n < 256 && 0 <= off < 0x1_0000_0000 && FsOk(Sized(s, n, ino, off))
    ensures RefsMarked(SetInode(s, n, ino))
  {
    var a, b := Sized(s, n, ino, off), SetInode(s, n, ino);
    forall l: Loc | IsLoc(l) ensures Ref(b, l) == Ref(a, l) {
    }
  }

  /** One round of the write loop on the caller's copy is one chunk of the specification. */
  lemma StepMatches(s1: Fs, n: nat, ino1: Inode, off: nat, t: seq<byte>, s2: Fs, ino2: Inode, b: int)
    requires n < 256 && off % 512 + |t| <= 512 && off + |t| < 0x1_0000_0000
    requires (SetInode(s2, n, ino2), b) == EnsureBlock(SetInode(s1, n, ino1), n, off / 512)
    ensures WriteChunk(Sized(s1, n, ino1, off), n, off, t)
         == if b < 0 then (Sized(s2, n, ino2, off), -1)
            else (Sized(PutBytes(s2, b, off % 512, t), n, ino2, off + |t|), b)
  {
    hide EnsureBlock, PutBytes;
    var size := Max(ino1.size, off);
    var f := SetInode(s1, n, ino1);
    EnsureCommutes(f, n, off / 512, size);
    EnsureKeepsSize(f, n, off / 512);
    assert SetSize(f, n, size) == Sized(s1, n, ino1, off) by {
      assert f.inodes[n := ino1.(size := size)] == s1.inodes[n := ino1.(size := size)];
    }
    var g := SetInode(s2, n, ino2);
    assert g.inodes[n] == ino2;
    assert SetSize(g, n, size) == Sized(s2, n, ino2, off) by {
      assert g.inodes[n := ino2.(size := size)] == s2.inodes[n := ino2.(size := size)];
    }
    if b >= 0 {
      PutCommutes(s2, n, ino2.(size := size), ino2.(size := Max(size, off + |t|)), b, off % 512, t);
    }
  }

  lemma PutCommutes(s: Fs, n: nat, ino: Inode, after: Inode, b: nat, o: nat, t: seq<byte>)
    requires n < 256 && o + |t| <= 512
    ensures SetInode(PutBytes(SetInode(s, n, ino), b, o, t), n, after) == SetInode(PutBytes(s, b, o, t), n, after)
    ensures PutBytes(SetInode(s, n, ino), b, o, t).inodes[n] == ino
  {
    assert s.inodes[n := ino][n := after] == s.inodes[n := after];
  }

  lemma EnsureKeepsSize(f: Fs, n: nat, i: nat)
    requires n < 256
    ensures EnsureBlock(f, n, i).0.inodes[n].size == f.inodes[n].size
  {
  }

  lemma EnsureCommutes(f: Fs, n: nat, i: nat, size: u32)
    requires n < 256
    ensures EnsureBlock(SetSize(f, n, size), n, i) == (SetSize(EnsureBlock(f, n, i).0, n, size), EnsureBlock(f, n, i).1)
  {
    hide FirstFree;
    var g := SetSize(f, n, size);
    if i < 10 {
      if f.inodes[n].direct[i] == 0 && AllocBlock(f).1 >= 0 {
        var a, b := EnsureBlock(g, n, i).0, SetSize(EnsureBlock(f, n, i).0, n, size);
        assert a.inodes == b.inodes;
      }
    } else if i < 138 {
      IndirectCommutes(f, n, size);
      var f1, top := EnsureIndirect(f, n).0, EnsureIndirect(f, n).1;
      AllocCommutes(f1, n, size);
      assert SlotOf(SetSize(f1, n, size), SetSize(f1, n, size).inodes[n], i - 10) == SlotOf(f1, f1.inodes[n], i - 10);
    }
  }

  lemma AllocCommutes(f: Fs, n: nat, size: u32)
    requires n < 256
    ensures AllocBlock(SetSize(f, n, size)) == (SetSize(AllocBlock(f).0, n, size), AllocBlock(f).1)
  {
  }

  lemma IndirectCommutes(f: Fs, n: nat, size: u32)
    requires n < 256
    ensures EnsureIndirect(SetSize(f, n, size), n) == (SetSize(EnsureIndirect(f, n).0, n, size), EnsureIndirect(f, n).1)
  {
    if f.inodes[n].indirect == 0 && AllocBlock(f).1 >= 0 {
      var a, b := EnsureIndirect(SetSize(f, n, size), n).0, SetSize(EnsureIndirect(f, n).0, n, size);
      assert a.inodes == b.inodes;
    }
  }

  lemma EnsuredIsData(f: Fs, n: nat, i: nat)
    requires n < 256 && RefsMarked(f) && EnsureBlock(f, n, i).1 >= 0
    ensures IsDataBlock(EnsureBlock(f, n, i).1)
  {
    assert i < 10 ==> Ref(f, Direct(n, i)) == f.inodes[n].direct[i];
    assert Ref(f, Indirect(n)) == f.inodes[n].indirect;
    assert 10 <= i < 138 ==> Ref(f, Slot(n, i - 10)) == SlotOf(f, f.inodes[n], i - 10);
  }

  lemma WriteFromUnfold(fs: Fs, n: nat, off: nat, src: seq<byte>)
    requires n < 256 && off + |src| <= 65536 && src != []
    ensures var chunk := Min(|src|, 512 - off % 512);
            var (f, b) := WriteChunk(fs, n, off, src[..chunk]);
            WriteFrom(fs, n, off, src) ==
              if b < 0 then (f, 0)
              else var (g, d) := WriteFrom(f, n, off + chunk, src[chunk..]); (g, chunk + d)
  {
    hide WriteChunk;
  }

  lemma PutIsSplice(s: Fs, b: nat, o: nat, t: seq<byte>, buffer: Sector)
    requires IsDataBlock(b) && o + |t| <= 512 && buffer == Splice(s.data[b - 38], o, t)
    ensures s.(data := s.data[b - 38 := buffer]) == PutBytes(s, b, o, t)
  {
  }

  /** Every block of `blocks` that lies in the data area was freed, and nothing else. */
  ghost predicate FreedBlocks(before: seq<bool>, after: seq<bool>, blocks: seq<u32>) {
    && |before| == 16384 == |after|
    && forall b :: 0 <= b < 16384 ==> after[b] == (before[b] && !(IsDataBlock(b) && b in blocks))
  }

  lemma FreedOneMore(before: seq<bool>, mid: seq<bool>, after: seq<bool>, blocks: seq<u32>, b: u32)
    requires FreedBlocks(before, mid, blocks)
    requires after == if IsDataBlock(b) then mid[b := false] else mid
    ensures FreedBlocks(before, after, blocks + [b])
  {
  }

  function Slots(fs: Fs, n: nat): (r: seq<u32>)
    requires n < 256
    ensures |r| == 128 && forall s :: 0 <= s < 128 ==> r[s] == SlotOf(fs, fs.inodes[n], s)
  {
    seq(128, s requires 0 <= s < 128 => SlotOf(fs, fs.inodes[n], s))
  }

  lemma IndirectIsData(fs: Fs, n: nat)
    requires n < 256 && RefsMarked(fs)
    ensures fs.inodes[n].indirect == 0 || IsDataBlock(fs.inodes[n].indirect)
  {
    assert Ref(fs, Indirect(n)) == fs.inodes[n].indirect;
  }

  /** The three loops of `truncate_inode` reach exactly the blocks that belong to the inode. */
  lemma AllFreed(fs: Fs, n: nat, used: seq<bool>, freed: seq<u32>)
    requires n < 256 && FreedBlocks(fs.dataUsed, used, freed)
    requires freed == if fs.inodes[n].indirect == 0 then fs.inodes[n].direct
                      else fs.inodes[n].direct + Slots(fs, n) + [fs.inodes[n].indirect]
    ensures used == Freed(fs, n)
  {
    forall b | 0 <= b < 16384 && IsDataBlock(b) ensures b in freed <==> BelongsTo(fs, n, b) {
      BelongsIffStored(fs, n, b);
      if fs.inodes[n].indirect == 0 {
        NoSlots(fs, n, b);
      }
    }
  }

  lemma NoSlots(fs: Fs, n: nat, b: int)
    requires n < 256 && fs.inodes[n].indirect == 0 && IsDataBlock(b)
    ensures b !in Slots(fs, n)
  {
  }

  lemma BelongsIffStored(fs: Fs, n: nat, b: int)
    requires n < 256
    ensures BelongsTo(fs, n, b) <==> b in fs.inodes[n].direct || b == fs.inodes[n].indirect || b in Slots(fs, n)
  {
    var ino := fs.inodes[n];
    if b in ino.direct {
      var i :| 0 <= i < 10 && ino.direct[i] == b;
      assert Ref(fs, Direct(n, i)) == b;
    } else if b == ino.indirect {
      assert Ref(fs, Indirect(n)) == b;
    } else if b in Slots(fs, n) {
      var s :| 0 <= s < 128 && Slots(fs, n)[s] == b;
      assert Ref(fs, Slot(n, s)) == b;
    }
  }

  lemma IndirectFailed(fs: Fs, n: nat)
    requires n < 256 && EnsureIndirect(fs, n).1 < 0
    ensures EnsureIndirect(fs, n).0 == fs
  {
  }
}
