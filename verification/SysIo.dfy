/** The read and write system calls, which move user bytes through a 512-byte kernel buffer chunk by chunk. */
module SysIo {
  import opened Bytes
  import opened FsBlocks
  import opened FsFiles
  import opened FsTree
  import opened Descriptors
  import opened FileCalls

  const IO_CHUNK := 512

  /** `sys_write` after `done` bytes; the first `mapped` bytes of the user buffer can be copied. */
  function SysWriteFrom(m: Machine, pid: int, fd: int, buf: seq<byte>, mapped: nat, done: nat): (r: (Machine, int))
    requires done <= |buf|
    decreases |buf| - done
  {
    if done == |buf| then (m, done)
    else
      var chunk := Min(|buf| - done, IO_CHUNK);
      var soFar := if done == 0 then -1 else done;
      if done + chunk > mapped then (m, soFar)
      else
        var (e, written) := Write(m, pid, fd, buf[done..done + chunk]);
        if written < 0 then (e, soFar)
        else if written < chunk then (e, done + written)
        else SysWriteFrom(e, pid, fd, buf, mapped, done + chunk)
  }

  function SysWrite(m: Machine, pid: int, fd: int, buf: seq<byte>, mapped: nat): (r: (Machine, int)) {
    if |buf| == 0 then (m, 0) else SysWriteFrom(m, pid, fd, buf, mapped, 0)
  }

  /** `sys_read` after `done` bytes: the state, the result and the bytes copied out from here on. */
  ghost function SysReadFrom(m: Machine, pid: int, fd: int, len: nat, mapped: nat, done: nat): (r: (Machine, int, seq<byte>))
    requires done <= len
    decreases len - done
  {
    if done == len then (m, done, [])
    else
      var chunk := Min(len - done, IO_CHUNK);
      var soFar := if done == 0 then -1 else done;
      var (e, got) := FileCalls.Read(m, pid, fd, chunk, []);
      if got.ReadFailed? then (e, soFar, [])
      else if |got.bytes| == 0 then (e, done, [])
      else if done + |got.bytes| > mapped then (e, soFar, [])
      else if |got.bytes| < chunk then (e, done + |got.bytes|, got.bytes)
      else
        var rest := SysReadFrom(e, pid, fd, len, mapped, done + chunk);
        (rest.0, rest.1, got.bytes + rest.2)
  }

  ghost function SysRead(m: Machine, pid: int, fd: int, len: nat, mapped: nat): (r: (Machine, int, seq<byte>)) {
    if len == 0 then (m, 0, []) else SysReadFrom(m, pid, fd, len, mapped, 0)
  }

  // ---------------------------------------------------------------- writing in chunks is writing at once

  /** What writing `data` in full at the position of open file `k` leaves. */
  ghost predicate WroteAll(m: Machine, e: Machine, k: nat, data: seq<byte>)
    requires k < 64 && m.fds.files[k].inode < 256
  {
    var n, off := m.fds.files[k].inode, WritePos(m, k);
    && off + |data| <= 65536
    && e.fds == SetOffset(m.fds, k, e.fds.files[k].offset)
    && (e.fds.files[k].offset == off + |data| || (data == [] && e.fds.files[k].offset == m.fds.files[k].offset))
    && OthersSame(m.fs, e.fs, n)
    && e.fs.inodes[n].mode == m.fs.inodes[n].mode
    && (data != [] || off <= m.fs.inodes[n].size ==> Content(e.fs, n) == Overlay(Content(m.fs, n), off, data))
    && BlocksAdded(m.fs, e.fs, n, off, |data|)
  }

  /** A full chunk moves the place of the next write right behind it. */
  lemma NextPos(m: Machine, u: Machine, k: nat, a: seq<byte>)
    requires k < 64 && m.fds.files[k].inode < 256 && a != [] && WroteThrough(m, u, k, a, |a|)
    ensures u.fds.files[k] == m.fds.files[k].(offset := u.fds.files[k].offset)
    ensures WritePos(m, k) < 65536 && WritePos(u, k) == WritePos(m, k) + |a|
    ensures WritePos(u, k) <= u.fs.inodes[m.fds.files[k].inode].size
    ensures u.fds.files[k].offset == WritePos(u, k)
  {
    hide OthersSame, BlocksAdded, Full;
    var n, off := m.fds.files[k].inode, WritePos(m, k);
    assert a[..|a|] == a;
    assert |Content(u.fs, n)| == Max(|Content(m.fs, n)|, off + |a|);
  }

  lemma WroteMore(m: Machine, u: Machine, e: Machine, k: nat, a: seq<byte>, b: seq<byte>)
    requires k < 64 && m.fds.files[k].inode < 256 && a != [] && WroteThrough(m, u, k, a, |a|)
    requires u.fds.files[k].inode < 256 && WroteAll(u, e, k, b)
    ensures WroteAll(m, e, k, a + b)
  {
    hide OthersSame, BlocksAdded, Full, Overlay, Content, WritePos, SetOffset;
    NextPos(m, u, k, a);
    var n, off := m.fds.files[k].inode, WritePos(m, k);
    OffsetTwice(m.fds, k, u.fds.files[k].offset, e.fds.files[k].offset);
    OthersTransitive(m.fs, u.fs, e.fs, n);
    ContentTwice(m, u, e, k, a, b);
    AddedTwice(m.fs, u.fs, e.fs, n, off, |a|, |b|);
  }

  /** The contents after both writes. */
  lemma ContentTwice(m: Machine, u: Machine, e: Machine, k: nat, a: seq<byte>, b: seq<byte>)
    requires k < 64 && m.fds.files[k].inode < 256 && a != [] && WroteThrough(m, u, k, a, |a|)
    requires u.fds.files[k].inode < 256 && WroteAll(u, e, k, b)
    ensures var n := m.fds.files[k].inode; Content(e.fs, n) == Overlay(Content(m.fs, n), WritePos(m, k), a + b)
  {
    hide WroteThrough, WroteAll, Overlay, Content, WritePos;
    NextPos(m, u, k, a);
    var n := m.fds.files[k].inode;
    FirstContent(m, u, k, a);
    SecondContent(u, e, k, b);
    OverlayMore(Content(m.fs, n), Content(u.fs, n), Content(e.fs, n), WritePos(m, k), a, b);
  }

  lemma FirstContent(m: Machine, u: Machine, k: nat, a: seq<byte>)
    requires k < 64 && m.fds.files[k].inode < 256 && WroteThrough(m, u, k, a, |a|) && WritePos(m, k) < 65536
    ensures var n := m.fds.files[k].inode;
            Content(u.fs, n) == Overlay(Content(m.fs, n), WritePos(m, k), a[..|a|]) && |Content(u.fs, n)| == u.fs.inodes[n].size
  {
    hide OthersSame, BlocksAdded, Full, Overlay, Content, WritePos, SetOffset;
  }

  lemma SecondContent(u: Machine, e: Machine, k: nat, b: seq<byte>)
    requires k < 64 && u.fds.files[k].inode < 256 && WroteAll(u, e, k, b) && WritePos(u, k) <= u.fs.inodes[u.fds.files[k].inode].size
    ensures var n := u.fds.files[k].inode; Content(e.fs, n) == Overlay(Content(u.fs, n), WritePos(u, k), b)
  {
    hide OthersSame, BlocksAdded, Full, Overlay, Content, WritePos, SetOffset;
  }

  lemma OverlayMore(c: seq<byte>, d: seq<byte>, e: seq<byte>, off: nat, a: seq<byte>, b: seq<byte>)
    requires d == Overlay(c, off, a[..|a|]) && e == Overlay(d, off + |a|, b)
    ensures e == Overlay(c, off, a + b)
  {
    hide Overlay;
    assert a[..|a|] == a;
    OverlayTwice(c, off, a, b);
  }

  lemma OffsetTwice(d: Fds, k: nat, a: u32, b: u32)
    requires k < 64
    ensures SetOffset(SetOffset(d, k, a), k, b) == SetOffset(d, k, b)
  {
  }

  /** A short or empty write is the last one. */
  lemma WroteLast(m: Machine, e: Machine, k: nat, src: seq<byte>, done: nat)
    requires k < 64 && m.fds.files[k].inode < 256 && WroteThrough(m, e, k, src, done)
    ensures WroteAll(m, e, k, src[..done])
  {
    hide OthersSame, BlocksAdded, Full;
    var n, off := m.fds.files[k].inode, WritePos(m, k);
    assert off <= |Content(m.fs, n)| ==> Overlay(Content(m.fs, n), off, []) == Content(m.fs, n);
  }

  lemma WroteNothing(m: Machine, k: nat)
    requires k < 64 && m.fds.files[k].inode < 256 && WritePos(m, k) <= 65536
    ensures WroteAll(m, m, k, [])
  {
    hide OthersSame;
    var n, off := m.fds.files[k].inode, WritePos(m, k);
    SameOthers(m.fs, n);
    assert m.fds == SetOffset(m.fds, k, m.fds.files[k].offset) by {
      assert m.fds.files[k := m.fds.files[k]] == m.fds.files;
    }
    assert off <= |Content(m.fs, n)| ==> Overlay(Content(m.fs, n), off, []) == Content(m.fs, n);
  }

  lemma WritePosBound(m: Machine, k: nat)
    requires MachineOk(m) && Writable(m, k)
    ensures IsFile(m.fs, m.fds.files[k].inode) && WritePos(m, k) <= 65536
  {
    hide FsInv, FdsOk;
    assert IsFile(m.fs, m.fds.files[k].inode);
    FileSize(m.fs, m.fds.files[k].inode);
  }

  /** Why a write stopped after `total` bytes. */
  ghost predicate StoppedShort(m: Machine, e: Machine, k: nat, len: nat, mapped: nat, total: nat)
    requires k < 64 && m.fds.files[k].inode < 256
  {
    Full(e.fs) || WritePos(m, k) + total >= 65536 || mapped < len
  }

  lemma {:induction false} SysWriteFromOk(m: Machine, pid: int, fd: int, buf: seq<byte>, mapped: nat, done: nat)
    requires MachineOk(m) && Writable(m, Named(m.fds, pid, fd)) && done <= |buf|
    ensures var k := Named(m.fds, pid, fd);
            var (e, r) := SysWriteFrom(m, pid, fd, buf, mapped, done);
            var total := if r < 0 then 0 else r;
            && MachineOk(e) && IsFile(m.fs, m.fds.files[k].inode)
            && done <= total <= |buf| && WroteAll(m, e, k, buf[done..total])
            && (total < |buf| ==> StoppedShort(m, e, k, |buf|, mapped, total - done))
    decreases |buf| - done
  {
    hide MachineOk, Named, Write, WroteAll, WroteThrough, StoppedShort, WritePos;
    var k := Named(m.fds, pid, fd);
    WritePosBound(m, k);
    if done == |buf| {
      WroteNothing(m, k);
      assert buf[done..done] == [];
    } else {
      var chunk := Min(|buf| - done, IO_CHUNK);
      if done + chunk > mapped {
        WroteNothing(m, k);
        assert buf[done..done] == [];
        assert StoppedShort(m, m, k, |buf|, mapped, 0) by { Faulted(m, k, |buf|, mapped); }
      } else {
        SysWriteRound(m, pid, fd, buf, mapped, done);
      }
    }
  }

  lemma Faulted(m: Machine, k: nat, len: nat, mapped: nat)
    requires k < 64 && m.fds.files[k].inode < 256 && mapped < len
    ensures StoppedShort(m, m, k, len, mapped, 0)
  {
  }

  lemma PartOfPart(s: seq<byte>, i: nat, n: nat, w: nat)
    requires w <= n && i + n <= |s|
    ensures s[i..i + n][..w] == s[i..i + w]
  {
  }

  lemma PartsJoin(s: seq<byte>, i: nat, j: nat, k: nat)
    requires i <= j <= k <= |s|
    ensures s[i..j] + s[j..k] == s[i..k]
  {
  }

  lemma SysWriteRound(m: Machine, pid: int, fd: int, buf: seq<byte>, mapped: nat, done: nat)
    requires MachineOk(m) && Writable(m, Named(m.fds, pid, fd)) && done < |buf| && done + Min(|buf| - done, IO_CHUNK) <= mapped
    ensures var k := Named(m.fds, pid, fd);
            var (e, r) := SysWriteFrom(m, pid, fd, buf, mapped, done);
            var total := if r < 0 then 0 else r;
            && MachineOk(e) && IsFile(m.fs, m.fds.files[k].inode)
            && done <= total <= |buf| && WroteAll(m, e, k, buf[done..total])
            && (total < |buf| ==> StoppedShort(m, e, k, |buf|, mapped, total - done))
    decreases |buf| - done, 0
  {
    hide MachineOk, Named, Write, WroteAll, WroteThrough, StoppedShort, WritePos, IsFile;
    var k := Named(m.fds, pid, fd);
    WritePosBound(m, k);
    var chunk := Min(|buf| - done, IO_CHUNK);
    var a := buf[done..done + chunk];
    WriteOk(m, pid, fd, a);
    WriteEffect(m, pid, fd, a);
    var (u, w) := Write(m, pid, fd, a);
    WroteBounds(m, u, k, a, w);
    if w < chunk {
      WroteLast(m, u, k, a, w);
      assert a[..w] == buf[done..done + w] by { PartOfPart(buf, done, chunk, w); }
      ShortStop(m, u, k, a, w, |buf|, mapped);
    } else {
      SameDescriptor(m, u, k, a, pid, fd);
      SysWriteFromOk(u, pid, fd, buf, mapped, done + chunk);
      var (e, r) := SysWriteFrom(u, pid, fd, buf, mapped, done + chunk);
      WroteMore(m, u, e, k, a, buf[done + chunk..r]);
      assert a + buf[done + chunk..r] == buf[done..r] by { PartsJoin(buf, done, done + chunk, r); }
      if r < |buf| {
        LateStop(m, u, e, k, a, |buf|, mapped, r - done - chunk);
      }
    }
  }

  lemma WroteBounds(m: Machine, u: Machine, k: nat, a: seq<byte>, w: nat)
    requires k < 64 && m.fds.files[k].inode < 256 && WroteThrough(m, u, k, a, w)
    ensures w <= |a|
  {
  }

  lemma ShortStop(m: Machine, u: Machine, k: nat, a: seq<byte>, w: nat, len: nat, mapped: nat)
    requires k < 64 && m.fds.files[k].inode < 256 && WroteThrough(m, u, k, a, w) && w < |a|
    ensures StoppedShort(m, u, k, len, mapped, w)
  {
  }

  lemma LateStop(m: Machine, u: Machine, e: Machine, k: nat, a: seq<byte>, len: nat, mapped: nat, more: nat)
    requires k < 64 && m.fds.files[k].inode < 256 && a != [] && WroteThrough(m, u, k, a, |a|)
    requires u.fds.files[k].inode < 256 && StoppedShort(u, e, k, len, mapped, more)
    ensures StoppedShort(m, e, k, len, mapped, |a| + more)
  {
    hide WroteThrough, Full;
    NextPos(m, u, k, a);
  }

  lemma SameDescriptor(m: Machine, u: Machine, k: nat, a: seq<byte>, pid: int, fd: int)
    requires MachineOk(m) && k == Named(m.fds, pid, fd) && Writable(m, k) && m.fds.files[k].inode < 256
    requires a != [] && WroteThrough(m, u, k, a, |a|)
    ensures Named(u.fds, pid, fd) == k && Writable(u, k) && u.fds.files[k].inode == m.fds.files[k].inode
  {
    hide Named, FsInv, FdsOk, OthersSame, BlocksAdded, Full, Overlay, Content;
    OffsetOk(m.fds, k, WritePos(m, k) + |a|);
  }

  /** `sys_write` on a regular file: whatever it reports as written lies at the position, however the buffer was cut into
      chunks, every other file is untouched, and it stops early only when the disk or the file is full or the buffer ends. */
  lemma SysWriteRefines(m: Machine, pid: int, fd: int, buf: seq<byte>, mapped: nat)
    requires MachineOk(m) && Writable(m, Named(m.fds, pid, fd))
    ensures var k := Named(m.fds, pid, fd);
            var (e, r) := SysWrite(m, pid, fd, buf, mapped);
            var total := if r < 0 then 0 else r;
            && MachineOk(e) && IsFile(m.fs, m.fds.files[k].inode) && total <= |buf|
            && WroteAll(m, e, k, buf[..total])
            && (total < |buf| ==> StoppedShort(m, e, k, |buf|, mapped, total))
  {
    hide MachineOk, Named, SysWriteFrom, WroteAll, StoppedShort, WritePos;
    var k := Named(m.fds, pid, fd);
    WritePosBound(m, k);
    if |buf| == 0 {
      WroteNothing(m, k);
    } else {
      SysWriteFromOk(m, pid, fd, buf, mapped, 0);
    }
  }

  // ---------------------------------------------------------------- reading in chunks is reading at once

  lemma SliceTwice(c: seq<byte>, off: nat, a: nat, b: nat)
    requires off + a <= |c|
    ensures Slice(c, off, a) + Slice(c, off + a, b) == Slice(c, off, a + b)
  {
  }

  /** What `sys_read` delivers from `done` bytes on: the longest run of whole chunks that meets no hole and fits the mapped
      part of the buffer. The position ends behind it, or behind one more chunk that could not be copied out. */
  ghost predicate Delivered(m: Machine, k: nat, len: nat, mapped: nat, done: nat, e: Machine, r: int, data: seq<byte>)
    requires k < 64 && m.fds.files[k].inode < 256 && done <= len
  {
    var n, off := m.fds.files[k].inode, m.fds.files[k].offset;
    var want := Slice(Content(m.fs, n), off, len - done);
    var d := |data|;
    var next := Min(IO_CHUNK, |want| - d);
    && d <= |want| && data == want[..d] && e.fs == m.fs && off + |want| < 0x1_0000_0000
    && r == (if done + d == 0 && want != [] then -1 else done + d)
    && !HoleIn(m.fs, n, off, d) && (d > 0 ==> done + d <= mapped)
    && (d < |want| ==> d % IO_CHUNK == 0 && (HoleIn(m.fs, n, off + d, next) || done + d + next > mapped))
    && e.fds == SetOffset(m.fds, k, if d == |want| || HoleIn(m.fs, n, off + d, next) then off + d else off + d + next)
  }

  lemma {:induction false} SysReadFromOk(m: Machine, pid: int, fd: int, len: nat, mapped: nat, done: nat)
    requires MachineOk(m) && Readable(m, Named(m.fds, pid, fd)) && done <= len
    ensures var (e, r, data) := SysReadFrom(m, pid, fd, len, mapped, done);
            m.fds.files[Named(m.fds, pid, fd)].inode < 256 && Delivered(m, Named(m.fds, pid, fd), len, mapped, done, e, r, data)
    decreases len - done
  {
    hide MachineOk, Named, FileCalls.Read, CanRead, Content, Slice, Delivered;
    var k := Named(m.fds, pid, fd);
    FileInode(m, k);
    if done == len {
      RestNone(m, k, len, mapped);
    } else {
      var chunk := Min(len - done, IO_CHUNK);
      var (u, got) := FileCalls.Read(m, pid, fd, chunk, []);
      ReadChunk(m, pid, fd, chunk);
      if got.ReadOk? && |got.bytes| == chunk && done + chunk <= mapped {
        SysReadFromOk(u, pid, fd, len, mapped, done + chunk);
        var (e, r, data) := SysReadFrom(u, pid, fd, len, mapped, done + chunk);
        RestMore(m, u, k, len, mapped, done, chunk, e, r, data);
      } else {
        RestLast(m, k, len, mapped, done, chunk, u, got);
      }
    }
  }

  lemma FileInode(m: Machine, k: nat)
    requires MachineOk(m) && Readable(m, k)
    ensures m.fds.files[k].inode < 256 && m.fds.files[k].offset <= 65536
  {
    assert IsFile(m.fs, m.fds.files[k].inode);
  }

  lemma RestNone(m: Machine, k: nat, len: nat, mapped: nat)
    requires k < 64 && m.fds.files[k].inode < 256 && m.fds.files[k].offset <= 65536
    ensures Delivered(m, k, len, mapped, len, m, len, [])
  {
    hide Content;
    assert m.fds.files[k := m.fds.files[k]] == m.fds.files;
  }

  /** A chunk that comes back full and is copied out, and what is read after it. */
  lemma RestMore(m: Machine, u: Machine, k: nat, len: nat, mapped: nat, done: nat, chunk: nat, e: Machine, r: int, data: seq<byte>)
    requires k < 64 && m.fds.files[k].inode < 256 && done + chunk <= len && chunk == Min(len - done, IO_CHUNK) && 0 < chunk
    requires done + chunk <= mapped
    requires var n, off := m.fds.files[k].inode, m.fds.files[k].offset;
             && CanRead(m.fs, n, off, chunk) && |Slice(Content(m.fs, n), off, chunk)| == chunk
             && u.fs == m.fs && off + chunk <= 65536 && u.fds == SetOffset(m.fds, k, off + chunk)
             && Delivered(u, k, len, mapped, done + chunk, e, r, data)
    ensures Delivered(m, k, len, mapped, done, e, r,
                      Slice(Content(m.fs, m.fds.files[k].inode), m.fds.files[k].offset, chunk) + data)
  {
    hide HoleIn, Content, Slice;
    var n, off := m.fds.files[k].inode, m.fds.files[k].offset;
    SlicePrefix(Content(m.fs, n), off, chunk, len - done - chunk, |data|);
    HoleSplit(m.fs, n, off, chunk, |data|);
    assert len - done > chunk ==> chunk == IO_CHUNK;
  }

  lemma SlicePrefix(c: seq<byte>, off: nat, a: nat, b: nat, d: nat)
    requires |Slice(c, off, a)| == a > 0 && d <= |Slice(c, off + a, b)|
    ensures |Slice(c, off, a + b)| == a + |Slice(c, off + a, b)| && |Slice(c, off + a, b)| <= b
    ensures Slice(c, off, a + b)[..a + d] == Slice(c, off, a) + Slice(c, off + a, b)[..d]
  {
    SliceTwice(c, off, a, b);
  }

  /** A chunk that fails, comes back short or cannot be copied out ends the transfer. */
  lemma RestLast(m: Machine, k: nat, len: nat, mapped: nat, done: nat, chunk: nat, u: Machine, got: FsFiles.Read)
    requires k < 64 && m.fds.files[k].inode < 256 && done + chunk <= len && chunk == Min(len - done, IO_CHUNK) && 0 < chunk
    requires m.fds.files[k].offset <= 65536 && |Content(m.fs, m.fds.files[k].inode)| <= 65536
    requires var n, off := m.fds.files[k].inode, m.fds.files[k].offset;
             && u.fs == m.fs && (got.ReadOk? <==> CanRead(m.fs, n, off, chunk))
             && (got.ReadOk? ==> got.bytes == Slice(Content(m.fs, n), off, chunk) && (|got.bytes| < chunk || done + chunk > mapped)
                                 && off + |got.bytes| <= 65536 && u.fds == SetOffset(m.fds, k, off + |got.bytes|))
             && (got.ReadFailed? ==> u == m)
    ensures var soFar := if done == 0 then -1 else done;
            && (got.ReadFailed? ==> Delivered(m, k, len, mapped, done, u, soFar, []))
            && (got.ReadOk? && |got.bytes| == 0 ==> Delivered(m, k, len, mapped, done, u, done, []))
            && (got.ReadOk? && |got.bytes| > 0 && done + |got.bytes| > mapped ==> Delivered(m, k, len, mapped, done, u, soFar, []))
            && (got.ReadOk? && |got.bytes| > 0 && done + |got.bytes| <= mapped ==>
                  Delivered(m, k, len, mapped, done, u, done + |got.bytes|, got.bytes))
  {
    hide HoleIn, Content;
    var n, off := m.fds.files[k].inode, m.fds.files[k].offset;
    var c := Content(m.fs, n);
    SliceCut(c, off, chunk, len - done);
    NoneMissing(m.fs, n, off);
    assert m.fds.files[k := m.fds.files[k]] == m.fds.files;
    assert |Slice(c, off, chunk)| == Min(IO_CHUNK, |Slice(c, off, len - done)|);
  }

  lemma NoneMissing(fs: Fs, n: nat, off: nat)
    requires n < 256
    ensures !HoleIn(fs, n, off, 0)
  {
  }

  /** With the whole buffer mapped, everything comes back if and only if no part of it lies in a hole. */
  lemma WholeIff(m: Machine, k: nat, len: nat, mapped: nat, e: Machine, r: int, data: seq<byte>)
    requires k < 64 && m.fds.files[k].inode < 256 && len <= mapped && Delivered(m, k, len, mapped, 0, e, r, data)
    ensures data == Slice(Content(m.fs, m.fds.files[k].inode), m.fds.files[k].offset, len)
       <==> CanRead(m.fs, m.fds.files[k].inode, m.fds.files[k].offset, len)
  {
    hide HoleIn, Content;
    var n, off := m.fds.files[k].inode, m.fds.files[k].offset;
    var want := Slice(Content(m.fs, n), off, len);
    var d := |data|;
    if d < |want| {
      var next := Min(IO_CHUNK, |want| - d);
      assert HoleIn(m.fs, n, off + d, next);
      HoleSplit(m.fs, n, off, d, next);
      HoleSplit(m.fs, n, off, d + next, |want| - d - next);
    }
  }

  /** A short slice is the end of the file. */
  lemma SliceCut(c: seq<byte>, off: nat, a: nat, b: nat)
    requires a <= b
    ensures |Slice(c, off, a)| <= a
    ensures |Slice(c, off, a)| < a ==> Slice(c, off, a) == Slice(c, off, b)
    ensures |Slice(c, off, a)| == a > 0 ==> off + a <= |c|
  {
  }

  lemma ReadChunk(m: Machine, pid: int, fd: int, chunk: nat)
    requires MachineOk(m) && Readable(m, Named(m.fds, pid, fd))
    ensures var k := Named(m.fds, pid, fd);
            var n, off := m.fds.files[k].inode, m.fds.files[k].offset;
            var (u, got) := FileCalls.Read(m, pid, fd, chunk, []);
            && n < 256 && MachineOk(u) && u.fs == m.fs && (got.ReadOk? <==> CanRead(m.fs, n, off, chunk)) && off <= 65536
            && |Content(m.fs, n)| <= 65536 && (got.ReadFailed? ==> u == m)
            && (got.ReadOk? ==> got.bytes == Slice(Content(m.fs, n), off, chunk) && |got.bytes| <= chunk
                                && off + |got.bytes| <= 65536 && u.fds == SetOffset(m.fds, k, off + |got.bytes|)
                                && Named(u.fds, pid, fd) == k && Readable(u, k))
  {
    hide FsInv, FdsOk, FilesLive, Named, FileCalls.Read, CanRead;
    var k := Named(m.fds, pid, fd);
    ReadEffect(m, pid, fd, chunk, []);
    ReadOkay(m, pid, fd, chunk, []);
    var (u, got) := FileCalls.Read(m, pid, fd, chunk, []);
    FileSize(m.fs, m.fds.files[k].inode);
    if got.ReadOk? {
      OffsetOk(m.fds, k, m.fds.files[k].offset + |got.bytes|);
    }
  }

  /** `sys_read` into a buffer of which any prefix is mapped: which bytes come back, and where the position ends. */
  lemma SysReadRefines(m: Machine, pid: int, fd: int, len: nat, mapped: nat)
    requires MachineOk(m) && Readable(m, Named(m.fds, pid, fd))
    ensures var (e, r, data) := SysRead(m, pid, fd, len, mapped);
            var k := Named(m.fds, pid, fd);
            && m.fds.files[k].inode < 256 && Delivered(m, k, len, mapped, 0, e, r, data)
            && (len <= mapped ==>
                  (data == Slice(Content(m.fs, m.fds.files[k].inode), m.fds.files[k].offset, len)
                   <==> CanRead(m.fs, m.fds.files[k].inode, m.fds.files[k].offset, len)))
  {
    hide MachineOk, Named, SysReadFrom, Delivered, CanRead, Slice, Content;
    var k := Named(m.fds, pid, fd);
    FileInode(m, k);
    if len == 0 {
      RestNone(m, k, 0, mapped);
    } else {
      SysReadFromOk(m, pid, fd, len, mapped, 0);
    }
    if len <= mapped {
      var (e, r, data) := SysRead(m, pid, fd, len, mapped);
      WholeIff(m, k, len, mapped, e, r, data);
    }
  }

  /** Bytes written through one descriptor come back through any other descriptor of the same open file, of any process,
      once it seeks back: whatever the chunking, wherever in the file, and even when the disk filled up on the way. */
  lemma WriteSeekRead(m: Machine, k: nat, pid: int, fd: int, buf: seq<byte>, mapped: nat, pid2: int, fd2: int, space: nat)
    requires MachineOk(m) && k == Named(m.fds, pid, fd) == Named(m.fds, pid2, fd2) && k < 64
    requires Writable(m, k) && Readable(m, k)
    ensures var (e, r) := SysWrite(m, pid, fd, buf, mapped);
            0 < r <= space ==>
              r <= |buf| && SysRead(Seek(e, pid2, fd2, WritePos(m, k), FromStart).0, pid2, fd2, r, space).2 == buf[..r]
  {
    hide MachineOk, Named, SysWrite, SysRead, HoleIn, Content, WritePos, StoppedShort;
    FileInode(m, k);
    var off := WritePos(m, k);
    var n := m.fds.files[k].inode;
    var (e, r) := SysWrite(m, pid, fd, buf, mapped);
    SysWriteRefines(m, pid, fd, buf, mapped);
    if 0 < r <= space {
      KeepsNames(m.fds, k, e.fds.files[k].offset, pid2, fd2);
      SeekOk(e, pid2, fd2, off, FromStart);
      var s := Seek(e, pid2, fd2, off, FromStart).0;
      KeepsNames(e.fds, k, off, pid2, fd2);
      SysReadRefines(s, pid2, fd2, r, space);
      SliceOfOverlay(Content(m.fs, n), off, buf[..r]);
      WrittenNoHole(m.fs, e.fs, n, off, r);
    }
  }

  lemma KeepsNames(d: Fds, k: nat, offset: u32, pid: int, fd: int)
    requires k < 64
    ensures Named(SetOffset(d, k, offset), pid, fd) == Named(d, pid, fd)
  {
  }

  lemma SliceOfOverlay(c: seq<byte>, off: nat, d: seq<byte>)
    ensures Slice(Overlay(c, off, d), off, |d|) == d
  {
  }
}
