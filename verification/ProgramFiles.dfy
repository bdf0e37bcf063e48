/** Programs as files: `load_elf` reads its file piece by piece, so a hole in a piece it reads makes it fail and a hole
    elsewhere does not matter; what it loads are the contents of the file. */
module ProgramFiles {
  import opened Bytes
  import opened PhysMem
  import opened Mmu
  import opened PageAlloc
  import opened Spaces
  import opened SpaceOps
  import opened SpaceCopy
  import opened SpaceView
  import opened ElfLoad
  import opened Programs
  import opened PageNeeds
  import InitStack
  import B = FsBlocks
  import S = FsFiles
  import FsTree
  import Paths

  // ---------------------------------------------------------------- reading

  /** `minifs_pread` that must deliver all of `len` bytes, at an offset cast to 32 bits. */
  ghost function ReadExact(fs: B.Fs, n: nat, off: nat, len: nat): (r: Option<seq<byte>>)
    requires len <= 512
    ensures r.Some? ==> |r.value| == len
  {
    match S.Pread(fs, n, off % 0x1_0000_0000, len)
    case ReadOk(bytes) => if |bytes| == len then Some(bytes) else None
    case ReadFailed => None
  }

  predicate IsFile(fs: B.Fs, n: nat) {
    n < 256 && fs.inodes[n].mode % 256 == S.MODE_FILE
  }

  /** Inode `n` as a program. */
  function FileProgram(fs: B.Fs, n: nat): Program
    requires n < 256
  {
    Program(fs.inodes[n].mode / 256 % 2 == 1, S.Content(fs, n))
  }

  /** A read delivers the contents exactly when they reach that far and have no hole there. */
  lemma ReadExactIs(fs: B.Fs, n: nat, off: nat, len: nat)
    requires IsFile(fs, n) && off < 0x1_0000_0000 && 0 < len <= 512
    ensures var c := S.Content(fs, n);
            ReadExact(fs, n, off, len) == if off + len <= |c| && S.CanRead(fs, n, off, len) then Some(c[off..off + len]) else None
  {
    hide S.HoleIn, B.ByteAt;
    assert off % 0x1_0000_0000 == off;
  }

  // ---------------------------------------------------------------- load_elf over a file

  /** The copy loop of a segment. */
  ghost function CopyFile(mem: Memory, pages: seq<Mapping>, fs: B.Fs, n: nat, seg: Segment, done: nat): (r: (Memory, int))
    requires done <= seg.filesz
    decreases seg.filesz - done
  {
    if done == seg.filesz then (mem, 0)
    else
      var chunk := Low(seg.filesz - done, 512);
      match ReadExact(fs, n, seg.offset + done, chunk)
      case None => (mem, -1)
      case Some(bytes) =>
        var (m, r) := CopyTo(mem, pages, seg.vaddr + done, bytes);
        if r < 0 then (m, -1) else CopyFile(m, pages, fs, n, seg, done + chunk)
  }

  ghost function LoadFileSegment(h: Heap, sp: Space, fs: B.Fs, n: nat, seg: Segment): (r: (Heap, Space, int))
    requires InMemory(sp)
    ensures InMemory(r.1)
  {
    var (g, d, status) := MapRange(h, sp, PageVa(seg.vaddr), RoundUp(seg.vaddr + seg.memsz), seg.flags);
    if status < 0 then (g, d, -1)
    else
      var (m, r) := CopyFile(g.mem, d.pages, fs, n, seg, 0);
      (g.(mem := m), d, r)
  }

  ghost function LoadFileSegments(h: Heap, sp: Space, fs: B.Fs, n: nat, size: nat, phoff: nat, num: nat, i: nat): (r: (Heap, Space, int))
    requires InMemory(sp) && i <= num
    ensures InMemory(r.1)
    decreases num - i
  {
    if i == num then (h, sp, 0)
    else
      match ReadExact(fs, n, phoff + 56 * i, 56)
      case None => (h, sp, -1)
      case Some(ph) =>
        match ParseSegment(ph, size)
        case Skip => LoadFileSegments(h, sp, fs, n, size, phoff, num, i + 1)
        case Bad => (h, sp, -1)
        case Loadable(seg) =>
          var (g, d, status) := LoadFileSegment(h, sp, fs, n, seg);
          if status < 0 then (g, d, -1) else LoadFileSegments(g, d, fs, n, size, phoff, num, i + 1)
  }

  /** `load_elf` */
  ghost function LoadFile(h: Heap, k: Kernel, fs: B.Fs, n: nat): (r: (Heap, Option<Space>))
    requires k.l2 < DRAM_PAGES && k.l1Mmio < DRAM_PAGES && n < 256
  {
    if fs.inodes[n].mode / 256 % 2 == 0 then (h, None)
    else
      match ReadExact(fs, n, 0, 64)
      case None => (h, None)
      case Some(header) =>
        if !HeaderFor(header, fs.inodes[n].size) then (h, None)
        else
          var (g, created) := Create(h, k);
          if created.None? || created.value.l0 >= DRAM_PAGES || created.value.pages != [] then (g, None)
          else
            var (a, sp, status) :=
              LoadFileSegments(g, created.value, fs, n, fs.inodes[n].size, U64At(header, 32), U16At(header, 56), 0);
            if status < 0 then (Destroy(a, sp), None)
            else
              var (b, d, last) := FinishLoad(a, sp, U64At(header, 24));
              if last < 0 then (Destroy(b, d), None) else (b, Some(d))
  }

  // ---------------------------------------------------------------- what is read

  /** The program header at `at`, and the bytes of its segment, have no hole. */
  ghost predicate SegmentReadable(fs: B.Fs, n: nat, at: nat)
    requires n < 256
  {
    && S.CanRead(fs, n, at, 56)
    && match ReadSegment(S.Content(fs, n), at)
       case Loadable(seg) => S.CanRead(fs, n, seg.offset, seg.filesz)
       case _ => true
  }

  ghost predicate SegmentsReadable(fs: B.Fs, n: nat, phoff: nat, num: nat, i: nat)
    requires n < 256
  {
    forall j :: i <= j < num ==> SegmentReadable(fs, n, phoff + 56 * j)
  }

  /** Nothing `load_elf` reads lies in a hole: the header, the program headers and the bytes of the segments. */
  ghost predicate Readable(fs: B.Fs, n: nat)
    requires n < 256
  {
    var c := S.Content(fs, n);
    |c| >= 64 && S.CanRead(fs, n, 0, 64) && SegmentsReadable(fs, n, U64At(c, 32), U16At(c, 56), 0)
  }

  lemma NoHoleAnywhere(fs: B.Fs, n: nat, off: nat, len: nat)
    requires n < 256 && S.NoHoles(fs, n) && fs.inodes[n].size <= 65536
    ensures S.CanRead(fs, n, off, len)
  {
    hide B.ByteAt, B.BlockOf;
    var l := |S.Slice(S.Content(fs, n), off, len)|;
    forall i | 0 <= i && S.Overlaps(off, l, i) ensures B.BlockOf(fs, n, i) != 0 {
      assert i < 138 && 512 * i < fs.inodes[n].size;
    }
  }

  /** A file without holes is readable. */
  lemma NoHolesReadable(fs: B.Fs, n: nat)
    requires n < 256 && S.NoHoles(fs, n) && 64 <= fs.inodes[n].size <= 65536
    ensures Readable(fs, n)
  {
    hide S.CanRead, S.NoHoles, B.ByteAt, ReadSegment;
    var c := S.Content(fs, n);
    NoHoleAnywhere(fs, n, 0, 64);
    forall j | 0 <= j < U16At(c, 56) ensures SegmentReadable(fs, n, U64At(c, 32) + 56 * j) {
      var at := U64At(c, 32) + 56 * j;
      NoHoleAnywhere(fs, n, at, 56);
      match ReadSegment(c, at)
      case Loadable(seg) => NoHoleAnywhere(fs, n, seg.offset, seg.filesz);
      case _ =>
    }
  }

  // ---------------------------------------------------------------- the same as loading the contents

  /** Reading a range piece by piece. */
  lemma ReadSplit(fs: B.Fs, n: nat, off: nat, a: nat, b: nat)
    requires n < 256 && off + a + b <= |S.Content(fs, n)|
    ensures S.CanRead(fs, n, off, a + b) <==> S.CanRead(fs, n, off, a) && S.CanRead(fs, n, off + a, b)
  {
    hide S.HoleIn, B.ByteAt;
    S.HoleSplit(fs, n, off, a, b);
    if a == 0 || b == 0 {
      S.HoleSplit(fs, n, off, 0, 0);
      NoHoleInNothing(fs, n, off);
      NoHoleInNothing(fs, n, off + a);
    }
  }

  lemma NoHoleInNothing(fs: B.Fs, n: nat, off: nat)
    requires n < 256
    ensures !S.HoleIn(fs, n, off, 0)
  {
  }

  /** The copy loop is that over the contents if what is left has no hole, and fails otherwise. */
  lemma {:induction false} CopyFileIs(mem: Memory, pages: seq<Mapping>, fs: B.Fs, n: nat, seg: Segment, done: nat)
    requires IsFile(fs, n) && done <= seg.filesz && seg.offset + seg.filesz <= |S.Content(fs, n)|
    ensures S.CanRead(fs, n, seg.offset + done, seg.filesz - done) ==>
              CopyFile(mem, pages, fs, n, seg, done) == CopySegment(mem, pages, S.Content(fs, n), seg, done)
    ensures !S.CanRead(fs, n, seg.offset + done, seg.filesz - done) ==> CopyFile(mem, pages, fs, n, seg, done).1 < 0
    decreases seg.filesz - done
  {
    hide CopyTo, S.CanRead, B.ByteAt, ReadExact;
    if done == seg.filesz {
      assert S.CanRead(fs, n, seg.offset + done, 0) by { ReadNothing(fs, n, seg.offset + done); }
    } else {
      var c := S.Content(fs, n);
      var chunk := Low(seg.filesz - done, 512);
      var at := seg.offset + done;
      ReadExactIs(fs, n, at, chunk);
      ReadSplit(fs, n, at, chunk, seg.filesz - done - chunk);
      if S.CanRead(fs, n, at, chunk) {
        CopyFileIs(CopyTo(mem, pages, seg.vaddr + done, c[at..at + chunk]).0, pages, fs, n, seg, done + chunk);
      }
    }
  }

  lemma ReadNothing(fs: B.Fs, n: nat, off: nat)
    requires n < 256
    ensures S.CanRead(fs, n, off, 0)
  {
    NoHoleInNothing(fs, n, off);
  }

  lemma {:induction false} CopyFileOk(s: Sys, first: nat, h: Heap, sp: Space, fs: B.Fs, n: nat, seg: Segment, done: nat)
    requires Built(s, first, h, sp) && done <= seg.filesz
    ensures Built(s, first, h.(mem := CopyFile(h.mem, sp.pages, fs, n, seg, done).0), sp)
    decreases seg.filesz - done
  {
    hide Built, CopyTo, ReadExact;
    assert h.(mem := h.mem) == h;
    if done < seg.filesz {
      var chunk := Low(seg.filesz - done, 512);
      match ReadExact(fs, n, seg.offset + done, chunk)
      case None =>
      case Some(bytes) =>
        BuildCopy(s, first, h, sp, seg.vaddr + done, bytes);
        var (m, r) := CopyTo(h.mem, sp.pages, seg.vaddr + done, bytes);
        if r >= 0 {
          CopyFileOk(s, first, h.(mem := m), sp, fs, n, seg, done + chunk);
        }
    }
  }

  lemma FileSegmentOk(s: Sys, first: nat, h: Heap, sp: Space, fs: B.Fs, n: nat, seg: Segment)
    requires Built(s, first, h, sp)
    ensures InMemory(sp)
    ensures var (g, d, status) := LoadFileSegment(h, sp, fs, n, seg); Built(s, first, g, d)
  {
    hide Built, MapRange, CopyFile, PageVa, RoundUp, InMemory;
    MapRangeOk(s, first, h, sp, PageVa(seg.vaddr), RoundUp(seg.vaddr + seg.memsz), seg.flags);
    var (g, d, status) := MapRange(h, sp, PageVa(seg.vaddr), RoundUp(seg.vaddr + seg.memsz), seg.flags);
    CopyFileOk(s, first, g, d, fs, n, seg, 0);
  }

  lemma {:induction false} FileSegmentsOk(s: Sys, first: nat, h: Heap, sp: Space, fs: B.Fs, n: nat, size: nat, phoff: nat, num: nat, i: nat)
    requires Built(s, first, h, sp) && i <= num
    ensures InMemory(sp)
    ensures var (g, d, status) := LoadFileSegments(h, sp, fs, n, size, phoff, num, i); Built(s, first, g, d)
    decreases num - i
  {
    hide Built, LoadFileSegment, ReadExact, ParseSegment, InMemory;
    BuiltSpace(s, first, h, sp);
    if i < num {
      var ph := ReadExact(fs, n, phoff + 56 * i, 56);
      if ph.Some? {
        match ParseSegment(ph.value, size)
        case Skip => FileSegmentsOk(s, first, h, sp, fs, n, size, phoff, num, i + 1);
        case Bad =>
        case Loadable(seg) =>
          FileSegmentOk(s, first, h, sp, fs, n, seg);
          var (g, d, status) := LoadFileSegment(h, sp, fs, n, seg);
          if status >= 0 {
            FileSegmentsOk(s, first, g, d, fs, n, size, phoff, num, i + 1);
          }
      }
    }
  }

  /** One program header and its segment: as over the contents if it is readable, and failing otherwise. */
  lemma FileSegmentIs(h: Heap, sp: Space, fs: B.Fs, n: nat, seg: Segment)
    requires IsFile(fs, n) && InMemory(sp) && SegmentOk(seg, |S.Content(fs, n)|)
    ensures S.CanRead(fs, n, seg.offset, seg.filesz) ==> LoadFileSegment(h, sp, fs, n, seg) == LoadSegment(h, sp, S.Content(fs, n), seg)
    ensures !S.CanRead(fs, n, seg.offset, seg.filesz) ==> LoadFileSegment(h, sp, fs, n, seg).2 < 0
  {
    hide MapRange, CopyFile, CopySegment, S.CanRead, B.ByteAt;
    var (g, d, status) := MapRange(h, sp, PageVa(seg.vaddr), RoundUp(seg.vaddr + seg.memsz), seg.flags);
    CopyFileIs(g.mem, d.pages, fs, n, seg, 0);
  }

  lemma {:induction false} FileSegmentsAre(h: Heap, sp: Space, fs: B.Fs, n: nat, phoff: nat, num: nat, i: nat)
    requires IsFile(fs, n) && InMemory(sp) && i <= num && phoff + 56 * num <= |S.Content(fs, n)|
    ensures var c := S.Content(fs, n);
            var (g, d, status) := LoadFileSegments(h, sp, fs, n, |c|, phoff, num, i);
            && (SegmentsReadable(fs, n, phoff, num, i) ==> (g, d, status) == LoadSegments(h, sp, c, phoff, num, i))
            && (status >= 0 ==> SegmentsReadable(fs, n, phoff, num, i))
    decreases num - i
  {
    hide LoadFileSegment, LoadSegment, ReadExact, ParseSegment, SegmentOk, InMemory, S.CanRead, B.ByteAt;
    if i < num {
      var c, at := S.Content(fs, n), phoff + 56 * i;
      ReadExactIs(fs, n, at, 56);
      ReadOk(c, at);
      if S.CanRead(fs, n, at, 56) {
        match ReadSegment(c, at)
        case Skip => FileSegmentsAre(h, sp, fs, n, phoff, num, i + 1);
        case Bad =>
        case Loadable(seg) =>
          FileSegmentIs(h, sp, fs, n, seg);
          var (g, d, status) := LoadFileSegment(h, sp, fs, n, seg);
          if S.CanRead(fs, n, seg.offset, seg.filesz) && status >= 0 {
            FileSegmentsAre(g, d, fs, n, phoff, num, i + 1);
          }
      } else {
        assert !SegmentReadable(fs, n, at);
      }
    }
  }

  /** The first 64 bytes decide about the header. */
  lemma HeaderSame(c: seq<byte>)
    requires |c| >= 64
    ensures HeaderFor(c[..64], |c|) == HeaderOk(c) && (HeaderOk(c) ==> U64At(c, 32) + 56 * U16At(c, 56) <= |c|)
    ensures U64At(c[..64], 24) == U64At(c, 24) && U64At(c[..64], 32) == U64At(c, 32) && U16At(c[..64], 56) == U16At(c, 56)
  {
  }

  /** `load_elf` of a file none of whose pieces it reads has a hole loads exactly the contents. */
  lemma LoadFileIs(h: Heap, k: Kernel, fs: B.Fs, n: nat)
    requires k.l2 < DRAM_PAGES && k.l1Mmio < DRAM_PAGES && IsFile(fs, n)
    ensures Readable(fs, n) ==> LoadFile(h, k, fs, n) == LoadElf(h, k, FileProgram(fs, n))
    ensures LoadFile(h, k, fs, n).1.Some? ==> Readable(fs, n)
  {
    hide Create, LoadSegments, LoadFileSegments, FinishLoad, Destroy, HeaderFor, ReadExact, S.CanRead, B.ByteAt, SegmentsReadable;
    var c := S.Content(fs, n);
    ReadExactIs(fs, n, 0, 64);
    if |c| >= 64 {
      HeaderSame(c);
      assert c[0..64] == c[..64];
      var (g, created) := Create(h, k);
      if HeaderOk(c) && created.Some? && created.value.l0 < DRAM_PAGES && created.value.pages == [] {
        FileSegmentsAre(g, created.value, fs, n, U64At(c, 32), U16At(c, 56), 0);
      }
    }
  }

  /** `load_elf` of any file: when it fails every page is back and no space has changed. */
  lemma LoadFileBack(s: Sys, first: nat, free: seq<nat>, fs: B.Fs, n: nat)
    requires SysOk(s, first, free, multiset{}) && IsFile(fs, n)
    ensures s.k.l2 < DRAM_PAGES && s.k.l1Mmio < DRAM_PAGES
    ensures var (h, r) := LoadFile(s.heap, s.k, fs, n);
            r.None? ==> SomeFree(s.(heap := h), first, multiset{}) && Kept(s.heap.mem, h.mem, s.spaces)
                        && h.end == s.heap.end && h.totalFree == s.heap.totalFree
  {
    hide SysOk, Built, Create, LoadFileSegments, FinishLoad, Destroy, SomeFree, Kept, HeaderFor, ReadExact;
    Witness(s, first, free, multiset{});
    KeptSame(s.heap.mem, s.spaces);
    assert s.(heap := s.heap) == s;
    BuildStart(s, first, free);
    var read := ReadExact(fs, n, 0, 64);
    if read.Some? && HeaderFor(read.value, fs.inodes[n].size) {
      var (g, created) := Create(s.heap, s.k);
      if created.Some? {
        var sp, f := created.value, read.value;
        BuiltSpace(s, first, g, sp);
        FileSegmentsOk(s, first, g, sp, fs, n, fs.inodes[n].size, U64At(f, 32), U16At(f, 56), 0);
        var (a, d, status) := LoadFileSegments(g, sp, fs, n, fs.inodes[n].size, U64At(f, 32), U16At(f, 56), 0);
        if status < 0 {
          BuildDestroy(s, first, a, d);
        } else {
          FinishOk(s, first, a, d, U64At(f, 24));
          var (b, e, last) := FinishLoad(a, d, U64At(f, 24));
          if last < 0 {
            BuildDestroy(s, first, b, e);
          }
        }
      }
    }
  }

  // ---------------------------------------------------------------- prepare_program

  /** `minifs_resolve_file`: the regular file a path leads to, or -1. */
  function FindFile(fs: B.Fs, cwd: u32, path: seq<byte>): (n: int)
    ensures n >= 0 ==> IsFile(fs, n)
  {
    var n := Paths.Resolve(FsTree.TreeOf(fs), cwd, path);
    if n < 0 || !IsFile(fs, n) then -1 else n
  }

  /** The program a path leads to; nothing executable if it leads to no file. */
  function ProgramAtPath(fs: B.Fs, cwd: u32, path: seq<byte>): Program {
    var n := FindFile(fs, cwd, path);
    if n >= 0 then FileProgram(fs, n) else Program(false, [])
  }

  /** `prepare_program` */
  ghost function PrepareFile(h: Heap, k: Kernel, fs: B.Fs, cwd: u32, path: seq<byte>, argv: seq<seq<byte>>, envp: seq<seq<byte>>)
      : (r: (Heap, Option<Loaded>))
    requires KernelInRange(k)
    ensures r.1.Some? ==> InMemory(r.1.value.space)
  {
    var n := FindFile(fs, cwd, path);
    if n < 0 then (h, None)
    else
      var (g, loaded) := LoadFile(h, k, fs, n);
      WithStack(g, loaded, EntryOf(S.Content(fs, n)), argv, envp)
  }

  /** Before the call: `prepare_program` will succeed. The path leads to a file without a hole where it is read, which can be
      loaded, and the arguments fit the stack. */
  ghost predicate CanStart(s: Sys, fs: B.Fs, cwd: u32, path: seq<byte>, argv: seq<seq<byte>>, envp: seq<seq<byte>>) {
    var n := FindFile(fs, cwd, path);
    n >= 0 && Readable(fs, n) && CanLoad(s, FileProgram(fs, n)) && InitStack.Fits(argv, envp)
  }

  /** What preparing leaves when it fails. */
  ghost predicate Untouched(s: Sys, first: nat, h: Heap) {
    && SomeFree(s.(heap := h), first, multiset{}) && Kept(s.heap.mem, h.mem, s.spaces)
    && h.end == s.heap.end && h.totalFree == s.heap.totalFree
  }

  /** `prepare_program` of a path: the contents of the file it leads to, ready to run, exactly when that can be said beforehand;
      otherwise as many free pages as before and no space changed. */
  lemma PrepareFileOk(s: Sys, first: nat, free: seq<nat>, fs: B.Fs, cwd: u32, path: seq<byte>, argv: seq<seq<byte>>, envp: seq<seq<byte>>)
    requires SysOk(s, first, free, multiset{})
    ensures KernelInRange(s.k)
    ensures var (h, r) := PrepareFile(s.heap, s.k, fs, cwd, path, argv, envp);
            && (r.Some? <==> CanStart(s, fs, cwd, path, argv, envp))
            && match r
               case Some(l) => Built(s, first, h, l.space) && Prepared(h.mem, l, ProgramAtPath(fs, cwd, path), argv, envp)
               case None => Untouched(s, first, h)
  {
    hide SysOk, Built, LoadElf, LoadFile, WithStack, SomeFree, Kept, Prepared, CanLoad, InitStack.Fits, Readable, FindFile, B.ByteAt;
    KernelInDram(s, first, free, multiset{});
    var n := FindFile(fs, cwd, path);
    if n < 0 {
      assert Untouched(s, first, s.heap) by { SameAgain(s, first, free); }
    } else {
      var p := FileProgram(fs, n);
      LoadFileIs(s.heap, s.k, fs, n);
      if Readable(fs, n) {
        PrepareOk(s, first, free, p, argv, envp);
        PrepareIff(s, first, free, p, argv, envp);
      } else {
        LoadFileBack(s, first, free, fs, n);
        NoStack(LoadFile(s.heap, s.k, fs, n).0, EntryOf(S.Content(fs, n)), argv, envp);
      }
    }
  }

  lemma SameAgain(s: Sys, first: nat, free: seq<nat>)
    requires SysOk(s, first, free, multiset{})
    ensures Untouched(s, first, s.heap)
  {
    hide SysOk, Kept;
    Witness(s, first, free, multiset{});
    KeptSame(s.heap.mem, s.spaces);
    assert s.(heap := s.heap) == s;
  }

  lemma NoStack(g: Heap, entry: nat, argv: seq<seq<byte>>, envp: seq<seq<byte>>)
    ensures WithStack(g, None, entry, argv, envp) == (g, None)
  {
  }
}
