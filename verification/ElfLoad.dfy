/** Loading an executable: what `load_elf` accepts, what it leaves in the new user space, and what a rejection leaves behind. */
module ElfLoad {
  import opened Bytes
  import opened PhysMem
  import opened Mmu
  import opened PageAlloc
  import opened Spaces
  import opened SpaceOps
  import opened SpaceCopy
  import opened SpaceView

  const USER_STACK_BOTTOM := 0x1f_c000

  function U16At(s: seq<byte>, o: nat): nat
    requires o + 2 <= |s|
  {
    s[o] as int + 0x100 * (s[o + 1] as int)
  }

  // ---------------------------------------------------------------- reading the file

  /** A program file: whether its mode has the executable bit, and its bytes. */
  datatype Program = Program(exec: bool, bytes: seq<byte>)

  /** `valid_elf_header` on the first 64 bytes of a file of `size` bytes. */
  predicate HeaderFor(f: seq<byte>, size: nat)
    requires |f| >= 64
  {
    && f[0] == 0x7f && f[1] == 0x45 && f[2] == 0x4c && f[3] == 0x46 && f[4] == 2 && f[5] == 1 && f[6] == 1
    && U16At(f, 16) == 2 && U16At(f, 18) == 243 && U32At(f, 20) == 1
    && U16At(f, 52) == 64 && U16At(f, 54) == 56 && 0 < U16At(f, 56) <= 16
    && U64At(f, 32) + 56 * U16At(f, 56) <= size
    && USER_MIN_VA <= U64At(f, 24) < USER_STACK_BOTTOM
  }

  predicate HeaderOk(f: seq<byte>)
    requires |f| >= 64
  {
    HeaderFor(f, |f|)
  }

  /** A loadable segment. */
  datatype Segment = Segment(offset: nat, vaddr: nat, filesz: nat, memsz: nat, flags: Flags)

  datatype Verdict = Skip | Bad | Loadable(seg: Segment)

  predicate FlagsOk(f: Flags) {
    (f.r || f.w || f.x) && (f.w ==> f.r)
  }

  /** What `load_elf` makes of a program header of a file of `size` bytes. */
  function ParseSegment(ph: seq<byte>, size: nat): Verdict
    requires |ph| == 56
  {
    if U32At(ph, 0) != 1 then Skip
    else
      var flags := U32At(ph, 4);
      var seg := Segment(U64At(ph, 8), U64At(ph, 16), U64At(ph, 32), U64At(ph, 40),
                         Flags(flags / 4 % 2 == 1, flags / 2 % 2 == 1, flags % 2 == 1));
      if seg.memsz == 0 then if seg.filesz != 0 then Bad else Skip
      else if SegmentOk(seg, size) then Loadable(seg)
      else Bad
  }

  /** What it makes of the one at byte `at`. */
  function ReadSegment(f: seq<byte>, at: nat): Verdict {
    if at + 56 > |f| then Bad else ParseSegment(f[at..at + 56], |f|)
  }

  predicate SegmentOk(seg: Segment, size: nat) {
    && 0 < seg.memsz && seg.filesz <= seg.memsz && seg.offset + seg.filesz <= size
    && USER_MIN_VA <= seg.vaddr && seg.vaddr + seg.memsz <= USER_STACK_BOTTOM
    && FlagsOk(seg.flags)
  }

  // ---------------------------------------------------------------- loading

  /** Maps every page from `va` up to `end`. */
  function MapRange(h: Heap, sp: Space, va: nat, end: nat, flags: Flags): (r: (Heap, Space, int))
    requires InMemory(sp)
    ensures InMemory(r.1)
    decreases end - va
  {
    if va >= end then (h, sp, 0)
    else
      var (g, d, status) := Map(h, sp, va, flags);
      if status < 0 then (g, d, -1) else MapRange(g, d, va + 4096, end, flags)
  }

  function Low(a: nat, b: nat): nat {
    if a < b then a else b
  }

  /** Copies the file bytes of a segment from number `done` on, 512 at a time. */
  function CopySegment(mem: Memory, pages: seq<Mapping>, f: seq<byte>, seg: Segment, done: nat): (r: (Memory, int))
    requires done <= seg.filesz && seg.offset + seg.filesz <= |f|
    decreases seg.filesz - done
  {
    if done == seg.filesz then (mem, 0)
    else
      var chunk := Low(seg.filesz - done, 512);
      var (m, r) := CopyTo(mem, pages, seg.vaddr + done, f[seg.offset + done..seg.offset + done + chunk]);
      if r < 0 then (m, -1) else CopySegment(m, pages, f, seg, done + chunk)
  }

  function RoundUp(va: nat): nat {
    PageVa(va + 4095)
  }

  function LoadSegment(h: Heap, sp: Space, f: seq<byte>, seg: Segment): (r: (Heap, Space, int))
    requires InMemory(sp) && SegmentOk(seg, |f|)
    ensures InMemory(r.1)
  {
    var (g, d, status) := MapRange(h, sp, PageVa(seg.vaddr), RoundUp(seg.vaddr + seg.memsz), seg.flags);
    if status < 0 then (g, d, -1)
    else
      var (m, r) := CopySegment(g.mem, d.pages, f, seg, 0);
      (g.(mem := m), d, r)
  }

  /** The loop over the program headers from number `i` on. */
  function LoadSegments(h: Heap, sp: Space, f: seq<byte>, phoff: nat, n: nat, i: nat): (r: (Heap, Space, int))
    requires InMemory(sp) && i <= n
    ensures InMemory(r.1)
    decreases n - i
  {
    if i == n then (h, sp, 0)
    else
      match ReadSegment(f, phoff + 56 * i)
      case Skip => LoadSegments(h, sp, f, phoff, n, i + 1)
      case Bad => (h, sp, -1)
      case Loadable(seg) =>
        var (g, d, status) := LoadSegment(h, sp, f, seg);
        if status < 0 then (g, d, -1) else LoadSegments(g, d, f, phoff, n, i + 1)
  }

  /** The last steps: the entry point must lie on an executable page, and the stack is mapped. */
  function FinishLoad(h: Heap, sp: Space, entry: nat): (r: (Heap, Space, int))
    requires InMemory(sp)
    ensures InMemory(r.1)
  {
    if !PermIn(sp.pages, PageVa(entry)).x then (h, sp, -1)
    else MapRange(h, sp, USER_STACK_BOTTOM, USER_STACK_TOP, Flags(true, true, false))
  }

  /** `load_elf` */
  function LoadElf(h: Heap, k: Kernel, p: Program): (r: (Heap, Option<Space>))
    requires k.l2 < DRAM_PAGES && k.l1Mmio < DRAM_PAGES
  {
    if !p.exec || |p.bytes| < 64 || !HeaderOk(p.bytes) then (h, None)
    else
      var (g, created) := Create(h, k);
      if created.None? || created.value.l0 >= DRAM_PAGES || created.value.pages != [] then (g, None)
      else
        var (a, sp, status) := LoadSegments(g, created.value, p.bytes, U64At(p.bytes, 32), U16At(p.bytes, 56), 0);
        if status < 0 then (Destroy(a, sp), None)
        else
          var (b, d, last) := FinishLoad(a, sp, U64At(p.bytes, 24));
          if last < 0 then (Destroy(b, d), None) else (b, Some(d))
  }

  // ---------------------------------------------------------------- what loading means

  /** The segment reaches into the page of `x`. */
  predicate Covers(seg: Segment, x: nat) {
    PageVa(seg.vaddr) <= PageVa(x) < RoundUp(seg.vaddr + seg.memsz)
  }

  predicate InSegments(segs: seq<Segment>, x: nat) {
    segs != [] && (Covers(segs[|segs| - 1], x) || InSegments(segs[..|segs| - 1], x))
  }

  /** The byte a program finds at `x`: that of the last segment with file bytes there, or zero. */
  function Expect(segs: seq<Segment>, f: seq<byte>, x: nat): int {
    if segs == [] then 0
    else
      var s := segs[|segs| - 1];
      if s.vaddr <= x < s.vaddr + s.filesz && s.offset + s.filesz <= |f| then f[s.offset + x - s.vaddr]
      else Expect(segs[..|segs| - 1], f, x)
  }

  /** The permissions of the page of `x`: the union over the segments that reach into it. */
  function Perms(segs: seq<Segment>, x: nat): Flags {
    if segs == [] then NO_PERMISSION
    else
      var rest := Perms(segs[..|segs| - 1], x);
      if Covers(segs[|segs| - 1], x) then Either(rest, segs[|segs| - 1].flags) else rest
  }

  /** The loadable segments from program header `i` on. */
  function SegmentsFrom(f: seq<byte>, phoff: nat, n: nat, i: nat): seq<Segment>
    requires i <= n
    decreases n - i
  {
    if i == n then []
    else
      var rest := SegmentsFrom(f, phoff, n, i + 1);
      match ReadSegment(f, phoff + 56 * i)
      case Loadable(seg) => [seg] + rest
      case _ => rest
  }

  /** At `x` the space holds what the segments say. */
  predicate LoadedAt(mem: Memory, pages: seq<Mapping>, f: seq<byte>, segs: seq<Segment>, x: nat) {
    && HasPage(pages, x) == InSegments(segs, x) && (forall j :: 0 <= j < |segs| ==> SegmentOk(segs[j], |f|))
    && (InSegments(segs, x) ==> ByteIn(mem, pages, x) == Expect(segs, f, x))
    && PermIn(pages, PageVa(x)) == Perms(segs, x)
  }

  // ---------------------------------------------------------------- proofs

  lemma {:induction false} MapRangeOk(s: Sys, first: nat, h: Heap, sp: Space, va: nat, end: nat, flags: Flags)
    requires Built(s, first, h, sp)
    ensures InMemory(sp)
    ensures var (g, d, status) := MapRange(h, sp, va, end, flags); Built(s, first, g, d)
    decreases end - va
  {
    hide Built, Map;
    BuiltSpace(s, first, h, sp);
    if va < end {
      BuildMap(s, first, h, sp, va, flags);
      var (g, d, status) := Map(h, sp, va, flags);
      if status >= 0 {
        MapRangeOk(s, first, g, d, va + 4096, end, flags);
      }
    }
  }

  lemma {:induction false} MapRangeView(s: Sys, first: nat, h: Heap, sp: Space, va: nat, end: nat, flags: Flags, x: nat)
    requires Built(s, first, h, sp) && va % 4096 == 0 && end % 4096 == 0
    ensures InMemory(sp)
    ensures var (g, d, status) := MapRange(h, sp, va, end, flags);
            var inside := va <= PageVa(x) < end;
            status >= 0 ==>
              && HasPage(d.pages, x) == (HasPage(sp.pages, x) || inside)
              && ByteIn(g.mem, d.pages, x) == (if HasPage(sp.pages, x) then ByteIn(h.mem, sp.pages, x) else if inside then 0 else -1)
              && PermIn(d.pages, PageVa(x)) == (if inside then Either(PermIn(sp.pages, PageVa(x)), flags) else PermIn(sp.pages, PageVa(x)))
    decreases end - va
  {
    hide Built, Map, ByteIn, PermIn, HasPage, PageVa, MappedList, DataKept, Either, ListOk;
    BuiltSpace(s, first, h, sp);
    if va < end {
      BuildMap(s, first, h, sp, va, flags);
      var (g, d, status) := Map(h, sp, va, flags);
      if status >= 0 {
        MappedView(h.mem, g.mem, sp.pages, va, flags, d.pages, x);
        MappedPerm(h.mem, g.mem, sp.pages, va, flags, d.pages, x);
        MapRangeView(s, first, g, d, va + 4096, end, flags, x);
        NextPage(va, end, x);
      }
    } else {
      NoByte(h.mem, sp, x);
    }
  }

  lemma NoByte(mem: Memory, sp: Space, x: nat)
    requires InMemory(sp)
    ensures HasPage(sp.pages, x) <==> ByteIn(mem, sp.pages, x) != -1
  {
    hide Find;
    FindRange(sp.pages, PageVa(x));
  }

  lemma MappedPerm(a: Memory, b: Memory, pages: seq<Mapping>, va: nat, flags: Flags, after: seq<Mapping>, x: nat)
    requires ListOk(pages) && DataKept(a, b, pages) && MappedList(pages, va, flags, b, after)
    ensures PermIn(after, PageVa(x)) == if PageVa(x) == va then Either(PermIn(pages, va), flags) else PermIn(pages, PageVa(x))
  {
    hide Find, MappedList, DataKept, ListOk, PermIn, PageVa, ByteIn, HasPage;
    MappedView(a, b, pages, va, flags, after, PageVa(x));
  }

  lemma NextPage(va: nat, end: nat, x: nat)
    requires va % 4096 == 0 && end % 4096 == 0 && va < end
    ensures va <= PageVa(x) < end <==> PageVa(x) == va || va + 4096 <= PageVa(x) < end
    ensures (va + 4096) % 4096 == 0
  {
    PageVaAligned(x);
  }

  lemma PageVaAligned(x: nat)
    ensures PageVa(x) % 4096 == 0 && PageVa(x) <= x < PageVa(x) + 4096
  {
  }

  lemma {:induction false} CopySegmentOk(s: Sys, first: nat, h: Heap, sp: Space, f: seq<byte>, seg: Segment, done: nat)
    requires Built(s, first, h, sp) && done <= seg.filesz && seg.offset + seg.filesz <= |f|
    ensures Built(s, first, h.(mem := CopySegment(h.mem, sp.pages, f, seg, done).0), sp)
    decreases seg.filesz - done
  {
    hide Built, CopyTo;
    if done == seg.filesz {
      assert h.(mem := h.mem) == h;
    } else {
      var chunk := Low(seg.filesz - done, 512);
      var bytes := f[seg.offset + done..seg.offset + done + chunk];
      BuildCopy(s, first, h, sp, seg.vaddr + done, bytes);
      var (m, r) := CopyTo(h.mem, sp.pages, seg.vaddr + done, bytes);
      if r >= 0 {
        CopySegmentOk(s, first, h.(mem := m), sp, f, seg, done + chunk);
      }
    }
  }

  lemma {:induction false} CopySegmentView(mem: Memory, pages: seq<Mapping>, f: seq<byte>, seg: Segment, done: nat, x: nat)
    requires done <= seg.filesz && seg.offset + seg.filesz <= |f| && Covered(pages, seg.vaddr, seg.vaddr + seg.filesz)
    requires forall j :: 0 <= j < |pages| ==> pages[j].page < DRAM_PAGES
    requires forall i, j :: 0 <= i < |pages| && 0 <= j < |pages| && i != j ==> pages[i].page != pages[j].page
    ensures var (m, r) := CopySegment(mem, pages, f, seg, done);
            r == 0 && ByteIn(m, pages, x)
                   == if seg.vaddr + done <= x < seg.vaddr + seg.filesz then f[seg.offset + x - seg.vaddr] else ByteIn(mem, pages, x)
    decreases seg.filesz - done
  {
    hide ByteIn, CopyTo, HasPage;
    if done < seg.filesz {
      var chunk := Low(seg.filesz - done, 512);
      var bytes := f[seg.offset + done..seg.offset + done + chunk];
      CopyToView(mem, pages, seg.vaddr + done, bytes, x);
      assert Covered(pages, seg.vaddr + done, seg.vaddr + done + chunk);
      CopySegmentView(CopyTo(mem, pages, seg.vaddr + done, bytes).0, pages, f, seg, done + chunk, x);
    }
  }

  /** Bytes of a segment lie on pages it reaches into. */
  lemma CoversBytes(seg: Segment, size: nat, x: nat)
    requires SegmentOk(seg, size) && seg.vaddr <= x < seg.vaddr + seg.memsz
    ensures Covers(seg, x)
  {
    PageVaAligned(x);
    PageVaAligned(seg.vaddr);
    PageVaAligned(seg.vaddr + seg.memsz + 4095);
  }

  lemma RangeAligned(seg: Segment)
    ensures PageVa(seg.vaddr) % 4096 == 0 && RoundUp(seg.vaddr + seg.memsz) % 4096 == 0
  {
    PageVaAligned(seg.vaddr);
    PageVaAligned(seg.vaddr + seg.memsz + 4095);
  }

  lemma LoadSegmentOk(s: Sys, first: nat, h: Heap, sp: Space, f: seq<byte>, seg: Segment)
    requires Built(s, first, h, sp) && SegmentOk(seg, |f|)
    ensures InMemory(sp)
    ensures var (g, d, status) := LoadSegment(h, sp, f, seg); Built(s, first, g, d)
  {
    hide Built, MapRange, CopySegment;
    MapRangeOk(s, first, h, sp, PageVa(seg.vaddr), RoundUp(seg.vaddr + seg.memsz), seg.flags);
    var (g, d, status) := MapRange(h, sp, PageVa(seg.vaddr), RoundUp(seg.vaddr + seg.memsz), seg.flags);
    CopySegmentOk(s, first, g, d, f, seg, 0);
  }

  /** One more segment. */
  lemma LoadSegmentView(s: Sys, first: nat, h: Heap, sp: Space, f: seq<byte>, seg: Segment, segs: seq<Segment>, x: nat)
    requires Built(s, first, h, sp) && SegmentOk(seg, |f|) && LoadedAt(h.mem, sp.pages, f, segs, x)
    ensures InMemory(sp)
    ensures var (g, d, status) := LoadSegment(h, sp, f, seg);
            status >= 0 ==> LoadedAt(g.mem, d.pages, f, segs + [seg], x)
  {
    hide Built, MapRange, CopySegment, ByteIn, HasPage, PermIn, Covered, PageVa, RoundUp, Either, SegmentOk;
    var lo, hi := PageVa(seg.vaddr), RoundUp(seg.vaddr + seg.memsz);
    RangeAligned(seg);
    MapRangeOk(s, first, h, sp, lo, hi, seg.flags);
    MapRangeView(s, first, h, sp, lo, hi, seg.flags, x);
    var (g, d, status) := MapRange(h, sp, lo, hi, seg.flags);
    if status >= 0 {
      BuiltSpace(s, first, g, d);
      SegmentCovered(s, first, h, sp, seg, |f|);
      SegmentBounds(seg, |f|);
      CopySegmentView(g.mem, d.pages, f, seg, 0, x);
      if seg.vaddr <= x < seg.vaddr + seg.filesz {
        CoversBytes(seg, |f|, x);
      }
      ExpectMore(segs, seg, f, x);
      ExpectNone(segs, f, x, |f|);
      NoByte(h.mem, sp, x);
    }
  }

  lemma SegmentBounds(seg: Segment, size: nat)
    requires SegmentOk(seg, size)
    ensures seg.filesz <= seg.memsz && seg.offset + seg.filesz <= size
  {
  }

  lemma SegmentCovered(s: Sys, first: nat, h: Heap, sp: Space, seg: Segment, size: nat)
    requires Built(s, first, h, sp) && SegmentOk(seg, size) && InMemory(sp)
    ensures var (g, d, status) := MapRange(h, sp, PageVa(seg.vaddr), RoundUp(seg.vaddr + seg.memsz), seg.flags);
            status >= 0 ==> Covered(d.pages, seg.vaddr, seg.vaddr + seg.filesz)
  {
    hide Built, MapRange, ByteIn, HasPage, PermIn, PageVa, RoundUp, Either;
    var lo, hi := PageVa(seg.vaddr), RoundUp(seg.vaddr + seg.memsz);
    RangeAligned(seg);
    var (g, d, status) := MapRange(h, sp, lo, hi, seg.flags);
    if status >= 0 {
      forall x | seg.vaddr <= x < seg.vaddr + seg.filesz ensures HasPage(d.pages, x) {
        MapRangeView(s, first, h, sp, lo, hi, seg.flags, x);
        CoversBytes(seg, size, x);
      }
    }
  }

  lemma ExpectMore(segs: seq<Segment>, seg: Segment, f: seq<byte>, x: nat)
    requires seg.offset + seg.filesz <= |f|
    ensures var t := segs + [seg];
            && InSegments(t, x) == (Covers(seg, x) || InSegments(segs, x))
            && Expect(t, f, x) == (if seg.vaddr <= x < seg.vaddr + seg.filesz then f[seg.offset + x - seg.vaddr] else Expect(segs, f, x))
            && Perms(t, x) == (if Covers(seg, x) then Either(Perms(segs, x), seg.flags) else Perms(segs, x))
  {
    hide Covers;
    var t := segs + [seg];
    assert t[..|t| - 1] == segs;
  }

  /** On a page no segment reaches into, nothing is expected. */
  lemma {:induction false} ExpectNone(segs: seq<Segment>, f: seq<byte>, x: nat, size: nat)
    requires |f| == size
    ensures !InSegments(segs, x) && (forall j :: 0 <= j < |segs| ==> SegmentOk(segs[j], size)) ==> Expect(segs, f, x) == 0
  {
    if segs != [] && !InSegments(segs, x) && forall j :: 0 <= j < |segs| ==> SegmentOk(segs[j], size) {
      var n := |segs| - 1;
      ExpectNone(segs[..n], f, x, size);
      if segs[n].vaddr <= x < segs[n].vaddr + segs[n].filesz {
        CoversBytes(segs[n], size, x);
      }
    }
  }

  lemma {:induction false} LoadSegmentsOk(s: Sys, first: nat, h: Heap, sp: Space, f: seq<byte>, phoff: nat, n: nat, i: nat)
    requires Built(s, first, h, sp) && i <= n
    ensures InMemory(sp)
    ensures var (g, d, status) := LoadSegments(h, sp, f, phoff, n, i); Built(s, first, g, d)
    decreases n - i
  {
    hide Built, LoadSegment, ReadSegment, SegmentOk;
    BuiltSpace(s, first, h, sp);
    if i < n {
      ReadOk(f, phoff + 56 * i);
      match ReadSegment(f, phoff + 56 * i)
      case Skip => LoadSegmentsOk(s, first, h, sp, f, phoff, n, i + 1);
      case Bad =>
      case Loadable(seg) =>
        LoadSegmentOk(s, first, h, sp, f, seg);
        var (g, d, status) := LoadSegment(h, sp, f, seg);
        if status >= 0 {
          LoadSegmentsOk(s, first, g, d, f, phoff, n, i + 1);
        }
    }
  }

  lemma ReadOk(f: seq<byte>, at: nat)
    ensures var v := ReadSegment(f, at); v.Loadable? ==> SegmentOk(v.seg, |f|)
  {
  }

  lemma {:induction false} LoadSegmentsView(s: Sys, first: nat, h: Heap, sp: Space, f: seq<byte>, phoff: nat, n: nat, i: nat,
                                            segs: seq<Segment>, x: nat)
    requires Built(s, first, h, sp) && i <= n && LoadedAt(h.mem, sp.pages, f, segs, x)
    ensures InMemory(sp)
    ensures var (g, d, status) := LoadSegments(h, sp, f, phoff, n, i);
            status >= 0 ==> LoadedAt(g.mem, d.pages, f, segs + SegmentsFrom(f, phoff, n, i), x)
    decreases n - i
  {
    hide Built, LoadSegment, ReadSegment, SegmentOk, LoadedAt;
    BuiltSpace(s, first, h, sp);
    if i == n {
      assert segs + [] == segs;
    } else {
      ReadOk(f, phoff + 56 * i);
      var rest := SegmentsFrom(f, phoff, n, i + 1);
      match ReadSegment(f, phoff + 56 * i)
      case Skip => LoadSegmentsView(s, first, h, sp, f, phoff, n, i + 1, segs, x);
      case Bad =>
      case Loadable(seg) =>
        LoadSegmentOk(s, first, h, sp, f, seg);
        LoadSegmentView(s, first, h, sp, f, seg, segs, x);
        var (g, d, status) := LoadSegment(h, sp, f, seg);
        if status >= 0 {
          LoadSegmentsView(s, first, g, d, f, phoff, n, i + 1, segs + [seg], x);
          assert segs + ([seg] + rest) == segs + [seg] + rest;
        }
    }
  }

  /** A new space holds nothing, as no segments say. */
  lemma EmptyLoaded(mem: Memory, f: seq<byte>, x: nat)
    ensures LoadedAt(mem, [], f, [], x)
  {
  }

  lemma BuildStart(s: Sys, first: nat, free: seq<nat>)
    requires SysOk(s, first, free, multiset{})
    ensures s.k.l2 < DRAM_PAGES && s.k.l1Mmio < DRAM_PAGES
    ensures var (g, r) := Create(s.heap, s.k);
            match r
            case Some(sp) => sp.pages == [] && Built(s, first, g, sp)
            case None => SomeFree(s.(heap := g), first, multiset{}) && Kept(s.heap.mem, g.mem, s.spaces)
                         && g.end == s.heap.end && g.totalFree == s.heap.totalFree
  {
    hide SysOk, SomeFree, Kept, Create;
    CreateOk(s, first, free);
    CreateEnd(s.heap, s.k);
    var (g, r) := Create(s.heap, s.k);
    if r.None? {
      Witness(s, first, free, multiset{});
      SameTotal(s, s.(heap := g), first);
    }
  }

  lemma CreateEnd(h: Heap, k: Kernel)
    requires k.l2 < DRAM_PAGES && k.l1Mmio < DRAM_PAGES
    ensures Create(h, k).0.end == h.end
  {
    hide SetWord, Pte, Zeros, Word, IsPageAddr, PageAt;
  }

  /** What a loaded program finds at `x`: the stack, or what its segments say. */
  predicate ProgramAt(mem: Memory, pages: seq<Mapping>, f: seq<byte>, segs: seq<Segment>, x: nat) {
    if USER_STACK_BOTTOM <= x < USER_STACK_TOP then
      HasPage(pages, x) && ByteIn(mem, pages, x) == 0 && PermIn(pages, PageVa(x)) == Flags(true, true, false)
    else LoadedAt(mem, pages, f, segs, x)
  }

  lemma StackPage(x: nat)
    ensures USER_STACK_BOTTOM <= x < USER_STACK_TOP <==> USER_STACK_BOTTOM <= PageVa(x) < USER_STACK_TOP
  {
  }

  /** No segment reaches the stack. */
  lemma {:induction false} StackClear(segs: seq<Segment>, size: nat, x: nat)
    requires USER_STACK_BOTTOM <= x && forall j :: 0 <= j < |segs| ==> SegmentOk(segs[j], size)
    ensures !InSegments(segs, x) && Perms(segs, x) == NO_PERMISSION
  {
    if segs != [] {
      StackClear(segs[..|segs| - 1], size, x);
      NotCovered(segs[|segs| - 1], size, x);
    }
  }

  lemma NotCovered(seg: Segment, size: nat, x: nat)
    requires SegmentOk(seg, size) && USER_STACK_BOTTOM <= x
    ensures !Covers(seg, x)
  {
    PageVaAligned(x);
    PageVaAligned(seg.vaddr + seg.memsz + 4095);
  }

  lemma FinishView(s: Sys, first: nat, h: Heap, sp: Space, entry: nat, f: seq<byte>, segs: seq<Segment>, x: nat)
    requires Built(s, first, h, sp) && LoadedAt(h.mem, sp.pages, f, segs, x)
    ensures InMemory(sp)
    ensures var (g, d, status) := FinishLoad(h, sp, entry);
            status >= 0 ==> ProgramAt(g.mem, d.pages, f, segs, x)
  {
    hide Built, MapRange, ByteIn, HasPage, PermIn, PageVa, SegmentOk, InSegments, Perms, Expect;
    MapRangeView(s, first, h, sp, USER_STACK_BOTTOM, USER_STACK_TOP, Flags(true, true, false), x);
    StackPage(x);
    if USER_STACK_BOTTOM <= x < USER_STACK_TOP {
      StackClear(segs, |f|, x);
    }
  }

  lemma FinishOk(s: Sys, first: nat, h: Heap, sp: Space, entry: nat)
    requires Built(s, first, h, sp)
    ensures InMemory(sp)
    ensures var (g, d, status) := FinishLoad(h, sp, entry);
            Built(s, first, g, d) && (status >= 0 ==> PermIn(sp.pages, PageVa(entry)).x)
  {
    hide Built, MapRange, PermIn;
    MapRangeOk(s, first, h, sp, USER_STACK_BOTTOM, USER_STACK_TOP, Flags(true, true, false));
  }

  /** The segments of a program with a valid header. */
  function Segments(f: seq<byte>): seq<Segment>
    requires |f| >= 64
  {
    SegmentsFrom(f, U64At(f, 32), U16At(f, 56), 0)
  }

  /** A program in a space of its own: every byte and every permission is what its segments say, the stack is fresh, and the
      entry point lies on an executable page. */
  ghost predicate IsLoaded(mem: Memory, sp: Space, f: seq<byte>) {
    && |f| >= 64 && HeaderOk(f)
    && (forall x: nat :: ProgramAt(mem, sp.pages, f, Segments(f), x))
    && Perms(Segments(f), U64At(f, 24)).x
  }

  /** `load_elf`: a loaded program in a new space, or everything as before. */
  lemma LoadElfOk(s: Sys, first: nat, free: seq<nat>, p: Program)
    requires SysOk(s, first, free, multiset{})
    ensures s.k.l2 < DRAM_PAGES && s.k.l1Mmio < DRAM_PAGES
    ensures var (h, r) := LoadElf(s.heap, s.k, p);
            match r
            case Some(sp) => Built(s, first, h, sp) && IsLoaded(h.mem, sp, p.bytes)
            case None => SomeFree(s.(heap := h), first, multiset{}) && Kept(s.heap.mem, h.mem, s.spaces)
                         && h.end == s.heap.end && h.totalFree == s.heap.totalFree
  {
    hide SysOk, Built, Create, LoadSegments, FinishLoad, Destroy, SomeFree, Kept, IsLoaded, HeaderOk;
    Witness(s, first, free, multiset{});
    KeptSame(s.heap.mem, s.spaces);
    BuildStart(s, first, free);
    if p.exec && |p.bytes| >= 64 && HeaderOk(p.bytes) {
      var f := p.bytes;
      var (g, created) := Create(s.heap, s.k);
      if created.Some? {
        var sp := created.value;
        BuiltSpace(s, first, g, sp);
        LoadSegmentsOk(s, first, g, sp, f, U64At(f, 32), U16At(f, 56), 0);
        var (a, d, status) := LoadSegments(g, sp, f, U64At(f, 32), U16At(f, 56), 0);
        if status < 0 {
          BuildDestroy(s, first, a, d);
        } else {
          FinishOk(s, first, a, d, U64At(f, 24));
          var (b, e, last) := FinishLoad(a, d, U64At(f, 24));
          if last < 0 {
            BuildDestroy(s, first, b, e);
          } else {
            LoadedAll(s, first, g, sp, f);
          }
        }
      }
    }
  }

  lemma LoadedAll(s: Sys, first: nat, g: Heap, sp: Space, f: seq<byte>)
    requires Built(s, first, g, sp) && sp.pages == [] && |f| >= 64 && HeaderOk(f) && InMemory(sp)
    requires LoadSegments(g, sp, f, U64At(f, 32), U16At(f, 56), 0).2 >= 0
    requires var (a, d, _) := LoadSegments(g, sp, f, U64At(f, 32), U16At(f, 56), 0); FinishLoad(a, d, U64At(f, 24)).2 >= 0
    ensures var (a, d, _) := LoadSegments(g, sp, f, U64At(f, 32), U16At(f, 56), 0);
            var (b, e, _) := FinishLoad(a, d, U64At(f, 24));
            IsLoaded(b.mem, e, f)
  {
    hide Built, LoadSegments, FinishLoad, HeaderOk, ProgramAt, LoadedAt, SegmentsFrom;
    var segs := Segments(f);
    LoadSegmentsOk(s, first, g, sp, f, U64At(f, 32), U16At(f, 56), 0);
    var (a, d, _) := LoadSegments(g, sp, f, U64At(f, 32), U16At(f, 56), 0);
    var (b, e, _) := FinishLoad(a, d, U64At(f, 24));
    FinishOk(s, first, a, d, U64At(f, 24));
    assert [] + segs == segs;
    forall x: nat ensures LoadedAt(a.mem, d.pages, f, segs, x) && ProgramAt(b.mem, e.pages, f, segs, x) {
      EmptyLoaded(g.mem, f, x);
      LoadSegmentsView(s, first, g, sp, f, U64At(f, 32), U16At(f, 56), 0, [], x);
      FinishView(s, first, a, d, U64At(f, 24), f, segs, x);
    }
    LoadedPerm(a.mem, d.pages, f, segs, U64At(f, 24));
  }

  lemma LoadedPerm(mem: Memory, pages: seq<Mapping>, f: seq<byte>, segs: seq<Segment>, x: nat)
    requires LoadedAt(mem, pages, f, segs, x)
    ensures PermIn(pages, PageVa(x)) == Perms(segs, x)
  {
  }

  // ---------------------------------------------------------------- disjoint segments

  predicate Disjoint(segs: seq<Segment>) {
    forall i, j :: 0 <= i < j < |segs| ==>
      segs[i].vaddr + segs[i].memsz <= segs[j].vaddr || segs[j].vaddr + segs[j].memsz <= segs[i].vaddr
  }

  lemma {:induction false} ExpectDisjoint(segs: seq<Segment>, f: seq<byte>, j: nat, x: nat)
    requires Disjoint(segs) && j < |segs| && segs[j].vaddr <= x < segs[j].vaddr + segs[j].memsz
    requires (forall i :: 0 <= i < |segs| ==> SegmentOk(segs[i], |f|)) && SegmentOk(segs[j], |f|)
    ensures Expect(segs, f, x)
         == if x < segs[j].vaddr + segs[j].filesz then f[segs[j].offset + x - segs[j].vaddr] else 0
  {
    var n := |segs| - 1;
    if j < n {
      ExpectDisjoint(segs[..n], f, j, x);
    } else if x >= segs[j].vaddr + segs[j].filesz {
      ExpectOutside(segs[..n], f, x, segs[j]);
    }
  }

  lemma {:induction false} ExpectOutside(segs: seq<Segment>, f: seq<byte>, x: nat, seg: Segment)
    requires seg.vaddr <= x < seg.vaddr + seg.memsz
    requires forall i :: 0 <= i < |segs| ==> SegmentOk(segs[i], |f|)
    requires forall i :: 0 <= i < |segs| ==>
               segs[i].vaddr + segs[i].memsz <= seg.vaddr || seg.vaddr + seg.memsz <= segs[i].vaddr
    ensures Expect(segs, f, x) == 0
  {
    if segs != [] {
      ExpectOutside(segs[..|segs| - 1], f, x, seg);
    }
  }

  /** For segments with disjoint byte ranges: the file bytes of each are at its address and the rest of it is zero. */
  lemma SegmentInPlace(mem: Memory, sp: Space, f: seq<byte>, j: nat, k: nat)
    requires IsLoaded(mem, sp, f) && Disjoint(Segments(f)) && j < |Segments(f)| && k < Segments(f)[j].memsz
    ensures var seg := Segments(f)[j];
            && SegmentOk(seg, |f|)
            && ByteIn(mem, sp.pages, seg.vaddr + k) == (if k < seg.filesz then f[seg.offset + k] else 0)
  {
    hide ByteIn, HasPage, PermIn, SegmentsFrom, HeaderOk;
    var segs := Segments(f);
    var x := segs[j].vaddr + k;
    assert ProgramAt(mem, sp.pages, f, segs, 0);
    assert ProgramAt(mem, sp.pages, f, segs, x);
    assert SegmentOk(segs[j], |f|);
    ExpectDisjoint(segs, f, j, x);
    InOne(segs, |f|, j, x);
  }

  lemma {:induction false} InOne(segs: seq<Segment>, size: nat, j: nat, x: nat)
    requires j < |segs| && SegmentOk(segs[j], size) && segs[j].vaddr <= x < segs[j].vaddr + segs[j].memsz
    ensures InSegments(segs, x)
  {
    CoversBytes(segs[j], size, x);
    if j < |segs| - 1 {
      InOne(segs[..|segs| - 1], size, j, x);
    }
  }
}
