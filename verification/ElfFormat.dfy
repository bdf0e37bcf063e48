/** ELF program files field by field: the bytes of the file header and of the program headers, what the loader reads back from
    them, and where each segment of such a file ends up in memory. */
module ElfFormat {
  import opened Bytes
  import opened PhysMem
  import opened Mmu
  import opened Spaces
  import opened SpaceView
  import opened ElfLoad
  import opened PageNeeds
  import opened Programs

  type u16 = x: int | 0 <= x < 0x1_0000

  // ---------------------------------------------------------------- the format

  /** A program header, its fields in the order of a 64-bit file. */
  datatype Ph = Ph(kind: u32, flags: u32, offset: u64, vaddr: u64, paddr: u64, filesz: u64, memsz: u64, align: u64)

  type Ident = s: seq<byte> | |s| == 16 witness Zeros(16)

  /** A file header, likewise. */
  datatype Eh = Eh(ident: Ident, kind: u16, machine: u16, version: u32, entry: u64, phoff: u64, shoff: u64, flags: u32,
                   ehsize: u16, phentsize: u16, phnum: u16, shentsize: u16, shnum: u16, shstrndx: u16)

  function U16Bytes(v: u16): (r: seq<byte>)
    ensures |r| == 2
  {
    [v % 0x100, v / 0x100]
  }

  function PhBytes(h: Ph): (r: seq<byte>)
    ensures |r| == 56
  {
    U32Bytes(h.kind) + U32Bytes(h.flags) + U64Bytes(h.offset) + U64Bytes(h.vaddr) + U64Bytes(h.paddr) + U64Bytes(h.filesz)
    + U64Bytes(h.memsz) + U64Bytes(h.align)
  }

  function EhBytes(h: Eh): (r: seq<byte>)
    ensures |r| == 64
  {
    EhStart(h) + EhEnd(h)
  }

  function EhStart(h: Eh): (r: seq<byte>)
    ensures |r| == 48
  {
    h.ident + U16Bytes(h.kind) + U16Bytes(h.machine) + U32Bytes(h.version) + U64Bytes(h.entry) + U64Bytes(h.phoff) + U64Bytes(h.shoff)
  }

  function EhEnd(h: Eh): (r: seq<byte>)
    ensures |r| == 16
  {
    U32Bytes(h.flags) + U16Bytes(h.ehsize) + U16Bytes(h.phentsize) + U16Bytes(h.phnum) + U16Bytes(h.shentsize) + U16Bytes(h.shnum)
    + U16Bytes(h.shstrndx)
  }

  /** The program headers of a file stand where its file header says. */
  ghost predicate IsElf(f: seq<byte>, eh: Eh, phs: seq<Ph>) {
    && |f| >= 64 && f[..64] == EhBytes(eh) && |phs| == eh.phnum
    && forall i :: 0 <= i < |phs| ==> HeaderAt(f, eh.phoff + 56 * i, phs[i])
  }

  predicate HeaderAt(f: seq<byte>, at: nat, h: Ph) {
    at + 56 <= |f| && f[at..at + 56] == PhBytes(h)
  }

  // ---------------------------------------------------------------- reading them back

  lemma U16Is(s: seq<byte>, o: nat, v: u16)
    requires o + 2 <= |s| && s[o..o + 2] == U16Bytes(v)
    ensures U16At(s, o) == v
  {
    assert s[o] == s[o..o + 2][0] && s[o + 1] == s[o..o + 2][1];
  }

  lemma PhFields(h: Ph)
    ensures var b := PhBytes(h);
            && U32At(b, 0) == h.kind && U32At(b, 4) == h.flags && U64At(b, 8) == h.offset && U64At(b, 16) == h.vaddr
            && U64At(b, 32) == h.filesz && U64At(b, 40) == h.memsz
  {
    hide U32Bytes, U64Bytes, U32At, U64At;
    var b := PhBytes(h);
    assert b[0..4] == U32Bytes(h.kind);
    assert b[4..8] == U32Bytes(h.flags);
    assert b[8..16] == U64Bytes(h.offset);
    assert b[16..24] == U64Bytes(h.vaddr);
    assert b[32..40] == U64Bytes(h.filesz);
    assert b[40..48] == U64Bytes(h.memsz);
    U32Is(b, 0, h.kind);
    U32Is(b, 4, h.flags);
    U64Is(b, 8, h.offset);
    U64Is(b, 16, h.vaddr);
    U64Is(b, 32, h.filesz);
    U64Is(b, 40, h.memsz);
  }

  /** Readable, writable and executable are the flags 4, 2 and 1. */
  predicate Rwx(flags: nat, r: bool, w: bool, x: bool) {
    flags % 8 == (if r then 4 else 0) + (if w then 2 else 0) + (if x then 1 else 0)
  }

  /** A header `load_elf` passes over: not PT_LOAD, or an empty segment. */
  predicate Skipped(h: Ph) {
    h.kind != 1 || (h.memsz == 0 && h.filesz == 0)
  }

  /** A header it loads: not more file than memory, inside the file and inside user memory below the stack, with some permission,
      and not writable without being readable. */
  predicate Loads(h: Ph, size: nat) {
    && h.kind == 1 && 0 < h.memsz && h.filesz <= h.memsz && h.offset + h.filesz <= size
    && 0x10000 <= h.vaddr && h.vaddr + h.memsz <= 0x1f_c000 && h.flags % 8 !in {0, 2, 3}
  }

  /** Reading a program header back: all others are refused, and a loaded one gives exactly these fields. */
  lemma PhReads(h: Ph, size: nat, r: bool, w: bool, x: bool)
    requires Rwx(h.flags, r, w, x)
    ensures ParseSegment(PhBytes(h), size) ==
            if Skipped(h) then Skip
            else if Loads(h, size) then Loadable(Segment(h.offset, h.vaddr, h.filesz, h.memsz, Flags(r, w, x)))
            else Bad
  {
    hide PhBytes, U32At, U64At;
    PhFields(h);
    FlagBits(h.flags, r, w, x);
  }

  lemma FlagBits(flags: nat, r: bool, w: bool, x: bool)
    requires Rwx(flags, r, w, x)
    ensures (flags / 4 % 2 == 1) == r && (flags / 2 % 2 == 1) == w && (flags % 2 == 1) == x
    ensures flags % 8 in {0, 2, 3} <==> !((r || w || x) && (w ==> r))
  {
    var a, b := flags / 8, flags % 8;
    assert flags == 8 * a + b;
    assert flags / 4 == 2 * a + b / 4 && flags / 2 == 4 * a + b / 2;
  }

  lemma EhFields(h: Eh)
    ensures var b := EhBytes(h);
            && b[..7] == h.ident[..7] && U16At(b, 16) == h.kind && U16At(b, 18) == h.machine && U32At(b, 20) == h.version
            && U64At(b, 24) == h.entry && U64At(b, 32) == h.phoff && U16At(b, 52) == h.ehsize && U16At(b, 54) == h.phentsize
            && U16At(b, 56) == h.phnum
  {
    hide U16Bytes, U32Bytes, U64Bytes, U16At, U32At, U64At;
    var b, s, e := EhBytes(h), EhStart(h), EhEnd(h);
    EhStarts(h);
    EhEnds(h);
    assert b[..7] == s[..7] && b[16..18] == s[16..18] && b[18..20] == s[18..20] && b[20..24] == s[20..24];
    assert b[24..32] == s[24..32] && b[32..40] == s[32..40];
    assert b[52..54] == e[4..6] && b[54..56] == e[6..8] && b[56..58] == e[8..10];
    U16Is(b, 16, h.kind);
    U16Is(b, 18, h.machine);
    U32Is(b, 20, h.version);
    U64Is(b, 24, h.entry);
    U64Is(b, 32, h.phoff);
    U16Is(b, 52, h.ehsize);
    U16Is(b, 54, h.phentsize);
    U16Is(b, 56, h.phnum);
  }

  lemma EhStarts(h: Eh)
    ensures var s := EhStart(h);
            && s[..7] == h.ident[..7] && s[16..18] == U16Bytes(h.kind) && s[18..20] == U16Bytes(h.machine)
            && s[20..24] == U32Bytes(h.version) && s[24..32] == U64Bytes(h.entry) && s[32..40] == U64Bytes(h.phoff)
  {
    hide U16Bytes, U32Bytes, U64Bytes;
  }

  lemma EhEnds(h: Eh)
    ensures var e := EhEnd(h);
            e[4..6] == U16Bytes(h.ehsize) && e[6..8] == U16Bytes(h.phentsize) && e[8..10] == U16Bytes(h.phnum)
  {
    hide U16Bytes, U32Bytes;
  }

  /** A 64-bit little-endian RISC-V program whose one to sixteen headers lie in the file and whose entry is a user address. */
  predicate Accepted(h: Eh, size: nat) {
    && h.ident[..7] == [0x7f, 0x45, 0x4c, 0x46, 2, 1, 1] && h.kind == 2 && h.machine == 243 && h.version == 1
    && h.ehsize == 64 && h.phentsize == 56 && 1 <= h.phnum <= 16 && h.phoff + 56 * h.phnum <= size
    && 0x10000 <= h.entry < 0x1f_c000
  }

  /** Reading a file header back: `valid_elf_header` accepts exactly these, and the three fields used later are the ones stored. */
  lemma EhReads(h: Eh, size: nat)
    ensures var b := EhBytes(h);
            && (HeaderFor(b, size) <==> Accepted(h, size))
            && U64At(b, 24) == h.entry && U64At(b, 32) == h.phoff && U16At(b, 56) == h.phnum
  {
    hide EhBytes, U16At, U32At, U64At;
    EhFields(h);
    var b := EhBytes(h);
    var magic := [0x7f, 0x45, 0x4c, 0x46, 2, 1, 1];
    assert b[..7] == magic <==> forall i :: 0 <= i < 7 ==> b[i] == magic[i] by {
      assert forall i :: 0 <= i < 7 ==> b[..7][i] == b[i];
    }
  }

  // ---------------------------------------------------------------- a whole file

  /** The permissions a flag word grants. */
  function Granted(flags: nat): (p: Flags)
    ensures Rwx(flags, p.r, p.w, p.x)
  {
    var b := flags % 8;
    var p := Flags(b >= 4, b % 4 >= 2, b % 2 == 1);
    assert b == 4 * (b / 4) + 2 * (b % 4 / 2) + b % 2;
    p
  }

  function SegmentOf(h: Ph): Segment {
    Segment(h.offset, h.vaddr, h.filesz, h.memsz, Granted(h.flags))
  }

  function LoadedSegments(phs: seq<Ph>, size: nat, i: nat): seq<Segment>
    requires i <= |phs|
    decreases |phs| - i
  {
    if i == |phs| then []
    else if Loads(phs[i], size) then [SegmentOf(phs[i])] + LoadedSegments(phs, size, i + 1)
    else LoadedSegments(phs, size, i + 1)
  }

  lemma HeaderReads(f: seq<byte>, eh: Eh, phs: seq<Ph>, i: nat)
    requires IsElf(f, eh, phs) && i < |phs|
    ensures ReadSegment(f, eh.phoff + 56 * i) ==
            if Skipped(phs[i]) then Skip else if Loads(phs[i], |f|) then Loadable(SegmentOf(phs[i])) else Bad
  {
    hide PhBytes, EhBytes, ParseSegment;
    var p := Granted(phs[i].flags);
    assert HeaderAt(f, eh.phoff + 56 * i, phs[i]);
    PhReads(phs[i], |f|, p.r, p.w, p.x);
  }

  lemma {:induction false} SegmentsRead(f: seq<byte>, eh: Eh, phs: seq<Ph>, i: nat)
    requires IsElf(f, eh, phs) && i <= |phs|
    ensures SegmentsFrom(f, eh.phoff, |phs|, i) == LoadedSegments(phs, |f|, i)
    decreases |phs| - i
  {
    hide IsElf, ReadSegment;
    if i < |phs| {
      HeaderReads(f, eh, phs, i);
      SegmentsRead(f, eh, phs, i + 1);
    }
  }

  lemma FileHeader(f: seq<byte>, eh: Eh, phs: seq<Ph>)
    requires IsElf(f, eh, phs)
    ensures |f| >= 64 && U64At(f, 24) == eh.entry && U64At(f, 32) == eh.phoff && U16At(f, 56) == |phs|
    ensures (HeaderOk(f) <==> Accepted(eh, |f|)) && Segments(f) == LoadedSegments(phs, |f|, 0)
  {
    hide EhBytes, Accepted, SegmentsFrom, LoadedSegments;
    EhReads(eh, |f|);
    SamePrefix(f, EhBytes(eh), |f|);
    SegmentsRead(f, eh, phs, 0);
  }

  /** The first 64 bytes decide. */
  lemma SamePrefix(f: seq<byte>, b: seq<byte>, size: nat)
    requires |f| >= 64 && |b| == 64 && f[..64] == b
    ensures HeaderFor(f, size) <==> HeaderFor(b, size)
    ensures U64At(f, 24) == U64At(b, 24) && U64At(f, 32) == U64At(b, 32) && U16At(f, 56) == U16At(b, 56)
  {
    assert forall i :: 0 <= i < 64 ==> f[i] == b[i];
  }

  /** Loaded header `i` reaches into the page of `x`. */
  predicate Reaches(phs: seq<Ph>, size: nat, i: int, x: nat) {
    && 0 <= i < |phs| && Loads(phs[i], size)
    && phs[i].vaddr / 4096 <= x / 4096 && 4096 * (x / 4096) < phs[i].vaddr + phs[i].memsz
  }

  lemma ReachesCovers(h: Ph, x: nat)
    ensures Covers(SegmentOf(h), x) <==> h.vaddr / 4096 <= x / 4096 && 4096 * (x / 4096) < h.vaddr + h.memsz
  {
    hide Granted;
    Pages(h.vaddr);
    Pages(x);
    Pages(h.vaddr + h.memsz + 4095);
  }

  lemma Pages(x: nat)
    ensures PageVa(x) == 4096 * (x / 4096)
  {
  }

  /** Whether a permission is among these: 4, 2 and 1 for reading, writing and executing; any other number asks for none. */
  predicate Has(p: Flags, bit: nat) {
    match bit
    case 4 => p.r
    case 2 => p.w
    case 1 => p.x
    case _ => true
  }

  /** Some loaded header that reaches into the page of `x` has this permission. */
  ghost predicate Grants(phs: seq<Ph>, size: nat, x: nat, bit: nat) {
    exists i :: Reaches(phs, size, i, x) && Has(Granted(phs[i].flags), bit)
  }

  ghost predicate Grant(segs: seq<Segment>, x: nat, bit: nat) {
    exists j :: 0 <= j < |segs| && Covers(segs[j], x) && Has(segs[j].flags, bit)
  }

  lemma {:induction false} LoadedHas(phs: seq<Ph>, size: nat, i: nat, k: nat) returns (j: nat)
    requires i <= k < |phs| && Loads(phs[k], size)
    ensures j < |LoadedSegments(phs, size, i)| && LoadedSegments(phs, size, i)[j] == SegmentOf(phs[k])
    decreases k - i
  {
    hide Loads;
    if i == k {
      j := 0;
    } else {
      j := LoadedHas(phs, size, i + 1, k);
      if Loads(phs[i], size) {
        j := j + 1;
      }
    }
  }

  lemma {:induction false} LoadedFrom(phs: seq<Ph>, size: nat, i: nat, j: nat) returns (k: nat)
    requires i <= |phs| && j < |LoadedSegments(phs, size, i)|
    ensures i <= k < |phs| && Loads(phs[k], size) && LoadedSegments(phs, size, i)[j] == SegmentOf(phs[k])
    decreases |phs| - i
  {
    hide Loads;
    if Loads(phs[i], size) {
      if j == 0 {
        k := i;
      } else {
        k := LoadedFrom(phs, size, i + 1, j - 1);
      }
    } else {
      k := LoadedFrom(phs, size, i + 1, j);
    }
  }

  /** The loaded headers name disjoint address ranges. */
  predicate Apart(phs: seq<Ph>, size: nat) {
    forall i, j :: 0 <= i < j < |phs| && Loads(phs[i], size) && Loads(phs[j], size) ==>
      phs[i].vaddr + phs[i].memsz <= phs[j].vaddr || phs[j].vaddr + phs[j].memsz <= phs[i].vaddr
  }

  lemma {:induction false} LoadedApart(phs: seq<Ph>, size: nat, i: nat)
    requires Apart(phs, size) && i <= |phs|
    ensures Disjoint(LoadedSegments(phs, size, i))
    decreases |phs| - i
  {
    hide Loads, Granted;
    if i < |phs| {
      LoadedApart(phs, size, i + 1);
      var rest := LoadedSegments(phs, size, i + 1);
      if Loads(phs[i], size) {
        forall j | 0 <= j < |rest|
          ensures phs[i].vaddr + phs[i].memsz <= rest[j].vaddr || rest[j].vaddr + rest[j].memsz <= phs[i].vaddr
        {
          var k := LoadedFrom(phs, size, i + 1, j);
        }
      }
    }
  }

  lemma {:induction false} PermsAre(segs: seq<Segment>, x: nat)
    ensures Perms(segs, x) == Flags(Grant(segs, x, 4), Grant(segs, x, 2), Grant(segs, x, 1)) && InSegments(segs, x) == Grant(segs, x, 0)
  {
    hide Covers;
    if segs != [] {
      var n := |segs| - 1;
      PermsAre(segs[..n], x);
      forall bit ensures Grant(segs, x, bit) == (Grant(segs[..n], x, bit) || (Covers(segs[n], x) && Has(segs[n].flags, bit))) {
        GrantLast(segs, x, bit);
      }
    }
  }

  lemma GrantLast(segs: seq<Segment>, x: nat, bit: nat)
    requires segs != []
    ensures var n := |segs| - 1;
            Grant(segs, x, bit) == (Grant(segs[..n], x, bit) || (Covers(segs[n], x) && Has(segs[n].flags, bit)))
  {
    hide Covers, Has;
    var n := |segs| - 1;
    assert forall j :: 0 <= j < n ==> segs[..n][j] == segs[j];
  }

  lemma GrantFields(phs: seq<Ph>, size: nat, x: nat, bit: nat)
    ensures Grant(LoadedSegments(phs, size, 0), x, bit) == Grants(phs, size, x, bit)
  {
    hide Covers, Loads, Granted, Has, LoadedSegments;
    var segs := LoadedSegments(phs, size, 0);
    if Grant(segs, x, bit) {
      var j :| 0 <= j < |segs| && Covers(segs[j], x) && Has(segs[j].flags, bit);
      var i := LoadedFrom(phs, size, 0, j);
      ReachesCovers(phs[i], x);
      assert Reaches(phs, size, i, x);
    }
    if Grants(phs, size, x, bit) {
      var i :| Reaches(phs, size, i, x) && Has(Granted(phs[i].flags), bit);
      var j := LoadedHas(phs, size, 0, i);
      ReachesCovers(phs[i], x);
    }
  }

  /** What the program headers say about the page of `x`: it is mapped for some header that reaches into it, and it grants what
      any of them grants. */
  lemma PageGrants(phs: seq<Ph>, size: nat, x: nat)
    ensures var segs := LoadedSegments(phs, size, 0);
            && InSegments(segs, x) == Grants(phs, size, x, 0)
            && Perms(segs, x) == Flags(Grants(phs, size, x, 4), Grants(phs, size, x, 2), Grants(phs, size, x, 1))
  {
    hide Grant, Grants, InSegments, Perms, LoadedSegments;
    PermsAre(LoadedSegments(phs, size, 0), x);
    GrantFields(phs, size, x, 0);
    GrantFields(phs, size, x, 1);
    GrantFields(phs, size, x, 2);
    GrantFields(phs, size, x, 4);
  }

  /** No program header is refused. */
  predicate NoneRefused(phs: seq<Ph>, size: nat) {
    forall i :: 0 <= i < |phs| ==> Skipped(phs[i]) || Loads(phs[i], size)
  }

  lemma HeadersRead(f: seq<byte>, eh: Eh, phs: seq<Ph>)
    requires IsElf(f, eh, phs)
    ensures HeadersOk(f, eh.phoff, |phs|, 0) <==> NoneRefused(phs, |f|)
  {
    hide IsElf, ReadSegment, Skipped, Loads;
    if HeadersOk(f, eh.phoff, |phs|, 0) {
      forall i | 0 <= i < |phs| ensures Skipped(phs[i]) || Loads(phs[i], |f|) {
        HeaderReads(f, eh, phs, i);
      }
    }
    if NoneRefused(phs, |f|) {
      forall i | 0 <= i < |phs| ensures ReadSegment(f, eh.phoff + 56 * i) != Bad {
        HeaderReads(f, eh, phs, i);
      }
    }
  }

  // ---------------------------------------------------------------- what loading makes of it

  /** `load_elf` succeeds exactly on an executable file with an accepted header, no refused program header, an entry in an
      executable page, and enough memory. */
  lemma ElfLoadsIff(s: Sys, first: nat, free: seq<nat>, p: Program, eh: Eh, phs: seq<Ph>)
    requires SysOk(s, first, free, multiset{}) && IsElf(p.bytes, eh, phs)
    ensures s.k.l2 < DRAM_PAGES && s.k.l1Mmio < DRAM_PAGES
    ensures var size := |p.bytes|;
            LoadElf(s.heap, s.k, p).1.Some? <==>
              && p.exec && Accepted(eh, size) && NoneRefused(phs, size)
              && Grants(phs, size, eh.entry, 1)
              && |Needs(LoadedSegments(phs, size, 0)) + PageRange(0x1f_c000, 0x20_0000)| <= Capacity(s)
  {
    hide SysOk, LoadElf, Accepted, LoadedSegments, IsElf, ReadSegment, Reaches, Granted, Needs, PageRange, Capacity, HeaderOk, SegmentsFrom, Perms,
         Skipped, Loads, Grants, InSegments, NoneRefused, HeadersOk;
    var f := p.bytes;
    LoadIff(s, first, free, p);
    FileHeader(f, eh, phs);
    PageGrants(phs, |f|, eh.entry);
    HeadersRead(f, eh, phs);
  }

  /** Every address below the stack of a program that was loaded from such a file. */
  lemma ElfPage(mem: Memory, sp: Space, f: seq<byte>, eh: Eh, phs: seq<Ph>, x: nat)
    requires |f| >= 64 && IsElf(f, eh, phs) && LoadedAt(mem, sp.pages, f, Segments(f), x)
    ensures HasPage(sp.pages, x) == Grants(phs, |f|, x, 0)
    ensures PermIn(sp.pages, PageVa(x)) == Flags(Grants(phs, |f|, x, 4), Grants(phs, |f|, x, 2), Grants(phs, |f|, x, 1))
  {
    hide IsElf, SegmentsFrom, LoadedSegments, Grants, HasPage, ByteIn, PermIn, InSegments, Perms, Expect, SegmentOk;
    FileHeader(f, eh, phs);
    PageGrants(phs, |f|, x);
  }

  /** Byte `k` of a loaded segment: the file's at the offset of its header, and zero behind the bytes the file has. */
  lemma ElfByte(mem: Memory, sp: Space, f: seq<byte>, eh: Eh, phs: seq<Ph>, i: nat, k: nat)
    requires IsElf(f, eh, phs) && Apart(phs, |f|) && i < |phs| && Loads(phs[i], |f|) && k < phs[i].memsz
    requires LoadedAt(mem, sp.pages, f, Segments(f), phs[i].vaddr + k)
    ensures ByteIn(mem, sp.pages, phs[i].vaddr + k) == if k < phs[i].filesz then f[phs[i].offset + k] else 0
  {
    hide SegmentsFrom, LoadedSegments, Granted, HasPage, ByteIn, PermIn, InSegments, Perms, Expect, SegmentOk, Disjoint;
    FileHeader(f, eh, phs);
    LoadedApart(phs, |f|, 0);
    var j := LoadedHas(phs, |f|, 0, i);
    var segs, x := Segments(f), phs[i].vaddr + k;
    assert SegmentOk(segs[j], |f|);
    ExpectDisjoint(segs, f, j, x);
    InOne(segs, |f|, j, x);
  }

  /** A program file, in the fields of its headers, after `load_elf`. */
  lemma ElfInPlace(mem: Memory, sp: Space, f: seq<byte>, eh: Eh, phs: seq<Ph>, i: nat, k: nat)
    requires IsLoaded(mem, sp, f) && IsElf(f, eh, phs) && Apart(phs, |f|) && i < |phs| && Loads(phs[i], |f|) && k < phs[i].memsz
    ensures ByteIn(mem, sp.pages, phs[i].vaddr + k) == if k < phs[i].filesz then f[phs[i].offset + k] else 0
  {
    hide Apart, SegmentsFrom, EhBytes, HeaderAt, LoadedAt, ByteIn, HasPage, PermIn, HeaderOk, Perms;
    assert ProgramAt(mem, sp.pages, f, Segments(f), phs[i].vaddr + k);
    ElfByte(mem, sp, f, eh, phs, i, k);
  }

  /** The same after `prepare_program`, with the stack built; the program starts at the entry of its file header. */
  lemma ElfStarts(mem: Memory, l: Loaded, p: Program, argv: seq<seq<byte>>, envp: seq<seq<byte>>, eh: Eh, phs: seq<Ph>, i: nat,
                  k: nat)
    requires Prepared(mem, l, p, argv, envp) && IsElf(p.bytes, eh, phs) && Apart(phs, |p.bytes|)
    requires i < |phs| && Loads(phs[i], |p.bytes|) && k < phs[i].memsz
    ensures l.entry == eh.entry
    ensures ByteIn(mem, l.space.pages, phs[i].vaddr + k) == if k < phs[i].filesz then p.bytes[phs[i].offset + k] else 0
  {
    hide Apart, SegmentsFrom, EhBytes, HeaderAt, LoadedAt, ByteIn, HasPage, PermIn, HeaderOk, Perms;
    FileHeader(p.bytes, eh, phs);
    assert ProgramAt(mem, l.space.pages, p.bytes, Segments(p.bytes), phs[i].vaddr + k);
    ElfByte(mem, l.space, p.bytes, eh, phs, i, k);
  }
}
