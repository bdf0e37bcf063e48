/** What a user space holds, byte by byte, while the kernel fills it. */
module SpaceView {
  import opened Bytes
  import opened PhysMem
  import opened Mmu
  import opened PageAlloc
  import opened Spaces
  import opened SpaceOps
  import opened SpaceCopy

  /** Start of the page of an address. */
  function PageVa(va: nat): nat {
    va - va % 4096
  }

  predicate HasPage(pages: seq<Mapping>, va: nat) {
    Find(pages, PageVa(va), 0) < |pages|
  }

  /** The byte behind `va`, or -1 when its page is not mapped. */
  function ByteIn(mem: Memory, pages: seq<Mapping>, va: nat): int {
    var k := Find(pages, PageVa(va), 0);
    if k < |pages| && pages[k].page < DRAM_PAGES then mem[pages[k].page][va % 4096] else -1
  }

  const NO_PERMISSION := Flags(false, false, false)

  /** The permissions of the page at `va`; none when it is not mapped. */
  function PermIn(pages: seq<Mapping>, va: nat): Flags {
    var k := Find(pages, va, 0);
    if k < |pages| then pages[k].flags else NO_PERMISSION
  }

  // ---------------------------------------------------------------- mapping

  lemma PageVaSelf(va: nat)
    requires va % 4096 == 0
    ensures PageVa(va) == va
  {
  }

  /** What a successful `map_user_page` adds to the view. */
  lemma MappedView(a: Memory, b: Memory, pages: seq<Mapping>, va: nat, flags: Flags, after: seq<Mapping>, x: nat)
    requires ListOk(pages) && DataKept(a, b, pages) && MappedList(pages, va, flags, b, after)
    ensures HasPage(after, x) == (HasPage(pages, x) || PageVa(x) == va)
    ensures ByteIn(b, after, x) == if HasPage(pages, x) then ByteIn(a, pages, x) else if PageVa(x) == va then 0 else -1
    ensures PermIn(after, x) == if x == va then Either(PermIn(pages, va), flags) else PermIn(pages, x)
  {
    hide Find, Zeros;
    var k := Find(pages, va, 0);
    if k < |pages| {
      FindIs(pages, va);
      FindSet(pages, k, after[k], PageVa(x));
      FindSet(pages, k, after[k], x);
      FindSet(pages, k, after[k], va);
      FindOther(pages, va, x);
    } else {
      assert after == pages + [after[|pages|]];
      FindAppend(pages, after[|pages|], PageVa(x));
      FindAppend(pages, after[|pages|], x);
      FindRange(pages, PageVa(x));
      FindRange(pages, x);
      assert Zeros(4096)[x % 4096] == 0 by { ZeroAt(x % 4096); }
    }
  }

  lemma ZeroAt(o: nat)
    requires o < 4096
    ensures Zeros(4096)[o] == 0
  {
  }

  lemma FindRange(pages: seq<Mapping>, va: nat)
    ensures Find(pages, va, 0) <= |pages|
    ensures Find(pages, va, 0) < |pages| ==> pages[Find(pages, va, 0)].va == va
  {
  }

  lemma FindOther(pages: seq<Mapping>, va: nat, x: nat)
    requires Find(pages, va, 0) < |pages|
    ensures x != va ==> Find(pages, x, 0) != Find(pages, va, 0)
  {
    FindIs(pages, va);
    FindRange(pages, x);
  }

  // ---------------------------------------------------------------- copying

  /** `copy_to_space`: page by page; 0, or -1 at the first page that is not there. */
  function CopyTo(mem: Memory, pages: seq<Mapping>, dest: nat, bytes: seq<byte>): (r: (Memory, int))
    decreases |bytes|
  {
    if bytes == [] then (mem, 0)
    else
      var k := Find(pages, PageVa(dest), 0);
      if k == |pages| || pages[k].page >= DRAM_PAGES then (mem, -1)
      else
        var within := dest % 4096;
        var chunk := if |bytes| > 4096 - within then 4096 - within else |bytes|;
        var p := pages[k].page;
        CopyTo(mem[p := Splice(mem[p], within, bytes[..chunk])], pages, dest + chunk, bytes[chunk..])
  }

  /** What one round of the copy loop moves. */
  function ChunkOf(dest: nat, n: nat): nat {
    if n > 4096 - dest % 4096 then 4096 - dest % 4096 else n
  }

  /** One round of the copy loop. */
  lemma ChunkRound(mem: Memory, pages: seq<Mapping>, dest: nat, bytes: seq<byte>)
    requires bytes != []
    ensures var k := Find(pages, PageVa(dest), 0);
            var chunk := ChunkOf(dest, |bytes|);
            && 0 < chunk <= |bytes| && dest % 4096 + chunk <= 4096
            && (k == |pages| || pages[k].page >= DRAM_PAGES ==> CopyTo(mem, pages, dest, bytes) == (mem, -1))
            && (k < |pages| && pages[k].page < DRAM_PAGES ==>
                  var p := pages[k].page;
                  CopyTo(mem, pages, dest, bytes)
                  == CopyTo(mem[p := Splice(mem[p], dest % 4096, bytes[..chunk])], pages, dest + chunk, bytes[chunk..]))
  {
    hide Find, Splice, PageVa;
  }

  /** One chunk as seen in the view. */
  lemma ChunkView(mem: Memory, pages: seq<Mapping>, dest: nat, k: nat, t: seq<byte>, x: nat)
    requires k == Find(pages, PageVa(dest), 0) < |pages| && pages[k].page < DRAM_PAGES && dest % 4096 + |t| <= 4096
    requires forall j :: 0 <= j < |pages| && j != k ==> pages[j].page != pages[k].page
    ensures ByteIn(mem[pages[k].page := Splice(mem[pages[k].page], dest % 4096, t)], pages, x)
         == if dest <= x < dest + |t| then t[x - dest] else ByteIn(mem, pages, x)
  {
    hide Find, PageVa, Splice;
    var p := pages[k].page;
    FindRange(pages, PageVa(x));
    FindRange(pages, PageVa(dest));
    SamePageIff(dest, x, |t|);
    PageDiff(dest, x);
    SplicePoint(mem[p], dest % 4096, t, x % 4096);
    var j := Find(pages, PageVa(x), 0);
    if j < |pages| && j != k {
      assert pages[j].page != p;
    }
  }

  lemma PageDiff(dest: nat, x: nat)
    ensures PageVa(x) == PageVa(dest) ==> x - dest == x % 4096 - dest % 4096
    ensures x % 4096 < 4096 && dest % 4096 < 4096
  {
  }

  lemma SplicePoint(s: Page, o: nat, t: seq<byte>, k: nat)
    requires o + |t| <= 4096 && k < 4096
    ensures Splice(s, o, t)[k] == if o <= k < o + |t| then t[k - o] else s[k]
  {
  }

  /** A run of bytes inside one page. */
  lemma SamePageIff(dest: nat, x: nat, n: nat)
    requires dest % 4096 + n <= 4096
    ensures dest <= x < dest + n ==> PageVa(x) == PageVa(dest)
    ensures PageVa(x) == PageVa(dest) ==> (dest <= x < dest + n <==> dest % 4096 <= x % 4096 < dest % 4096 + n)
  {
  }

  /** Every page behind `[lo, hi)` is mapped. */
  ghost predicate Covered(pages: seq<Mapping>, lo: nat, hi: nat) {
    forall x :: lo <= x < hi ==> HasPage(pages, x)
  }

  /** `copy_to_space` succeeds exactly when every page is there; then the bytes are in place and nothing else moved. */
  lemma {:induction false} CopyToView(mem: Memory, pages: seq<Mapping>, dest: nat, bytes: seq<byte>, x: nat)
    requires forall j :: 0 <= j < |pages| ==> pages[j].page < DRAM_PAGES
    requires forall i, j :: 0 <= i < |pages| && 0 <= j < |pages| && i != j ==> pages[i].page != pages[j].page
    ensures var (m, r) := CopyTo(mem, pages, dest, bytes);
            && (r >= 0 <==> Covered(pages, dest, dest + |bytes|))
            && (r >= 0 ==> r == 0 && ByteIn(m, pages, x) == if dest <= x < dest + |bytes| then bytes[x - dest] else ByteIn(mem, pages, x))
    decreases |bytes|
  {
    hide Find, ByteIn, Covered, PageVa, Splice, CopyTo, ChunkOf;
    var k := Find(pages, PageVa(dest), 0);
    FindRange(pages, PageVa(dest));
    if bytes == [] {
      NothingCovered(pages, dest);
      CopyNothing(mem, pages, dest);
    } else {
      ChunkRound(mem, pages, dest, bytes);
      if k == |pages| {
        NotCovered(pages, dest, |bytes|);
      } else {
        var chunk := ChunkOf(dest, |bytes|);
        var p := pages[k].page;
        var m := mem[p := Splice(mem[p], dest % 4096, bytes[..chunk])];
        ChunkView(mem, pages, dest, k, bytes[..chunk], x);
        CopyToView(m, pages, dest + chunk, bytes[chunk..], x);
        ChunkCovered(pages, dest, chunk, |bytes|);
      }
    }
  }

  lemma CopyNothing(mem: Memory, pages: seq<Mapping>, dest: nat)
    ensures CopyTo(mem, pages, dest, []) == (mem, 0)
  {
  }

  lemma NothingCovered(pages: seq<Mapping>, dest: nat)
    ensures Covered(pages, dest, dest)
  {
  }

  lemma NotCovered(pages: seq<Mapping>, dest: nat, n: nat)
    requires !HasPage(pages, dest) && n > 0
    ensures !Covered(pages, dest, dest + n)
  {
  }

  lemma ChunkCovered(pages: seq<Mapping>, dest: nat, chunk: nat, n: nat)
    requires HasPage(pages, dest) && dest % 4096 + chunk <= 4096 && chunk <= n
    ensures Covered(pages, dest, dest + n) == Covered(pages, dest + chunk, dest + n)
  {
    hide Find;
    forall x | dest <= x < dest + chunk ensures HasPage(pages, x) {
      SamePageIff(dest, x, chunk);
    }
  }

  // ---------------------------------------------------------------- a space under construction

  /** Beside the finished spaces of `s`, none of whose pages changed, the space `sp` is being built. */
  ghost predicate Built(s: Sys, first: nat, h: Heap, sp: Space) {
    SomeFree(Sys(h, s.k, s.spaces + [sp]), first, multiset{}) && Kept(s.heap.mem, h.mem, s.spaces) && h.end == s.heap.end
  }

  lemma BuiltSpace(s: Sys, first: nat, h: Heap, sp: Space)
    requires Built(s, first, h, sp)
    ensures ListOk(sp.pages) && InMemory(sp) && TablesApart(sp, s.k.l1Dram)
    ensures forall i, j :: 0 <= i < |sp.pages| && 0 <= j < |sp.pages| && i != j ==> sp.pages[i].page != sp.pages[j].page
  {
    hide SysOk, Kept, AllUsed;
    var t := Sys(h, s.k, s.spaces + [sp]);
    var free: seq<nat> :| SysOk(t, first, free, multiset{});
    var n := |s.spaces|;
    assert t.spaces[n] == sp;
    SpaceListed(t, first, free, multiset{}, n);
    forall i, j | 0 <= i < |sp.pages| && 0 <= j < |sp.pages| && i != j ensures sp.pages[i].page != sp.pages[j].page {
      WriteOwn(t, first, free, n, j, Zeros(4096));
    }
  }

  lemma BuildMap(s: Sys, first: nat, h: Heap, sp: Space, va: int, flags: Flags)
    requires Built(s, first, h, sp)
    ensures InMemory(sp)
    ensures var (g, d, status) := Map(h, sp, va, flags);
            && Built(s, first, g, d) && DataKept(h.mem, g.mem, sp.pages)
            && if status < 0 then d == sp else va >= 0 && MappedList(sp.pages, va, flags, g.mem, d.pages)
  {
    hide SysOk, Kept, AllUsed, Map, DataKept, MappedList, ListOk;
    BuiltSpace(s, first, h, sp);
    var t := Sys(h, s.k, s.spaces + [sp]);
    var free: seq<nat> :| SysOk(t, first, free, multiset{});
    var n := |s.spaces|;
    assert t.spaces[n] == sp;
    MapOk(t, first, free, n, va, flags);
    MapEnd(h, sp, va, flags);
    var (g, d, status) := Map(h, sp, va, flags);
    LastOthers(t.spaces, n, d);
    assert t.spaces[..n] == s.spaces;
    KeptTrans(s.heap.mem, h.mem, g.mem, s.spaces);
    if status >= 0 {
      MappedVa(sp.pages, va, flags, g.mem, d.pages);
    }
  }

  lemma MapEnd(h: Heap, sp: Space, va: int, flags: Flags)
    requires InMemory(sp)
    ensures Map(h, sp, va, flags).0.end == h.end
  {
  }

  lemma MappedVa(pages: seq<Mapping>, va: int, flags: Flags, mem: Memory, after: seq<Mapping>)
    requires MappedList(pages, va, flags, mem, after)
    ensures Mappable(va)
  {
  }

  lemma {:induction false} CopyToOk(s: Sys, first: nat, free: seq<nat>, i: nat, dest: nat, bytes: seq<byte>)
    requires SysOk(s, first, free, multiset{}) && i < |s.spaces|
    ensures var m := CopyTo(s.heap.mem, s.spaces[i].pages, dest, bytes).0;
            SysOk(s.(heap := s.heap.(mem := m)), first, free, multiset{}) && Kept(s.heap.mem, m, Others(s.spaces, i))
    decreases |bytes|
  {
    hide SysOk, Kept, AllUsed, Find;
    var pages := s.spaces[i].pages;
    var k := Find(pages, PageVa(dest), 0);
    FindRange(pages, PageVa(dest));
    KeptSame(s.heap.mem, Others(s.spaces, i));
    assert s.(heap := s.heap.(mem := s.heap.mem)) == s;
    if bytes != [] && k < |pages| && pages[k].page < DRAM_PAGES {
      var within := dest % 4096;
      var chunk := if |bytes| > 4096 - within then 4096 - within else |bytes|;
      var p := pages[k].page;
      var q := Splice(s.heap.mem[p], within, bytes[..chunk]);
      WriteOwn(s, first, free, i, k, q);
      var t := s.(heap := WritePage(s.heap, p, q));
      CopyToOk(t, first, free, i, dest + chunk, bytes[chunk..]);
      KeptTrans(s.heap.mem, t.heap.mem, CopyTo(t.heap.mem, pages, dest + chunk, bytes[chunk..]).0, Others(s.spaces, i));
    }
  }

  lemma BuildCopy(s: Sys, first: nat, h: Heap, sp: Space, dest: nat, bytes: seq<byte>)
    requires Built(s, first, h, sp)
    ensures Built(s, first, h.(mem := CopyTo(h.mem, sp.pages, dest, bytes).0), sp)
  {
    hide SysOk, Kept, AllUsed, CopyTo;
    var t := Sys(h, s.k, s.spaces + [sp]);
    var free: seq<nat> :| SysOk(t, first, free, multiset{});
    var n := |s.spaces|;
    assert t.spaces[n] == sp;
    CopyToOk(t, first, free, n, dest, bytes);
    var m := CopyTo(h.mem, sp.pages, dest, bytes).0;
    LastOthers(t.spaces, n, sp);
    assert t.spaces[..n] == s.spaces;
    Witness(Sys(h.(mem := m), s.k, t.spaces), first, free, multiset{});
    KeptTrans(s.heap.mem, h.mem, m, s.spaces);
  }

  /** Destroying it leaves the finished spaces and as many free pages as before it was begun. */
  lemma BuildDestroy(s: Sys, first: nat, h: Heap, sp: Space)
    requires Built(s, first, h, sp) && SomeFree(s, first, multiset{})
    ensures InMemory(sp)
    ensures var g := Destroy(h, sp);
            && SomeFree(s.(heap := g), first, multiset{}) && Kept(s.heap.mem, g.mem, s.spaces)
            && g.end == s.heap.end && g.totalFree == s.heap.totalFree
  {
    hide SysOk, Kept, AllUsed, Destroy;
    BuiltSpace(s, first, h, sp);
    var t := Sys(h, s.k, s.spaces + [sp]);
    var free: seq<nat> :| SysOk(t, first, free, multiset{});
    var n := |s.spaces|;
    assert t.spaces[n] == sp;
    DestroyOk(t, first, free, n);
    LastOthers(t.spaces, n, sp);
    assert t.spaces[..n] == s.spaces;
    KeptTrans(s.heap.mem, h.mem, Destroy(h, sp).mem, s.spaces);
    DestroyEnd(h, sp);
    SameTotal(s, s.(heap := Destroy(h, sp)), first);
  }

  lemma DestroyEnd(h: Heap, sp: Space)
    requires forall j :: 0 <= j < |sp.pages| ==> sp.pages[j].page < DRAM_PAGES
    ensures Destroy(h, sp).end == h.end
  {
    hide FreePage;
    FreePagesEnd(h, sp.pages);
    var g := FreePages(h, sp.pages);
    FreeEnd(g, sp.l0);
    var a := if sp.l0 < DRAM_PAGES then FreePage(g, sp.l0) else g;
    FreeEnd(a, sp.l1);
    var b := if sp.l1 < DRAM_PAGES then FreePage(a, sp.l1) else a;
    FreeEnd(b, sp.root);
  }

  lemma FreeEnd(h: Heap, p: int)
    ensures p < DRAM_PAGES ==> FreePage(h, p).end == h.end
  {
  }

  lemma {:induction false} FreePagesEnd(h: Heap, pages: seq<Mapping>)
    requires forall j :: 0 <= j < |pages| ==> pages[j].page < DRAM_PAGES
    ensures FreePages(h, pages).end == h.end
    decreases |pages|
  {
    hide FreePage;
    if pages != [] {
      FreeEnd(h, pages[0].page);
      FreePagesEnd(FreePage(h, pages[0].page), pages[1..]);
    }
  }
}
