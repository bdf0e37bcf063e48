/** The initial stack of a program: argument and environment strings, then argc and the two pointer vectors. Decoding it the
    way the start-up code does gives back exactly what was passed. */
module InitStack {
  import opened Bytes
  import opened DirTree
  import opened PhysMem
  import opened Mmu
  import opened Spaces
  import opened SpaceView
  import opened ElfLoad

  const ARG_MAX := 16
  const ENV_MAX := 8
  const STRINGS_MAX := 2048

  /** The four stack pages. */
  const STACK_SIZE := 0x4000

  type Stack = s: seq<byte> | |s| == STACK_SIZE witness Zeros(STACK_SIZE)

  function At(va: int): int {
    va - USER_STACK_BOTTOM
  }

  /** Bytes a list of strings takes, terminators included. */
  function StringBytes(strs: seq<seq<byte>>): nat {
    if strs == [] then 0 else StringBytes(strs[..|strs| - 1]) + |strs[|strs| - 1]| + 1
  }

  /** What the two counting loops accept. */
  predicate Fits(argv: seq<seq<byte>>, envp: seq<seq<byte>>) {
    |argv| <= ARG_MAX && |envp| <= ENV_MAX && StringBytes(argv) + StringBytes(envp) <= STRINGS_MAX
  }

  /** Copies the strings downwards from `top`, last one first: the stack, the lowest address used, and where each lies. */
  function PushStrings(st: Stack, top: nat, strs: seq<seq<byte>>): (r: (Stack, nat, seq<u64>))
    requires USER_STACK_BOTTOM + StringBytes(strs) <= top <= USER_STACK_TOP
    ensures |r.2| == |strs| && r.1 == top - StringBytes(strs)
    decreases |strs|
  {
    if strs == [] then (st, top, [])
    else
      var n := |strs| - 1;
      var a := top - |strs[n]| - 1;
      var rest := PushStrings(Splice(st, At(a), strs[n] + [0]), a, strs[..n]);
      (rest.0, rest.1, rest.2 + [a])
  }

  function WordsBytes(ws: seq<u64>): (r: seq<byte>)
    ensures |r| == 8 * |ws|
  {
    if ws == [] then [] else WordsBytes(ws[..|ws| - 1]) + U64Bytes(ws[|ws| - 1])
  }

  /** argc, the argument pointers, zero, the environment pointers, zero. */
  function Metadata(argv: seq<u64>, envp: seq<u64>): seq<u64>
    requires |argv| <= ARG_MAX
  {
    [|argv|] + argv + [0] + envp + [0]
  }

  /** Where the pointer block starts: below the strings, on a multiple of 16. */
  function BlockStart(top: nat, n: nat): int {
    (top - 8 * n) - (top - 8 * n) % 16
  }

  /** `build_initial_stack` on the stack pages: the stack and its pointer. */
  function Build(st: Stack, argv: seq<seq<byte>>, envp: seq<seq<byte>>): (r: (Stack, nat))
    requires Fits(argv, envp)
    ensures USER_STACK_BOTTOM < r.1 < USER_STACK_TOP && r.1 % 16 == 0
  {
    var (s1, t1, envAt) := PushStrings(st, USER_STACK_TOP, envp);
    var (s2, t2, argAt) := PushStrings(s1, t1, argv);
    var meta := Metadata(argAt, envAt);
    var sp := BlockStart(t2, |meta|);
    (Splice(s2, At(sp), WordsBytes(meta)), sp)
  }

  // ---------------------------------------------------------------- decoding

  function WordAt(st: Stack, va: int): u64 {
    if 0 <= At(va) && At(va) + 8 <= STACK_SIZE then U64At(st, At(va)) else 0
  }

  /** The C string at an address. */
  function StringAt(st: Stack, va: int): seq<byte> {
    if 0 <= At(va) <= STACK_SIZE then CString(st[At(va)..]) else []
  }

  /** The strings of `n` pointers from `va` on. */
  function StringsAt(st: Stack, va: int, n: nat): (r: seq<seq<byte>>)
    ensures |r| == n
  {
    if n == 0 then [] else StringsAt(st, va, n - 1) + [StringAt(st, WordAt(st, va + 8 * (n - 1)))]
  }

  /** How many pointers precede the first zero at `va`, looking at no more than `limit`. */
  function VectorLength(st: Stack, va: int, limit: nat): nat
    decreases limit
  {
    if limit == 0 || WordAt(st, va) == 0 then 0 else 1 + VectorLength(st, va + 8, limit - 1)
  }

  datatype Arguments = Arguments(argc: nat, argv: seq<seq<byte>>, envp: seq<seq<byte>>)

  /** What `_start` finds at its stack pointer: argc, then `argv`, then past its terminator `envp` up to its own. */
  function Decode(st: Stack, sp: nat): Arguments {
    var argc := WordAt(st, sp);
    var env := sp + 8 + 8 * (argc + 1);
    Arguments(argc, StringsAt(st, sp + 8, argc), StringsAt(st, env, VectorLength(st, env, STACK_SIZE)))
  }

  // ---------------------------------------------------------------- strings

  /** A string with its terminator at `a`, between `lo` and `hi`. */
  predicate Stored(st: Stack, lo: nat, hi: nat, str: seq<byte>, a: nat) {
    && USER_STACK_BOTTOM <= lo <= a && a + |str| + 1 <= hi <= USER_STACK_TOP
    && st[At(a)..At(a) + |str| + 1] == str + [0]
  }

  /** Where the strings went: each with its terminator inside the pushed range. */
  predicate Pushed(st: Stack, lo: nat, hi: nat, strs: seq<seq<byte>>, at: seq<u64>) {
    |at| == |strs| && forall i :: 0 <= i < |strs| ==> Stored(st, lo, hi, strs[i], at[i])
  }

  /** Pushing strings stores them below `top` and keeps everything from there up. */
  lemma {:induction false} PushStringsOk(st: Stack, top: nat, strs: seq<seq<byte>>)
    requires USER_STACK_BOTTOM + StringBytes(strs) <= top <= USER_STACK_TOP
    ensures var (s, lo, at) := PushStrings(st, top, strs);
            Pushed(s, lo, top, strs, at) && s[At(top)..] == st[At(top)..]
    decreases |strs|
  {
    hide Splice, Stored;
    if strs != [] {
      var n := |strs| - 1;
      var a := top - |strs[n]| - 1;
      var u := Splice(st, At(a), strs[n] + [0]);
      PushStringsOk(u, a, strs[..n]);
      var (s, lo, at) := PushStrings(u, a, strs[..n]);
      SpliceParts(st, At(a), strs[n] + [0]);
      TailParts(s, u, At(a), |strs[n]| + 1);
      assert Stored(s, lo, top, strs[n], a) by { StoredIs(s, lo, top, strs[n], a); }
      forall i | 0 <= i < n ensures Stored(s, lo, top, strs[i], at[i]) {
        assert Stored(s, lo, a, strs[..n][i], at[i]);
        StoredWider(s, lo, a, top, strs[i], at[i]);
      }
    }
  }

  lemma StoredIs(st: Stack, lo: nat, hi: nat, str: seq<byte>, a: nat)
    requires USER_STACK_BOTTOM <= lo <= a && a + |str| + 1 <= hi <= USER_STACK_TOP
    requires st[At(a)..At(a) + |str| + 1] == str + [0]
    ensures Stored(st, lo, hi, str, a)
  {
  }

  lemma StoredWider(st: Stack, lo: nat, hi: nat, top: nat, str: seq<byte>, a: nat)
    requires Stored(st, lo, hi, str, a) && hi <= top <= USER_STACK_TOP
    ensures Stored(st, lo, top, str, a)
  {
  }

  /** Writing `t` puts it there and leaves what follows. */
  lemma SpliceParts(s: seq<byte>, o: nat, t: seq<byte>)
    requires o + |t| <= |s|
    ensures Splice(s, o, t)[o..o + |t|] == t && Splice(s, o, t)[o + |t|..] == s[o + |t|..]
    ensures Splice(s, o, t)[..o] == s[..o]
  {
  }

  /** Equal tails have equal parts. */
  lemma TailParts(a: seq<byte>, b: seq<byte>, o: nat, n: nat)
    requires |a| == |b| && o + n <= |a| && a[o..] == b[o..]
    ensures a[o..o + n] == b[o..o + n] && a[o + n..] == b[o + n..]
  {
    assert a[o..][..n] == a[o..o + n] && b[o..][..n] == b[o..o + n];
    assert a[o..][n..] == a[o + n..] && b[o..][n..] == b[o + n..];
  }

  /** What is stored from `lo` up survives writes below `lo`. */
  lemma StoredKept(s: Stack, t: Stack, lo: nat, hi: nat, str: seq<byte>, a: nat)
    requires Stored(s, lo, hi, str, a) && t[At(lo)..] == s[At(lo)..]
    ensures Stored(t, lo, hi, str, a)
  {
    var o, n := At(a) - At(lo), |str| + 1;
    assert s[At(lo)..][o..o + n] == s[At(a)..At(a) + n];
    assert t[At(lo)..][o..o + n] == t[At(a)..At(a) + n];
  }

  lemma PushedKept(s: Stack, t: Stack, lo: nat, hi: nat, strs: seq<seq<byte>>, at: seq<u64>)
    requires Pushed(s, lo, hi, strs, at) && USER_STACK_BOTTOM <= lo <= USER_STACK_TOP && t[At(lo)..] == s[At(lo)..]
    ensures Pushed(t, lo, hi, strs, at)
  {
    hide Stored;
    forall i | 0 <= i < |strs| ensures Stored(t, lo, hi, strs[i], at[i]) {
      StoredKept(s, t, lo, hi, strs[i], at[i]);
    }
  }

  lemma StoredReads(st: Stack, lo: nat, hi: nat, str: seq<byte>, a: nat)
    requires Stored(st, lo, hi, str, a) && 0 !in str
    ensures StringAt(st, a) == str
  {
    var n := |str| + 1;
    var tail := st[At(a)..];
    assert tail[..n] == str + [0];
    assert tail == str + ([0] + tail[n..]) by {
      assert tail == tail[..n] + tail[n..];
    }
    CStringOf(str, [0] + tail[n..]);
  }

  // ---------------------------------------------------------------- the pointer block

  lemma {:induction false} WordsBytesAt(ws: seq<u64>, i: nat)
    requires i < |ws|
    ensures WordsBytes(ws)[8 * i..8 * i + 8] == U64Bytes(ws[i])
  {
    hide U64Bytes;
    var n := |ws| - 1;
    var a, b := WordsBytes(ws[..n]), U64Bytes(ws[n]);
    assert WordsBytes(ws) == a + b;
    if i < n {
      WordsBytesAt(ws[..n], i);
      assert (a + b)[8 * i..8 * i + 8] == a[8 * i..8 * i + 8];
      assert ws[..n][i] == ws[i];
    } else {
      assert (a + b)[8 * n..8 * n + 8] == b;
    }
  }

  /** Word `i` of a block of words written at `o`. */
  lemma WordRead(st: Stack, o: nat, ws: seq<u64>, i: nat)
    requires o + 8 * |ws| <= STACK_SIZE && i < |ws|
    ensures U64At(Splice(st, o, WordsBytes(ws)), o + 8 * i) == ws[i]
  {
    hide U64Bytes, U64At, Splice;
    var b := WordsBytes(ws);
    hide WordsBytes;
    var t := Splice(st, o, b);
    SpliceParts(st, o, b);
    assert b[8 * i..8 * i + 8] == U64Bytes(ws[i]) by { WordsBytesAt(ws, i); }
    PartAt(t, o, b, 8 * i);
    WordIs(t, o + 8 * i, ws[i]);
  }

  lemma PartAt(t: seq<byte>, o: nat, b: seq<byte>, k: nat)
    requires o + |b| <= |t| && t[o..o + |b|] == b && k + 8 <= |b|
    ensures t[o + k..o + k + 8] == b[k..k + 8]
  {
    SubSlice(t, o, |b|, k, k + 8);
  }

  lemma WordIs(t: Stack, p: nat, v: u64)
    requires p + 8 <= STACK_SIZE && t[p..p + 8] == U64Bytes(v)
    ensures U64At(t, p) == v
  {
    hide U64Bytes, U64At, Splice;
    var u := Splice(t, p, U64Bytes(v));
    SpliceParts(t, p, U64Bytes(v));
    U64RoundTrip(t, p, v);
    U64Same(t, u, p);
  }

  lemma U64Same(a: Stack, b: Stack, p: nat)
    requires p + 8 <= STACK_SIZE && a[p..p + 8] == b[p..p + 8]
    ensures U64At(a, p) == U64At(b, p)
  {
    assert a[p..p + 8][..4] == a[p..p + 4] && b[p..p + 8][..4] == b[p..p + 4];
    assert a[p..p + 8][4..] == a[p + 4..p + 8] && b[p..p + 8][4..] == b[p + 4..p + 8];
    U32Local(a, p, b, p);
    U32Local(a, p + 4, b, p + 4);
  }

  /** A vector of pointers in the stack: the words from `va` on, and a zero behind them. */
  predicate VectorAt(st: Stack, va: nat, at: seq<u64>) {
    (forall i :: 0 <= i < |at| ==> WordAt(st, va + 8 * i) == at[i]) && WordAt(st, va + 8 * |at|) == 0
  }

  lemma {:induction false} StringsRead(st: Stack, va: nat, lo: nat, hi: nat, strs: seq<seq<byte>>, at: seq<u64>)
    requires |at| == |strs| && Pushed(st, lo, hi, strs, at) && forall i :: 0 <= i < |at| ==> WordAt(st, va + 8 * i) == at[i]
    requires forall i :: 0 <= i < |strs| ==> 0 !in strs[i]
    ensures StringsAt(st, va, |strs|) == strs
  {
    hide Stored, WordAt, StringAt;
    if strs != [] {
      var n := |strs| - 1;
      StringsRead(st, va, lo, hi, strs[..n], at[..n]);
      StoredReads(st, lo, hi, strs[n], at[n]);
      assert WordAt(st, va + 8 * n) == at[n];
      assert strs == strs[..n] + [strs[n]];
    }
  }

  lemma {:induction false} LengthRead(st: Stack, va: nat, at: seq<u64>, limit: nat)
    requires VectorAt(st, va, at) && (forall i :: 0 <= i < |at| ==> at[i] != 0) && |at| <= limit
    ensures VectorLength(st, va, limit) == |at|
    decreases |at|
  {
    hide WordAt;
    if at != [] {
      assert WordAt(st, va + 8 * 0) == at[0];
      forall i | 0 <= i < |at| - 1 ensures WordAt(st, va + 8 + 8 * i) == at[1..][i] {
        assert WordAt(st, va + 8 * (i + 1)) == at[i + 1];
      }
      assert va + 8 + 8 * (|at| - 1) == va + 8 * |at|;
      LengthRead(st, va + 8, at[1..], limit - 1);
    }
  }

  /** The words of the pointer block, one by one. */
  lemma MetaWord(st: Stack, sp: nat, argAt: seq<u64>, envAt: seq<u64>, i: nat)
    requires |argAt| <= ARG_MAX && USER_STACK_BOTTOM <= sp && i < |Metadata(argAt, envAt)|
    requires sp + 8 * |Metadata(argAt, envAt)| <= USER_STACK_TOP
    ensures WordAt(Splice(st, At(sp), WordsBytes(Metadata(argAt, envAt))), sp + 8 * i) == Metadata(argAt, envAt)[i]
  {
    hide Splice, WordsBytes;
    WordRead(st, At(sp), Metadata(argAt, envAt), i);
  }

  lemma Vectors(st: Stack, sp: nat, argAt: seq<u64>, envAt: seq<u64>)
    requires |argAt| <= ARG_MAX && USER_STACK_BOTTOM <= sp
    requires sp + 8 * |Metadata(argAt, envAt)| <= USER_STACK_TOP
    ensures var t := Splice(st, At(sp), WordsBytes(Metadata(argAt, envAt)));
            && WordAt(t, sp) == |argAt| && VectorAt(t, sp + 8, argAt) && VectorAt(t, sp + 8 + 8 * (|argAt| + 1), envAt)
  {
    hide Splice, WordsBytes, WordAt;
    var meta := Metadata(argAt, envAt);
    var t := Splice(st, At(sp), WordsBytes(meta));
    var n, m := |argAt|, |envAt|;
    MetaWord(st, sp, argAt, envAt, 0);
    forall i | 0 <= i < n ensures WordAt(t, sp + 8 + 8 * i) == argAt[i] {
      MetaWord(st, sp, argAt, envAt, 1 + i);
      assert sp + 8 * (1 + i) == sp + 8 + 8 * i;
      assert meta[1 + i] == argAt[i];
    }
    MetaWord(st, sp, argAt, envAt, 1 + n);
    assert sp + 8 * (1 + n) == sp + 8 + 8 * n;
    forall i | 0 <= i < m ensures WordAt(t, sp + 8 + 8 * (n + 1) + 8 * i) == envAt[i] {
      MetaWord(st, sp, argAt, envAt, 2 + n + i);
      assert sp + 8 * (2 + n + i) == sp + 8 + 8 * (n + 1) + 8 * i;
      assert meta[2 + n + i] == envAt[i];
    }
    MetaWord(st, sp, argAt, envAt, 2 + n + m);
    assert sp + 8 * (2 + n + m) == sp + 8 + 8 * (n + 1) + 8 * m;
    assert meta[2 + n + m] == 0;
  }

  lemma BlockBelow(top: nat, n: nat)
    requires n <= 27 && USER_STACK_BOTTOM + 300 <= top <= USER_STACK_TOP
    ensures USER_STACK_BOTTOM < BlockStart(top, n) && BlockStart(top, n) + 8 * n <= top && BlockStart(top, n) % 16 == 0
  {
  }

  /** The initial stack round trip: `_start` finds the same count, the same arguments and the same environment, whatever was
      on the stack before; the strings lie above the pointer block. */
  lemma StackRoundTrip(st: Stack, argv: seq<seq<byte>>, envp: seq<seq<byte>>)
    requires Fits(argv, envp) && (forall i :: 0 <= i < |argv| ==> 0 !in argv[i]) && forall i :: 0 <= i < |envp| ==> 0 !in envp[i]
    ensures var (t, sp) := Build(st, argv, envp); Decode(t, sp) == Arguments(|argv|, argv, envp)
  {
    hide Stored, Pushed, WordAt, StringAt, WordsBytes, Splice, StringBytes, PushStrings, Decode, VectorAt;
    var (s1, t1, envAt) := PushStrings(st, USER_STACK_TOP, envp);
    var (s2, t2, argAt) := PushStrings(s1, t1, argv);
    PushStringsOk(st, USER_STACK_TOP, envp);
    PushStringsOk(s1, t1, argv);
    var meta := Metadata(argAt, envAt);
    BlockBelow(t2, |meta|);
    var sp := BlockStart(t2, |meta|);
    var t := Splice(s2, At(sp), WordsBytes(meta));
    Vectors(s2, sp, argAt, envAt);
    BlockKept(s2, sp, meta, t2);
    PushedKept(s2, t, t2, t1, argv, argAt);
    TailKept(s1, s2, t, t2, t1);
    PushedKept(s1, t, t1, USER_STACK_TOP, envp, envAt);
    DecodeIs(t, sp, t2, t1, argv, envp, argAt, envAt);
  }

  lemma DecodeIs(t: Stack, sp: nat, lo: nat, mid: nat, argv: seq<seq<byte>>, envp: seq<seq<byte>>, argAt: seq<u64>, envAt: seq<u64>)
    requires Pushed(t, lo, mid, argv, argAt) && Pushed(t, mid, USER_STACK_TOP, envp, envAt) && |envp| <= ENV_MAX
    requires (forall i :: 0 <= i < |argv| ==> 0 !in argv[i]) && forall i :: 0 <= i < |envp| ==> 0 !in envp[i]
    requires WordAt(t, sp) == |argAt| && VectorAt(t, sp + 8, argAt) && VectorAt(t, sp + 8 + 8 * (|argAt| + 1), envAt)
    ensures Decode(t, sp) == Arguments(|argv|, argv, envp)
  {
    hide Stored, WordAt, StringAt;
    StringsRead(t, sp + 8, lo, mid, argv, argAt);
    var env := sp + 8 + 8 * (|argAt| + 1);
    StringsRead(t, env, mid, USER_STACK_TOP, envp, envAt);
    NonZero(t, mid, USER_STACK_TOP, envp, envAt);
    LengthRead(t, env, envAt, STACK_SIZE);
  }

  lemma BlockKept(s: Stack, sp: nat, meta: seq<u64>, top: nat)
    requires USER_STACK_BOTTOM <= sp && sp + 8 * |meta| <= top <= USER_STACK_TOP
    ensures Splice(s, At(sp), WordsBytes(meta))[At(top)..] == s[At(top)..]
  {
    hide WordsBytes, Splice;
    var b := WordsBytes(meta);
    SpliceParts(s, At(sp), b);
    TailParts(Splice(s, At(sp), b), s, At(sp) + |b|, top - sp - |b|);
  }

  /** Two writes below `hi` leave what is above it. */
  lemma TailKept(a: Stack, b: Stack, c: Stack, lo: nat, hi: nat)
    requires USER_STACK_BOTTOM <= lo <= hi <= USER_STACK_TOP && b[At(hi)..] == a[At(hi)..] && c[At(lo)..] == b[At(lo)..]
    ensures c[At(hi)..] == a[At(hi)..]
  {
    var n := hi - lo;
    assert c[At(lo)..][n..] == c[At(hi)..] && b[At(lo)..][n..] == b[At(hi)..];
  }

  lemma NonZero(st: Stack, lo: nat, hi: nat, strs: seq<seq<byte>>, at: seq<u64>)
    requires Pushed(st, lo, hi, strs, at)
    ensures forall i :: 0 <= i < |at| ==> at[i] != 0
  {
    forall i | 0 <= i < |at| ensures at[i] != 0 {
      assert Stored(st, lo, hi, strs[i], at[i]);
    }
  }

  // ---------------------------------------------------------------- through the page mappings

  function ToByte(b: int): byte {
    if 0 <= b < 256 then b else 0
  }

  function OneByte(mem: Memory, pages: seq<Mapping>, va: nat): byte {
    ToByte(ByteIn(mem, pages, va))
  }

  function BytesFrom(mem: Memory, pages: seq<Mapping>, va: nat, n: nat): (r: seq<byte>)
    ensures |r| == n && forall i :: 0 <= i < n ==> r[i] == ToByte(ByteIn(mem, pages, va + i))
  {
    if n == 0 then [] else BytesFrom(mem, pages, va, n - 1) + [OneByte(mem, pages, va + n - 1)]
  }

  /** The stack pages of a space. */
  function StackView(mem: Memory, pages: seq<Mapping>): (st: Stack)
    ensures forall i :: 0 <= i < STACK_SIZE ==> st[i] == ToByte(ByteIn(mem, pages, USER_STACK_BOTTOM + i))
  {
    BytesFrom(mem, pages, USER_STACK_BOTTOM, STACK_SIZE)
  }

  /** Pages distinct, all in DRAM, the whole stack mapped. */
  ghost predicate Stacked(pages: seq<Mapping>) {
    && (forall j :: 0 <= j < |pages| ==> pages[j].page < DRAM_PAGES)
    && (forall i, j :: 0 <= i < |pages| && 0 <= j < |pages| && i != j ==> pages[i].page != pages[j].page)
    && Covered(pages, USER_STACK_BOTTOM, USER_STACK_TOP)
  }

  /** Nothing outside the stack changes. */
  ghost predicate BelowKept(a: Memory, b: Memory, pages: seq<Mapping>) {
    forall x: nat :: !(USER_STACK_BOTTOM <= x < USER_STACK_TOP) ==> ByteIn(b, pages, x) == ByteIn(a, pages, x)
  }

  /** A copy into the stack always succeeds. */
  lemma CopyStack(mem: Memory, pages: seq<Mapping>, dest: nat, bytes: seq<byte>)
    requires Stacked(pages) && USER_STACK_BOTTOM <= dest && dest + |bytes| <= USER_STACK_TOP
    ensures var (m, r) := CopyTo(mem, pages, dest, bytes);
            r == 0 && StackView(m, pages) == Splice(StackView(mem, pages), At(dest), bytes) && BelowKept(mem, m, pages)
  {
    hide ByteIn, CopyTo, Find, StackView, Splice, HasPage;
    var (m, r) := CopyTo(mem, pages, dest, bytes);
    assert Covered(pages, dest, dest + |bytes|);
    CopyToView(mem, pages, dest, bytes, dest);
    forall x: nat ensures ByteIn(m, pages, x) == if dest <= x < dest + |bytes| then bytes[x - dest] else ByteIn(mem, pages, x) {
      CopyToView(mem, pages, dest, bytes, x);
    }
    SplicedView(mem, m, pages, dest, bytes);
  }

  lemma SplicedView(mem: Memory, m: Memory, pages: seq<Mapping>, dest: nat, bytes: seq<byte>)
    requires USER_STACK_BOTTOM <= dest && dest + |bytes| <= USER_STACK_TOP
    requires forall x: nat ::
               ByteIn(m, pages, x) == if dest <= x < dest + |bytes| then bytes[x - dest] else ByteIn(mem, pages, x)
    ensures StackView(m, pages) == Splice(StackView(mem, pages), At(dest), bytes)
  {
    hide ByteIn, BytesFrom;
    var a, b := StackView(m, pages), Splice(StackView(mem, pages), At(dest), bytes);
    forall i | 0 <= i < STACK_SIZE ensures a[i] == b[i] {
      var x := USER_STACK_BOTTOM + i;
      assert ByteIn(m, pages, x) == if dest <= x < dest + |bytes| then bytes[x - dest] else ByteIn(mem, pages, x);
    }
    assert a == b;
  }

  /** The loop that pushes strings, through `copy_to_space`. */
  function PushMem(mem: Memory, pages: seq<Mapping>, top: int, strs: seq<seq<byte>>): (r: (Memory, int, seq<u64>, int))
    decreases |strs|
  {
    if strs == [] then (mem, top, [], 0)
    else
      var n := |strs| - 1;
      var a := top - |strs[n]| - 1;
      if a < 0 || a >= 0x1_0000_0000_0000_0000 then (mem, a, [], -1)
      else
        var (m, status) := CopyTo(mem, pages, a, strs[n] + [0]);
        if status < 0 then (m, a, [], -1)
        else
          var rest := PushMem(m, pages, a, strs[..n]);
          (rest.0, rest.1, if rest.3 < 0 then [] else rest.2 + [a], rest.3)
  }

  /** One `copy_to_space` after another. */
  function CopyWords(mem: Memory, pages: seq<Mapping>, at: int, blocks: seq<seq<u64>>): (r: (Memory, int))
    decreases |blocks|
  {
    if blocks == [] then (mem, 0)
    else if at < 0 then (mem, -1)
    else
      var (m, status) := CopyTo(mem, pages, at, WordsBytes(blocks[0]));
      if status < 0 then (m, -1) else CopyWords(m, pages, at + 8 * |blocks[0]|, blocks[1..])
  }

  /** `build_initial_stack`: the stack pointer, or nothing. */
  function BuildStack(mem: Memory, pages: seq<Mapping>, argv: seq<seq<byte>>, envp: seq<seq<byte>>): (r: (Memory, Option<nat>)) {
    if !Fits(argv, envp) then (mem, None)
    else
      var (m1, t1, envAt, e1) := PushMem(mem, pages, USER_STACK_TOP, envp);
      if e1 < 0 then (m1, None)
      else
        var (m2, t2, argAt, e2) := PushMem(m1, pages, t1, argv);
        if e2 < 0 || t2 < 0 || |argAt| > ARG_MAX then (m2, None)
        else
          var sp := BlockStart(t2, |Metadata(argAt, envAt)|);
          var (m3, e3) := CopyWords(m2, pages, sp, [[|argAt|], argAt, [0], envAt, [0]]);
          if e3 < 0 || sp < USER_STACK_BOTTOM then (m3, None) else (m3, Some(sp))
  }

  lemma {:induction false} PushMemOk(mem: Memory, pages: seq<Mapping>, top: nat, strs: seq<seq<byte>>)
    requires Stacked(pages) && USER_STACK_BOTTOM + StringBytes(strs) <= top <= USER_STACK_TOP
    ensures var (m, lo, at, status) := PushMem(mem, pages, top, strs);
            status == 0 && (StackView(m, pages), lo, at) == PushStrings(StackView(mem, pages), top, strs) && BelowKept(mem, m, pages)
    decreases |strs|
  {
    hide ByteIn, CopyTo, StackView, Splice, Stacked;
    if strs != [] {
      var n := |strs| - 1;
      var a := top - |strs[n]| - 1;
      CopyStack(mem, pages, a, strs[n] + [0]);
      var m := CopyTo(mem, pages, a, strs[n] + [0]).0;
      PushMemOk(m, pages, a, strs[..n]);
    }
  }

  function Flatten(blocks: seq<seq<u64>>): seq<u64> {
    if blocks == [] then [] else blocks[0] + Flatten(blocks[1..])
  }

  lemma SpliceJoin(s: seq<byte>, o: nat, a: seq<byte>, b: seq<byte>)
    requires o + |a| + |b| <= |s|
    ensures Splice(Splice(s, o, a), o + |a|, b) == Splice(s, o, a + b)
  {
  }

  lemma {:induction false} WordsJoin(a: seq<u64>, b: seq<u64>)
    ensures WordsBytes(a + b) == WordsBytes(a) + WordsBytes(b)
  {
    hide U64Bytes;
    if b == [] {
      assert a + b == a;
    } else {
      var n := |b| - 1;
      var c := a + b;
      assert c[..|c| - 1] == a + b[..n];
      WordsJoin(a, b[..n]);
    }
  }

  lemma {:induction false} CopyWordsOk(mem: Memory, pages: seq<Mapping>, at: nat, blocks: seq<seq<u64>>)
    requires Stacked(pages) && USER_STACK_BOTTOM <= at && at + 8 * |Flatten(blocks)| <= USER_STACK_TOP
    ensures var (m, status) := CopyWords(mem, pages, at, blocks);
            && status == 0 && BelowKept(mem, m, pages)
            && StackView(m, pages) == Splice(StackView(mem, pages), At(at), WordsBytes(Flatten(blocks)))
    decreases |blocks|
  {
    hide ByteIn, CopyTo, StackView, Splice, Stacked, WordsBytes;
    if blocks == [] {
      SpliceNothing(StackView(mem, pages), At(at));
    } else {
      CopyStack(mem, pages, at, WordsBytes(blocks[0]));
      var m := CopyTo(mem, pages, at, WordsBytes(blocks[0])).0;
      CopyWordsOk(m, pages, at + 8 * |blocks[0]|, blocks[1..]);
      WordsJoin(blocks[0], Flatten(blocks[1..]));
      SpliceJoin(StackView(mem, pages), At(at), WordsBytes(blocks[0]), WordsBytes(Flatten(blocks[1..])));
    }
  }

  lemma SpliceNothing(st: Stack, o: nat)
    requires o <= STACK_SIZE
    ensures Splice(st, o, WordsBytes([])) == st
  {
  }

  lemma FiveBlocks(argAt: seq<u64>, envAt: seq<u64>)
    requires |argAt| <= ARG_MAX
    ensures Flatten([[|argAt|], argAt, [0], envAt, [0]]) == Metadata(argAt, envAt)
  {
    var z: seq<u64> := [0];
    assert Flatten([z]) == z;
    assert [envAt, z][1..] == [z];
    assert Flatten([envAt, z]) == envAt + z;
    assert [z, envAt, z][1..] == [envAt, z];
    assert Flatten([z, envAt, z]) == z + (envAt + z);
    assert [argAt, z, envAt, z][1..] == [z, envAt, z];
    assert Flatten([argAt, z, envAt, z]) == argAt + (z + (envAt + z));
    assert [[|argAt|], argAt, z, envAt, z][1..] == [argAt, z, envAt, z];
  }

  /** `build_initial_stack` on a space whose stack is mapped succeeds exactly when the strings fit, and then leaves on the
      stack pages what `Build` says; nothing else in the space changes. Its last check never fires. */
  lemma BuildStackOk(mem: Memory, pages: seq<Mapping>, argv: seq<seq<byte>>, envp: seq<seq<byte>>)
    requires Stacked(pages)
    ensures var (m, r) := BuildStack(mem, pages, argv, envp);
            && r.Some? == Fits(argv, envp) && BelowKept(mem, m, pages)
            && (Fits(argv, envp) ==> (StackView(m, pages), r.value) == Build(StackView(mem, pages), argv, envp))
  {
    hide ByteIn, CopyTo, StackView, Splice, Stacked, WordsBytes, PushStrings, PushMem, CopyWords, StringBytes, BelowKept;
    if Fits(argv, envp) {
      PushMemOk(mem, pages, USER_STACK_TOP, envp);
      var (m1, t1, envAt, e1) := PushMem(mem, pages, USER_STACK_TOP, envp);
      PushMemOk(m1, pages, t1, argv);
      var (m2, t2, argAt, e2) := PushMem(m1, pages, t1, argv);
      FiveBlocks(argAt, envAt);
      var n := |Metadata(argAt, envAt)|;
      BlockBelow(t2, n);
      var blocks := [[|argAt|], argAt, [0], envAt, [0]];
      CopyWordsOk(m2, pages, BlockStart(t2, n), blocks);
      BelowTrans(mem, m1, m2, pages);
      BelowTrans(mem, m2, CopyWords(m2, pages, BlockStart(t2, n), blocks).0, pages);
    } else {
      BelowSame(mem, pages);
    }
  }

  lemma BelowSame(a: Memory, pages: seq<Mapping>)
    ensures BelowKept(a, a, pages)
  {
  }

  lemma BelowTrans(a: Memory, b: Memory, c: Memory, pages: seq<Mapping>)
    requires BelowKept(a, b, pages) && BelowKept(b, c, pages)
    ensures BelowKept(a, c, pages)
  {
    hide ByteIn;
  }
}
