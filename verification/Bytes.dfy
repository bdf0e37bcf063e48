/** Bytes, little-endian words, bit maps and splicing, as the on-disk structures use them. */
module Bytes {

  type byte = x: int | 0 <= x < 0x100
  type u32 = x: int | 0 <= x < 0x1_0000_0000

  /** Overwrites `t` into `s` from offset `o` on; everything else stays. */
  function Splice(s: seq<byte>, o: nat, t: seq<byte>): (r: seq<byte>)
    requires o + |t| <= |s|
    ensures |r| == |s|
    ensures forall k :: 0 <= k < |s| ==> r[k] == if o <= k < o + |t| then t[k - o] else s[k]
  {
    s[..o] + t + s[o + |t|..]
  }

  lemma {:induction false} SubSlice(s: seq<byte>, a: nat, b: nat, lo: nat, hi: nat)
    requires a + b <= |s| && lo <= hi <= b
    ensures s[a..a + b][lo..hi] == s[a + lo..a + hi]
  {
    var x, y := s[a..a + b][lo..hi], s[a + lo..a + hi];
    forall k | 0 <= k < hi - lo ensures x[k] == y[k] {
      assert x[k] == s[a..a + b][lo + k] == s[a + (lo + k)];
    }
  }

  function Zeros(n: nat): (r: seq<byte>)
    ensures |r| == n
    ensures forall k :: 0 <= k < n ==> r[k] == 0
  {
    seq(n, i => 0)
  }

  /** The 32-bit little-endian word at byte offset `o`. */
  function U32At(s: seq<byte>, o: nat): u32
    requires o + 4 <= |s|
  {
    s[o] as int + 0x100 * (s[o + 1] as int) + 0x1_0000 * (s[o + 2] as int) + 0x100_0000 * (s[o + 3] as int)
  }

  function U32Bytes(v: u32): (r: seq<byte>)
    ensures |r| == 4
  {
    [v % 0x100, v / 0x100 % 0x100, v / 0x100 / 0x100 % 0x100, v / 0x100 / 0x100 / 0x100]
  }

  lemma U32RoundTrip(v: u32)
    ensures U32At(U32Bytes(v), 0) == v
  {
    var a: int := v / 0x100;
    var b: int := a / 0x100;
    var c: int := b / 0x100;
    assert v == 0x100 * a + v % 0x100 && a == 0x100 * b + a % 0x100 && b == 0x100 * c + b % 0x100;
  }

  /** Equal bytes make equal words. */
  lemma {:induction false} U32Local(s: seq<byte>, o: nat, t: seq<byte>, p: nat)
    requires o + 4 <= |s| && p + 4 <= |t|
    requires s[o..o + 4] == t[p..p + 4]
    ensures U32At(s, o) == U32At(t, p)
  {
    var a, b := s[o..o + 4], t[p..p + 4];
    assert a[0] == b[0] && a[1] == b[1] && a[2] == b[2] && a[3] == b[3];
  }

  /** Reading a word back from where its bytes are. */
  lemma U32Is(s: seq<byte>, o: nat, v: u32)
    requires o + 4 <= |s| && s[o..o + 4] == U32Bytes(v)
    ensures U32At(s, o) == v
  {
    U32RoundTrip(v);
    assert U32Bytes(v)[0..4] == U32Bytes(v);
    U32Local(s, o, U32Bytes(v), 0);
  }

  /** A sequence of words as bytes. */
  function WordBytes(ws: seq<u32>): (r: seq<byte>)
    ensures |r| == 4 * |ws|
  {
    if ws == [] then [] else U32Bytes(ws[0]) + WordBytes(ws[1..])
  }

  /** The first `n` words of `s` from offset `o` on. */
  function WordsAt(s: seq<byte>, o: nat, n: nat): (ws: seq<u32>)
    requires o + 4 * n <= |s|
    ensures |ws| == n
    ensures forall i :: 0 <= i < n ==> ws[i] == U32At(s, o + 4 * i)
  {
    seq(n, i requires 0 <= i < n => U32At(s, o + 4 * i))
  }

  /** Word `i` of the encoding of `ws` is `ws[i]`. */
  lemma {:induction false} WordOfBytes(ws: seq<u32>, i: nat)
    requires i < |ws|
    ensures U32At(WordBytes(ws), 4 * i) == ws[i]
  {
    var s := WordBytes(ws);
    if i == 0 {
      U32RoundTrip(ws[0]);
      assert s[0..4] == U32Bytes(ws[0]) == U32Bytes(ws[0])[0..4];
      U32Local(s, 0, U32Bytes(ws[0]), 0);
    } else {
      WordOfBytes(ws[1..], i - 1);
      var t := WordBytes(ws[1..]);
      assert s[4 * i..4 * i + 4] == t[4 * (i - 1)..4 * (i - 1) + 4];
      U32Local(s, 4 * i, t, 4 * (i - 1));
    }
  }

  /** A word inside the spliced range is the corresponding word of what was written. */
  lemma {:induction false} U32InSplice(s: seq<byte>, o: nat, t: seq<byte>, p: nat)
    requires o + |t| <= |s| && o <= p && p + 4 <= o + |t|
    ensures U32At(Splice(s, o, t), p) == U32At(t, p - o)
  {
    var r := Splice(s, o, t);
    assert r[p] == t[p - o] && r[p + 1] == t[p + 1 - o] && r[p + 2] == t[p + 2 - o] && r[p + 3] == t[p + 3 - o];
  }

  /** Reading back words written anywhere in a buffer. */
  lemma {:induction false} WordsRoundTrip(s: seq<byte>, o: nat, ws: seq<u32>)
    requires o + 4 * |ws| <= |s|
    ensures WordsAt(Splice(s, o, WordBytes(ws)), o, |ws|) == ws
  {
    forall i | 0 <= i < |ws| ensures WordsAt(Splice(s, o, WordBytes(ws)), o, |ws|)[i] == ws[i] {
      WordOfBytes(ws, i);
      U32InSplice(s, o, WordBytes(ws), o + 4 * i);
    }
  }

  /** Words outside the spliced range are untouched. */
  lemma {:induction false} WordsFrame(s: seq<byte>, o: nat, t: seq<byte>, p: nat, n: nat)
    requires o + |t| <= |s| && p + 4 * n <= |s|
    requires p + 4 * n <= o || o + |t| <= p
    ensures WordsAt(Splice(s, o, t), p, n) == WordsAt(s, p, n)
  {
  }

  /** Bit `j` of a number: `(n >> j) & 1`. */
  predicate Bit(n: nat, j: nat)
  {
    if j == 0 then n % 2 == 1 else Bit(n / 2, j - 1)
  }

  lemma {:induction false} BitsOfZero(n: nat, j: nat)
    requires n == 0
    ensures !Bit(n, j)
  {
    if j > 0 {
      BitsOfZero(n / 2, j - 1);
    }
  }

  /** `n | (1 << j)` when `v`, `n & ~(1 << j)` otherwise. */
  function PutBit(n: nat, j: nat, v: bool): (r: nat)
    ensures forall k: nat :: Bit(r, k) == if k == j then v else Bit(n, k)
  {
    if j == 0 then n - n % 2 + if v then 1 else 0
    else
      var r := 2 * PutBit(n / 2, j - 1, v) + n % 2;
      assert r / 2 == PutBit(n / 2, j - 1, v);
      r
  }

  lemma {:induction false} PutBitByte(n: nat, j: nat, v: bool)
    requires j < 8 && n < 0x100
    ensures PutBit(n, j, v) < 0x100
  {
    PutBitBound(n, j, v, 8);
  }

  function Exp2(w: nat): (r: nat)
    ensures r >= 1
  {
    if w == 0 then 1 else 2 * Exp2(w - 1)
  }

  /** Setting a bit below width `w` stays within `w` bits. */
  lemma {:induction false} PutBitBound(n: nat, j: nat, v: bool, w: nat)
    requires j < w && n < Exp2(w)
    ensures PutBit(n, j, v) < Exp2(w)
  {
    var h := Exp2(w - 1);
    assert Exp2(w) == 2 * h;
    if j == 0 {
      assert n / 2 <= h - 1;
    } else {
      PutBitBound(n / 2, j - 1, v, w - 1);
      assert PutBit(n, j, v) == 2 * PutBit(n / 2, j - 1, v) + n % 2;
    }
  }

  /** `bitmap_test` */
  predicate BitAt(s: seq<byte>, i: nat)
    requires i / 8 < |s|
  {
    Bit(s[i / 8], i % 8)
  }

  /** `bitmap_set` */
  function SetBit(s: seq<byte>, i: nat, v: bool): (r: seq<byte>)
    requires i / 8 < |s|
    ensures |r| == |s|
    ensures forall k :: 0 <= k < 8 * |s| ==> BitAt(r, k) == if k == i then v else BitAt(s, k)
  {
    PutBitByte(s[i / 8], i % 8, v);
    s[i / 8 := PutBit(s[i / 8], i % 8, v)]
  }

  /** The first `n` bits of a bit map. */
  function Bits(s: seq<byte>, n: nat): (r: seq<bool>)
    requires n <= 8 * |s|
    ensures |r| == n
    ensures forall i :: 0 <= i < n ==> r[i] == BitAt(s, i)
  {
    seq(n, i requires 0 <= i < n => BitAt(s, i))
  }
}
