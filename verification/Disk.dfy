/** The on-disk layout of MiniFS v2: where the maps, the inode records and the blocks live in the 512-byte sectors. */
module Disk {
  import opened Bytes
  import opened FsBlocks

  // Sector 0 is the superblock, 1 the inode map, 2 to 5 the data map and 6 to 37 the inode table.

  const ZERO_SECTOR: Sector := Zeros(512)

  function Blank(): (d: seq<Sector>)
    ensures |d| == 16384 && forall i :: 0 <= i < 16384 ==> d[i] == ZERO_SECTOR
  {
    seq<Sector>(16384, i => ZERO_SECTOR)
  }

  type Image = d: seq<Sector> | |d| == 16384 witness Blank()

  /** The four sectors of the data map as one bit map. */
  function DataMap(d: Image): (m: seq<byte>)
    ensures |m| == 2048
  {
    var a: seq<byte> := d[2];
    a + d[3] + d[4] + d[5]
  }

  function InodeWords(i: Inode): (ws: seq<u32>)
    ensures |ws| == 16
  {
    [i.mode, i.size, i.parent, i.links] + i.direct + [i.indirect, i.reserved]
  }

  function InodeOfWords(w: seq<u32>): (i: Inode)
    requires |w| == 16
    ensures InodeWords(i) == w
  {
    Inode(w[0], w[1], w[2], w[3], w[4..14], w[14], w[15])
  }

  /** The record at byte offset `o` of a sector. */
  function InodeAt(s: Sector, o: nat): Inode
    requires o + 64 <= 512
  {
    InodeOfWords(WordsAt(s, o, 16))
  }

  function PutInode(s: Sector, o: nat, i: Inode): (r: Sector)
    requires o + 64 <= 512
  {
    Splice(s, o, WordBytes(InodeWords(i)))
  }

  lemma InodeRoundTrip(s: Sector, o: nat, i: Inode)
    requires o + 64 <= 512
    ensures InodeAt(PutInode(s, o, i), o) == i
  {
    WordsRoundTrip(s, o, InodeWords(i));
    WordsDetermine(i, InodeAt(PutInode(s, o, i), o));
  }

  /** Where each field of a record lies in its 64 bytes. */
  lemma InodeLayout(s: Sector, o: nat, i: Inode)
    requires o + 64 <= 512
    ensures var r := PutInode(s, o, i);
            && U32At(r, o) == i.mode && U32At(r, o + 4) == i.size && U32At(r, o + 8) == i.parent && U32At(r, o + 12) == i.links
            && (forall k :: 0 <= k < 10 ==> U32At(r, o + 16 + 4 * k) == i.direct[k])
            && U32At(r, o + 56) == i.indirect && U32At(r, o + 60) == i.reserved
            && forall k :: 0 <= k < 512 && !(o <= k < o + 64) ==> r[k] == s[k]
  {
    hide U32At, WordBytes;
    var ws := InodeWords(i);
    WordsRoundTrip(s, o, ws);
    var r := PutInode(s, o, i);
    forall j | 0 <= j < 16 ensures U32At(r, o + 4 * j) == ws[j] {
      assert WordsAt(r, o, 16)[j] == ws[j];
    }
    assert U32At(r, o + 4 * 0) == ws[0] && U32At(r, o + 4 * 1) == ws[1] && U32At(r, o + 4 * 2) == ws[2] && U32At(r, o + 4 * 3) == ws[3];
    assert U32At(r, o + 4 * 14) == ws[14] && U32At(r, o + 4 * 15) == ws[15];
    forall k | 0 <= k < 10 ensures U32At(r, o + 16 + 4 * k) == i.direct[k] {
      assert U32At(r, o + 4 * (4 + k)) == ws[4 + k];
    }
  }

  lemma WordsDetermine(i: Inode, j: Inode)
    requires InodeWords(i) == InodeWords(j)
    ensures i == j
  {
    var a, b := InodeWords(i), InodeWords(j);
    assert a[0] == b[0] && a[1] == b[1] && a[2] == b[2] && a[3] == b[3] && a[14] == b[14] && a[15] == b[15];
    assert i.direct == a[4..14] && j.direct == b[4..14];
  }

  function InodeTable(d: Image): (t: seq<Inode>)
    ensures |t| == 256
    ensures forall n :: 0 <= n < 256 ==> t[n] == InodeAt(d[6 + n / 8], 64 * (n % 8))
  {
    seq(256, n requires 0 <= n < 256 => InodeAt(d[6 + n / 8], 64 * (n % 8)))
  }

  /** The file system an image holds. */
  function View(d: Image): (fs: Fs) {
    Fs(Bits(d[1], 256), Bits(DataMap(d), 16384), InodeTable(d), d[38..])
  }

  // ---------------------------------------------------------------- what each kind of write does to the view

  lemma ViewPutBlock(d: Image, b: nat, s: Sector)
    requires 38 <= b < 16384
    ensures View(d[b := s]) == View(d).(data := View(d).data[b - 38 := s])
  {
    var e: Image := d[b := s];
    assert DataMap(e) == DataMap(d);
    assert InodeTable(e) == InodeTable(d);
    assert e[38..] == d[38..][b - 38 := s];
  }

  lemma ViewPutInode(d: Image, n: nat, i: Inode)
    requires n < 256
    ensures View(d[6 + n / 8 := PutInode(d[6 + n / 8], 64 * (n % 8), i)]) == SetInode(View(d), n, i)
  {
    var e: Image := d[6 + n / 8 := PutInode(d[6 + n / 8], 64 * (n % 8), i)];
    assert DataMap(e) == DataMap(d);
    assert e[38..] == d[38..];
    TablePutInode(d, n, i);
  }

  lemma TablePutInode(d: Image, n: nat, i: Inode)
    requires n < 256
    ensures var e: Image := d[6 + n / 8 := PutInode(d[6 + n / 8], 64 * (n % 8), i)]; InodeTable(e) == InodeTable(d)[n := i]
  {
    hide PutInode, InodeAt;
    var e: Image := d[6 + n / 8 := PutInode(d[6 + n / 8], 64 * (n % 8), i)];
    forall m | 0 <= m < 256 ensures InodeTable(e)[m] == InodeTable(d)[n := i][m] {
      if m / 8 == n / 8 {
        InodeBeside(d[6 + n / 8], n % 8, i, m % 8);
      }
    }
  }

  lemma InodeBeside(s: Sector, k: nat, i: Inode, m: nat)
    requires k < 8 && m < 8
    ensures InodeAt(PutInode(s, 64 * k, i), 64 * m) == if m == k then i else InodeAt(s, 64 * m)
  {
    if m == k {
      InodeRoundTrip(s, 64 * k, i);
    } else {
      WordsFrame(s, 64 * k, WordBytes(InodeWords(i)), 64 * m, 16);
    }
  }

  lemma ViewPutInodeBit(d: Image, n: nat, v: bool)
    requires n < 256
    ensures View(d[1 := SetBit(d[1], n, v)]) == View(d).(inodeUsed := View(d).inodeUsed[n := v])
  {
    var e: Image := d[1 := SetBit(d[1], n, v)];
    assert DataMap(e) == DataMap(d);
    assert InodeTable(e) == InodeTable(d);
    assert e[38..] == d[38..];
    assert Bits(e[1], 256) == Bits(d[1], 256)[n := v];
  }

  /** Writing back the one sector of the data map that holds bit `b`. */
  lemma ViewPutDataBit(d: Image, b: nat, v: bool)
    requires b < 16384
    ensures var m := SetBit(DataMap(d), b, v);
            var k := b / 4096;
            var e: Image := d[2 + k := m[512 * k..512 * k + 512]];
            DataMap(e) == m && View(e) == View(d).(dataUsed := View(d).dataUsed[b := v])
  {
    var m := SetBit(DataMap(d), b, v);
    var k := b / 4096;
    var e: Image := d[2 + k := m[512 * k..512 * k + 512]];
    DataMapSector(d, m, b);
    assert InodeTable(e) == InodeTable(d);
    assert e[38..] == d[38..];
    assert Bits(m, 16384) == Bits(DataMap(d), 16384)[b := v];
  }

  lemma DataMapSector(d: Image, m: seq<byte>, b: nat)
    requires b < 16384 && |m| == 2048
    requires forall j :: 0 <= j < 2048 && j != b / 8 ==> m[j] == DataMap(d)[j]
    ensures DataMap(d[2 + b / 4096 := m[512 * (b / 4096)..512 * (b / 4096) + 512]]) == m
  {
    var k := b / 4096;
    var e: Image := d[2 + k := m[512 * k..512 * k + 512]];
    var f := DataMap(d);
    assert f[0..512] == d[2] && f[512..1024] == d[3] && f[1024..1536] == d[4] && f[1536..2048] == d[5];
    forall q | 0 <= q < 4 ensures e[2 + q] == m[512 * q..512 * q + 512] {
      assert q != k ==> m[512 * q..512 * q + 512] == f[512 * q..512 * q + 512];
    }
    assert m == m[0..512] + m[512..1024] + m[1024..1536] + m[1536..2048];
    assert e[2] == m[0..512] && e[3] == m[512..1024] && e[4] == m[1024..1536] && e[5] == m[1536..2048];
  }
}
