/** The installer and the boot loader in the form of their sources: a byte array changed in place, a sector buffer and counters. */
module BootLoader {
  import opened Bytes
  import opened PhysMem
  import opened BootImage

  // ---------------------------------------------------------------- migrate_minifs and install_kernel

  /** A number whose lowest `n` bits are set. */
  function LowBits(n: nat): (r: nat)
    ensures r + 1 == Exp2(n)
  {
    if n == 0 then 0 else 2 * LowBits(n - 1) + 1
  }

  lemma {:induction false} NextLow(n: nat)
    ensures PutBit(LowBits(n), n, true) == LowBits(n + 1)
  {
    if n > 0 {
      NextLow(n - 1);
    }
  }

  lemma {:induction false} ClearIsZero(n: nat, w: nat)
    requires n < Exp2(w) && forall j: nat :: j < w ==> !Bit(n, j)
    ensures n == 0
  {
    if w > 0 {
      assert !Bit(n, 0);
      forall j: nat | j < w - 1 ensures !Bit(n / 2, j) {
        assert Bit(n, j + 1) == Bit(n / 2, j);
      }
      ClearIsZero(n / 2, w - 1);
    }
  }

  lemma ClearByte(b: byte)
    requires forall j: nat :: j < 8 ==> !Bit(b, j)
    ensures b == 0
  {
    EightBits();
    ClearIsZero(b, 8);
  }

  lemma EightBits()
    ensures Exp2(8) == 256 && LowBits(8) == 255 && LowBits(0) == 0
  {
    assert Exp2(1) == 2;
    assert Exp2(2) == 4;
    assert Exp2(3) == 8;
    assert Exp2(4) == 16;
    assert Exp2(5) == 32;
    assert Exp2(6) == 64;
    assert Exp2(7) == 128;
  }

  /** Byte `k` of the tail of the map once the bits of the sectors below `block` are set. */
  function Marked(k: nat, block: nat): nat {
    if 8 * (k - DATA_BITMAP) + 8 <= block then 255
    else if 8 * (k - DATA_BITMAP) >= block then 0
    else LowBits(block % 8)
  }

  /** Whether any bit of the slot's sectors is set. */
  method TailUsed(image: array<byte>) returns (used: bool)
    requires image.Length == IMAGE_SIZE
    ensures used == !TailFree(image[..])
  {
    var block := SLOT_START;
    while block < DEVICE_SECTORS
      invariant SLOT_START <= block <= DEVICE_SECTORS
      invariant forall b :: SLOT_START <= b < block ==> !Bit(image[DATA_BITMAP + b / 8], b % 8)
    {
      if Bit(image[DATA_BITMAP + block / 8], block % 8) {
        if image[DATA_BITMAP + block / 8] == 0 {
          BitsOfZero(image[DATA_BITMAP + block / 8], block % 8);
        }
        assert image[..][DATA_BITMAP + block / 8] != 0;
        return true;
      }
      block := block + 1;
    }
    forall k | TAIL_START <= k < TAIL_START + TAIL_BYTES ensures image[k] == 0 {
      forall j: nat | j < 8 ensures !Bit(image[k], j) {
        var b := 8 * (k - DATA_BITMAP) + j;
        assert b / 8 == k - DATA_BITMAP && b % 8 == j;
        assert !Bit(image[DATA_BITMAP + b / 8], b % 8);
      }
      ClearByte(image[k]);
    }
    return false;
  }

  /** Sets every bit of the slot's sectors. */
  method MarkTail(image: array<byte>)
    requires image.Length == IMAGE_SIZE && TailFree(image[..])
    modifies image
    ensures image[..] == Splice(old(image[..]), TAIL_START, Ones(TAIL_BYTES))
  {
    assert forall k :: TAIL_START <= k < TAIL_START + TAIL_BYTES ==> image[k] == image[..][k] == 0;
    var block := SLOT_START;
    while block < DEVICE_SECTORS
      invariant SLOT_START <= block <= DEVICE_SECTORS
      invariant forall k :: 0 <= k < IMAGE_SIZE ==>
                  image[k] == if TAIL_START <= k < TAIL_START + TAIL_BYTES then Marked(k, block) else old(image[k])
    {
      var k := DATA_BITMAP + block / 8;
      MarkedNext(block, k);
      NextLow(block % 8);
      PutBitByte(image[k], block % 8, true);
      image[k] := PutBit(image[k], block % 8, true);
      forall x | TAIL_START <= x < TAIL_START + TAIL_BYTES ensures image[x] == Marked(x, block + 1) {
        MarkedNext(block, x);
      }
      block := block + 1;
    }
    assert image[..] == Splice(old(image[..]), TAIL_START, Ones(TAIL_BYTES));
  }

  lemma MarkedNext(block: nat, k: nat)
    ensures Marked(k, block + 1) == if k == DATA_BITMAP + block / 8 then LowBits(block % 8 + 1) else Marked(k, block)
    ensures k == DATA_BITMAP + block / 8 ==> Marked(k, block) == LowBits(block % 8)
  {
    EightBits();
    var q, r := block / 8, block % 8;
    assert block == 8 * q + r;
    if k == DATA_BITMAP + q {
      assert r < 7 ==> (block + 1) % 8 == r + 1;
    } else if k < DATA_BITMAP + q {
      assert 8 * (k - DATA_BITMAP) + 8 <= 8 * q;
    } else {
      assert 8 * (k - DATA_BITMAP) >= 8 * q + 8;
    }
  }

  /** Stores bytes from `o` on. */
  method Store(image: array<byte>, o: nat, bytes: seq<byte>)
    requires o + |bytes| <= image.Length
    modifies image
    ensures image[..] == Splice(old(image[..]), o, bytes)
  {
    var i := 0;
    while i < |bytes|
      invariant 0 <= i <= |bytes|
      invariant forall k :: 0 <= k < image.Length ==> image[k] == if o <= k < o + i then bytes[k - o] else old(image[k])
    {
      image[o + i] := bytes[i];
      i := i + 1;
    }
    assert image[..] == Splice(old(image[..]), o, bytes);
  }

  /** `migrate_minifs`; false stands for its exceptions. */
  method MigrateMinifs(image: array<byte>) returns (ok: bool)
    requires image.Length == IMAGE_SIZE
    modifies image
    ensures ok == Migrate(old(image[..])).Ok?
    ensures image[..] == if ok then Migrate(old(image[..])).value else old(image[..])
  {
    hide Splice, U32Bytes, U32At;
    if U32At(image[..], 0) != FS_MAGIC || U32At(image[..], 4) != 2 {
      return false;
    }
    if U32At(image[..], 8) == SLOT_START {
      return true;
    }
    if U32At(image[..], 8) != DEVICE_SECTORS {
      return false;
    }
    var used := TailUsed(image);
    if used {
      return false;
    }
    Store(image, 8, U32Bytes(SLOT_START));
    assert TailFree(image[..]) by { TailKept(old(image[..])); }
    MarkTail(image);
    return true;
  }

  lemma TailKept(d: Disk)
    requires TailFree(d)
    ensures TailFree(Splice(d, 8, U32Bytes(SLOT_START)))
  {
    hide U32Bytes;
  }

  /** `checksum32` as a running sum. */
  method ChecksumOf(data: seq<byte>) returns (c: u32)
    ensures c == Checksum(data)
  {
    var sum: int := 0;
    var i := 0;
    while i < |data|
      invariant 0 <= i <= |data| && sum == Sum(data[..i])
    {
      assert data[..i + 1][..i] == data[..i];
      sum := sum + data[i] as int;
      i := i + 1;
    }
    assert data[..|data|] == data;
    return sum % 0x1_0000_0000;
  }

  /** `install_kernel` on the image in memory. */
  method InstallKernel(image: array<byte>, kernel: seq<byte>) returns (ok: bool)
    modifies image
    ensures ok == Install(old(image[..]), kernel).Ok?
    ensures ok ==> image[..] == Install(old(image[..]), kernel).value
  {
    hide Splice, Migrate, Header, Zeros;
    if image.Length != IMAGE_SIZE || |kernel| == 0 || |kernel| > PAYLOAD_MAX {
      return false;
    }
    ok := MigrateMinifs(image);
    if !ok {
      return;
    }
    Store(image, SLOT_OFFSET, Zeros(524288));
    Store(image, SLOT_OFFSET, Header(kernel));
    Store(image, SLOT_OFFSET + 512, kernel);
  }

  // ---------------------------------------------------------------- boot_main

  /** Adding one byte to a running 32-bit checksum. */
  lemma SumMore(data: seq<byte>, i: nat)
    requires i < |data|
    ensures (Checksum(data[..i]) + data[i]) % 0x1_0000_0000 == Checksum(data[..i + 1])
  {
    assert data[..i + 1][..i] == data[..i];
  }

  /** The inner loop: one sector's bytes into memory, added to the checksum. `image` is the kernel being loaded. */
  method CopySector(buffer: seq<byte>, memory: array<byte>, at: nat, chunk: nat, sum: u32, ghost image: seq<byte>)
    returns (checksum: u32)
    requires chunk <= |buffer| && at + chunk <= |image| <= memory.Length && image[at..at + chunk] == buffer[..chunk]
    requires sum == Checksum(image[..at])
    modifies memory
    ensures forall k :: 0 <= k < memory.Length ==> memory[k] == if at <= k < at + chunk then image[k] else old(memory[k])
    ensures checksum == Checksum(image[..at + chunk])
  {
    hide Checksum;
    checksum := sum;
    var i := 0;
    while i < chunk
      invariant 0 <= i <= chunk
      invariant forall k :: 0 <= k < memory.Length ==> memory[k] == if at <= k < at + i then image[k] else old(memory[k])
      invariant checksum == Checksum(image[..at + i])
    {
      var b: byte := buffer[i];
      assert b == buffer[..chunk][i] == image[at..at + chunk][i] == image[at + i];
      SumMore(image, at + i);
      memory[at + i] := b;
      checksum := (checksum + b) % 0x1_0000_0000;
      i := i + 1;
    }
  }

  /** The copy loop of `boot_main`: sector by sector into memory, adding up the bytes. */
  method CopyKernel(disk: Disk, size: nat, memory: array<byte>) returns (checksum: u32, sectors: seq<nat>)
    requires 0 < size <= PAYLOAD_MAX && size <= memory.Length
    modifies memory
    ensures memory[..size] == disk[SLOT_OFFSET + 512..SLOT_OFFSET + 512 + size]
    ensures memory[size..] == old(memory[size..])
    ensures checksum == Checksum(disk[SLOT_OFFSET + 512..SLOT_OFFSET + 512 + size])
    ensures forall k :: 0 <= k < |sectors| ==> SLOT_START < sectors[k] < DEVICE_SECTORS
  {
    hide Checksum;
    ghost var image := disk[SLOT_OFFSET + 512..SLOT_OFFSET + 512 + size];
    var copied, sector := 0, SLOT_START + 1;
    sectors := [];
    checksum := 0;
    assert image[..0] == [] && Checksum([]) == 0 by { NoSum(); }
    while copied < size
      invariant 0 <= copied <= size
      invariant copied < size ==> copied == 512 * (sector - SLOT_START - 1)
      invariant forall k :: 0 <= k < |sectors| ==> SLOT_START < sectors[k] < DEVICE_SECTORS
      invariant forall k :: 0 <= k < memory.Length ==> memory[k] == if k < copied then image[k] else old(memory[k])
      invariant checksum == Checksum(image[..copied])
    {
      var buffer := SectorOf(disk, sector);
      sectors := sectors + [sector];
      sector := sector + 1;
      var chunk := size - copied;
      if chunk > 512 {
        chunk := 512;
      }
      SubSlice(disk, SLOT_OFFSET + 512, size, copied, copied + chunk);
      SubSlice(disk, SLOT_OFFSET + 512 + copied, 512, 0, chunk);
      assert image[copied..copied + chunk] == buffer[..chunk];
      checksum := CopySector(buffer, memory, copied, chunk, checksum, image);
      copied := copied + chunk;
    }
    assert image[..size] == image;
  }

  lemma NoSum()
    ensures Checksum([]) == 0
  {
  }

  /** `boot_main`: the entry point, or -1 for every way it can stop; it reads no sector outside the slot. */
  method BootMain(disk: Disk, memory: array<byte>) returns (entry: int, sectors: seq<nat>)
    requires memory.Length >= PAYLOAD_MAX
    modifies memory
    ensures BootFrom(disk).Failed? <==> entry < 0
    ensures entry >= 0 ==> BootFrom(disk) == Started(entry, memory[..|BootFrom(disk).loaded|])
    ensures forall k :: 0 <= k < |sectors| ==> SLOT_START <= sectors[k] < DEVICE_SECTORS
  {
    hide U32At, U64At, HeaderOk, Checksum;
    var h := SectorOf(disk, SLOT_START);
    sectors := [SLOT_START];
    if !HeaderOk(h) {
      return -1, sectors;
    }
    var size := U32At(h, 32);
    assert 0 < size <= PAYLOAD_MAX by { SizeOk(h); }
    var checksum, more := CopyKernel(disk, size, memory);
    sectors := sectors + more;
    if checksum != U32At(h, 36) {
      return -1, sectors;
    }
    return U64At(h, 24), sectors;
  }

  lemma SizeOk(h: seq<byte>)
    requires |h| == 512 && HeaderOk(h)
    ensures 0 < U32At(h, 32) <= PAYLOAD_MAX
  {
  }
}
