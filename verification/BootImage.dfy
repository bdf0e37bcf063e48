/** Installing a kernel into the boot slot of the disk image, and booting from it. */
module BootImage {
  import opened Bytes
  import opened PhysMem

  const DEVICE_SECTORS := 16384
  const IMAGE_SIZE := 8388608
  const SLOT_START := 15360
  const LOAD_ADDRESS := 0x8020_0000

  const FS_MAGIC := 0x4d46_5332
  const DATA_BITMAP := 1024

  type Disk = d: seq<byte> | |d| == IMAGE_SIZE witness Zeros(IMAGE_SIZE)

  datatype Result<+T> = Ok(value: T) | Err

  // ---------------------------------------------------------------- install_kernel.py

  function Sum(data: seq<byte>): nat {
    if data == [] then 0 else Sum(data[..|data| - 1]) + data[|data| - 1]
  }

  /** `checksum32` */
  function Checksum(data: seq<byte>): u32 {
    Sum(data) % 0x1_0000_0000
  }

  function Ones(n: nat): (r: seq<byte>)
    ensures |r| == n && forall k :: 0 <= k < n ==> r[k] == 255
  {
    seq(n, i => 255)
  }

  /** Bytes of the data map that describe the slot's sectors. */
  const TAIL_START := 2944
  const TAIL_BYTES := 128

  predicate TailFree(d: Disk) {
    forall k :: TAIL_START <= k < TAIL_START + TAIL_BYTES ==> d[k] == 0
  }

  /** `migrate_minifs`: an image whose file system reaches to the end of the device gives up its free tail. */
  function Migrate(d: Disk): (r: Result<Disk>) {
    if U32At(d, 0) != FS_MAGIC || U32At(d, 4) != 2 then Err
    else if U32At(d, 8) == SLOT_START then Ok(d)
    else if U32At(d, 8) != DEVICE_SECTORS || !TailFree(d) then Err
    else Ok(Splice(Splice(d, 8, U32Bytes(SLOT_START)), TAIL_START, Ones(TAIL_BYTES)))
  }

  const MAGIC: seq<byte> := [77, 73, 78, 73, 75, 82, 78, 76]

  /** The 64-byte header. */
  function Header(kernel: seq<byte>): (h: seq<byte>)
    requires |kernel| < 0x1_0000_0000
    ensures |h| == 64
  {
    MAGIC + U32Bytes(1) + U32Bytes(64) + U64Bytes(LOAD_ADDRESS) + U64Bytes(LOAD_ADDRESS)
    + U32Bytes(|kernel|) + U32Bytes(Checksum(kernel)) + Zeros(24)
  }

  const SLOT_OFFSET := 7864320
  const PAYLOAD_MAX := 523776

  /** The slot cleared, the header at its start and the kernel one sector later. */
  function WriteSlot(d: Disk, kernel: seq<byte>): (r: Disk)
    requires |kernel| <= PAYLOAD_MAX
  {
    Splice(Splice(Splice(d, SLOT_OFFSET, Zeros(524288)), SLOT_OFFSET, Header(kernel)), SLOT_OFFSET + 512, kernel)
  }

  /** `install_kernel` */
  function Install(image: seq<byte>, kernel: seq<byte>): (r: Result<Disk>) {
    if |image| != IMAGE_SIZE || |kernel| == 0 || |kernel| > PAYLOAD_MAX then Err
    else
      match Migrate(image)
      case Err => Err
      case Ok(d) => Ok(WriteSlot(d, kernel))
  }

  // ---------------------------------------------------------------- loader.c

  function SectorOf(d: Disk, s: nat): seq<byte>
    requires s < DEVICE_SECTORS
  {
    d[512 * s..512 * s + 512]
  }

  /** The header checks of `boot_main`. */
  predicate HeaderOk(h: seq<byte>)
    requires |h| == 512
  {
    && h[..8] == MAGIC && U32At(h, 8) == 1 && U32At(h, 12) == 64 && U64At(h, 16) == LOAD_ADDRESS
    && 0 < U32At(h, 32) <= PAYLOAD_MAX
    && U64At(h, 16) <= U64At(h, 24) < U64At(h, 16) + U32At(h, 32)
  }

  datatype Boot = Failed | Started(entry: nat, loaded: seq<byte>)

  /** `boot_main`: what is copied to the load address and where it jumps. */
  function BootFrom(d: Disk): (r: Boot) {
    var h := SectorOf(d, SLOT_START);
    if !HeaderOk(h) then Failed
    else
      var loaded := d[SLOT_OFFSET + 512..SLOT_OFFSET + 512 + U32At(h, 32)];
      if Checksum(loaded) != U32At(h, 36) then Failed else Started(U64At(h, 24), loaded)
  }

  // ---------------------------------------------------------------- round trip

  /** The fields of the header, one by one. */
  lemma HeaderFields(kernel: seq<byte>)
    requires |kernel| < 0x1_0000_0000
    ensures var h := Header(kernel);
            && h[..8] == MAGIC && h[8..12] == U32Bytes(1) && h[12..16] == U32Bytes(64)
            && h[16..24] == U64Bytes(LOAD_ADDRESS) && h[24..32] == U64Bytes(LOAD_ADDRESS)
            && h[32..36] == U32Bytes(|kernel|) && h[36..40] == U32Bytes(Checksum(kernel))
  {
    hide U32Bytes, U64Bytes, Checksum, Zeros;
    var a := MAGIC;
    var b, c := U32Bytes(1), U32Bytes(64);
    var e := U64Bytes(LOAD_ADDRESS);
    var n, k, z := U32Bytes(|kernel|), U32Bytes(Checksum(kernel)), Zeros(24);
    var h := a + b + c + e + e + n + k + z;
    assert h[..8] == a;
    assert h[8..12] == b;
    assert h[12..16] == c;
    assert h[16..24] == e;
    assert h[24..32] == e;
    assert h[32..36] == n;
    assert h[36..40] == k;
  }

  /** What a splice leaves inside, behind and before the place written. */
  lemma SliceOfSplice(s: seq<byte>, o: nat, t: seq<byte>, lo: nat, hi: nat)
    requires o + |t| <= |s| && lo <= hi <= |s|
    ensures o <= lo && hi <= o + |t| ==> Splice(s, o, t)[lo..hi] == t[lo - o..hi - o]
    ensures hi <= o || o + |t| <= lo ==> Splice(s, o, t)[lo..hi] == s[lo..hi]
  {
  }

  /** The slot after installation. */
  lemma SlotParts(d: Disk, kernel: seq<byte>)
    requires |kernel| <= PAYLOAD_MAX
    ensures var e := WriteSlot(d, kernel);
            && e[SLOT_OFFSET..SLOT_OFFSET + 64] == Header(kernel)
            && e[SLOT_OFFSET + 512..SLOT_OFFSET + 512 + |kernel|] == kernel
            && e[..SLOT_OFFSET] == d[..SLOT_OFFSET]
  {
    hide Splice, Header, Zeros;
    var z, h := Zeros(524288), Header(kernel);
    var a := Splice(d, SLOT_OFFSET, z);
    var b := Splice(a, SLOT_OFFSET, h);
    SliceOfSplice(b, SLOT_OFFSET + 512, kernel, SLOT_OFFSET, SLOT_OFFSET + 64);
    SliceOfSplice(a, SLOT_OFFSET, h, SLOT_OFFSET, SLOT_OFFSET + 64);
    assert h[0..64] == h && kernel[0..|kernel|] == kernel;
    SliceOfSplice(b, SLOT_OFFSET + 512, kernel, SLOT_OFFSET + 512, SLOT_OFFSET + 512 + |kernel|);
    SliceOfSplice(b, SLOT_OFFSET + 512, kernel, 0, SLOT_OFFSET);
    SliceOfSplice(a, SLOT_OFFSET, h, 0, SLOT_OFFSET);
    SliceOfSplice(d, SLOT_OFFSET, z, 0, SLOT_OFFSET);
  }

  /** A header sector that starts with `Header(kernel)` passes every check and yields its fields. */
  lemma HeaderAccepted(h: seq<byte>, kernel: seq<byte>)
    requires |h| == 512 && 0 < |kernel| <= PAYLOAD_MAX && h[..64] == Header(kernel)
    ensures HeaderOk(h) && U32At(h, 32) == |kernel| && U32At(h, 36) == Checksum(kernel) && U64At(h, 24) == LOAD_ADDRESS
  {
    hide Header, U32Bytes, U64Bytes, U32At, U64At, Checksum;
    var p := h[..64];
    HeaderFields(kernel);
    assert h[..8] == p[..8];
    assert h[8..12] == p[8..12] && h[12..16] == p[12..16];
    assert h[16..24] == p[16..24] && h[24..32] == p[24..32];
    assert h[32..36] == p[32..36] && h[36..40] == p[36..40];
    U32Is(h, 8, 1);
    U32Is(h, 12, 64);
    U64Is(h, 16, LOAD_ADDRESS);
    U64Is(h, 24, LOAD_ADDRESS);
    U32Is(h, 32, |kernel|);
    U32Is(h, 36, Checksum(kernel));
  }

  /** Kernel install to boot round trip: whatever the image held, the loader accepts the slot and the load address receives
      exactly the kernel's bytes. */
  lemma InstallBoots(image: seq<byte>, kernel: seq<byte>)
    ensures var r := Install(image, kernel); r.Ok? ==> BootFrom(r.value) == Started(LOAD_ADDRESS, kernel)
  {
    hide Migrate, WriteSlot, HeaderOk, U32At, U64At, Checksum;
    var r := Install(image, kernel);
    if r.Ok? {
      var d := Migrate(image).value;
      SlotParts(d, kernel);
      var h := SectorOf(r.value, SLOT_START);
      assert h[..64] == r.value[SLOT_OFFSET..SLOT_OFFSET + 64];
      HeaderAccepted(h, kernel);
    }
  }

  /** Outside the slot an installation changes at most the block count and the slot's bits in the data map, which were clear
      and are all set afterwards; an image already migrated is not touched there at all. */
  lemma InstallKeeps(image: seq<byte>, kernel: seq<byte>, k: nat)
    requires Install(image, kernel).Ok? && k < SLOT_OFFSET
    ensures var e := Install(image, kernel).value;
            && |image| == IMAGE_SIZE && U32At(image, 8) in {SLOT_START, DEVICE_SECTORS}
            && (U32At(image, 8) == SLOT_START ==> e[k] == image[k])
            && (U32At(image, 8) == DEVICE_SECTORS ==>
                  e[k] == if 8 <= k < 12 then U32Bytes(SLOT_START)[k - 8]
                          else if TAIL_START <= k < TAIL_START + TAIL_BYTES then 255 else image[k])
  {
    hide WriteSlot, U32Bytes, U32At;
    var d := Migrate(image).value;
    SlotParts(d, kernel);
    var e := WriteSlot(d, kernel);
    assert e[k] == e[..SLOT_OFFSET][k] && d[k] == d[..SLOT_OFFSET][k];
  }

  /** When installation succeeds: a non-empty kernel that fits, on an image of the right size with a file system of the right
      version that either leaves the slot alone already or uses none of its sectors. */
  lemma InstallSucceeds(image: seq<byte>, kernel: seq<byte>)
    ensures Install(image, kernel).Ok? <==>
              && |image| == IMAGE_SIZE && 0 < |kernel| <= PAYLOAD_MAX
              && U32At(image, 0) == FS_MAGIC && U32At(image, 4) == 2
              && (U32At(image, 8) == SLOT_START || (U32At(image, 8) == DEVICE_SECTORS && TailFree(image)))
  {
    hide WriteSlot, U32At;
  }

  /** Installing again replaces the kernel and nothing else. */
  lemma Reinstall(image: seq<byte>, first: seq<byte>, second: seq<byte>)
    requires Install(image, first).Ok? && 0 < |second| <= PAYLOAD_MAX
    ensures Install(Install(image, first).value, second) == Install(image, second)
  {
    hide U32Bytes, Header, Zeros;
    var d := Migrate(image).value;
    var e := WriteSlot(d, first);
    SlotParts(d, first);
    MigrateTwice(image, e);
    WriteSlotTwice(d, first, second);
  }

  lemma MigrateTwice(image: Disk, e: Disk)
    requires Migrate(image).Ok? && e[..SLOT_OFFSET] == Migrate(image).value[..SLOT_OFFSET]
    ensures Migrate(e) == Ok(e)
  {
    hide U32Bytes;
    var d := Migrate(image).value;
    assert forall k :: 0 <= k < 12 ==> e[..SLOT_OFFSET][k] == e[k] && d[..SLOT_OFFSET][k] == d[k];
    assert e[0..4] == d[0..4] && e[4..8] == d[4..8] && e[8..12] == d[8..12];
    U32Local(e, 0, d, 0);
    U32Local(e, 4, d, 4);
    U32Local(e, 8, d, 8);
    if U32At(image, 8) != SLOT_START {
      assert d[8..12] == U32Bytes(SLOT_START);
      U32Is(d, 8, SLOT_START);
      assert d[0..4] == image[0..4] && d[4..8] == image[4..8];
      U32Local(d, 0, image, 0);
      U32Local(d, 4, image, 4);
    }
  }

  lemma WriteSlotTwice(d: Disk, first: seq<byte>, second: seq<byte>)
    requires |first| <= PAYLOAD_MAX && |second| <= PAYLOAD_MAX
    ensures WriteSlot(WriteSlot(d, first), second) == WriteSlot(d, second)
  {
    hide Splice, Header;
    SlotParts(d, first);
    var e := WriteSlot(d, first);
    assert Splice(e, SLOT_OFFSET, Zeros(524288)) == Splice(d, SLOT_OFFSET, Zeros(524288)) by {
      SameTail(e, d);
    }
  }

  lemma SameTail(a: Disk, b: Disk)
    requires a[..SLOT_OFFSET] == b[..SLOT_OFFSET]
    ensures Splice(a, SLOT_OFFSET, Zeros(524288)) == Splice(b, SLOT_OFFSET, Zeros(524288))
  {
    var x, y := Splice(a, SLOT_OFFSET, Zeros(524288)), Splice(b, SLOT_OFFSET, Zeros(524288));
    forall k | 0 <= k < IMAGE_SIZE ensures x[k] == y[k] {
      if k < SLOT_OFFSET {
        assert a[k] == a[..SLOT_OFFSET][k] && b[k] == b[..SLOT_OFFSET][k];
      }
    }
  }
}
