/** The builder object of mkfs_minifs.py, changed in place by its methods and proved against the model. */
module MkfsBuilder {
  import opened Bytes
  import opened FsBlocks
  import FsFiles
  import opened DirTree
  import opened FsTree
  import opened Disk
  import opened Mkfs
  import opened MkfsImport
  import opened MkfsImage

  /** An exception is reported as a failure; the builder is not used after one. */
  class MiniFSBuilder {
    var inodeUsed: seq<bool>
    var blockUsed: seq<bool>
    var inodes: seq<Inode>
    var data: seq<Sector>

    predicate Valid()
      reads this
    {
      |inodeUsed| == 256 && |blockUsed| == 16384 && |inodes| == 256 && |data| == 16384 - 38
    }

    function State(): Fs
      requires Valid()
      reads this
    {
      Fs(inodeUsed, blockUsed, inodes, data)
    }

    constructor ()
      ensures Valid() && State() == EmptyFs()
    {
      inodeUsed, blockUsed := EmptyFs().inodeUsed, EmptyFs().dataUsed;
      inodes, data := EmptyFs().inodes, EmptyFs().data;
    }

    /** `alloc_block` */
    method AllocBlock() returns (block: int)
      requires Valid()
      modifies this
      ensures Valid() && (State(), block) == TakeBlock(old(State()))
    {
      block := 38;
      while block < 15360
        invariant 38 <= block <= 15360 && Valid() && State() == old(State())
        invariant FirstFree(blockUsed, 38) == FirstFree(blockUsed, block)
      {
        if !blockUsed[block] {
          blockUsed := blockUsed[block := true];
          return;
        }
        block := block + 1;
      }
      return -1;
    }

    /** `alloc_inode`: the number, or 256 */
    method AllocInode(mode: u32, parent: u32) returns (number: nat)
      requires Valid()
      modifies this
      ensures Valid() && number == FirstFreeInode(old(inodeUsed), 1)
      ensures State() == if number < 256 then WithNewInode(old(State()), number, mode, parent) else old(State())
    {
      number := 1;
      while number < 256
        invariant 1 <= number <= 256 && Valid() && State() == old(State())
        invariant FirstFreeInode(inodeUsed, 1) == FirstFreeInode(inodeUsed, number)
      {
        if !inodeUsed[number] {
          inodeUsed := inodeUsed[number := true];
          inodes := inodes[number := NewInode(mode, parent)];
          return;
        }
        number := number + 1;
      }
    }

    /** Writes into a block of the image. */
    method PutBytes(b: nat, o: nat, t: seq<byte>)
      requires Valid() && o + |t| <= 512
      modifies this`data
      ensures Valid() && State() == FsBlocks.PutBytes(old(State()), b, o, t)
    {
      if IsDataBlock(b) {
        data := data[b - 38 := Splice(data[b - 38], o, t)];
      }
    }

    /** The indirect block of an inode, allocated when missing. */
    method Top(n: nat) returns (top: int)
      requires Valid() && n < 256
      modifies this
      ensures Valid() && (State(), top) == TopBlock(old(State()), n)
    {
      hide TakeBlock;
      top := inodes[n].indirect;
      if top == 0 {
        top := AllocBlock();
        TakeRange(old(State()));
        if top >= 0 {
          inodes := inodes[n := inodes[n].(indirect := top)];
        }
      }
    }

    /** `file_block` with allocation */
    method Block(n: nat, logical: nat) returns (block: int)
      requires Valid() && n < 256
      modifies this
      ensures Valid()
      ensures block == FileBlock(old(State()), n, logical).1
      ensures block >= 0 ==> State() == FileBlock(old(State()), n, logical).0
    {
      hide TakeBlock, TopBlock, U32Bytes, SlotOf, FsBlocks.PutBytes;
      if logical < 10 {
        block := inodes[n].direct[logical];
        if block == 0 {
          block := AllocBlock();
          TakeRange(old(State()));
          if block >= 0 {
            inodes := inodes[n := inodes[n].(direct := inodes[n].direct[logical := block])];
          }
        }
        return;
      }
      if logical - 10 >= 128 {
        return -1;
      }
      var top := Top(n);
      if top < 0 {
        return -1;
      }
      block := SlotOf(State(), inodes[n], logical - 10);
      if block == 0 {
        TakeRange(State());
        block := AllocBlock();
        if block >= 0 {
          PutBytes(top, 4 * (logical - 10), U32Bytes(block));
        }
      }
    }

    /** `write_file` */
    method WriteFile(n: nat, bytes: seq<byte>) returns (ok: bool)
      requires Valid() && n < 256
      modifies this
      ensures Valid() && ok == Mkfs.WriteFile(old(State()), n, bytes).1
      ensures ok ==> State() == Mkfs.WriteFile(old(State()), n, bytes).0
    {
      hide FileBlock, FsBlocks.PutBytes;
      if |bytes| > 65536 {
        return false;
      }
      var offset := 0;
      assert bytes[0..] == bytes;
      while offset < |bytes|
        invariant 0 <= offset <= |bytes| && Valid()
        invariant WriteBlocks(State(), n, offset, bytes[offset..]) == WriteBlocks(old(State()), n, 0, bytes)
      {
        var block := Block(n, offset / 512);
        if block < 0 {
          return false;
        }
        var chunk := FsFiles.Min(|bytes| - offset, 512);
        assert bytes[offset..][..chunk] == bytes[offset..offset + chunk];
        assert bytes[offset..][chunk..] == bytes[offset + chunk..];
        PutBytes(block, 0, bytes[offset..offset + chunk]);
        offset := offset + chunk;
      }
      inodes := inodes[n := inodes[n].(size := |bytes|)];
      return true;
    }

    /** `add_dirent` */
    method AddEntry(p: nat, name: seq<byte>, child: u32, mode: u32) returns (ok: bool)
      requires Valid() && p < 256
      modifies this
      ensures Valid() && ok == AddDirent(old(State()), p, name, child, mode).1
      ensures ok ==> State() == AddDirent(old(State()), p, name, child, mode).0
    {
      hide FileBlock, FsBlocks.PutBytes, DirentBytes, NameField;
      if name == [] || |name| > 55 || SLASH in name {
        return false;
      }
      var index := inodes[p].size / 64;
      var block := Block(p, index / 8);
      if block < 0 || inodes[p].size + 64 >= 0x1_0000_0000 {
        return false;
      }
      PutBytes(block, 64 * (index % 8), DirentBytes(Dirent(child, mode, NameField(name))));
      inodes := inodes[p := inodes[p].(size := inodes[p].size + 64)];
      return true;
    }

    /** `import_tree` */
    method ImportTree(children: seq<Node>, p: nat) returns (ok: bool)
      requires Valid() && p < 256
      modifies this
      ensures Valid() && ok == Import(old(State()), children, p).1
      ensures ok ==> State() == Import(old(State()), children, p).0
      decreases children
    {
      hide ImportOne;
      if children == [] {
        return true;
      }
      ok := ImportNode(children[0], p);
      if ok {
        ok := ImportTree(children[1..], p);
      }
    }

    method ImportNode(node: Node, p: nat) returns (ok: bool)
      requires Valid() && p < 256
      modifies this
      ensures Valid() && ok == ImportOne(old(State()), node, p).1
      ensures ok ==> State() == ImportOne(old(State()), node, p).0
      decreases node
    {
      hide Mkfs.WriteFile, AddDirent, Import, FirstFreeInode;
      var child := AllocInode(ModeOf(node), p);
      if child == 256 {
        return false;
      }
      ok := AddEntry(p, node.name, child, ModeOf(node));
      if !ok {
        return;
      }
      match node {
        case FileNode(_, _, bytes) => ok := WriteFile(child, bytes);
        case DirNode(_, kids) => ok := ImportTree(kids, child);
      }
    }

    /** `finish` */
    method FinishImage() returns (image: Image)
      requires Valid()
      ensures image == Finish(State())
    {
      hide Bare, SuperSector, SetBit, PutDataBit, PutInode;
      image := Bare(State())[0 := SuperSector()];
      var n := 0;
      ghost var d0 := image;
      while n < 256
        invariant n <= 256 && PutInodeBits(image, inodeUsed, n) == PutInodeBits(d0, inodeUsed, 0)
      {
        if inodeUsed[n] {
          image := image[1 := SetBit(image[1], n, true)];
        }
        n := n + 1;
      }
      n := 0;
      ghost var d1 := image;
      while n < 16384
        invariant n <= 16384 && PutDataBits(image, blockUsed, n) == PutDataBits(d1, blockUsed, 0)
      {
        if blockUsed[n] {
          image := PutDataBit(image, n);
        }
        n := n + 1;
      }
      n := 0;
      ghost var d2 := image;
      while n < 256
        invariant n <= 256 && PutInodes(image, State(), n) == PutInodes(d2, State(), 0)
      {
        if inodeUsed[n] {
          image := image[6 + n / 8 := PutInode(image[6 + n / 8], 64 * (n % 8), inodes[n])];
        }
        n := n + 1;
      }
    }
  }

  lemma TakeRange(fs: Fs)
    ensures TakeBlock(fs).1 < 15360 && (TakeBlock(fs).1 < 0 ==> TakeBlock(fs) == (fs, -1))
  {
  }
}
