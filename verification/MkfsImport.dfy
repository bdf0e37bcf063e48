/** Importing a directory tree: the built file system holds every file under its path, byte for byte. */
module MkfsImport {
  import opened Bytes
  import opened FsBlocks
  import opened FsFiles
  import opened DirTree
  import opened FsTree
  import opened Mkfs
  import FsRuns

  /** A host directory as `import_tree` sees it. */
  datatype Node =
    | FileNode(name: seq<byte>, exec: bool, bytes: seq<byte>)
    | DirNode(name: seq<byte>, children: seq<Node>)

  function ModeOf(n: Node): u32 {
    match n
    case FileNode(_, exec, _) => if exec then 0x101 else 1
    case DirNode(_, _) => 2
  }

  /** `import_tree`, child after child; false stands for the exceptions. */
  function Import(fs: Fs, children: seq<Node>, p: nat): (r: (Fs, bool))
    requires p < 256
    decreases children
  {
    if children == [] then (fs, true)
    else
      var (f, ok) := ImportOne(fs, children[0], p);
      if !ok then (f, false) else Import(f, children[1..], p)
  }

  function ImportOne(fs: Fs, node: Node, p: nat): (r: (Fs, bool))
    requires p < 256
    decreases node
  {
    var (f, c) := AddNode(fs, p, node.name, ModeOf(node));
    if c < 0 || c >= 256 then (f, false)
    else
      match node
      case FileNode(_, _, bytes) => WriteFile(f, c, bytes)
      case DirNode(_, children) => Import(f, children, c)
  }

  /** A file name of the host, of any length. */
  predicate HostName(s: seq<byte>) {
    s != [] && 0 !in s && SLASH !in s && s != [DOT] && s != [DOT, DOT]
  }

  /** What a host file system guarantees: names are proper and unique among siblings. */
  predicate Importable(children: seq<Node>)
    decreases children
  {
    && (forall i :: 0 <= i < |children| ==> HostName(children[i].name))
    && (forall i, j :: 0 <= i < j < |children| ==> children[i].name != children[j].name)
    && (forall i :: 0 <= i < |children| && children[i].DirNode? ==> Importable(children[i].children))
  }

  // ---------------------------------------------------------------- what is imported

  /** Inodes in use. */
  function Used(fs: Fs): set<nat> {
    set m: nat | m < 256 && fs.inodeUsed[m]
  }

  ghost predicate FileHeld(fs: Fs, c: nat, node: Node) {
    && c < 256 && node.FileNode? && fs.inodeUsed[c] && fs.inodes[c].mode == ModeOf(node)
    && Content(fs, c) == node.bytes && NoHoles(fs, c)
  }

  /** Directory `d` holds `node` with everything below it, on inodes outside `before`. */
  ghost predicate Holds(fs: Fs, d: nat, node: Node, before: set<nat>)
    decreases node
  {
    var c := Lookup(TreeOf(fs), d, node.name);
    && 0 <= c < 256 && c !in before && fs.inodeUsed[c]
    && match node
       case FileNode(_, _, _) => FileHeld(fs, c, node)
       case DirNode(_, children) =>
         fs.inodes[c].mode == 2 && forall i :: 0 <= i < |children| ==> Holds(fs, c, children[i], before)
  }

  /** A table without its entry for `name` says the same about every other name. */
  lemma FindAppended(es: seq<Dirent>, e: Dirent, x: seq<byte>)
    requires Live(e)
    ensures var i := FindName(es, x, 0);
            FindName(es + [e], x, 0) == if i < |es| then i else if CString(e.name) == x then |es| else |es| + 1
  {
    var a, i := FindName(es + [e], x, 0), FindName(es, x, 0);
    assert (es + [e])[|es|] == e;
    assert a < |es| ==> (es + [e])[a] == es[a];
    assert i < |es| ==> (es + [e])[i] == es[i];
  }

  /** What adding a node does: `c` is new, its entry is the only one added, and no other inode changes. */
  ghost predicate Grown(fs: Fs, f: Fs, p: nat, name: seq<byte>, c: int, mode: u32) {
    && p < 256 && 0 < c < 256 && !fs.inodeUsed[c] && c != p && f.inodeUsed == fs.inodeUsed[c := true]
    && f.inodes[c].mode == mode && f.inodes[c].size == 0
    && f.inodes[p].mode == fs.inodes[p].mode
    && (forall m :: 0 <= m < 256 && m != p && m != c ==> SameInode(fs, f, m))
    && Lookup(TreeOf(f), p, name) == c
    && (forall x :: x != name ==> Lookup(TreeOf(f), p, x) == Lookup(TreeOf(fs), p, x))
    && (forall x :: Lookup(TreeOf(f), c, x) < 0)
  }

  lemma AddNodeOk(fs: Fs, p: nat, name: seq<byte>, mode: u32)
    requires BuilderOk(fs) && p < 256 && fs.inodeUsed[p] && IsDir(TreeOf(fs), p) && HostName(name)
    requires Lookup(TreeOf(fs), p, name) < 0 && (mode % 256 == MODE_FILE || mode % 256 == MODE_DIR)
    ensures var (f, c) := AddNode(fs, p, name, mode);
            c >= 0 ==> BuilderOk(f) && Grown(fs, f, p, name, c, mode)
  {
    hide AddNode, CreateNode, FsInv, ZeroFree, TreeOf, Lookup, Leaked, GoodName, SameInode, Table, Content, AddLeaf, Created, AllLive, HostName;
    var (f, c) := AddNode(fs, p, name, mode);
    LongName(fs, p, name, mode);
    if c >= 0 {
      AddNodeSame(fs, p, name, mode);
      CreateNodeSafe(fs, p, name, mode);
      DirIsLive(fs, p);
      CStringOfGoodName(name);
      CreatedFacts(fs, f, p, name, mode, c);
      var e := Dirent(c, mode, NameField(name));
      forall d | 0 <= d < 256 && f.inodes[d].mode % 256 == MODE_DIR ensures AllLive(Dir(f, d)) {
        LeafDir(fs, f, p, e, d);
      }
      forall n | 0 <= n < 256 && !f.inodeUsed[n] ensures f.inodes[n] == FREE_INODE {
        RecordKept(fs, f, n);
      }
      forall x ensures x != name ==> Lookup(TreeOf(f), p, x) == Lookup(TreeOf(fs), p, x) {
        LeafLookup(fs, f, p, e, x);
      }
      forall x ensures Lookup(TreeOf(f), c, x) < 0 {
        LeafEmpty(fs, f, p, e, x);
      }
    }
  }

  /** `add_dirent` refuses the names the kernel could not look up. */
  lemma LongName(fs: Fs, p: nat, name: seq<byte>, mode: u32)
    requires p < 256 && HostName(name)
    ensures GoodName(name) <==> |name| <= 55
    ensures !GoodName(name) ==> AddNode(fs, p, name, mode).1 < 0
  {
    hide FileBlock;
  }

  lemma DirIsLive(fs: Fs, p: nat)
    requires BuilderOk(fs) && p < 256 && IsDir(TreeOf(fs), p)
    ensures AllLive(Dir(fs, p))
  {
    hide FsInv, ZeroFree, Table, Content, AllLive;
  }

  /** What the kernel's creation says, for a directory without tombstones. */
  lemma CreatedFacts(fs: Fs, f: Fs, p: nat, name: seq<byte>, mode: u32, c: int)
    requires Created(fs, f, p, name, mode, c) && c >= 0 && p < 256 && fs.inodeUsed[p] && AllLive(Dir(fs, p))
    ensures FsInv(f) && 0 < c < 256 && |name| <= 55 && !fs.inodeUsed[c] && c != p && f.inodeUsed == fs.inodeUsed[c := true]
    ensures f.inodes[c].mode == mode && f.inodes[c].size == 0 && f.inodes[p].mode == fs.inodes[p].mode
    ensures Lookup(TreeOf(f), p, name) == c && forall m :: 0 <= m < 256 && m != p && m != c ==> SameInode(fs, f, m)
    ensures TreeOf(f) == AddLeaf(TreeOf(fs), p, |Dir(fs, p)|, Dirent(c, mode, NameField(name)))
  {
    hide FsInv, Leaked, SameInode, Table, FreeSlot, Lookup, NameField;
    FreeAtEnd(Dir(fs, p));
    assert |Content(f, c)| == 0;
    assert TreeOf(f).mode[p] == TreeOf(fs).mode[p];
  }

  lemma LeafDir(fs: Fs, f: Fs, p: nat, e: Dirent, d: nat)
    requires p < 256 && d < 256 && 0 < e.inode < 256 && IsDir(TreeOf(fs), p) && AllLive(Dir(fs, p))
    requires TreeOf(f) == AddLeaf(TreeOf(fs), p, |Dir(fs, p)|, e) && f.inodes[d].mode % 256 == MODE_DIR
    requires d != p && d != e.inode && fs.inodes[d].mode % 256 == MODE_DIR ==> AllLive(Dir(fs, d))
    ensures AllLive(Dir(f, d))
  {
    hide Table, Content;
    var t, u := TreeOf(fs), TreeOf(f);
    assert u.entries[d] == Dir(f, d) && t.entries[p] == Dir(fs, p);
    hide TreeOf;
    if d == p {
      assert u.entries[p] == t.entries[p] + [e];
    } else if d == e.inode {
      assert u.entries[d] == [];
    } else {
      assert u.mode[d] == t.mode[d] && u.entries[d] == t.entries[d];
    }
  }

  lemma LeafLookup(fs: Fs, f: Fs, p: nat, e: Dirent, x: seq<byte>)
    requires p < 256 && 0 < e.inode < 256 && e.inode != p && IsDir(TreeOf(fs), p)
    requires TreeOf(f) == AddLeaf(TreeOf(fs), p, |Dir(fs, p)|, e)
    ensures x != CString(e.name) ==> Lookup(TreeOf(f), p, x) == Lookup(TreeOf(fs), p, x)
  {
    hide Table, Content, CString, FindName;
    var es := TreeOf(fs).entries[p];
    FindAppended(es, e, x);
    FindBound(es, x);
  }

  lemma FindBound(es: seq<Dirent>, x: seq<byte>)
    ensures FindName(es, x, 0) <= |es|
  {
  }

  lemma LeafEmpty(fs: Fs, f: Fs, p: nat, e: Dirent, x: seq<byte>)
    requires p < 256 && 0 < e.inode < 256 && e.inode != p && IsDir(TreeOf(fs), p)
    requires TreeOf(f) == AddLeaf(TreeOf(fs), p, |Dir(fs, p)|, e)
    ensures Lookup(TreeOf(f), e.inode, x) < 0
  {
    hide Table, Content, CString;
  }

  // ---------------------------------------------------------------- frames

  /** What was held stays held when only inodes of `before`, or new ones, change. */
  lemma {:induction false} HoldsKept(fs: Fs, g: Fs, d: nat, node: Node, before: set<nat>)
    requires Holds(fs, d, node, before) && Lookup(TreeOf(g), d, node.name) == Lookup(TreeOf(fs), d, node.name)
    requires forall m: nat :: m < 256 && fs.inodeUsed[m] && m !in before ==> g.inodeUsed[m] && SameInode(fs, g, m)
    ensures Holds(g, d, node, before)
    decreases node
  {
    hide TreeOf, Lookup, Content, NoHoles, SameInode;
    var c := Lookup(TreeOf(fs), d, node.name);
    assert SameInode(fs, g, c);
    match node
    case FileNode(_, _, _) => FileKept(fs, g, c, node);
    case DirNode(_, children) =>
      RecordKept(fs, g, c);
      forall i | 0 <= i < |children| ensures Holds(g, c, children[i], before) {
        LookupSame(fs, g, c, children[i].name);
        HoldsKept(fs, g, c, children[i], before);
      }
  }

  lemma RecordKept(fs: Fs, g: Fs, c: nat)
    requires c < 256 && SameInode(fs, g, c)
    ensures g.inodes[c] == fs.inodes[c]
  {
  }

  lemma FileKept(fs: Fs, g: Fs, c: nat, node: Node)
    requires FileHeld(fs, c, node) && SameInode(fs, g, c) && g.inodeUsed[c]
    ensures FileHeld(g, c, node)
  {
    hide Content, BlockOf;
  }

  lemma {:induction false} HoldsFewer(fs: Fs, d: nat, node: Node, before: set<nat>, fewer: set<nat>)
    requires Holds(fs, d, node, before) && fewer <= before
    ensures Holds(fs, d, node, fewer)
    decreases node
  {
    hide TreeOf, Lookup, FileHeld;
    if node.DirNode? {
      var c := Lookup(TreeOf(fs), d, node.name);
      forall i | 0 <= i < |node.children| ensures Holds(fs, c, node.children[i], fewer) {
        HoldsFewer(fs, c, node.children[i], before, fewer);
      }
    }
  }

  // ---------------------------------------------------------------- importing

  predicate Named(kids: seq<Node>, x: seq<byte>) {
    exists i :: 0 <= i < |kids| && kids[i].name == x
  }

  /** After importing `kids` into `p`: everything is held, nothing else in `p` changed, and no other inode changed. */
  ghost predicate Imported(fs: Fs, g: Fs, p: nat, kids: seq<Node>) {
    && p < 256 && BuilderOk(g) && g.inodes[p].mode == fs.inodes[p].mode
    && (forall m: nat :: m < 256 && fs.inodeUsed[m] ==> g.inodeUsed[m] && (m != p ==> SameInode(fs, g, m)))
    && (forall x :: !Named(kids, x) ==> Lookup(TreeOf(g), p, x) == Lookup(TreeOf(fs), p, x))
    && (forall i :: 0 <= i < |kids| ==> Holds(g, p, kids[i], Used(fs)))
  }

  /** Where a node may be imported. */
  ghost predicate Ready(fs: Fs, p: nat) {
    BuilderOk(fs) && p < 256 && fs.inodeUsed[p] && fs.inodes[p].mode % 256 == MODE_DIR
  }

  /** A new file filled by `write_file`. */
  lemma FileOk(fs: Fs, c: nat, node: Node)
    requires BuilderOk(fs) && c < 256 && fs.inodeUsed[c] && node.FileNode?
    requires fs.inodes[c].mode == ModeOf(node) && fs.inodes[c].size == 0
    ensures var (g, ok) := WriteFile(fs, c, node.bytes);
            ok ==> BuilderOk(g) && OthersSame(fs, g, c) && TreeOf(g) == TreeOf(fs) && FileHeld(g, c, node)
  {
    hide WriteFile, WriteAt, FsInv, FsOk, ZeroFree, TreeOf, Table, BlockOf, Leaked, Full, AllLive, OthersSame;
    FsOkPart(fs);
    WriteFileSame(fs, c, node.bytes);
    var (g, ok) := WriteFile(fs, c, node.bytes);
    if ok {
      WriteAtRefines(fs, c, 0, node.bytes);
      FsRuns.WriteKeepsInv(fs, c, 0, node.bytes);
      SameOthersUsed(fs, g, c);
      WholeFile(fs, c, node.bytes);
      assert NoHoles(fs, c);
      forall n | 0 <= n < 256 && !g.inodeUsed[n] ensures g.inodes[n] == FREE_INODE {
        OtherRecord(fs, g, c, n);
      }
      forall d | 0 <= d < 256 && g.inodes[d].mode % 256 == MODE_DIR ensures AllLive(Dir(g, d)) {
        SameTreeDir(fs, g, d);
      }
    }
  }

  lemma SameOthersUsed(fs: Fs, g: Fs, c: nat)
    requires OthersSame(fs, g, c)
    ensures g.inodeUsed == fs.inodeUsed
  {
  }

  lemma OtherRecord(fs: Fs, g: Fs, c: nat, n: nat)
    requires OthersSame(fs, g, c) && n < 256 && n != c
    ensures g.inodes[n] == fs.inodes[n]
  {
    assert SameInode(fs, g, n);
  }

  lemma FsOkPart(fs: Fs)
    requires FsInv(fs)
    ensures FsOk(fs) && Owned(fs)
  {
  }

  lemma WholeFile(fs: Fs, c: nat, bytes: seq<byte>)
    requires c < 256 && fs.inodes[c].size == 0 && |bytes| <= 65536
    ensures Overlay(Content(fs, c), 0, bytes[..Min(|bytes|, 65536)][..|bytes|]) == bytes
  {
    assert Content(fs, c) == [];
    assert bytes[..Min(|bytes|, 65536)][..|bytes|] == bytes;
  }

  lemma SameTreeDir(fs: Fs, g: Fs, d: nat)
    requires TreeOf(g) == TreeOf(fs) && d < 256 && g.inodes[d].mode % 256 == MODE_DIR
    ensures fs.inodes[d].mode % 256 == MODE_DIR && Dir(g, d) == Dir(fs, d)
  {
    hide Table, Content;
    assert TreeOf(g).mode[d] == TreeOf(fs).mode[d];
    assert TreeOf(g).entries[d] == TreeOf(fs).entries[d];
  }

  lemma UsedGrows(fs: Fs, f: Fs)
    requires forall m: nat :: m < 256 && fs.inodeUsed[m] ==> f.inodeUsed[m]
    ensures Used(fs) <= Used(f)
  {
  }

  /** A new node and then changes to nothing but `c` and what is newer still. */
  lemma BesideNew(fs: Fs, f: Fs, g: Fs, p: nat, name: seq<byte>, c: nat, mode: u32)
    requires Ready(fs, p) && Grown(fs, f, p, name, c, mode)
    requires forall m: nat :: m < 256 && f.inodeUsed[m] && m != c ==> g.inodeUsed[m] && SameInode(f, g, m)
    ensures g.inodes[p].mode == fs.inodes[p].mode && c !in Used(fs)
    ensures forall m: nat :: m < 256 && fs.inodeUsed[m] ==> g.inodeUsed[m] && (m != p ==> SameInode(fs, g, m))
    ensures Lookup(TreeOf(g), p, name) == c
    ensures forall x :: x != name ==> Lookup(TreeOf(g), p, x) == Lookup(TreeOf(fs), p, x)
  {
    hide BuilderOk, TreeOf, Lookup, SameInode;
    assert f.inodeUsed[p] && SameInode(f, g, p);
    RecordKept(f, g, p);
    forall m: nat | m < 256 && fs.inodeUsed[m] ensures g.inodeUsed[m] && (m != p ==> SameInode(fs, g, m)) {
      assert m != c && f.inodeUsed[m];
      if m != p {
        SameTwice(fs, f, g, m);
      }
    }
    forall x ensures Lookup(TreeOf(g), p, x) == Lookup(TreeOf(f), p, x) {
      LookupSame(f, g, p, x);
    }
  }

  lemma OnlyName(node: Node, x: seq<byte>)
    ensures !Named([node], x) ==> x != node.name
  {
    assert [node][0].name == node.name;
  }

  /** The frame of an import of one node, once the node itself is held. */
  lemma OneHeld(fs: Fs, f: Fs, g: Fs, p: nat, node: Node, c: nat, mode: u32)
    requires Ready(fs, p) && Grown(fs, f, p, node.name, c, mode) && BuilderOk(g)
    requires forall m: nat :: m < 256 && f.inodeUsed[m] && m != c ==> g.inodeUsed[m] && SameInode(f, g, m)
    requires Holds(g, p, node, Used(fs))
    ensures Imported(fs, g, p, [node])
  {
    hide BuilderOk, TreeOf, Lookup, SameInode, Holds, Grown, Named;
    BesideNew(fs, f, g, p, node.name, c, mode);
    forall x | !Named([node], x) ensures Lookup(TreeOf(g), p, x) == Lookup(TreeOf(fs), p, x) {
      OnlyName(node, x);
    }
  }

  lemma OneFile(fs: Fs, f: Fs, g: Fs, p: nat, node: Node, c: nat)
    requires Ready(fs, p) && node.FileNode? && Grown(fs, f, p, node.name, c, ModeOf(node))
    requires BuilderOk(g) && OthersSame(f, g, c) && TreeOf(g) == TreeOf(f) && FileHeld(g, c, node)
    ensures Imported(fs, g, p, [node])
  {
    hide BuilderOk, TreeOf, Lookup, SameInode, Grown, FileHeld, Imported;
    BesideNew(fs, f, g, p, node.name, c, ModeOf(node));
    assert c < 256 && g.inodeUsed[c] by { HeldUsed(g, c, node); }
    assert Holds(g, p, node, Used(fs));
    OneHeld(fs, f, g, p, node, c, ModeOf(node));
  }

  lemma HeldUsed(g: Fs, c: nat, node: Node)
    requires FileHeld(g, c, node)
    ensures c < 256 && g.inodeUsed[c]
  {
  }

  lemma SameTwice(a: Fs, b: Fs, c: Fs, m: nat)
    requires m < 256 && SameInode(a, b, m) && SameInode(b, c, m)
    ensures SameInode(a, c, m)
  {
    hide Content, BlockOf;
  }

  lemma OneDir(fs: Fs, f: Fs, g: Fs, p: nat, node: Node, c: nat)
    requires Ready(fs, p) && node.DirNode? && Grown(fs, f, p, node.name, c, 2) && Imported(f, g, c, node.children)
    ensures Imported(fs, g, p, [node])
  {
    hide BuilderOk, TreeOf, Lookup, SameInode, Grown, Named, Holds;
    GrownFacts(fs, f, p, node.name, c, 2);
    BesideNew(fs, f, g, p, node.name, c, 2);
    GrownUsed(fs, f, p, node.name, c, 2);
    assert Holds(g, p, node, Used(fs)) by {
      forall i | 0 <= i < |node.children| ensures Holds(g, c, node.children[i], Used(fs)) {
        HoldsFewer(g, c, node.children[i], Used(f), Used(fs));
      }
      HoldsDir(g, p, node, Used(fs), c);
    }
    OneHeld(fs, f, g, p, node, c, 2);
  }

  lemma GrownUsed(fs: Fs, f: Fs, p: nat, name: seq<byte>, c: int, mode: u32)
    requires Grown(fs, f, p, name, c, mode)
    ensures Used(fs) <= Used(f)
  {
    hide TreeOf, Lookup, SameInode;
    UsedGrows(fs, f);
  }

  lemma HoldsDir(g: Fs, p: nat, node: Node, before: set<nat>, c: nat)
    requires node.DirNode? && Lookup(TreeOf(g), p, node.name) == c && c < 256 && c !in before && g.inodeUsed[c]
    requires g.inodes[c].mode == 2 && forall i :: 0 <= i < |node.children| ==> Holds(g, c, node.children[i], before)
    ensures Holds(g, p, node, before)
  {
    hide TreeOf, Lookup;
  }

  lemma {:induction false} ImportOneOk(fs: Fs, node: Node, p: nat)
    requires Ready(fs, p) && HostName(node.name) && Lookup(TreeOf(fs), p, node.name) < 0
    requires node.DirNode? ==> Importable(node.children)
    ensures var (g, ok) := ImportOne(fs, node, p); ok ==> Imported(fs, g, p, [node])
    decreases node
  {
    hide BuilderOk, AddNode, WriteFile, Imported, Grown, Holds, Lookup, HostName, Importable, Import;
    AddNodeOk(fs, p, node.name, ModeOf(node)) by { ModeKinds(node); }
    var (f, c) := AddNode(fs, p, node.name, ModeOf(node));
    if 0 <= c < 256 {
      GrownFacts(fs, f, p, node.name, c, ModeOf(node));
      match node
      case FileNode(_, _, bytes) =>
        FileOk(f, c, node);
        var (g, ok) := WriteFile(f, c, bytes);
        if ok {
          OneFile(fs, f, g, p, node, c);
        }
      case DirNode(_, children) =>
        ImportOk(f, children, c);
        var (g, ok) := Import(f, children, c);
        if ok {
          OneDir(fs, f, g, p, node, c);
        }
    }
  }

  lemma ModeKinds(node: Node)
    ensures ModeOf(node) % 256 == MODE_FILE || ModeOf(node) % 256 == MODE_DIR
  {
  }

  lemma GrownFacts(fs: Fs, f: Fs, p: nat, name: seq<byte>, c: int, mode: u32)
    requires Grown(fs, f, p, name, c, mode)
    ensures 0 < c < 256 && f.inodeUsed[c] && f.inodes[c].mode == mode && f.inodes[c].size == 0
    ensures forall x :: Lookup(TreeOf(f), c, x) < 0
  {
    hide TreeOf, Lookup, SameInode;
  }

  /** Importing a list of nodes leaves exactly them, and everything that was there. */
  lemma {:induction false} ImportOk(fs: Fs, kids: seq<Node>, p: nat)
    requires Ready(fs, p) && Importable(kids)
    requires forall i :: 0 <= i < |kids| ==> Lookup(TreeOf(fs), p, kids[i].name) < 0
    ensures var (g, ok) := Import(fs, kids, p); ok ==> Imported(fs, g, p, kids)
    decreases kids
  {
    hide BuilderOk, ImportOne, Imported, Holds, Lookup, HostName, TreeOf;
    if kids == [] {
      ImportedNothing(fs, p);
    } else {
      ImportOneOk(fs, kids[0], p);
      var (f, ok) := ImportOne(fs, kids[0], p);
      if ok {
        RestReady(fs, f, p, kids);
        ImportOk(f, kids[1..], p);
        var (g, done) := Import(f, kids[1..], p);
        if done {
          ImportedBoth(fs, f, g, p, kids);
        }
      }
    }
  }

  lemma ImportedNothing(fs: Fs, p: nat)
    requires Ready(fs, p)
    ensures Imported(fs, fs, p, [])
  {
    hide BuilderOk, TreeOf, Lookup;
  }

  lemma RestReady(fs: Fs, f: Fs, p: nat, kids: seq<Node>)
    requires Ready(fs, p) && kids != [] && Importable(kids) && Imported(fs, f, p, [kids[0]])
    requires forall i :: 0 <= i < |kids| ==> Lookup(TreeOf(fs), p, kids[i].name) < 0
    ensures Ready(f, p) && Importable(kids[1..])
    ensures forall i :: 0 <= i < |kids[1..]| ==> Lookup(TreeOf(f), p, kids[1..][i].name) < 0
  {
    hide BuilderOk, TreeOf, Lookup, Holds, HostName, SameInode;
    forall i | 0 <= i < |kids[1..]| ensures Lookup(TreeOf(f), p, kids[1..][i].name) < 0 {
      assert kids[1..][i] == kids[i + 1];
      assert kids[0].name != kids[i + 1].name;
      assert !Named([kids[0]], kids[i + 1].name);
    }
    ImportableRest(kids);
  }

  lemma ImportableRest(kids: seq<Node>)
    requires kids != [] && Importable(kids)
    ensures Importable(kids[1..])
  {
    hide GoodName;
    var r := kids[1..];
    assert forall i :: 0 <= i < |r| ==> r[i] == kids[i + 1];
  }

  lemma ImportedBoth(fs: Fs, f: Fs, g: Fs, p: nat, kids: seq<Node>)
    requires Ready(fs, p) && kids != [] && Importable(kids) && Imported(fs, f, p, [kids[0]]) && Imported(f, g, p, kids[1..])
    ensures Imported(fs, g, p, kids)
  {
    hide BuilderOk, TreeOf, Lookup, Holds, HostName, SameInode, Importable;
    var rest := kids[1..];
    forall m: nat | m < 256 && fs.inodeUsed[m] ensures g.inodeUsed[m] && (m != p ==> SameInode(fs, g, m)) {
      assert f.inodeUsed[m];
      if m != p {
        SameTwice(fs, f, g, m);
      }
    }
    forall x | !Named(kids, x) ensures Lookup(TreeOf(g), p, x) == Lookup(TreeOf(fs), p, x) {
      NotNamed(kids, x);
    }
    UsedGrows(fs, f);
    forall i | 0 <= i < |kids| ensures Holds(g, p, kids[i], Used(fs)) {
      if i == 0 {
        assert Holds(f, p, [kids[0]][0], Used(fs));
        FirstUnnamed(kids);
        forall m: nat | m < 256 && f.inodeUsed[m] && m !in Used(fs) ensures g.inodeUsed[m] && SameInode(f, g, m) {
          assert p in Used(fs);
        }
        HoldsKept(f, g, p, kids[0], Used(fs));
      } else {
        assert rest[i - 1] == kids[i];
        HoldsFewer(g, p, rest[i - 1], Used(f), Used(fs));
      }
    }
  }

  lemma NotNamed(kids: seq<Node>, x: seq<byte>)
    requires kids != [] && !Named(kids, x)
    ensures !Named([kids[0]], x) && !Named(kids[1..], x)
  {
    var r := kids[1..];
    assert forall i :: 0 <= i < |r| ==> r[i] == kids[i + 1];
    assert kids[0].name != x;
  }

  lemma FirstUnnamed(kids: seq<Node>)
    requires kids != [] && Importable(kids)
    ensures !Named(kids[1..], kids[0].name)
  {
    hide GoodName;
    var r := kids[1..];
    assert forall i :: 0 <= i < |r| ==> r[i] == kids[i + 1];
  }
}
