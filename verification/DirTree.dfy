/** The directory tree MiniFS stores, without blocks: which inodes are in use, their modes and parent
    links, and the entry table of every directory. */
module DirTree {
  import opened Bytes

  const NONE := 0xffff_ffff
  const SLASH: byte := 47
  const DOT: byte := 46

  /** A directory entry: 56 bytes of name, NUL-terminated. */
  datatype Dirent = Dirent(inode: u32, mode: u32, name: seq<byte>)

  /** The C string at the start of a buffer. */
  function CString(raw: seq<byte>): (s: seq<byte>)
    ensures |s| <= |raw| && s == raw[..|s|] && 0 !in s
    ensures |s| < |raw| ==> raw[|s|] == 0
  {
    if raw == [] || raw[0] == 0 then [] else [raw[0]] + CString(raw[1..])
  }

  lemma {:induction false} CStringOf(s: seq<byte>, tail: seq<byte>)
    requires 0 !in s && (tail == [] || tail[0] == 0)
    ensures CString(s + tail) == s
  {
    if s == [] {
      assert s + tail == tail;
    } else {
      assert (s + tail)[1..] == s[1..] + tail;
      CStringOf(s[1..], tail);
    }
  }

  predicate Live(e: Dirent) {
    e.inode != NONE
  }

  predicate GoodName(s: seq<byte>) {
    1 <= |s| <= 55 && 0 !in s && SLASH !in s && s != [DOT] && s != [DOT, DOT]
  }

  datatype TreeRecord = Tree(used: seq<bool>, mode: seq<u32>, parent: seq<u32>, entries: seq<seq<Dirent>>)

  type Tree = t: TreeRecord | |t.used| == 256 && |t.mode| == 256 && |t.parent| == 256 && |t.entries| == 256
    witness Tree(seq(256, i => false), seq(256, i => 0), seq(256, i => 0), seq(256, i => []))

  predicate IsDir(t: Tree, n: nat)
    requires n < 256
  {
    t.mode[n] % 256 == 2
  }

  predicate LiveAt(t: Tree, d: int, i: int) {
    0 <= d < 256 && 0 <= i < |t.entries[d]| && Live(t.entries[d][i])
  }

  function NameAt(t: Tree, d: int, i: int): seq<byte>
    requires LiveAt(t, d, i)
  {
    CString(t.entries[d][i].name)
  }

  /** Following parent links from `n` reaches the root through inodes in use in at most `k` steps. */
  predicate Rooted(t: Tree, n: int, k: nat)
    decreases k
  {
    0 <= n < 256 && t.used[n] && (n == 0 || (k > 0 && Rooted(t, t.parent[n], k - 1)))
  }

  ghost predicate EntriesOk(t: Tree) {
    forall d, i :: LiveAt(t, d, i) ==>
      var e := t.entries[d][i];
      && t.used[d] && IsDir(t, d)
      && 0 < e.inode < 256 && t.used[e.inode] && t.parent[e.inode] == d
      && e.mode == t.mode[e.inode]
      && |e.name| == 56 && GoodName(CString(e.name))
  }

  ghost predicate NamesUnique(t: Tree) {
    forall d, i, j :: LiveAt(t, d, i) && LiveAt(t, d, j) && NameAt(t, d, i) == NameAt(t, d, j) ==> i == j
  }

  /** No inode has two entries. */
  ghost predicate LinkedOnce(t: Tree) {
    forall d, i, j :: LiveAt(t, d, i) && LiveAt(t, d, j) && t.entries[d][i].inode == t.entries[d][j].inode ==> i == j
  }

  /** Every inode in use except the root has an entry, and it sits in its recorded parent. */
  ghost predicate Linked(t: Tree) {
    forall n :: 0 < n < 256 && t.used[n] ==>
      && t.parent[n] < 256
      && exists i :: LiveAt(t, t.parent[n], i) && t.entries[t.parent[n]][i].inode == n
  }

  ghost predicate AllRooted(t: Tree) {
    forall n :: 0 <= n < 256 && t.used[n] ==> exists k: nat :: Rooted(t, n, k)
  }

  ghost predicate TreeOk(t: Tree) {
    && t.used[0] && IsDir(t, 0) && t.parent[0] == 0
    && EntriesOk(t) && NamesUnique(t) && LinkedOnce(t) && Linked(t) && AllRooted(t)
  }

  /** First live entry called `name`, from index `i` on; `|es|` when there is none. */
  function FindName(es: seq<Dirent>, name: seq<byte>, i: nat): (r: nat)
    requires i <= |es|
    ensures i <= r <= |es|
    ensures r < |es| ==> Live(es[r]) && CString(es[r].name) == name
    ensures forall j :: i <= j < r ==> !(Live(es[j]) && CString(es[j].name) == name)
    decreases |es| - i
  {
    if i == |es| || (Live(es[i]) && CString(es[i].name) == name) then i else FindName(es, name, i + 1)
  }

  /** `dir_lookup`: the inode an entry called `name` of `d` points to, or -1. */
  function Lookup(t: Tree, d: nat, name: seq<byte>): int {
    if d >= 256 || !IsDir(t, d) then -1
    else
      var i := FindName(t.entries[d], name, 0);
      if i == |t.entries[d]| then -1 else t.entries[d][i].inode
  }

  /** The first tombstone, or the end of the table. */
  function FreeSlot(es: seq<Dirent>, i: nat): (r: nat)
    requires i <= |es|
    ensures i <= r <= |es|
    ensures r < |es| ==> !Live(es[r])
    ensures forall j :: i <= j < r ==> Live(es[j])
    decreases |es| - i
  {
    if i == |es| || !Live(es[i]) then i else FreeSlot(es, i + 1)
  }

  function PutEntry(es: seq<Dirent>, i: nat, e: Dirent): (r: seq<Dirent>)
    requires i <= |es|
  {
    if i < |es| then es[i := e] else es + [e]
  }

  // ---------------------------------------------------------------- adding and removing a leaf

  /** A new inode `c` under `p`, entered at index `i`. */
  function AddLeaf(t: Tree, p: nat, i: nat, e: Dirent): (r: Tree)
    requires p < 256 && i <= |t.entries[p]| && 0 < e.inode < 256
  {
    var c := e.inode;
    t.(used := t.used[c := true], mode := t.mode[c := e.mode], parent := t.parent[c := p],
       entries := t.entries[c := []][p := PutEntry(t.entries[p], i, e)])
  }

  /** The entry at index `i` of `p` becomes a tombstone and its inode is freed. */
  function RemoveLeaf(t: Tree, p: nat, i: nat, c: nat): (r: Tree)
    requires LiveAt(t, p, i) && c < 256
  {
    var e := t.entries[p][i];
    t.(used := t.used[c := false], mode := t.mode[c := 0], parent := t.parent[c := 0],
       entries := t.entries[c := []][p := t.entries[p][i := e.(inode := NONE)]])
  }

  ghost predicate Addable(t: Tree, p: nat, i: nat, e: Dirent) {
    && TreeOk(t) && p < 256 && t.used[p] && IsDir(t, p)
    && i <= |t.entries[p]| && (i < |t.entries[p]| ==> !Live(t.entries[p][i]))
    && 0 < e.inode < 256 && !t.used[e.inode] && |t.entries[e.inode]| == 0
    && |e.name| == 56 && GoodName(CString(e.name))
    && FindName(t.entries[p], CString(e.name), 0) == |t.entries[p]|
  }

  /** `u` has exactly one more live entry than `t`, at index `i` of `p`. */
  ghost predicate LiveAdded(t: Tree, u: Tree, p: nat, i: nat) {
    && (forall d, j :: LiveAt(u, d, j) <==> (LiveAt(t, d, j) || (d == p && j == i)))
    && (forall d, j :: LiveAt(t, d, j) ==> LiveAt(u, d, j) && u.entries[d][j] == t.entries[d][j])
  }

  lemma AddLeafLive(t: Tree, p: nat, i: nat, e: Dirent)
    requires Addable(t, p, i, e)
    ensures var u := AddLeaf(t, p, i, e);
            && LiveAdded(t, u, p, i) && LiveAt(u, p, i) && u.entries[p][i] == e
            && !LiveAt(t, p, i) && forall j :: LiveAt(t, p, j) ==> NameAt(t, p, j) != CString(e.name)
  {
    hide FindName;
    var u := AddLeaf(t, p, i, e);
    assert u.entries[p] == PutEntry(t.entries[p], i, e);
    forall d, j | LiveAt(u, d, j) && !(d == p && j == i) ensures LiveAt(t, d, j) && u.entries[d][j] == t.entries[d][j] {
    }
    forall d, j | LiveAt(t, d, j) ensures LiveAt(u, d, j) && u.entries[d][j] == t.entries[d][j] {
    }
  }

  lemma AddLeafEntries(t: Tree, p: nat, i: nat, e: Dirent)
    requires Addable(t, p, i, e)
    ensures var u := AddLeaf(t, p, i, e); EntriesOk(u) && NamesUnique(u) && LinkedOnce(u)
  {
    hide FindName, CString, GoodName, Linked, AllRooted;
    AddLeafLive(t, p, i, e);
    var u := AddLeaf(t, p, i, e);
    forall d, j | LiveAt(t, d, j) ensures t.entries[d][j].inode != e.inode && d != e.inode {
    }
    forall d, j | LiveAt(u, d, j)
      ensures var f := u.entries[d][j];
        && u.used[d] && IsDir(u, d)
        && 0 < f.inode < 256 && u.used[f.inode] && u.parent[f.inode] == d
        && f.mode == u.mode[f.inode]
        && |f.name| == 56 && GoodName(CString(f.name))
    {
    }
  }

  lemma AddLeafRooted(t: Tree, p: nat, i: nat, e: Dirent)
    requires Addable(t, p, i, e)
    ensures AllRooted(AddLeaf(t, p, i, e))
  {
    var u := AddLeaf(t, p, i, e);
    forall n | 0 <= n < 256 && u.used[n] ensures exists k: nat :: Rooted(u, n, k) {
      var m := if n == e.inode then p else n;
      var k: nat :| Rooted(t, m, k);
      RootedKept(t, u, m, k);
      if n == e.inode {
        assert Rooted(u, n, k + 1);
      }
    }
  }

  /** Chains through inodes whose use and parent did not change stay. */
  lemma {:induction false} RootedKept(t: Tree, u: Tree, n: int, k: nat)
    requires Rooted(t, n, k)
    requires forall m :: 0 <= m < 256 && t.used[m] ==> u.used[m] && u.parent[m] == t.parent[m]
    ensures Rooted(u, n, k)
    decreases k
  {
    if n != 0 {
      RootedKept(t, u, t.parent[n], k - 1);
    }
  }

  /** Entering a new leaf keeps the tree. */
  lemma AddLeafOk(t: Tree, p: nat, i: nat, e: Dirent)
    requires Addable(t, p, i, e)
    ensures TreeOk(AddLeaf(t, p, i, e))
  {
    var u := AddLeaf(t, p, i, e);
    AddLeafLive(t, p, i, e);
    AddLeafEntries(t, p, i, e);
    AddLeafRooted(t, p, i, e);
    forall n | 0 < n < 256 && u.used[n]
      ensures u.parent[n] < 256 && exists j :: LiveAt(u, u.parent[n], j) && u.entries[u.parent[n]][j].inode == n
    {
      if n == e.inode {
        assert LiveAt(u, p, i) && u.entries[p][i].inode == n;
      } else {
        var j :| LiveAt(t, t.parent[n], j) && t.entries[t.parent[n]][j].inode == n;
        assert LiveAt(u, t.parent[n], j) && u.entries[t.parent[n]][j].inode == n;
      }
    }
  }

  /** Entry `i` of `p` names `c`, which has no live entry of its own. */
  ghost predicate Removable(t: Tree, p: nat, i: nat, c: nat) {
    && TreeOk(t) && LiveAt(t, p, i) && c < 256 && t.entries[p][i].inode == c
    && forall j :: !LiveAt(t, c, j)
  }

  lemma RemoveLeafLive(t: Tree, p: nat, i: nat, c: nat)
    requires Removable(t, p, i, c)
    ensures LiveAdded(RemoveLeaf(t, p, i, c), t, p, i) && !LiveAt(RemoveLeaf(t, p, i, c), p, i)
    ensures c != p
  {
    hide CString, GoodName, Linked, AllRooted, NamesUnique, LinkedOnce;
    var u := RemoveLeaf(t, p, i, c);
    assert !LiveAt(t, c, i);
    assert u.entries[p] == t.entries[p][i := t.entries[p][i].(inode := NONE)];
    forall d, j | LiveAt(u, d, j) ensures LiveAt(t, d, j) && !(d == p && j == i) && u.entries[d][j] == t.entries[d][j] {
    }
    forall d, j | LiveAt(t, d, j) && !(d == p && j == i) ensures LiveAt(u, d, j) {
      assert d != c;
    }
  }

  lemma RemoveLeafEntries(t: Tree, p: nat, i: nat, c: nat)
    requires Removable(t, p, i, c)
    ensures var u := RemoveLeaf(t, p, i, c); EntriesOk(u) && NamesUnique(u) && LinkedOnce(u)
  {
    hide CString, GoodName, Linked, AllRooted;
    RemoveLeafLive(t, p, i, c);
    var u := RemoveLeaf(t, p, i, c);
    forall d, j | LiveAt(u, d, j) ensures t.entries[d][j].inode != c && d != c {
      assert LiveAt(t, d, j);
    }
    forall d, j | LiveAt(u, d, j)
      ensures var f := u.entries[d][j];
        && u.used[d] && IsDir(u, d)
        && 0 < f.inode < 256 && u.used[f.inode] && u.parent[f.inode] == d
        && f.mode == u.mode[f.inode]
        && |f.name| == 56 && GoodName(CString(f.name))
    {
      assert LiveAt(t, d, j);
    }
  }

  lemma {:induction false} RemoveLeafRooted(t: Tree, p: nat, i: nat, c: nat, n: int, k: nat)
    requires Removable(t, p, i, c) && Rooted(t, n, k) && n != c
    ensures Rooted(RemoveLeaf(t, p, i, c), n, k)
    decreases k
  {
    if n != 0 {
      RemoveLeafRooted(t, p, i, c, t.parent[n], k - 1);
    }
  }

  /** Removing a leaf keeps the tree. */
  lemma RemoveLeafOk(t: Tree, p: nat, i: nat, c: nat)
    requires Removable(t, p, i, c)
    ensures TreeOk(RemoveLeaf(t, p, i, c))
  {
    var u := RemoveLeaf(t, p, i, c);
    RemoveLeafLive(t, p, i, c);
    RemoveLeafEntries(t, p, i, c);
    forall n | 0 <= n < 256 && u.used[n] ensures exists k: nat :: Rooted(u, n, k) {
      var k: nat :| Rooted(t, n, k);
      RemoveLeafRooted(t, p, i, c, n, k);
    }
    forall n | 0 < n < 256 && u.used[n]
      ensures u.parent[n] < 256 && exists j :: LiveAt(u, u.parent[n], j) && u.entries[u.parent[n]][j].inode == n
    {
      var j :| LiveAt(t, t.parent[n], j) && t.entries[t.parent[n]][j].inode == n;
      assert LiveAt(u, u.parent[n], j);
    }
  }
}
