/** What entering and removing a leaf does to the paths that lead through the tree. */
module TreeChanges {
  import opened Bytes
  import opened DirTree
  import opened Paths

  // ---------------------------------------------------------------- entering a leaf

  /** Names that were found are still found, at the same inode. */
  lemma LookupKept(t: Tree, p: nat, i: nat, e: Dirent, d: nat, x: seq<byte>)
    requires Addable(t, p, i, e) && d < 256 && d != e.inode && Lookup(t, d, x) >= 0
    ensures Lookup(AddLeaf(t, p, i, e), d, x) == Lookup(t, d, x)
  {
    hide TreeOk, CString, GoodName;
    if d == p {
      var es, fs := t.entries[p], PutEntry(t.entries[p], i, e);
      var j, k := FindName(es, x, 0), FindName(fs, x, 0);
      assert x != CString(e.name);
      assert j != i && fs[j] == es[j];
      assert k <= j;
      assert k != i;
      assert fs[k] == es[k];
    }
  }

  /** So every path that led somewhere leads there still. */
  lemma {:induction false} WalkKept(t: Tree, p: nat, i: nat, e: Dirent, cur: nat, cs: seq<seq<byte>>)
    requires Addable(t, p, i, e) && cur < 256 && t.used[cur] && Walk(t, cur, cs) >= 0
    ensures Walk(AddLeaf(t, p, i, e), cur, cs) == Walk(t, cur, cs)
    decreases |cs|
  {
    hide TreeOk, Lookup, CString, GoodName, FindName;
    if cs != [] {
      if cs[0] == [DOT] {
        WalkKept(t, p, i, e, cur, cs[1..]);
      } else if cs[0] == [DOT, DOT] {
        ParentUsed(t, cur);
        WalkKept(t, p, i, e, t.parent[cur], cs[1..]);
      } else {
        LookupKept(t, p, i, e, cur, cs[0]);
        LookupUsed(t, cur, cs[0]);
        WalkKept(t, p, i, e, Lookup(t, cur, cs[0]), cs[1..]);
      }
    }
  }

  /** The path whose last name was entered now resolves to the new leaf. */
  lemma NewPath(t: Tree, p: nat, i: nat, e: Dirent, cwd: u32, path: seq<byte>)
    requires Addable(t, p, i, e) && cwd < 256 && t.used[cwd] && 0 !in path && ResolveParent(t, cwd, path) == (p, CString(e.name))
    ensures Resolve(AddLeaf(t, p, i, e), cwd, path) == e.inode
  {
    hide TreeOk, Lookup, CString, GoodName, FindName, Walk, Components, Trimmed, LastSlash, AddLeaf;
    var u := AddLeaf(t, p, i, e);
    var slash := LastSlash(path, Trimmed(path, |path|));
    if slash > 0 {
      assert t.used[0] by { RootUsed(t); }
      var start := if path[0] == SLASH then 0 else cwd;
      assert path[..slash][0] == path[0];
      WalkKept(t, p, i, e, start, Components(path[..slash]));
    }
    assert ResolveParent(u, cwd, path) == (p, CString(e.name));
    ResolveParentAgrees(u, cwd, path);
    NewName(t, p, i, e);
  }

  lemma NewName(t: Tree, p: nat, i: nat, e: Dirent)
    requires Addable(t, p, i, e)
    ensures Lookup(AddLeaf(t, p, i, e), p, CString(e.name)) == e.inode
  {
    hide TreeOk, CString, GoodName;
    var fs := PutEntry(t.entries[p], i, e);
    var k := FindName(fs, CString(e.name), 0);
    assert fs[i] == e;
    assert forall j :: 0 <= j < i ==> fs[j] == t.entries[p][j];
    assert k == i;
  }

  // ---------------------------------------------------------------- removing a leaf

  /** No name finds anything it did not find before, and nothing finds the leaf. */
  lemma LookupFewer(t: Tree, p: nat, i: nat, n: nat, d: nat, x: seq<byte>)
    requires Removable(t, p, i, n) && d < 256 && d != n
    ensures var r := Lookup(RemoveLeaf(t, p, i, n), d, x); r < 0 || (r == Lookup(t, d, x) && r != n)
  {
    hide CString, GoodName, Linked, AllRooted;
    var u := RemoveLeaf(t, p, i, n);
    RemovedIsLinked(t, p, i, n);
    if IsDir(t, d) {
      var j, k := FindName(t.entries[d], x, 0), FindName(u.entries[d], x, 0);
      if k < |u.entries[d]| {
        assert LiveAt(u, d, k);
        assert LiveAt(t, d, k) && u.entries[d][k] == t.entries[d][k] && NameAt(t, d, k) == x;
        assert LiveAt(t, d, j) && NameAt(t, d, j) == x;
        assert j == k;
      }
    }
  }

  lemma RemovedIsLinked(t: Tree, p: nat, i: nat, n: nat)
    requires Removable(t, p, i, n)
    ensures n != p && 0 < n < 256 && t.used[n] && t.parent[n] == p && p < 256 && t.used[p]
    ensures forall d, j :: LiveAt(t, d, j) && t.entries[d][j].inode == n ==> d == p && j == i
  {
    hide CString, GoodName, Linked, AllRooted, NamesUnique, FindName;
    RemoveLeafLive(t, p, i, n);
  }

  lemma {:induction false} WalkFewer(t: Tree, p: nat, i: nat, n: nat, cur: nat, cs: seq<seq<byte>>)
    requires Removable(t, p, i, n) && cur < 256 && t.used[cur] && cur != n
    ensures var r := Walk(RemoveLeaf(t, p, i, n), cur, cs); r < 0 || (r == Walk(t, cur, cs) && r != n)
    decreases |cs|
  {
    hide Lookup, CString, GoodName, FindName, RemoveLeaf, TreeOk;
    var u := RemoveLeaf(t, p, i, n);
    RemovedFrame(t, p, i, n, cur);
    assert TreeOk(t) by { RemovableTree(t, p, i, n); }
    if cs != [] && |cs[0]| <= 55 {
      if cs[0] == [DOT] {
        WalkFewer(t, p, i, n, cur, cs[1..]);
      } else if cs[0] == [DOT, DOT] {
        ParentUsed(t, cur);
        ParentNotLeaf(t, p, i, n, cur);
        WalkFewer(t, p, i, n, t.parent[cur], cs[1..]);
      } else {
        LookupFewer(t, p, i, n, cur, cs[0]);
        if Lookup(u, cur, cs[0]) >= 0 {
          LookupUsed(t, cur, cs[0]);
          WalkFewer(t, p, i, n, Lookup(t, cur, cs[0]), cs[1..]);
        }
      }
    }
  }

  lemma RemovableTree(t: Tree, p: nat, i: nat, n: nat)
    requires Removable(t, p, i, n)
    ensures TreeOk(t) && LiveAt(t, p, i)
  {
  }

  lemma RemovedFrame(t: Tree, p: nat, i: nat, n: nat, m: nat)
    requires Removable(t, p, i, n) && m < 256 && m != n
    ensures n < 256 && LiveAt(t, p, i) && RemoveLeaf(t, p, i, n).parent[m] == t.parent[m]
  {
  }

  /** A leaf is nobody's parent. */
  lemma ParentNotLeaf(t: Tree, p: nat, i: nat, n: nat, m: nat)
    requires Removable(t, p, i, n) && m < 256 && t.used[m] && m != n
    ensures t.parent[m] != n
  {
    hide CString, GoodName, AllRooted, NamesUnique, FindName, LinkedOnce, EntriesOk;
    RemovedIsLinked(t, p, i, n);
    if m != 0 {
      var j :| LiveAt(t, t.parent[m], j) && t.entries[t.parent[m]][j].inode == m;
    }
  }

  /** The path that led to the leaf leads nowhere any more. */
  lemma OldPath(t: Tree, p: nat, i: nat, n: nat, cwd: u32, path: seq<byte>)
    requires Removable(t, p, i, n) && cwd < 256 && t.used[cwd] && cwd != n && Resolve(t, cwd, path) == n
    ensures Resolve(RemoveLeaf(t, p, i, n), cwd, path) < 0
  {
    hide Lookup, CString, GoodName, FindName, RemoveLeaf, TreeOk, Components, Walk, Removable;
    RemovableTree(t, p, i, n);
    RemovedIsLinked(t, p, i, n);
    assert t.used[0] by { RootUsed(t); }
    WalkFewer(t, p, i, n, if path[0] == SLASH then 0 else cwd, Components(path));
  }
}
