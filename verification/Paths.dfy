/** Path walking over the directory tree: `resolve`, `resolve_parent` and `minifs_getcwd`.
    A path is the C string without its terminator. */
module Paths {
  import opened Bytes
  import opened DirTree

  // ---------------------------------------------------------------- components

  /** Length of the longest prefix without a slash. */
  function NameLength(p: seq<byte>): (n: nat)
    ensures n <= |p| && SLASH !in p[..n] && (n < |p| ==> p[n] == SLASH)
  {
    if p == [] || p[0] == SLASH then 0 else 1 + NameLength(p[1..])
  }

  /** The names between slashes, empty ones dropped. */
  function Components(p: seq<byte>): (cs: seq<seq<byte>>)
    decreases |p|
  {
    if p == [] then []
    else if p[0] == SLASH then Components(p[1..])
    else
      var n := NameLength(p);
      [p[..n]] + Components(p[n..])
  }

  /** "/a/b/c", and "" for no names. */
  function JoinPath(names: seq<seq<byte>>): seq<byte> {
    if names == [] then [] else JoinPath(names[..|names| - 1]) + [SLASH] + names[|names| - 1]
  }

  /** Where following the components from `cur` ends, or -1. */
  function Walk(t: Tree, cur: int, cs: seq<seq<byte>>): (r: int)
    requires 0 <= cur
    ensures -1 <= r
    decreases |cs|
  {
    if cs == [] then cur
    else if |cs[0]| > 55 then -1
    else if cs[0] == [DOT] then Walk(t, cur, cs[1..])
    else if cs[0] == [DOT, DOT] then (if cur >= 256 then -1 else Walk(t, t.parent[cur], cs[1..]))
    else
      var c := Lookup(t, cur, cs[0]);
      if c < 0 then -1 else Walk(t, c, cs[1..])
  }

  /** `resolve` */
  function Resolve(t: Tree, cwd: u32, p: seq<byte>): (r: int)
    ensures -1 <= r
  {
    if p == [] || |p| >= 256 then -1
    else Walk(t, if p[0] == SLASH then 0 else cwd, Components(p))
  }

  /** The length of `p` without its trailing slashes, but at least 1. */
  function Trimmed(p: seq<byte>, n: nat): (r: nat)
    requires n <= |p|
    ensures r <= n && (n >= 1 ==> r >= 1)
    ensures forall k :: r <= k < n ==> p[k] == SLASH
    ensures r > 1 ==> p[r - 1] != SLASH
  {
    if n > 1 && p[n - 1] == SLASH then Trimmed(p, n - 1) else n
  }

  /** Index of the last slash in the first `n` bytes, or -1. */
  function LastSlash(p: seq<byte>, n: nat): (r: int)
    requires n <= |p|
    ensures -1 <= r < n
    ensures r >= 0 ==> p[r] == SLASH
    ensures forall k :: r < k < n ==> p[k] != SLASH
  {
    if n == 0 then -1 else if p[n - 1] == SLASH then n - 1 else LastSlash(p, n - 1)
  }

  /** Last components `resolve_parent` refuses. */
  predicate NotAName(name: seq<byte>) {
    |name| == 0 || |name| > 55 || name == [DOT] || name == [DOT, DOT]
  }

  /** `resolve_parent`: the directory that should hold the last name of `p`, and that name; or -1. */
  function ResolveParent(t: Tree, cwd: u32, p: seq<byte>): (r: (int, seq<byte>))
    ensures -1 <= r.0
  {
    if p == [] || |p| >= 256 then (-1, [])
    else
      var n := Trimmed(p, |p|);
      var slash := LastSlash(p, n);
      var name := p[slash + 1..n];
      if NotAName(name) then (-1, [])
      else if slash < 0 then (cwd, name)
      else if slash == 0 then (0, name)
      else (Resolve(t, cwd, p[..slash]), name)
  }

  // ---------------------------------------------------------------- resolve_parent against resolve

  lemma {:induction false} SlashesOnly(p: seq<byte>)
    requires forall k :: 0 <= k < |p| ==> p[k] == SLASH
    ensures Components(p) == []
  {
    if p != [] {
      SlashesOnly(p[1..]);
    }
  }

  lemma {:induction false} NameLengthOf(name: seq<byte>, tail: seq<byte>)
    requires SLASH !in name && (tail == [] || tail[0] == SLASH)
    ensures NameLength(name + tail) == |name|
  {
    if name == [] {
      assert name + tail == tail;
    } else {
      assert (name + tail)[1..] == name[1..] + tail;
      NameLengthOf(name[1..], tail);
    }
  }

  lemma {:induction false} OneName(name: seq<byte>, tail: seq<byte>)
    requires name != [] && SLASH !in name && (forall k :: 0 <= k < |tail| ==> tail[k] == SLASH)
    ensures Components(name + tail) == [name]
  {
    NameLengthOf(name, tail);
    SlashesOnly(tail);
    assert (name + tail)[..|name|] == name && (name + tail)[|name|..] == tail;
  }

  /** The last name is the last component. */
  lemma {:induction false} ComponentsAppend(a: seq<byte>, name: seq<byte>, tail: seq<byte>)
    requires name != [] && SLASH !in name && (forall k :: 0 <= k < |tail| ==> tail[k] == SLASH)
    ensures Components(a + [SLASH] + name + tail) == Components(a) + [name]
    decreases |a|
  {
    var p := a + [SLASH] + name + tail;
    if a == [] {
      assert p[1..] == name + tail;
      OneName(name, tail);
    } else if a[0] == SLASH {
      assert p[1..] == a[1..] + [SLASH] + name + tail;
      ComponentsAppend(a[1..], name, tail);
    } else {
      var n := NameLength(a);
      assert p == a[..n] + (a[n..] + [SLASH] + name + tail);
      NameLengthOf(a[..n], a[n..] + [SLASH] + name + tail);
      assert p[..n] == a[..n] && p[n..] == a[n..] + [SLASH] + name + tail;
      ComponentsAppend(a[n..], name, tail);
    }
  }

  lemma {:induction false} WalkAppend(t: Tree, cur: int, cs: seq<seq<byte>>, name: seq<byte>)
    requires 0 <= cur && GoodName(name)
    ensures var d := Walk(t, cur, cs);
            Walk(t, cur, cs + [name]) == if d < 0 then -1 else if Lookup(t, d, name) < 0 then -1 else Lookup(t, d, name)
    decreases |cs|
  {
    hide CString, FindName;
    if cs == [] {
      assert cs + [name] == [name];
    } else {
      assert (cs + [name])[1..] == cs[1..] + [name];
      if |cs[0]| <= 55 {
        if cs[0] == [DOT] {
          WalkAppend(t, cur, cs[1..], name);
        } else if cs[0] == [DOT, DOT] {
          if cur < 256 {
            WalkAppend(t, t.parent[cur], cs[1..], name);
          }
        } else if Lookup(t, cur, cs[0]) >= 0 {
          WalkAppend(t, Lookup(t, cur, cs[0]), cs[1..], name);
        }
      }
    }
  }

  /** The components of a path are those before its last slash and the last name. */
  lemma SplitPath(p: seq<byte>)
    requires p != []
    ensures var n := Trimmed(p, |p|);
            var slash := LastSlash(p, n);
            var name := p[slash + 1..n];
            && SLASH !in name && (slash < 0 ==> p[0] != SLASH)
            && (name != [] ==> Components(p) == Components(if slash < 0 then [] else p[..slash]) + [name])
  {
    hide Components, Trimmed, LastSlash;
    var n := Trimmed(p, |p|);
    var slash := LastSlash(p, n);
    var name, tail := p[slash + 1..n], p[n..];
    if name != [] {
      if slash < 0 {
        assert p == name + tail;
        OneName(name, tail);
        assert Components([]) == [] by { SlashesOnly([]); }
      } else {
        assert p == p[..slash] + [SLASH] + name + tail;
        ComponentsAppend(p[..slash], name, tail);
      }
    }
  }

  lemma NoComponents(t: Tree, cur: nat)
    ensures Components([]) == [] && Walk(t, cur, []) == cur
  {
  }

  /** Whenever `resolve_parent` names a parent and a last component, `resolve` of the whole path is the lookup of
      that component in that parent. */
  lemma {:induction false} ResolveParentAgrees(t: Tree, cwd: u32, p: seq<byte>)
    requires 0 !in p
    ensures var (d, name) := ResolveParent(t, cwd, p);
            d >= 0 ==> GoodName(name) && Resolve(t, cwd, p) == (if Lookup(t, d, name) < 0 then -1 else Lookup(t, d, name))
  {
    hide Lookup, Walk, Components, Trimmed, LastSlash;
    var (d, name) := ResolveParent(t, cwd, p);
    if d >= 0 {
      SplitPath(p);
      var slash := LastSlash(p, Trimmed(p, |p|));
      var start := if p[0] == SLASH then 0 else cwd;
      NoComponents(t, start);
      if slash <= 0 {
        assert p[..0] == [];
        WalkAppend(t, start, [], name);
      } else {
        assert p[..slash][0] == p[0];
        WalkAppend(t, start, Components(p[..slash]), name);
      }
    }
  }

  // ---------------------------------------------------------------- getcwd

  /** First entry that names inode `n`, or the end of the table. */
  function FindInode(es: seq<Dirent>, n: nat, i: nat): (r: nat)
    requires i <= |es|
    ensures i <= r <= |es|
    ensures r < |es| ==> es[r].inode == n
    ensures forall j :: i <= j < r ==> es[j].inode != n
    decreases |es| - i
  {
    if i == |es| || es[i].inode == n then i else FindInode(es, n, i + 1)
  }

  /** The name of inode `n` in its parent; empty when there is none. */
  function OwnName(t: Tree, n: nat): seq<byte>
    requires n < 256 && t.parent[n] < 256
  {
    var es := t.entries[t.parent[n]];
    var i := FindInode(es, n, 0);
    if i == |es| then [] else CString(es[i].name)
  }

  /** The absolute path of `n`, without the leading root: "/usr/bin", and "" for the root itself. */
  function AbsPath(t: Tree, n: nat, k: nat): seq<byte>
    requires Rooted(t, n, k)
    decreases k
  {
    if n == 0 then [] else AbsPath(t, t.parent[n], k - 1) + [SLASH] + OwnName(t, n)
  }

  lemma OwnNameFound(t: Tree, n: nat)
    requires TreeOk(t) && 0 < n < 256 && t.used[n]
    ensures t.parent[n] < 256 && GoodName(OwnName(t, n)) && Lookup(t, t.parent[n], OwnName(t, n)) == n
  {
    hide CString, GoodName, AllRooted;
    var d := t.parent[n];
    var es := t.entries[d];
    var j :| LiveAt(t, d, j) && es[j].inode == n;
    var i := FindInode(es, n, 0);
    assert LiveAt(t, d, i);
    var h := FindName(es, OwnName(t, n), 0);
    assert LiveAt(t, d, h) && NameAt(t, d, h) == NameAt(t, d, i);
  }

  lemma {:induction false} AbsPathWalks(t: Tree, n: nat, k: nat)
    requires TreeOk(t) && Rooted(t, n, k)
    ensures Walk(t, 0, Components(AbsPath(t, n, k))) == n
    decreases k
  {
    hide Lookup, TreeOk, OwnName, GoodName;
    if n != 0 {
      OwnNameFound(t, n);
      AbsPathWalks(t, t.parent[n], k - 1);
      var a, name := AbsPath(t, t.parent[n], k - 1), OwnName(t, n);
      NameHasNoSlash(name);
      ComponentsAppend(a, name, []);
      assert a + [SLASH] + name + [] == AbsPath(t, n, k);
      WalkAppend(t, 0, Components(a), name);
    }
  }

  lemma NameHasNoSlash(name: seq<byte>)
    requires GoodName(name)
    ensures name != [] && SLASH !in name
  {
  }

  datatype PathResult = NoPath | APath(path: seq<byte>)

  /** `minifs_getcwd` into a buffer of `length` bytes: the absolute path, unless it needs more than 255 bytes or
      more than the buffer holds. */
  function GetCwd(t: Tree, n: nat, k: nat, length: nat): PathResult
    requires Rooted(t, n, k)
  {
    if length < 2 then NoPath
    else if n == 0 then APath([SLASH])
    else if |AbsPath(t, n, k)| >= 256 || |AbsPath(t, n, k)| + 1 > length then NoPath
    else APath(AbsPath(t, n, k))
  }

  /** A path `minifs_getcwd` reports leads back to the same inode from any directory. */
  lemma GetCwdResolves(t: Tree, n: nat, k: nat, length: nat, cwd: u32)
    requires TreeOk(t) && Rooted(t, n, k)
    ensures var r := GetCwd(t, n, k, length); r.APath? ==> Resolve(t, cwd, r.path) == n
  {
    hide TreeOk;
    var r := GetCwd(t, n, k, length);
    if r.APath? {
      if n == 0 {
        SlashesOnly([SLASH]);
      } else {
        AbsPathWalks(t, n, k);
        FirstSlash(t, n, k);
      }
    }
  }

  lemma {:induction false} FirstSlash(t: Tree, n: nat, k: nat)
    requires Rooted(t, n, k) && n != 0
    ensures AbsPath(t, n, k) != [] && AbsPath(t, n, k)[0] == SLASH
    decreases k
  {
    if t.parent[n] != 0 {
      FirstSlash(t, t.parent[n], k - 1);
    }
  }

  /** The number of upward steps allowed does not matter once the root is reached. */
  lemma {:induction false} AbsPathUnique(t: Tree, n: nat, k: nat, j: nat)
    requires Rooted(t, n, k) && Rooted(t, n, j)
    ensures AbsPath(t, n, k) == AbsPath(t, n, j)
    decreases k
  {
    if n != 0 {
      AbsPathUnique(t, t.parent[n], k - 1, j - 1);
    }
  }

  /** Paths lead from inodes in use to inodes in use. */
  lemma {:induction false} WalkUsed(t: Tree, cur: int, cs: seq<seq<byte>>)
    requires TreeOk(t) && 0 <= cur < 256 && t.used[cur]
    ensures var r := Walk(t, cur, cs); r >= 0 ==> r < 256 && t.used[r]
    decreases |cs|
  {
    if cs != [] && |cs[0]| <= 55 {
      if cs[0] == [DOT] {
        WalkUsed(t, cur, cs[1..]);
      } else if cs[0] == [DOT, DOT] {
        ParentUsed(t, cur);
        WalkUsed(t, t.parent[cur], cs[1..]);
      } else if Lookup(t, cur, cs[0]) >= 0 {
        LookupUsed(t, cur, cs[0]);
        WalkUsed(t, Lookup(t, cur, cs[0]), cs[1..]);
      }
    }
  }

  lemma ParentUsed(t: Tree, n: nat)
    requires TreeOk(t) && n < 256 && t.used[n]
    ensures t.parent[n] < 256 && t.used[t.parent[n]]
  {
    if n != 0 {
      var i :| LiveAt(t, t.parent[n], i) && t.entries[t.parent[n]][i].inode == n;
    }
  }

  lemma LookupUsed(t: Tree, d: nat, name: seq<byte>)
    requires TreeOk(t) && Lookup(t, d, name) >= 0
    ensures 0 < Lookup(t, d, name) < 256 && t.used[Lookup(t, d, name)]
  {
    var i := FindName(t.entries[d], name, 0);
    assert LiveAt(t, d, i);
  }

  lemma ResolveUsed(t: Tree, cwd: u32, p: seq<byte>)
    requires TreeOk(t) && cwd < 256 && t.used[cwd]
    ensures var r := Resolve(t, cwd, p); r >= 0 ==> r < 256 && t.used[r]
    ensures var r := ResolveParent(t, cwd, p).0; r >= 0 ==> r < 256 && t.used[r]
  {
    hide TreeOk;
    WalkUsed(t, cwd, Components(p));
    assert t.used[0] by { RootUsed(t); }
    WalkUsed(t, 0, Components(p));
    var n := Trimmed(p, |p|);
    var slash := LastSlash(p, n);
    if slash > 0 {
      WalkUsed(t, cwd, Components(p[..slash]));
      WalkUsed(t, 0, Components(p[..slash]));
    }
  }

  lemma RootUsed(t: Tree)
    requires TreeOk(t)
    ensures t.used[0]
  {
  }
}
