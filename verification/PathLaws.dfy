/** What `resolve` answers, by laws that determine it: a path is followed component by component, "." stays, ".." goes to the
    parent, and a name is looked up. */
module PathLaws {
  import opened Bytes
  import opened DirTree
  import opened Paths

  const HERE: seq<byte> := [DOT]
  const UP: seq<byte> := [DOT, DOT]

  // ---------------------------------------------------------------- components and walks

  /** The components of a joined path are those of its parts. */
  lemma {:induction false} ComponentsJoin(a: seq<byte>, b: seq<byte>)
    ensures Components(a + [SLASH] + b) == Components(a) + Components(b)
    decreases |a|
  {
    var p := a + [SLASH] + b;
    if a == [] {
      assert p[1..] == b;
    } else if a[0] == SLASH {
      assert p[1..] == a[1..] + [SLASH] + b;
      ComponentsJoin(a[1..], b);
    } else {
      var n := NameLength(a);
      NameLengthJoin(a, b);
      assert p[..n] == a[..n] && p[n..] == a[n..] + [SLASH] + b;
      ComponentsJoin(a[n..], b);
      assert Components(p) == [p[..n]] + Components(p[n..]);
    }
  }

  lemma {:induction false} NameLengthJoin(a: seq<byte>, b: seq<byte>)
    ensures NameLength(a + [SLASH] + b) == NameLength(a)
  {
    if a != [] && a[0] != SLASH {
      assert (a + [SLASH] + b)[1..] == a[1..] + [SLASH] + b;
      NameLengthJoin(a[1..], b);
    }
  }

  /** A walk over two stretches is the second from where the first ends. */
  lemma {:induction false} WalkJoin(t: Tree, cur: nat, a: seq<seq<byte>>, b: seq<seq<byte>>)
    ensures var d := Walk(t, cur, a); Walk(t, cur, a + b) == if d < 0 then -1 else Walk(t, d, b)
    decreases |a|
  {
    hide Lookup;
    if a == [] {
      assert a + b == b;
    } else {
      assert (a + b)[1..] == a[1..] + b && (a + b)[0] == a[0];
      if |a[0]| <= 55 {
        if a[0] == HERE {
          WalkJoin(t, cur, a[1..], b);
        } else if a[0] == UP {
          if cur < 256 {
            WalkJoin(t, t.parent[cur], a[1..], b);
          }
        } else if Lookup(t, cur, a[0]) >= 0 {
          WalkJoin(t, Lookup(t, cur, a[0]), a[1..], b);
        }
      }
    }
  }

  // ---------------------------------------------------------------- the laws

  /** A joined path is resolved part by part. */
  lemma ResolveJoin(t: Tree, cwd: u32, p: seq<byte>, q: seq<byte>)
    requires p != [] && q != [] && q[0] != SLASH && |p| + 1 + |q| < 256
    requires Resolve(t, cwd, p) < 0x1_0000_0000
    ensures var d := Resolve(t, cwd, p); Resolve(t, cwd, p + [SLASH] + q) == if d < 0 then -1 else Resolve(t, d, q)
  {
    hide Walk, Components;
    var start := if p[0] == SLASH then 0 else cwd;
    ComponentsJoin(p, q);
    WalkJoin(t, start, Components(p), Components(q));
    assert (p + [SLASH] + q)[0] == p[0];
  }

  /** A leading slash starts at the root, whatever the working directory. */
  lemma ResolveRoot(t: Tree, cwd: u32, q: seq<byte>)
    requires |q| < 255
    ensures Resolve(t, cwd, [SLASH] + q) == if q == [] then 0 else Resolve(t, 0, q)
  {
    hide Walk;
    assert ([SLASH] + q)[1..] == q && ([SLASH] + q)[0] == SLASH;
    NoComponents(t, 0);
  }

  lemma OneComponent(c: seq<byte>)
    requires c != [] && SLASH !in c
    ensures Components(c) == [c]
  {
    hide Components;
    OneName(c, []);
    assert c + [] == c;
  }

  /** Paths of one component: "." is here, ".." is the parent, anything else up to 55 bytes is looked up. */
  lemma ResolveOne(t: Tree, cwd: u32, c: seq<byte>)
    requires c != [] && SLASH !in c && |c| < 256
    ensures Resolve(t, cwd, c)
         == if |c| > 55 then -1
            else if c == [46] then cwd
            else if c == [46, 46] then (if cwd < 256 then t.parent[cwd] else -1)
            else if Lookup(t, cwd, c) < 0 then -1 else Lookup(t, cwd, c)
  {
    hide Components, Lookup;
    OneComponent(c);
    assert [c][1..] == [];
    NoComponents(t, cwd);
    if c == UP {
      if cwd < 256 {
        NoComponents(t, t.parent[cwd]);
      }
    } else if Lookup(t, cwd, c) >= 0 {
      NoComponents(t, Lookup(t, cwd, c));
    }
  }

  /** Trailing slashes do not matter. */
  lemma ResolveSlash(t: Tree, cwd: u32, p: seq<byte>)
    requires p != [] && |p| < 255
    ensures Resolve(t, cwd, p + [SLASH]) == Resolve(t, cwd, p)
  {
    hide Walk, Components;
    ComponentsJoin(p, []);
    assert p + [SLASH] + [] == p + [SLASH];
    NoComponents(t, 0);
    assert Components(p) + [] == Components(p);
    assert (p + [SLASH])[0] == p[0];
  }

  // ---------------------------------------------------------------- in a sound tree

  /** Paths stay inside the table. */
  lemma ResolveInside(t: Tree, cwd: u32, p: seq<byte>)
    requires TreeOk(t) && cwd < 256 && t.used[cwd]
    ensures Resolve(t, cwd, p) < 256 && (Resolve(t, cwd, p) >= 0 ==> t.used[Resolve(t, cwd, p)])
  {
    hide TreeOk, Resolve;
    ResolveUsed(t, cwd, p);
  }

  /** "p/.." is the parent of p. */
  lemma DotDot(t: Tree, cwd: u32, p: seq<byte>)
    requires TreeOk(t) && cwd < 256 && t.used[cwd] && p != [] && |p| + 3 < 256
    ensures var d := Resolve(t, cwd, p);
            d < 256 && Resolve(t, cwd, p + [SLASH] + [46, 46]) == if d < 0 then -1 else t.parent[d]
  {
    hide TreeOk, Resolve, Lookup;
    ResolveInside(t, cwd, p);
    ResolveJoin(t, cwd, p, UP);
    var d := Resolve(t, cwd, p);
    if d >= 0 {
      ResolveOne(t, d, UP);
    }
  }

  /** Going down to a child and up again comes back: "p/c/.." is p. */
  lemma DownAndUp(t: Tree, cwd: u32, p: seq<byte>, c: seq<byte>)
    requires TreeOk(t) && cwd < 256 && t.used[cwd] && p != [] && |p| + |c| + 4 < 256 && GoodName(c)
    requires Resolve(t, cwd, p) >= 0 && Lookup(t, Resolve(t, cwd, p), c) >= 0
    ensures Resolve(t, cwd, p + [SLASH] + c + [SLASH] + [46, 46]) == Resolve(t, cwd, p)
  {
    hide TreeOk, Resolve, Lookup;
    ResolveInside(t, cwd, p);
    var d := Resolve(t, cwd, p);
    ResolveJoin(t, cwd, p, c);
    ResolveOne(t, d, c);
    DotDot(t, cwd, p + [SLASH] + c);
    ChildParent(t, d, c);
  }

  /** A child found in a directory has it for its parent. */
  lemma ChildParent(t: Tree, d: nat, c: seq<byte>)
    requires TreeOk(t) && d < 256 && Lookup(t, d, c) >= 0
    ensures Lookup(t, d, c) < 256 && t.parent[Lookup(t, d, c)] == d
  {
    hide CString, GoodName, NamesUnique, LinkedOnce, Linked, AllRooted;
    assert LiveAt(t, d, FindName(t.entries[d], c, 0));
  }

  /** "p/." is p, and "." in the middle of a path may be left out. */
  lemma DotStays(t: Tree, cwd: u32, p: seq<byte>, q: seq<byte>)
    requires TreeOk(t) && cwd < 256 && t.used[cwd] && p != [] && q != [] && q[0] != SLASH && |p| + |q| + 3 < 256
    ensures Resolve(t, cwd, p + [SLASH] + [46]) == Resolve(t, cwd, p)
    ensures Resolve(t, cwd, p + [SLASH] + [46] + [SLASH] + q) == Resolve(t, cwd, p + [SLASH] + q)
  {
    hide TreeOk, Resolve, Lookup;
    ResolveInside(t, cwd, p);
    ResolveJoin(t, cwd, p, HERE);
    var d := Resolve(t, cwd, p);
    if d >= 0 {
      ResolveOne(t, d, HERE);
    }
    ResolveJoin(t, cwd, p + [SLASH] + HERE, q);
    ResolveJoin(t, cwd, p, q);
  }

  /** The root is its own parent. */
  lemma RootUp(t: Tree, cwd: u32)
    requires TreeOk(t)
    ensures t.parent[0] == 0 && Resolve(t, cwd, [SLASH] + [46, 46]) == 0
  {
    hide Resolve, Lookup;
    ResolveRoot(t, cwd, UP);
    ResolveOne(t, 0, UP);
    RootParent(t);
  }

  lemma RootParent(t: Tree)
    requires TreeOk(t)
    ensures t.parent[0] == 0
  {
    hide CString, GoodName, NamesUnique, LinkedOnce, Linked, AllRooted, EntriesOk;
  }

  // ---------------------------------------------------------------- minifs_chdir

  /** `minifs_chdir`: the new working directory, or -1. */
  function ChDir(t: Tree, cwd: u32, p: seq<byte>): (r: int) {
    var n := Resolve(t, cwd, p);
    if n < 0 || n >= 256 || !IsDir(t, n) then -1 else n
  }

  /** Changing to a directory and resolving from there is resolving the joined path. */
  lemma ChDirJoin(t: Tree, cwd: u32, p: seq<byte>, q: seq<byte>)
    requires TreeOk(t) && cwd < 256 && t.used[cwd] && p != [] && q != [] && q[0] != SLASH && |p| + 1 + |q| < 256
    ensures Resolve(t, cwd, p) < 256
    ensures var d := ChDir(t, cwd, p);
            && (d >= 0 ==> d < 256 && t.used[d] && IsDir(t, d) && Resolve(t, d, q) == Resolve(t, cwd, p + [SLASH] + q))
            && (d < 0 <==> Resolve(t, cwd, p) < 0 || !IsDir(t, Resolve(t, cwd, p)))
  {
    hide TreeOk, Resolve;
    ResolveInside(t, cwd, p);
    ResolveJoin(t, cwd, p, q);
  }

  // ---------------------------------------------------------------- minifs_getcwd

  /** Looking the names up one after another leads from the root to `n`. */
  predicate Leads(t: Tree, names: seq<seq<byte>>, n: nat) {
    if names == [] then n == 0
    else
      var m := |names| - 1;
      n < 256 && t.parent[n] < 256 && Lookup(t, t.parent[n], names[m]) == n && Leads(t, names[..m], t.parent[n])
  }

  /** Only one list of names leads to an inode, and it is the one the upward loop collects. */
  lemma {:induction false} LeadsAbs(t: Tree, names: seq<seq<byte>>, n: nat, k: nat)
    requires TreeOk(t) && Rooted(t, n, k) && Leads(t, names, n)
    ensures AbsPath(t, n, k) == JoinPath(names) && (names == [] <==> n == 0)
  {
    hide TreeOk, Lookup, OwnName;
    if names != [] {
      var m := |names| - 1;
      OnlyName(t, n, names[m]);
      LeadsAbs(t, names[..m], t.parent[n], k - 1);
    }
  }

  /** The root is nobody's child, and any other inode has one name. */
  lemma OnlyName(t: Tree, n: nat, name: seq<byte>)
    requires TreeOk(t) && n < 256 && t.used[n] && t.parent[n] < 256 && Lookup(t, t.parent[n], name) == n
    ensures n != 0 && OwnName(t, n) == name
  {
    hide CString, GoodName, AllRooted, NamesUnique;
    var d := t.parent[n];
    var es := t.entries[d];
    var i, j := FindName(es, name, 0), FindInode(es, n, 0);
    assert LiveAt(t, d, i);
    assert LiveAt(t, d, j);
  }

  /** `minifs_getcwd`, for the names that lead to the directory: the path they form, exactly when it has at most 255 bytes and
      fits the buffer with its terminator; the root is "/". */
  lemma GetCwdIs(t: Tree, names: seq<seq<byte>>, n: nat, k: nat, length: nat)
    requires TreeOk(t) && Rooted(t, n, k) && Leads(t, names, n)
    ensures GetCwd(t, n, k, length)
         == if names == [] then (if length >= 2 then APath([SLASH]) else NoPath)
            else if |JoinPath(names)| < 256 && |JoinPath(names)| < length then APath(JoinPath(names)) else NoPath
  {
    hide TreeOk, Lookup, OwnName, Leads;
    LeadsAbs(t, names, n, k);
    if names != [] {
      JoinedLong(names);
      NamedLong(t, names, n);
    }
  }

  lemma JoinedLong(names: seq<seq<byte>>)
    requires names != []
    ensures |JoinPath(names)| >= 1 + |names[|names| - 1]|
  {
  }

  lemma NamedLong(t: Tree, names: seq<seq<byte>>, n: nat)
    requires TreeOk(t) && Leads(t, names, n) && names != []
    ensures |names[|names| - 1]| >= 1
  {
    hide CString, GoodName, AllRooted, NamesUnique, Linked, LinkedOnce;
    var name := names[|names| - 1];
    var d := t.parent[n];
    assert LiveAt(t, d, FindName(t.entries[d], name, 0));
    assert GoodName(name);
    GoodLong(name);
  }

  lemma GoodLong(name: seq<byte>)
    requires GoodName(name)
    ensures |name| >= 1
  {
  }

  /** Every inode in use is led to by some names. */
  lemma {:induction false} NamesLead(t: Tree, n: nat, k: nat) returns (names: seq<seq<byte>>)
    requires TreeOk(t) && Rooted(t, n, k)
    ensures Leads(t, names, n)
    decreases k
  {
    hide TreeOk, Lookup, OwnName;
    if n == 0 {
      names := [];
    } else {
      OwnNameFound(t, n);
      var above := NamesLead(t, t.parent[n], k - 1);
      names := above + [OwnName(t, n)];
      assert names[..|names| - 1] == above;
    }
  }
}
