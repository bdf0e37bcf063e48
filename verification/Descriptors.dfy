/** The descriptor tables of minifs.c: sixty-four shared open files with reference counts, and per process sixteen
    descriptors with their close-on-exec bits. */
module Descriptors {
  import opened Bytes

  datatype Kind = ConsoleIn | ConsoleOut | File

  datatype OpenFile = OpenFile(used: bool, refs: int, kind: Kind, flags: int, inode: u32, offset: u32)

  datatype ProcessRecord = Process(used: bool, pid: int, fd: seq<int>, cloexec: seq<bool>)

  function NoFds(): (r: seq<int>)
    ensures |r| == 16 && forall i :: 0 <= i < 16 ==> r[i] == -1
  {
    seq(16, i => -1)
  }

  function NoBits(): (r: seq<bool>)
    ensures |r| == 16 && forall i :: 0 <= i < 16 ==> !r[i]
  {
    seq(16, i => false)
  }

  type Process = p: ProcessRecord | |p.fd| == 16 && |p.cloexec| == 16
    witness Process(false, 0, NoFds(), NoBits())

  datatype FdsRecord = Fds(files: seq<OpenFile>, procs: seq<Process>)

  type Fds = d: FdsRecord | |d.files| == 64 && |d.procs| == 16
    witness Fds(NoFiles(), NoProcesses())

  function NoFiles(): (r: seq<OpenFile>)
    ensures |r| == 64 && forall k :: 0 <= k < 64 ==> r[k] == OpenFile(false, 0, ConsoleIn, 0, 0, 0)
  {
    seq(64, i => OpenFile(false, 0, ConsoleIn, 0, 0, 0))
  }

  /** What zeroing the tables leaves. */
  function NoProcess(): Process {
    Process(false, 0, seq(16, i => 0), NoBits())
  }

  function NoProcesses(): (r: seq<Process>)
    ensures |r| == 16 && forall i :: 0 <= i < 16 ==> !r[i].used
  {
    seq(16, i => NoProcess())
  }

  // ---------------------------------------------------------------- operations

  /** First process slot in use by `pid`, or 16. */
  function FindProcess(ps: seq<Process>, pid: int, i: nat): (r: nat)
    requires i <= 16 == |ps|
    ensures i <= r <= 16
    ensures r < 16 ==> ps[r].used && ps[r].pid == pid
    ensures forall j :: i <= j < r ==> !(ps[j].used && ps[j].pid == pid)
    decreases 16 - i
  {
    if i == 16 || (ps[i].used && ps[i].pid == pid) then i else FindProcess(ps, pid, i + 1)
  }

  function FreeProcess(ps: seq<Process>, i: nat): (r: nat)
    requires i <= 16 == |ps|
    ensures i <= r <= 16
    ensures r < 16 ==> !ps[r].used
    ensures forall j :: i <= j < r ==> ps[j].used
    decreases 16 - i
  {
    if i == 16 || !ps[i].used then i else FreeProcess(ps, i + 1)
  }

  function FreeFile(fs: seq<OpenFile>, i: nat): (r: nat)
    requires i <= 64 == |fs|
    ensures i <= r <= 64
    ensures r < 64 ==> !fs[r].used
    ensures forall j :: i <= j < r ==> fs[j].used
    decreases 64 - i
  {
    if i == 64 || !fs[i].used then i else FreeFile(fs, i + 1)
  }

  function FreeFd(fd: seq<int>, i: nat): (r: nat)
    requires i <= 16 == |fd|
    ensures i <= r <= 16
    ensures r < 16 ==> fd[r] < 0
    decreases 16 - i
  {
    if i == 16 || fd[i] < 0 then i else FreeFd(fd, i + 1)
  }

  /** `alloc_ofd` */
  function Alloc(d: Fds, kind: Kind, flags: int, inode: u32): (r: (Fds, int)) {
    var k := FreeFile(d.files, 0);
    if k == 64 then (d, -1) else (d.(files := d.files[k := OpenFile(true, 1, kind, flags, inode, 0)]), k)
  }

  /** `put_ofd` */
  function Put(d: Fds, k: int): (r: Fds) {
    if k < 0 || k >= 64 || !d.files[k].used then d
    else
      var f := d.files[k];
      d.(files := d.files[k := f.(refs := f.refs - 1, used := f.refs - 1 != 0)])
  }

  function Retain(d: Fds, k: int): (r: Fds)
    requires 0 <= k < 64
  {
    d.(files := d.files[k := d.files[k].(refs := d.files[k].refs + 1)])
  }

  function SetFd(d: Fds, p: nat, i: nat, v: int): (r: Fds)
    requires p < 16 && i < 16
  {
    d.(procs := d.procs[p := d.procs[p].(fd := d.procs[p].fd[i := v])])
  }

  function SetMark(d: Fds, p: nat, i: nat, on: bool): (r: Fds)
    requires p < 16 && i < 16
  {
    d.(procs := d.procs[p := d.procs[p].(cloexec := d.procs[p].cloexec[i := on])])
  }

  /** Gives up descriptor `i` of slot `p`. */
  function Drop(d: Fds, p: nat, i: nat): (r: Fds)
    requires p < 16 && i < 16
  {
    SetFd(Put(d, d.procs[p].fd[i]), p, i, -1)
  }

  /** Makes descriptor `i` of slot `p` another name for open file `k`; its old file is put back first. */
  function Rename(d: Fds, p: nat, i: nat, k: int): (r: Fds)
    requires p < 16 && i < 16
  {
    var e := SetFd(Put(d, d.procs[p].fd[i]), p, i, k);
    if 0 <= k < 64 then Retain(e, k) else e
  }

  /** `minifs_process_init` */
  function ProcessInit(d: Fds, pid: int): (r: (Fds, int))
    ensures r.1 == 0 || r.1 == -1
  {
    if FindProcess(d.procs, pid, 0) < 16 then (d, 0)
    else
      var p := FreeProcess(d.procs, 0);
      if p == 16 then (d, -1)
      else
        var d0 := d.(procs := d.procs[p := Process(true, pid, NoFds(), NoBits())]);
        var (d1, input) := Alloc(d0, ConsoleIn, 0, 0);
        var (d2, output) := Alloc(d1, ConsoleOut, 1, 0);
        var (d3, error) := Alloc(d2, ConsoleOut, 1, 0);
        if input < 0 || output < 0 || error < 0 then
          var e := Put(Put(Put(d3, input), output), error);
          (e.(procs := e.procs[p := e.procs[p].(used := false)]), -1)
        else (SetFd(SetFd(SetFd(d3, p, 0, input), p, 1, output), p, 2, error), 0)
  }

  /** A table set up for `pid` is found again. */
  lemma InitFinds(d: Fds, pid: int)
    ensures var (e, status) := ProcessInit(d, pid);
            status >= 0 ==> FindProcess(e.procs, pid, 0) < 16
  {
    hide FreeFile;
    var (e, status) := ProcessInit(d, pid);
    if status >= 0 && FindProcess(d.procs, pid, 0) == 16 {
      var p := FreeProcess(d.procs, 0);
      assert e.procs[p].used && e.procs[p].pid == pid;
    }
  }

  /** Copies descriptors `i` and up from slot `p` to slot `c`. */
  function CopyFds(d: Fds, p: nat, c: nat, i: nat): (r: Fds)
    requires p < 16 && c < 16 && i <= 16
    decreases 16 - i
  {
    if i == 16 then d else CopyFds(Rename(d, c, i, d.procs[p].fd[i]), p, c, i + 1)
  }

  /** `minifs_process_fork` */
  function ProcessFork(d: Fds, parent: int, child: int): (r: (Fds, int)) {
    var p := FindProcess(d.procs, parent, 0);
    if p == 16 then (d, -1)
    else
      var (e, status) := ProcessInit(d, child);
      if status < 0 then (e, -1)
      else
        var c := FindProcess(e.procs, child, 0);
        InitFinds(d, child);
        (CopyFds(e.(procs := e.procs[c := e.procs[c].(cloexec := e.procs[p].cloexec)]), p, c, 0), 0)
  }

  function CloseFrom(d: Fds, p: nat, i: nat): (r: Fds)
    requires p < 16 && i <= 16
    decreases 16 - i
  {
    if i == 16 then d else CloseFrom(Drop(d, p, i), p, i + 1)
  }

  /** `minifs_close_all` */
  function CloseAll(d: Fds, pid: int): (r: Fds) {
    var p := FindProcess(d.procs, pid, 0);
    if p == 16 then d
    else
      var e := CloseFrom(d, p, 0);
      e.(procs := e.procs[p := e.procs[p].(cloexec := NoBits(), used := false)])
  }

  function CloseMarked(d: Fds, p: nat, i: nat): (r: Fds)
    requires p < 16 && i <= 16
    decreases 16 - i
  {
    if i == 16 then d
    else CloseMarked(if d.procs[p].cloexec[i] then SetMark(Drop(d, p, i), p, i, false) else d, p, i + 1)
  }

  /** `minifs_close_exec_fds` */
  function CloseExec(d: Fds, pid: int): (r: Fds) {
    var p := FindProcess(d.procs, pid, 0);
    if p == 16 then d else CloseMarked(d, p, 0)
  }

  predicate OpenFd(d: Fds, p: nat, fd: int)
    requires p <= 16
  {
    p < 16 && 0 <= fd < 16 && d.procs[p].fd[fd] >= 0
  }

  /** `minifs_set_cloexec` */
  function SetCloexec(d: Fds, pid: int, fd: int, on: bool): (r: (Fds, int)) {
    var p := FindProcess(d.procs, pid, 0);
    if !OpenFd(d, p, fd) then (d, -1) else (SetMark(d, p, fd, on), 0)
  }

  /** `minifs_close` */
  function Close(d: Fds, pid: int, fd: int): (r: (Fds, int)) {
    var p := FindProcess(d.procs, pid, 0);
    if !OpenFd(d, p, fd) then (d, -1) else (SetMark(Drop(d, p, fd), p, fd, false), 0)
  }

  /** `minifs_dup2` */
  function Dup2(d: Fds, pid: int, oldfd: int, newfd: int): (r: (Fds, int)) {
    var p := FindProcess(d.procs, pid, 0);
    if !OpenFd(d, p, oldfd) || newfd < 0 || newfd >= 16 then (d, -1)
    else if oldfd == newfd then (d, newfd)
    else (SetMark(Rename(d, p, newfd, d.procs[p].fd[oldfd]), p, newfd, false), newfd)
  }

  /** The end of `minifs_open`: an open file for `inode` and a descriptor for it, or -1. */
  function Install(d: Fds, p: nat, flags: int, inode: u32, offset: u32): (r: (Fds, int))
    requires p < 16
  {
    var (d1, k) := Alloc(d, File, flags, inode);
    if k < 0 then (d1, -1)
    else
      var d2 := d1.(files := d1.files[k := d1.files[k].(offset := offset)]);
      var fd := FreeFd(d2.procs[p].fd, 0);
      if fd == 16 then (Put(d2, k), -1) else (SetMark(SetFd(d2, p, fd, k), p, fd, false), fd)
  }

  /** `get_open_file`: the open file a descriptor names, or -1. */
  function Named(d: Fds, pid: int, fd: int): (k: int)
    ensures -1 <= k < 64 && (k >= 0 ==> d.files[k].used)
  {
    var p := FindProcess(d.procs, pid, 0);
    if !OpenFd(d, p, fd) then -1
    else
      var k := d.procs[p].fd[fd];
      if k >= 64 || !d.files[k].used then -1 else k
  }

  /** A new file position. */
  function SetOffset(d: Fds, k: nat, offset: u32): (r: Fds)
    requires k < 64
  {
    d.(files := d.files[k := d.files[k].(offset := offset)])
  }

  // ---------------------------------------------------------------- counting references

  /** How many of these descriptors name open file `k`. */
  function CountIn(fd: seq<int>, k: int): nat {
    if fd == [] then 0 else CountIn(fd[..|fd| - 1], k) + if fd[|fd| - 1] == k then 1 else 0
  }

  /** How many descriptors of all processes in use name open file `k`. */
  function Count(ps: seq<Process>, k: int): nat {
    if ps == [] then 0 else Count(ps[..|ps| - 1], k) + CountOf(ps[|ps| - 1], k)
  }

  function CountOf(p: Process, k: int): nat {
    if p.used then CountIn(p.fd, k) else 0
  }

  lemma {:induction false} CountInUpdate(fd: seq<int>, i: nat, v: int, k: int)
    requires i < |fd|
    ensures CountIn(fd[i := v], k) == CountIn(fd, k) - (if fd[i] == k then 1 else 0) + (if v == k then 1 else 0)
    ensures fd[i] == k ==> CountIn(fd, k) >= 1
  {
    var n := |fd| - 1;
    var g := fd[i := v];
    if i == n {
      assert g[..n] == fd[..n];
    } else {
      assert g[..n] == fd[..n][i := v];
      CountInUpdate(fd[..n], i, v, k);
    }
  }

  lemma {:induction false} CountUpdate(ps: seq<Process>, p: nat, q: Process, k: int)
    requires p < |ps|
    ensures Count(ps[p := q], k) == Count(ps, k) - CountOf(ps[p], k) + CountOf(q, k)
    ensures Count(ps, k) >= CountOf(ps[p], k)
  {
    hide CountOf;
    var n := |ps| - 1;
    var qs := ps[p := q];
    if p == n {
      assert qs[..n] == ps[..n];
    } else {
      assert qs[..n] == ps[..n][p := q];
      CountUpdate(ps[..n], p, q, k);
    }
  }

  lemma {:induction false} CountNone(fd: seq<int>, k: int)
    requires forall i :: 0 <= i < |fd| ==> fd[i] != k
    ensures CountIn(fd, k) == 0
  {
    if fd != [] {
      CountNone(fd[..|fd| - 1], k);
    }
  }

  /** Two descriptors of one process naming `k` count twice. */
  lemma {:induction false} CountTwo(fd: seq<int>, i: nat, j: nat, k: int)
    requires i < |fd| && j < |fd| && i != j && fd[i] == k && fd[j] == k
    ensures CountIn(fd, k) >= 2
  {
    CountInUpdate(fd, i, -2, k);
    CountInUpdate(fd[i := -2], j, -2, k);
    if k == -2 {
      var n := |fd| - 1;
      if i < n && j < n {
        CountTwo(fd[..n], i, j, k);
      } else {
        var m := if i < n then i else j;
        assert fd[..n][m] == k;
        CountInUpdate(fd[..n], m, k, k);
      }
    }
  }

  // ---------------------------------------------------------------- the invariant

  /** Every reference an open file counts is either a descriptor that names it or still in hand. */
  predicate BalancedAt(d: Fds, hand: multiset<int>, k: nat)
    requires k < 64
  {
    && (d.files[k].used ==> d.files[k].refs > 0)
    && Count(d.procs, k) + hand[k] == if d.files[k].used then d.files[k].refs else 0
  }

  ghost predicate Balanced(d: Fds, hand: multiset<int>) {
    forall k: nat :: k < 64 ==> BalancedAt(d, hand, k)
  }

  predicate ProcessOk(p: Process) {
    forall i :: 0 <= i < 16 ==> -1 <= p.fd[i] < 64 && (p.cloexec[i] ==> p.fd[i] >= 0)
  }

  predicate ProcessesOk(ps: seq<Process>) {
    forall i :: 0 <= i < |ps| && ps[i].used ==> ProcessOk(ps[i])
  }

  predicate PidsDistinct(ps: seq<Process>) {
    forall i, j :: 0 <= i < |ps| && 0 <= j < |ps| && ps[i].used && ps[j].used && ps[i].pid == ps[j].pid ==> i == j
  }

  /** The descriptor invariant: a used open file counts exactly the descriptors naming it, an unused one has none, bits
      mark open descriptors only, and no pid owns two tables. */
  ghost predicate FdsOk(d: Fds) {
    Balanced(d, multiset{}) && ProcessesOk(d.procs) && PidsDistinct(d.procs)
  }

  // ---------------------------------------------------------------- moving references

  /** Storing a reference in a descriptor exchanges it for the one stored before. */
  lemma SetFdBalanced(d: Fds, p: nat, i: nat, v: int, hand: multiset<int>)
    requires p < 16 && i < 16 && d.procs[p].used && Balanced(d, hand + multiset{v})
    ensures Balanced(SetFd(d, p, i, v), hand + multiset{d.procs[p].fd[i]})
  {
    var e := SetFd(d, p, i, v);
    forall k: nat | k < 64 ensures BalancedAt(e, hand + multiset{d.procs[p].fd[i]}, k) {
      assert BalancedAt(d, hand + multiset{v}, k);
      CountUpdate(d.procs, p, e.procs[p], k);
      CountInUpdate(d.procs[p].fd, i, v, k);
    }
  }

  lemma PutBalanced(d: Fds, k: int, hand: multiset<int>)
    requires -1 <= k < 64 && Balanced(d, hand + multiset{k})
    ensures Balanced(Put(d, k), hand)
  {
    hide Count;
    forall j: nat | j < 64 ensures BalancedAt(Put(d, k), hand, j) {
      assert BalancedAt(d, hand + multiset{k}, j);
    }
  }

  lemma RetainBalanced(d: Fds, k: nat, hand: multiset<int>)
    requires k < 64 && d.files[k].used && Balanced(d, hand)
    ensures Balanced(Retain(d, k), hand + multiset{k})
  {
    hide Count;
    forall j: nat | j < 64 ensures BalancedAt(Retain(d, k), hand + multiset{k}, j) {
      assert BalancedAt(d, hand, j);
    }
  }

  lemma AllocBalanced(d: Fds, kind: Kind, flags: int, inode: u32, hand: multiset<int>)
    requires Balanced(d, hand)
    ensures var (e, k) := Alloc(d, kind, flags, inode);
            -1 <= k < 64 && Balanced(e, hand + multiset{k})
  {
    hide Count, FreeFile;
    var (e, k) := Alloc(d, kind, flags, inode);
    forall j: nat | j < 64 ensures BalancedAt(e, hand + multiset{k}, j) {
      assert BalancedAt(d, hand, j);
    }
  }

  /** -1 is no reference at all. */
  lemma NoReference(d: Fds, hand: multiset<int>)
    ensures Balanced(d, hand) == Balanced(d, hand + multiset{-1})
  {
    hide Count;
    assert forall k: nat :: k < 64 ==> (hand + multiset{-1})[k] == hand[k];
    if Balanced(d, hand) {
      forall k: nat | k < 64 ensures BalancedAt(d, hand + multiset{-1}, k) {
        assert BalancedAt(d, hand, k);
      }
    }
    if Balanced(d, hand + multiset{-1}) {
      forall k: nat | k < 64 ensures BalancedAt(d, hand, k) {
        assert BalancedAt(d, hand + multiset{-1}, k);
      }
    }
  }

  /** Descriptors are all that the counts depend on. */
  lemma SameCounts(d: Fds, e: Fds, hand: multiset<int>)
    requires Balanced(d, hand)
    requires forall k: nat :: k < 64 ==> e.files[k].used == d.files[k].used && e.files[k].refs == d.files[k].refs
    requires forall k: nat :: k < 64 ==> Count(e.procs, k) == Count(d.procs, k)
    ensures Balanced(e, hand)
  {
    hide Count;
    forall k: nat | k < 64 ensures BalancedAt(e, hand, k) {
      assert BalancedAt(d, hand, k);
    }
  }

  lemma DropBalanced(d: Fds, p: nat, i: nat)
    requires p < 16 && i < 16 && d.procs[p].used && Balanced(d, multiset{}) && -1 <= d.procs[p].fd[i] < 64
    ensures Balanced(Drop(d, p, i), multiset{})
  {
    hide Balanced;
    var k := d.procs[p].fd[i];
    NoReference(d, multiset{});
    SetFdBalanced(d, p, i, -1, multiset{});
    PutBalanced(SetFd(d, p, i, -1), k, multiset{});
    assert Put(SetFd(d, p, i, -1), k) == Drop(d, p, i);
  }

  /** A second name for a file keeps the balance when another descriptor already names it. */
  lemma RenameBalanced(d: Fds, p: nat, i: nat, q: nat, j: nat)
    requires p < 16 && i < 16 && q < 16 && j < 16 && (p, i) != (q, j) && d.procs[p].used && d.procs[q].used
    requires Balanced(d, multiset{}) && -1 <= d.procs[p].fd[i] < 64 && -1 <= d.procs[q].fd[j] < 64
    ensures Balanced(Rename(d, p, i, d.procs[q].fd[j]), multiset{})
  {
    hide Balanced, SetFd;
    var k, was := d.procs[q].fd[j], d.procs[p].fd[i];
    if k < 0 {
      DropBalanced(d, p, i);
    } else {
      NamedUsed(d, q, j);
      RetainBalanced(d, k, multiset{});
      SetFdBalanced(Retain(d, k), p, i, k, multiset{});
      PutBalanced(SetFd(Retain(d, k), p, i, k), was, multiset{});
      if was == k {
        NamedTwice(d, p, i, q, j);
      }
      RenameOrder(d, p, i, k);
    }
  }

  /** Taking the new reference before or after giving back the old one makes no difference while a name is left. */
  lemma RenameOrder(d: Fds, p: nat, i: nat, k: nat)
    requires p < 16 && i < 16 && k < 64 && d.files[k].used && d.files[k].refs > 0
    requires d.procs[p].fd[i] == k ==> d.files[k].refs >= 2
    ensures Put(SetFd(Retain(d, k), p, i, k), d.procs[p].fd[i]) == Rename(d, p, i, k)
  {
    var a, b := Put(SetFd(Retain(d, k), p, i, k), d.procs[p].fd[i]), Rename(d, p, i, k);
    assert a.files == b.files;
  }

  lemma NamedUsed(d: Fds, q: nat, j: nat)
    requires q < 16 && j < 16 && d.procs[q].used && Balanced(d, multiset{}) && 0 <= d.procs[q].fd[j] < 64
    ensures var f := d.files[d.procs[q].fd[j]]; f.used && f.refs > 0
  {
    var k := d.procs[q].fd[j];
    assert BalancedAt(d, multiset{}, k);
    CountUpdate(d.procs, q, d.procs[q], k);
    CountInUpdate(d.procs[q].fd, j, k, k);
  }

  lemma NamedTwice(d: Fds, p: nat, i: nat, q: nat, j: nat)
    requires p < 16 && i < 16 && q < 16 && j < 16 && (p, i) != (q, j) && d.procs[p].used && d.procs[q].used
    requires Balanced(d, multiset{}) && d.procs[p].fd[i] == d.procs[q].fd[j] && 0 <= d.procs[p].fd[i] < 64
    ensures d.files[d.procs[p].fd[i]].refs >= 2
  {
    var k := d.procs[p].fd[i];
    assert BalancedAt(d, multiset{}, k);
    if p == q {
      CountTwo(d.procs[p].fd, i, j, k);
      CountUpdate(d.procs, p, d.procs[p], k);
    } else {
      CountInUpdate(d.procs[p].fd, i, k, k);
      CountInUpdate(d.procs[q].fd, j, k, k);
      var none := d.procs[q].(used := false);
      CountUpdate(d.procs, q, none, k);
      CountUpdate(d.procs[q := none], p, d.procs[p], k);
    }
  }

  // ---------------------------------------------------------------- every operation keeps the invariant

  predicate OwnsTable(d: Fds, pid: int) {
    FindProcess(d.procs, pid, 0) < 16
  }

  /** Open regular files of `e` were open in `d`, unchanged. */
  predicate NoNewFiles(d: Fds, e: Fds) {
    forall k :: 0 <= k < 64 && e.files[k].used && e.files[k].kind == File ==>
      d.files[k].used && e.files[k] == d.files[k].(refs := e.files[k].refs)
  }

  /** A process slot that holds no reference may come and go. */
  lemma EmptySlot(d: Fds, p: nat, q: Process, hand: multiset<int>)
    requires p < 16 && Balanced(d, hand)
    requires !d.procs[p].used || forall i :: 0 <= i < 16 ==> d.procs[p].fd[i] == -1
    requires !q.used || forall i :: 0 <= i < 16 ==> q.fd[i] == -1
    ensures Balanced(d.(procs := d.procs[p := q]), hand)
  {
    forall k: nat | k < 64 ensures Count(d.procs[p := q], k) == Count(d.procs, k) {
      CountUpdate(d.procs, p, q, k);
      if d.procs[p].used { CountNone(d.procs[p].fd, k); }
      if q.used { CountNone(q.fd, k); }
    }
    SameCounts(d, d.(procs := d.procs[p := q]), hand);
  }

  /** Three fresh references stored in the first three descriptors of an empty table. */
  lemma StoreThree(d: Fds, p: nat, a: int, b: int, c: int)
    requires p < 16 && d.procs[p].used && forall i :: 0 <= i < 16 ==> d.procs[p].fd[i] == -1
    requires Balanced(d, multiset{} + multiset{a} + multiset{b} + multiset{c})
    ensures Balanced(SetFd(SetFd(SetFd(d, p, 0, a), p, 1, b), p, 2, c), multiset{})
  {
    hide Balanced;
    var none := multiset{-1};
    assert multiset{} + multiset{a} + multiset{b} + multiset{c} == multiset{b, c} + multiset{a};
    SetFdBalanced(d, p, 0, a, multiset{b, c});
    var e := SetFd(d, p, 0, a);
    NoReference(e, multiset{b, c});
    assert multiset{b, c} == multiset{c} + multiset{b};
    SetFdBalanced(e, p, 1, b, multiset{c});
    var f := SetFd(e, p, 1, b);
    NoReference(f, multiset{c});
    assert multiset{c} == multiset{} + multiset{c};
    SetFdBalanced(f, p, 2, c, multiset{});
    NoReference(SetFd(f, p, 2, c), multiset{});
  }

  lemma PutThree(d: Fds, a: int, b: int, c: int)
    requires -1 <= a < 64 && -1 <= b < 64 && -1 <= c < 64
    requires Balanced(d, multiset{} + multiset{a} + multiset{b} + multiset{c})
    ensures Balanced(Put(Put(Put(d, a), b), c), multiset{})
  {
    hide Balanced, Put;
    assert multiset{} + multiset{a} + multiset{b} + multiset{c} == multiset{b, c} + multiset{a};
    PutBalanced(d, a, multiset{b, c});
    assert multiset{b, c} == multiset{c} + multiset{b};
    PutBalanced(Put(d, a), b, multiset{c});
    assert multiset{c} == multiset{} + multiset{c};
    PutBalanced(Put(Put(d, a), b), c, multiset{});
  }

  lemma InitBalanced(d: Fds, pid: int)
    requires Balanced(d, multiset{})
    ensures Balanced(ProcessInit(d, pid).0, multiset{})
  {
    hide Balanced, Alloc, Put, SetFd;
    var p := FreeProcess(d.procs, 0);
    if FindProcess(d.procs, pid, 0) == 16 && p < 16 {
      var q: Process := Process(true, pid, NoFds(), NoBits());
      EmptySlot(d, p, q, multiset{});
      var d0: Fds := d.(procs := d.procs[p := q]);
      var (d1, a) := Alloc(d0, ConsoleIn, 0, 0);
      var (d2, b) := Alloc(d1, ConsoleOut, 1, 0);
      var (d3, c) := Alloc(d2, ConsoleOut, 1, 0);
      AllocBalanced(d0, ConsoleIn, 0, 0, multiset{});
      AllocBalanced(d1, ConsoleOut, 1, 0, multiset{} + multiset{a});
      AllocBalanced(d2, ConsoleOut, 1, 0, multiset{} + multiset{a} + multiset{b});
      AllocFrame(d0, ConsoleIn, 0, 0);
      AllocFrame(d1, ConsoleOut, 1, 0);
      AllocFrame(d2, ConsoleOut, 1, 0);
      if a < 0 || b < 0 || c < 0 {
        PutThree(d3, a, b, c);
        PutFrame(d3, a);
        PutFrame(Put(d3, a), b);
        PutFrame(Put(Put(d3, a), b), c);
        EmptySlot(Put(Put(Put(d3, a), b), c), p, q.(used := false), multiset{});
      } else {
        StoreThree(d3, p, a, b, c);
      }
    }
  }

  lemma AllocFrame(d: Fds, kind: Kind, flags: int, inode: u32)
    ensures Alloc(d, kind, flags, inode).0.procs == d.procs
    ensures kind != File ==> NoNewFiles(d, Alloc(d, kind, flags, inode).0)
  {
  }

  lemma PutFrame(d: Fds, k: int)
    ensures Put(d, k).procs == d.procs && NoNewFiles(d, Put(d, k))
  {
  }

  /** What setting up a table does to the processes: only a free slot changes. */
  lemma InitProcesses(d: Fds, pid: int)
    requires ProcessesOk(d.procs) && PidsDistinct(d.procs)
    ensures var (e, status) := ProcessInit(d, pid);
            && ProcessesOk(e.procs) && PidsDistinct(e.procs) && NoNewFiles(d, e)
            && (forall q :: 0 <= q < 16 && d.procs[q].used ==> e.procs[q] == d.procs[q])
            && (forall q :: 0 <= q < 16 && e.procs[q].used && !d.procs[q].used ==> status == 0 && e.procs[q].pid == pid)
  {
    hide ProcessInit, ProcessOk;
    if FindProcess(d.procs, pid, 0) == 16 && FreeProcess(d.procs, 0) < 16 {
      InitSlot(d, pid);
      var e := ProcessInit(d, pid).0;
      hide FindProcess, FreeProcess;
      FreshPid(d.procs, e.procs, FreeProcess(d.procs, 0));
    } else {
      InitNothing(d, pid);
    }
  }

  lemma FreshPid(ps: seq<Process>, qs: seq<Process>, p: nat)
    requires |ps| == |qs| == 16 && p < 16 && PidsDistinct(ps) && FindProcess(ps, qs[p].pid, 0) == 16
    requires forall q :: 0 <= q < 16 && q != p ==> qs[q] == ps[q]
    ensures PidsDistinct(qs)
  {
    forall i, j | 0 <= i < 16 && 0 <= j < 16 && qs[i].used && qs[j].used && qs[i].pid == qs[j].pid ensures i == j {
      assert i != p ==> !(ps[i].used && ps[i].pid == qs[p].pid);
      assert j != p ==> !(ps[j].used && ps[j].pid == qs[p].pid);
    }
  }

  lemma InitNothing(d: Fds, pid: int)
    requires FindProcess(d.procs, pid, 0) < 16 || FreeProcess(d.procs, 0) == 16
    ensures ProcessInit(d, pid).0 == d
  {
  }

  lemma InitSlot(d: Fds, pid: int)
    requires FindProcess(d.procs, pid, 0) == 16 && FreeProcess(d.procs, 0) < 16
    ensures var (e, status) := ProcessInit(d, pid);
            var p := FreeProcess(d.procs, 0);
            && (forall q :: 0 <= q < 16 && q != p ==> e.procs[q] == d.procs[q])
            && e.procs[p].used == (status == 0) && e.procs[p].pid == pid
            && ProcessOk(e.procs[p]) && NoNewFiles(d, e)
  {
    hide NoNewFiles, Alloc, Put, FindProcess, FreeProcess;
    var p := FreeProcess(d.procs, 0);
    var d0 := d.(procs := d.procs[p := Process(true, pid, NoFds(), NoBits())]);
    assert NoNewFiles(d, d0) by { SameFiles(d, d0); }
    AllocFrame(d0, ConsoleIn, 0, 0);
    AllocRange(d0, ConsoleIn, 0, 0);
    var (d1, a) := Alloc(d0, ConsoleIn, 0, 0);
    AllocFrame(d1, ConsoleOut, 1, 0);
    AllocRange(d1, ConsoleOut, 1, 0);
    var (d2, b) := Alloc(d1, ConsoleOut, 1, 0);
    AllocFrame(d2, ConsoleOut, 1, 0);
    AllocRange(d2, ConsoleOut, 1, 0);
    var (d3, c) := Alloc(d2, ConsoleOut, 1, 0);
    NoNewTrans(d, d0, d1);
    NoNewTrans(d, d1, d2);
    NoNewTrans(d, d2, d3);
    var e := ProcessInit(d, pid).0;
    if a < 0 || b < 0 || c < 0 {
      PutFrame(d3, a);
      PutFrame(Put(d3, a), b);
      PutFrame(Put(Put(d3, a), b), c);
      NoNewTrans(d, d3, Put(d3, a));
      NoNewTrans(d, Put(d3, a), Put(Put(d3, a), b));
      NoNewTrans(d, Put(Put(d3, a), b), Put(Put(Put(d3, a), b), c));
      SameFiles(Put(Put(Put(d3, a), b), c), e);
      NoNewTrans(d, Put(Put(Put(d3, a), b), c), e);
    } else {
      SameFiles(d3, e);
      NoNewTrans(d, d3, e);
    }
  }

  lemma AllocRange(d: Fds, kind: Kind, flags: int, inode: u32)
    ensures -1 <= Alloc(d, kind, flags, inode).1 < 64
  {
  }

  lemma SameFiles(d: Fds, e: Fds)
    requires d.files == e.files
    ensures NoNewFiles(d, e)
  {
  }

  lemma NoNewTrans(a: Fds, b: Fds, c: Fds)
    requires NoNewFiles(a, b) && NoNewFiles(b, c)
    ensures NoNewFiles(a, c)
  {
  }

  /** `minifs_process_init` keeps the invariant; it adds a table for `pid` exactly when it reports success. */
  lemma InitOk(d: Fds, pid: int)
    requires FdsOk(d)
    ensures var (e, status) := ProcessInit(d, pid);
            && FdsOk(e) && NoNewFiles(d, e)
            && (forall q :: OwnsTable(e, q) <==> OwnsTable(d, q) || (status == 0 && q == pid))
  {
    hide Balanced, ProcessInit, Named;
    InitBalanced(d, pid);
    InitProcesses(d, pid);
    InitFinds(d, pid);
    var (e, status) := ProcessInit(d, pid);
    forall q ensures OwnsTable(e, q) <==> OwnsTable(d, q) || (status == 0 && q == pid) {
      InitOwns(d, e, status, pid, q);
    }
  }

  lemma InitOwns(d: Fds, e: Fds, status: int, pid: int, q: int)
    requires forall i :: 0 <= i < 16 && d.procs[i].used ==> e.procs[i] == d.procs[i]
    requires forall i :: 0 <= i < 16 && e.procs[i].used && !d.procs[i].used ==> status == 0 && e.procs[i].pid == pid
    requires status >= 0 ==> OwnsTable(e, pid)
    ensures OwnsTable(e, q) <==> OwnsTable(d, q) || (status == 0 && q == pid)
  {
  }

  // ---------------------------------------------------------------- fork, exit, exec, close, dup2, open

  /** Which tables exist and whose they are, and every table but that of slot `p`, stay as they were. */
  predicate SameSlots(d: Fds, e: Fds, p: nat)
    requires p < 16
  {
    && (forall q :: 0 <= q < 16 && q != p ==> e.procs[q] == d.procs[q])
    && e.procs[p].used == d.procs[p].used && e.procs[p].pid == d.procs[p].pid
  }

  /** What a change to the descriptors of one process leaves alone. */
  predicate OnlySlot(d: Fds, e: Fds, p: nat)
    requires p < 16
  {
    SameSlots(d, e, p) && NoNewFiles(d, e)
  }

  lemma SlotsOk(d: Fds, e: Fds, p: nat)
    requires p < 16 && FdsOk(d) && SameSlots(d, e, p) && Balanced(e, multiset{}) && ProcessOk(e.procs[p])
    ensures FdsOk(e)
  {
    hide Balanced, ProcessOk;
  }

  lemma SlotsOwn(d: Fds, e: Fds, p: nat, q: int)
    requires p < 16 && SameSlots(d, e, p)
    ensures OwnsTable(e, q) <==> OwnsTable(d, q)
    ensures FindProcess(e.procs, q, 0) == FindProcess(d.procs, q, 0)
  {
    var a, b := FindProcess(d.procs, q, 0), FindProcess(e.procs, q, 0);
    assert a < 16 ==> e.procs[a].used && e.procs[a].pid == q;
    assert b < 16 ==> d.procs[b].used && d.procs[b].pid == q;
  }

  lemma OnlyTrans(a: Fds, b: Fds, c: Fds, p: nat)
    requires p < 16 && OnlySlot(a, b, p) && OnlySlot(b, c, p)
    ensures OnlySlot(a, c, p)
  {
  }

  lemma DropFrame(d: Fds, p: nat, i: nat)
    requires p < 16 && i < 16
    ensures OnlySlot(d, Drop(d, p, i), p)
    ensures Drop(d, p, i).procs[p] == d.procs[p].(fd := d.procs[p].fd[i := -1])
  {
  }

  lemma RenameFrame(d: Fds, p: nat, i: nat, k: int)
    requires p < 16 && i < 16
    requires k < 0 || (k < 64 && d.files[k].used && d.files[k].refs > 0 && (d.procs[p].fd[i] == k ==> d.files[k].refs >= 2))
    ensures OnlySlot(d, Rename(d, p, i, k), p)
    ensures Rename(d, p, i, k).procs == d.procs[p := d.procs[p].(fd := d.procs[p].fd[i := k])]
  {
  }

  /** Renaming to a file that a descriptor of another process, or another one of this process, names. */
  lemma RenameOk(d: Fds, p: nat, i: nat, q: nat, j: nat)
    requires p < 16 && i < 16 && q < 16 && j < 16 && (p, i) != (q, j) && d.procs[p].used && d.procs[q].used
    requires Balanced(d, multiset{}) && -1 <= d.procs[p].fd[i] < 64 && -1 <= d.procs[q].fd[j] < 64
    ensures var k := d.procs[q].fd[j];
            && Balanced(Rename(d, p, i, k), multiset{}) && OnlySlot(d, Rename(d, p, i, k), p)
            && Rename(d, p, i, k).procs == d.procs[p := d.procs[p].(fd := d.procs[p].fd[i := k])]
  {
    hide Balanced, Rename, OnlySlot;
    var k := d.procs[q].fd[j];
    RenameBalanced(d, p, i, q, j);
    if k >= 0 {
      NamedUsed(d, q, j);
      if d.procs[p].fd[i] == k {
        NamedTwice(d, p, i, q, j);
      }
    }
    RenameFrame(d, p, i, k);
  }

  /** Copying descriptors leaves the child with exactly the parent's. */
  lemma {:induction false} CopyOk(d: Fds, p: nat, c: nat, i: nat)
    requires p < 16 && c < 16 && p != c && i <= 16 && d.procs[p].used && d.procs[c].used && Balanced(d, multiset{})
    requires forall j :: 0 <= j < 16 ==> -1 <= d.procs[p].fd[j] < 64 && -1 <= d.procs[c].fd[j] < 64
    ensures var e := CopyFds(d, p, c, i);
            && Balanced(e, multiset{}) && OnlySlot(d, e, c)
            && e.procs[c].cloexec == d.procs[c].cloexec
            && e.procs[c].fd == d.procs[c].fd[..i] + d.procs[p].fd[i..]
    decreases 16 - i
  {
    hide Balanced, Rename;
    if i < 16 {
      RenameOk(d, c, i, p, i);
      var u := Rename(d, c, i, d.procs[p].fd[i]);
      CopyOk(u, p, c, i + 1);
      OnlyTrans(d, u, CopyFds(d, p, c, i), c);
      CopyStep(d.procs[p].fd, d.procs[c].fd, i);
    }
  }

  lemma CopyStep(a: seq<int>, b: seq<int>, i: nat)
    requires |a| == |b| == 16 && i < 16
    ensures b[i := a[i]][..i + 1] + a[i + 1..] == b[..i] + a[i..]
  {
  }

  /** `minifs_process_fork` gives a new child the parent's descriptors, bits included, sharing its open files. */
  lemma ForkOk(d: Fds, parent: int, child: int)
    requires FdsOk(d) && parent != child
    ensures var (e, status) := ProcessFork(d, parent, child);
            && FdsOk(e) && NoNewFiles(d, e)
            && (forall q :: OwnsTable(e, q) <==> OwnsTable(d, q) || (status == 0 && q == child))
            && (status == 0 ==> OwnsTable(d, parent) && forall fd :: Named(e, child, fd) == Named(d, parent, fd))
  {
    hide Balanced, ProcessInit, CopyFds;
    var p := FindProcess(d.procs, parent, 0);
    InitOk(d, child);
    if p < 16 && ProcessInit(d, child).1 >= 0 {
      ForkCopies(d, parent, child);
    }
  }

  lemma ForkCopies(d: Fds, parent: int, child: int)
    requires FdsOk(d) && parent != child && OwnsTable(d, parent) && ProcessInit(d, child).1 >= 0
    ensures var e := ProcessFork(d, parent, child).0;
            && FdsOk(e) && NoNewFiles(d, e)
            && (forall q :: OwnsTable(e, q) <==> OwnsTable(d, q) || q == child)
            && forall fd :: Named(e, child, fd) == Named(d, parent, fd)
  {
    hide Balanced, ProcessInit, CopyFds, OwnsTable, Named, NoNewFiles, FindProcess, ProcessOk;
    var p := FindProcess(d.procs, parent, 0);
    assert p < 16 && d.procs[p].used by { OwnsSlot(d, parent); }
    var a := ProcessInit(d, child).0;
    InitOk(d, child);
    InitProcesses(d, child);
    InitFinds(d, child);
    var c := FindProcess(a.procs, child, 0);
    var b := a.(procs := a.procs[c := a.procs[c].(cloexec := a.procs[p].cloexec)]);
    assert a.procs[p] == d.procs[p];
    SlotPid(d, parent);
    SlotPid(a, child);
    assert c != p;
    var e := CopyFds(b, p, c, 0);
    CopyBits(a, p, c);
    NoNewTrans(d, a, e);
    forall q ensures OwnsTable(e, q) <==> OwnsTable(d, q) || q == child {
      SlotsOwn(a, e, c, q);
    }
    forall fd ensures Named(e, child, fd) == Named(d, parent, fd) {
      SameNames(d, parent, a, e, child, fd);
    }
  }

  lemma OwnsSlot(d: Fds, pid: int)
    requires OwnsTable(d, pid)
    ensures var p := FindProcess(d.procs, pid, 0); p < 16 && d.procs[p].used && d.procs[p].pid == pid
  {
  }

  lemma SlotPid(d: Fds, pid: int)
    requires FindProcess(d.procs, pid, 0) < 16
    ensures var p := FindProcess(d.procs, pid, 0); d.procs[p].used && d.procs[p].pid == pid
  {
  }

  /** Setting the child's bits and then its descriptors from the parent's. */
  lemma CopyBits(a: Fds, p: nat, c: nat)
    requires FdsOk(a) && p < 16 && c < 16 && p != c && a.procs[p].used && a.procs[c].used
    ensures var e := CopyFds(a.(procs := a.procs[c := a.procs[c].(cloexec := a.procs[p].cloexec)]), p, c, 0);
            FdsOk(e) && OnlySlot(a, e, c) && e.procs[c].fd == a.procs[p].fd && e.procs[c].cloexec == a.procs[p].cloexec
  {
    hide Balanced, CopyFds, NoNewFiles;
    var b := a.(procs := a.procs[c := a.procs[c].(cloexec := a.procs[p].cloexec)]);
    BitsBalanced(a, c, a.procs[p].cloexec);
    assert ProcessOk(a.procs[p]) && ProcessOk(a.procs[c]);
    CopyOk(b, p, c, 0);
    SameFiles(a, b);
    var e := CopyFds(b, p, c, 0);
    OnlyTrans(a, b, e, c);
    SlotsOk(a, e, c);
  }

  /** Close-on-exec bits do not count. */
  lemma BitsBalanced(d: Fds, p: nat, bits: seq<bool>)
    requires p < 16 && |bits| == 16 && Balanced(d, multiset{})
    ensures Balanced(d.(procs := d.procs[p := d.procs[p].(cloexec := bits)]), multiset{})
  {
    hide Balanced;
    var e := d.(procs := d.procs[p := d.procs[p].(cloexec := bits)]);
    forall k: nat | k < 64 ensures Count(e.procs, k) == Count(d.procs, k) {
      CountUpdate(d.procs, p, e.procs[p], k);
    }
    SameCounts(d, e, multiset{});
  }

  lemma SameNames(d: Fds, parent: int, a: Fds, e: Fds, child: int, fd: int)
    requires FdsOk(d) && FdsOk(e)
    requires FindProcess(d.procs, parent, 0) < 16 && FindProcess(e.procs, child, 0) < 16
    requires e.procs[FindProcess(e.procs, child, 0)].fd == d.procs[FindProcess(d.procs, parent, 0)].fd
    ensures Named(e, child, fd) == Named(d, parent, fd)
  {
    hide Balanced, FindProcess;
    var p, c := FindProcess(d.procs, parent, 0), FindProcess(e.procs, child, 0);
    SlotPid(d, parent);
    SlotPid(e, child);
    assert ProcessOk(d.procs[p]) && ProcessOk(e.procs[c]);
    if 0 <= fd < 16 && d.procs[p].fd[fd] >= 0 {
      NamedUsed(d, p, fd);
      NamedUsed(e, c, fd);
    }
  }

  lemma DropOk(d: Fds, p: nat, i: nat)
    requires p < 16 && i < 16 && d.procs[p].used && Balanced(d, multiset{}) && ProcessOk(d.procs[p])
    ensures var e := SetMark(Drop(d, p, i), p, i, false);
            && Balanced(e, multiset{}) && OnlySlot(d, e, p) && ProcessOk(e.procs[p])
            && e.procs[p] == d.procs[p].(fd := d.procs[p].fd[i := -1], cloexec := d.procs[p].cloexec[i := false])
  {
    hide Balanced, Put;
    DropBalanced(d, p, i);
    DropFrame(d, p, i);
    var e := Drop(d, p, i);
    BitsBalanced(e, p, e.procs[p].cloexec[i := false]);
    SameFiles(e, SetMark(e, p, i, false));
    OnlyTrans(d, e, SetMark(e, p, i, false), p);
  }

  lemma {:induction false} CloseFromOk(d: Fds, p: nat, i: nat)
    requires p < 16 && i <= 16 && d.procs[p].used && Balanced(d, multiset{})
    requires forall j :: 0 <= j < 16 ==> -1 <= d.procs[p].fd[j] < 64
    requires forall j :: 0 <= j < i ==> d.procs[p].fd[j] == -1
    ensures var e := CloseFrom(d, p, i);
            Balanced(e, multiset{}) && OnlySlot(d, e, p) && forall j :: 0 <= j < 16 ==> e.procs[p].fd[j] == -1
    decreases 16 - i
  {
    hide Balanced, Drop;
    if i < 16 {
      DropBalanced(d, p, i);
      DropFrame(d, p, i);
      CloseFromOk(Drop(d, p, i), p, i + 1);
      OnlyTrans(d, Drop(d, p, i), CloseFrom(d, p, i), p);
    }
  }

  /** `minifs_close_all` takes the table of `pid` away and gives back every reference it held. */
  lemma CloseAllOk(d: Fds, pid: int)
    requires FdsOk(d)
    ensures var e := CloseAll(d, pid);
            FdsOk(e) && NoNewFiles(d, e) && forall q :: OwnsTable(e, q) <==> OwnsTable(d, q) && q != pid
  {
    hide Balanced, CloseFrom, NoNewFiles, ProcessOk;
    var p := FindProcess(d.procs, pid, 0);
    if p < 16 {
      ProcessRange(d.procs[p]);
      CloseFromOk(d, p, 0);
      var c := CloseFrom(d, p, 0);
      var q := c.procs[p].(cloexec := NoBits(), used := false);
      EmptySlot(c, p, q, multiset{});
      var e := CloseAll(d, pid);
      SameFiles(c, e);
      NoNewTrans(d, c, e);
      ClosedTable(d, e, p, pid);
    } else {
      SameFiles(d, d);
    }
  }

  lemma ProcessRange(p: Process)
    requires ProcessOk(p)
    ensures forall j :: 0 <= j < 16 ==> -1 <= p.fd[j] < 64
  {
  }

  lemma ClosedTable(d: Fds, e: Fds, p: nat, pid: int)
    requires PidsDistinct(d.procs) && p < 16 && d.procs[p].used && d.procs[p].pid == pid && !e.procs[p].used
    requires forall q :: 0 <= q < 16 && q != p ==> e.procs[q] == d.procs[q]
    ensures PidsDistinct(e.procs) && forall q :: OwnsTable(e, q) <==> OwnsTable(d, q) && q != pid
  {
    forall q ensures OwnsTable(e, q) <==> OwnsTable(d, q) && q != pid {
      var a, b := FindProcess(d.procs, q, 0), FindProcess(e.procs, q, 0);
      assert b < 16 ==> b != p && d.procs[b].used && d.procs[b].pid == q;
      assert a < 16 && q != pid ==> a != p && e.procs[a].used && e.procs[a].pid == q;
    }
  }

  lemma {:induction false} CloseMarkedOk(d: Fds, p: nat, i: nat)
    requires p < 16 && i <= 16 && d.procs[p].used && Balanced(d, multiset{}) && ProcessOk(d.procs[p])
    ensures var e := CloseMarked(d, p, i);
            && Balanced(e, multiset{}) && OnlySlot(d, e, p) && ProcessOk(e.procs[p])
            && (forall j :: 0 <= j < i ==> e.procs[p].fd[j] == d.procs[p].fd[j] && e.procs[p].cloexec[j] == d.procs[p].cloexec[j])
            && forall j :: i <= j < 16 ==>
                 !e.procs[p].cloexec[j] && e.procs[p].fd[j] == if d.procs[p].cloexec[j] then -1 else d.procs[p].fd[j]
    decreases 16 - i
  {
    hide Balanced, Drop, ProcessOk, SetMark;
    if i < 16 {
      if d.procs[p].cloexec[i] {
        DropOk(d, p, i);
        var u := SetMark(Drop(d, p, i), p, i, false);
        CloseMarkedOk(u, p, i + 1);
        OnlyTrans(d, u, CloseMarked(d, p, i), p);
      } else {
        CloseMarkedOk(d, p, i + 1);
      }
    }
  }

  /** `minifs_close_exec_fds` closes exactly the marked descriptors. */
  lemma CloseExecOk(d: Fds, pid: int)
    requires FdsOk(d)
    ensures var e := CloseExec(d, pid);
            && FdsOk(e) && NoNewFiles(d, e) && (forall q :: OwnsTable(e, q) <==> OwnsTable(d, q))
            && var p := FindProcess(d.procs, pid, 0);
               p < 16 ==> forall j :: 0 <= j < 16 ==>
                 !e.procs[p].cloexec[j] && e.procs[p].fd[j] == if d.procs[p].cloexec[j] then -1 else d.procs[p].fd[j]
  {
    hide Balanced, CloseMarked, ProcessOk, NoNewFiles, OwnsTable;
    var p := FindProcess(d.procs, pid, 0);
    if p < 16 {
      CloseMarkedOk(d, p, 0);
      SlotChanged(d, CloseExec(d, pid), p);
    } else {
      SameFiles(d, d);
    }
  }

  /** The invariant after a change to one process in use. */
  lemma SlotChanged(d: Fds, e: Fds, p: nat)
    requires p < 16 && FdsOk(d) && OnlySlot(d, e, p) && Balanced(e, multiset{}) && ProcessOk(e.procs[p])
    ensures FdsOk(e) && NoNewFiles(d, e) && forall q :: OwnsTable(e, q) <==> OwnsTable(d, q)
  {
    hide Balanced, ProcessOk, OwnsTable, NoNewFiles;
    SlotsOk(d, e, p);
    forall q ensures OwnsTable(e, q) <==> OwnsTable(d, q) {
      SlotsOwn(d, e, p, q);
    }
  }

  /** `minifs_close` frees one descriptor and nothing else. */
  lemma CloseOk(d: Fds, pid: int, fd: int)
    requires FdsOk(d)
    ensures var (e, status) := Close(d, pid, fd);
            && FdsOk(e) && NoNewFiles(d, e) && (forall q :: OwnsTable(e, q) <==> OwnsTable(d, q))
            && (status == 0 ==> Named(e, pid, fd) == -1)
            && ((status == 0) <==> Named(d, pid, fd) >= 0)
  {
    hide Balanced, ProcessOk, NoNewFiles, OwnsTable;
    var p := FindProcess(d.procs, pid, 0);
    if OpenFd(d, p, fd) {
      DropOk(d, p, fd);
      var e := Close(d, pid, fd).0;
      SlotChanged(d, e, p);
      SlotsOwn(d, e, p, pid);
      ProcessRange(d.procs[p]);
      NamedUsed(d, p, fd);
    } else {
      SameFiles(d, d);
    }
  }

  lemma CloexecOk(d: Fds, pid: int, fd: int, on: bool)
    requires FdsOk(d)
    ensures var (e, status) := SetCloexec(d, pid, fd, on);
            && FdsOk(e) && NoNewFiles(d, e) && (forall q :: OwnsTable(e, q) <==> OwnsTable(d, q))
  {
    hide Balanced, NoNewFiles, OwnsTable;
    var p := FindProcess(d.procs, pid, 0);
    if OpenFd(d, p, fd) {
      assert ProcessOk(d.procs[p]);
      BitsBalanced(d, p, d.procs[p].cloexec[fd := on]);
      SameFiles(d, SetMark(d, p, fd, on));
      SlotChanged(d, SetMark(d, p, fd, on), p);
    } else {
      SameFiles(d, d);
    }
  }

  /** `minifs_dup2` makes the new descriptor another name for the same open file. */
  lemma Dup2Ok(d: Fds, pid: int, oldfd: int, newfd: int)
    requires FdsOk(d)
    ensures var (e, status) := Dup2(d, pid, oldfd, newfd);
            && FdsOk(e) && NoNewFiles(d, e) && (forall q :: OwnsTable(e, q) <==> OwnsTable(d, q))
            && (status >= 0 ==> status == newfd && Named(e, pid, newfd) == Named(e, pid, oldfd) == Named(d, pid, oldfd) >= 0)
            && ((status >= 0) <==> Named(d, pid, oldfd) >= 0 && 0 <= newfd < 16)
  {
    hide Balanced, ProcessOk, NoNewFiles, OwnsTable;
    var p := FindProcess(d.procs, pid, 0);
    if OpenFd(d, p, oldfd) {
      ProcessRange(d.procs[p]);
      NamedUsed(d, p, oldfd);
      if 0 <= newfd < 16 && oldfd != newfd {
        var e := Dup2(d, pid, oldfd, newfd).0;
        DupSlot(d, p, oldfd, newfd);
        SlotChanged(d, e, p);
        SlotsOwn(d, e, p, pid);
        NamedUsed(e, p, newfd);
      } else {
        SameFiles(d, d);
      }
    } else {
      SameFiles(d, d);
    }
  }

  lemma DupSlot(d: Fds, p: nat, oldfd: nat, newfd: nat)
    requires FdsOk(d) && p < 16 && d.procs[p].used && oldfd < 16 && newfd < 16 && oldfd != newfd && d.procs[p].fd[oldfd] >= 0
    ensures var e := SetMark(Rename(d, p, newfd, d.procs[p].fd[oldfd]), p, newfd, false);
            && Balanced(e, multiset{}) && OnlySlot(d, e, p) && ProcessOk(e.procs[p])
            && e.procs[p].fd == d.procs[p].fd[newfd := d.procs[p].fd[oldfd]]
  {
    hide Balanced, Rename;
    assert ProcessOk(d.procs[p]);
    RenameOk(d, p, newfd, p, oldfd);
    var u := Rename(d, p, newfd, d.procs[p].fd[oldfd]);
    BitsBalanced(u, p, u.procs[p].cloexec[newfd := false]);
    SameFiles(u, SetMark(u, p, newfd, false));
    OnlyTrans(d, u, SetMark(u, p, newfd, false), p);
  }

  /** Regular files of `e` were open in `d`, except possibly open file `k`. */
  predicate OneNewFile(d: Fds, e: Fds, k: int) {
    forall j :: 0 <= j < 64 && j != k && e.files[j].used && e.files[j].kind == File ==>
      d.files[j].used && e.files[j] == d.files[j].(refs := e.files[j].refs)
  }

  lemma InstallBalanced(d: Fds, p: nat, flags: int, inode: u32, offset: u32)
    requires p < 16 && d.procs[p].used && ProcessOk(d.procs[p]) && Balanced(d, multiset{})
    ensures Balanced(Install(d, p, flags, inode, offset).0, multiset{})
  {
    hide Balanced, Alloc, FreeFd;
    AllocBalanced(d, File, flags, inode, multiset{});
    AllocFrame(d, File, flags, inode);
    var (d1, k) := Alloc(d, File, flags, inode);
    if k < 0 {
      NoReference(d1, multiset{});
    } else {
      var d2 := SetOffset(d1, k, offset);
      SameCounts(d1, d2, multiset{} + multiset{k});
      var fd := FreeFd(d2.procs[p].fd, 0);
      if fd == 16 {
        PutBalanced(d2, k, multiset{});
      } else {
        SetFdBalanced(d2, p, fd, k, multiset{});
        NoReference(SetFd(d2, p, fd, k), multiset{});
        BitsBalanced(SetFd(d2, p, fd, k), p, d2.procs[p].cloexec[fd := false]);
      }
    }
  }

  /** The end of `minifs_open`: success names one new open file for `inode`; failure opens nothing. */
  lemma InstallOk(d: Fds, pid: int, flags: int, inode: u32, offset: u32)
    requires FdsOk(d) && OwnsTable(d, pid)
    ensures var (e, fd) := Install(d, FindProcess(d.procs, pid, 0), flags, inode, offset);
            && FdsOk(e) && (forall q :: OwnsTable(e, q) <==> OwnsTable(d, q))
            && (fd < 0 ==> NoNewFiles(d, e))
            && (fd >= 0 ==> var k := Named(e, pid, fd);
                  && k >= 0 && !d.files[k].used && e.files[k] == OpenFile(true, 1, File, flags, inode, offset)
                  && Named(d, pid, fd) == -1 && OneNewFile(d, e, k))
  {
    hide Balanced, FreeFile, FindProcess, OwnsTable, ProcessOk;
    OwnsSlot(d, pid);
    var p := FindProcess(d.procs, pid, 0);
    InstallBalanced(d, p, flags, inode, offset);
    InstallSlot(d, p, flags, inode, offset);
    var (e, fd) := Install(d, p, flags, inode, offset);
    SlotsOk(d, e, p);
    forall q ensures OwnsTable(e, q) <==> OwnsTable(d, q) {
      SlotsOwn(d, e, p, q);
    }
    SlotsOwn(d, e, p, pid);
  }

  lemma InstallSlot(d: Fds, p: nat, flags: int, inode: u32, offset: u32)
    requires p < 16 && ProcessOk(d.procs[p])
    ensures var (e, fd) := Install(d, p, flags, inode, offset);
            && SameSlots(d, e, p) && ProcessOk(e.procs[p])
  {
  }

  /** Positions do not count. */
  lemma OffsetOk(d: Fds, k: nat, offset: u32)
    requires FdsOk(d) && k < 64
    ensures FdsOk(SetOffset(d, k, offset)) && forall pid, fd :: Named(SetOffset(d, k, offset), pid, fd) == Named(d, pid, fd)
  {
    hide Balanced;
    SameCounts(d, SetOffset(d, k, offset), multiset{});
  }

  lemma EmptyOk()
    ensures FdsOk(Fds(NoFiles(), NoProcesses()))
  {
    hide NoProcesses;
    var d: Fds := Fds(NoFiles(), NoProcesses());
    forall k: nat | k < 64 ensures BalancedAt(d, multiset{}, k) {
      NoneUsed(d.procs, k);
    }
  }

  lemma {:induction false} NoneUsed(ps: seq<Process>, k: int)
    requires forall i :: 0 <= i < |ps| ==> !ps[i].used
    ensures Count(ps, k) == 0
  {
    if ps != [] {
      NoneUsed(ps[..|ps| - 1], k);
    }
  }
}
