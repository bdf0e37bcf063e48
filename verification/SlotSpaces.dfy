/** The address spaces that exist, read off the task slots that own them. */
module SlotSpaces {
  import opened Mmu
  import opened PageAlloc
  import opened Spaces
  import opened SpaceOps

  /** The spaces of the first `n` slots that have one, in slot order. */
  function Live(has: seq<bool>, space: seq<Space>, n: nat): seq<Space>
    requires n <= |has| && n <= |space|
  {
    if n == 0 then [] else Live(has, space, n - 1) + if has[n - 1] then [space[n - 1]] else []
  }

  /** Where the space of slot `i` stands in that list. */
  function Place(has: seq<bool>, space: seq<Space>, i: nat): nat
    requires i <= |has| && i <= |space|
  {
    |Live(has, space, i)|
  }

  /** Slots below `n` decide. */
  lemma {:induction false} LiveSame(has: seq<bool>, space: seq<Space>, has2: seq<bool>, space2: seq<Space>, n: nat)
    requires n <= |has| && n <= |space| && n <= |has2| && n <= |space2|
    requires forall i :: 0 <= i < n ==> has2[i] == has[i] && (has[i] ==> space2[i] == space[i])
    ensures Live(has2, space2, n) == Live(has, space, n)
  {
    if n > 0 {
      LiveSame(has, space, has2, space2, n - 1);
    }
  }

  lemma {:induction false} LiveAt(has: seq<bool>, space: seq<Space>, n: nat, i: nat)
    requires i < n <= |has| && n <= |space| && has[i]
    ensures Place(has, space, i) < |Live(has, space, n)| && Live(has, space, n)[Place(has, space, i)] == space[i]
    decreases n
  {
    if i < n - 1 {
      LiveAt(has, space, n - 1, i);
    }
  }

  /** Taking the space of slot `z` away takes it out of the list. */
  lemma {:induction false} LiveRemove(has: seq<bool>, space: seq<Space>, n: nat, z: nat, has2: seq<bool>, space2: seq<Space>)
    requires z < n <= |has| && n <= |space| && |has2| == |has| && |space2| == |space| && has[z] && !has2[z]
    requires forall i :: 0 <= i < n && i != z ==> has2[i] == has[i] && (has[i] ==> space2[i] == space[i])
    ensures Place(has, space, z) < |Live(has, space, n)|
    ensures Live(has2, space2, n) == Others(Live(has, space, n), Place(has, space, z))
    decreases n
  {
    hide Live;
    LiveAt(has, space, n, z);
    LiveStep(has, space, n);
    LiveStep(has2, space2, n);
    if z == n - 1 {
      LiveSame(has, space, has2, space2, n - 1);
      OthersLast(Live(has, space, n - 1), space[z]);
    } else {
      LiveRemove(has, space, n - 1, z, has2, space2);
      OthersFront(Live(has, space, n - 1), if has[n - 1] then [space[n - 1]] else [], Place(has, space, z));
    }
  }

  lemma LiveStep(has: seq<bool>, space: seq<Space>, n: nat)
    requires 0 < n <= |has| && n <= |space|
    ensures Live(has, space, n) == Live(has, space, n - 1) + if has[n - 1] then [space[n - 1]] else []
  {
  }

  lemma OthersLast(l: seq<Space>, sp: Space)
    ensures Others(l + [sp], |l|) == l
  {
  }

  lemma OthersFront(l: seq<Space>, t: seq<Space>, p: nat)
    requires p < |l|
    ensures Others(l + t, p) == Others(l, p) + t
  {
  }

  /** Giving slot `z` a space adds its pages. */
  lemma {:induction false} LiveAdd(has: seq<bool>, space: seq<Space>, n: nat, z: nat, has2: seq<bool>, space2: seq<Space>)
    requires z < n <= |has| && n <= |space| && |has2| == |has| && |space2| == |space| && !has[z] && has2[z]
    requires forall i :: 0 <= i < n && i != z ==> has2[i] == has[i] && (has[i] ==> space2[i] == space[i])
    ensures SamePages(Live(has, space, n) + [space2[z]], Live(has2, space2, n))
    decreases n
  {
    hide SpaceUsed;
    var was, now := Live(has, space, n), Live(has2, space2, n);
    LiveAt(has2, space2, n, z);
    LiveRemove(has2, space2, n, z, has, space);
    var p := Place(has2, space2, z);
    AllUsedRemove(now, p);
    assert (was + [space2[z]])[..|was|] == was;
    forall j | 0 <= j < |now| ensures now[j] in was + [space2[z]] {
      if j != p {
        assert now[j] == was[if j < p then j else j - 1];
      }
    }
  }

  /** `b` lists spaces of `a`, and together they own the same pages. */
  ghost predicate SamePages(a: seq<Space>, b: seq<Space>) {
    AllUsed(b) == AllUsed(a) && forall j :: 0 <= j < |b| ==> b[j] in a
  }

  /** The order of the list does not matter. */
  lemma Reordered(s: Sys, first: nat, b: seq<Space>)
    requires SomeFree(s, first, multiset{}) && SamePages(s.spaces, b)
    ensures SomeFree(s.(spaces := b), first, multiset{})
  {
    hide HeapOk, KernelOk, SpaceOk, AllUsed, KernelUsed;
    var free: seq<nat> :| SysOk(s, first, free, multiset{});
    var t := s.(spaces := b);
    forall i | 0 <= i < |b| ensures SpaceOk(s.heap.mem, s.k, b[i]) {
      var j := InFirst(s.spaces, b, i);
    }
    assert SysOk(t, first, free, multiset{});
  }

  lemma InFirst(a: seq<Space>, b: seq<Space>, i: nat) returns (j: nat)
    requires SamePages(a, b) && i < |b|
    ensures j < |a| && a[j] == b[i]
  {
    hide AllUsed;
    assert b[i] in a;
    j :| 0 <= j < |a| && a[j] == b[i];
  }
}
