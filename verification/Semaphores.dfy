/** Semaphores of sync.c under every interleaving: no unit is made or lost, and exactly when a post is lost on a task that has
    failed its test and is about to block. */
module Semaphores {

  /** A semaphore and the tasks inside its calls: about to test the value, past a failed test but not blocked yet, blocked; and the
      posts that have raised the value but not woken anybody yet. */
  datatype Sem = Sem(value: nat, testing: set<nat>, leaving: set<nat>, blocked: set<nat>, pending: nat)

  datatype Act =
    | Call(p: nat)   // enters `sem_wait`
    | Test(p: nat)   // the protected test: takes a unit, or fails
    | Block(p: nat)  // `task_block`
    | Post           // the protected increment of `sem_post`
    | Wake(p: nat)   // its `task_wake_one`, which wakes `p` if anybody is blocked

  predicate Enabled(s: Sem, a: Act) {
    match a
    case Call(p) => p !in s.testing + s.leaving + s.blocked
    case Test(p) => p in s.testing
    case Block(p) => p in s.leaving
    case Post => true
    case Wake(p) => s.pending > 0 && (s.blocked != {} ==> p in s.blocked)
  }

  function Step(s: Sem, a: Act): (u: Sem)
    requires Enabled(s, a)
  {
    match a
    case Call(p) => s.(testing := s.testing + {p})
    case Test(p) =>
      if s.value > 0 then s.(value := s.value - 1, testing := s.testing - {p})
      else s.(testing := s.testing - {p}, leaving := s.leaving + {p})
    case Block(p) => s.(leaving := s.leaving - {p}, blocked := s.blocked + {p})
    case Post => s.(value := s.value + 1, pending := s.pending + 1)
    case Wake(p) =>
      if p in s.blocked then s.(blocked := s.blocked - {p}, testing := s.testing + {p}, pending := s.pending - 1)
      else s.(pending := s.pending - 1)
  }

  function Init(value: int): Sem {
    Sem(if value < 0 then 0 else value, {}, {}, {}, 0)
  }

  /** A task is in one place at a time. */
  predicate Apart(s: Sem) {
    s.testing !! s.leaving && s.testing !! s.blocked && s.leaving !! s.blocked
  }

  /** Units are there, a task is blocked, and nothing is under way that could bring them together. */
  predicate Stuck(s: Sem) {
    s.value > 0 && s.blocked != {} && s.testing == {} && s.leaving == {} && s.pending == 0
  }

  function Less(a: nat, b: nat): nat {
    if a < b then a else b
  }

  /** Whenever some task will be left blocked, every unit has a task coming for it: one about to test, or one that a pending
      wake-up will reach. */
  predicate Covered(s: Sem) {
    s.leaving != {} || |s.blocked| > s.pending ==> s.value <= |s.testing| + Less(s.pending, |s.blocked|)
  }

  /** Before a post: some task is past its test and not blocked yet, every blocked task already has a wake-up on its way, and every
      task that comes has a unit waiting for it. */
  predicate PostIsLost(s: Sem) {
    s.leaving != {} && |s.blocked| <= s.pending && s.value >= |s.testing| + |s.blocked|
  }

  // ---------------------------------------------------------------- one step

  lemma Grows(a: set<nat>, p: nat)
    ensures p !in a ==> |a + {p}| == |a| + 1
    ensures p in a ==> |a - {p}| == |a| - 1 && a == a - {p} + {p}
  {
    if p in a {
      assert a == a - {p} + {p};
    }
  }

  /** Every step but a post keeps each unit covered. A post does so exactly unless it is lost. */
  lemma StepKeepsIff(s: Sem, a: Act)
    requires Apart(s) && Covered(s) && Enabled(s, a)
    ensures Apart(Step(s, a))
    ensures Covered(Step(s, a)) <==> !(a == Post && PostIsLost(s))
  {
    hide Covered, PostIsLost;
    match a
    case Call(p) => CallKeeps(s, p);
    case Test(p) => TestKeeps(s, p);
    case Block(p) => BlockKeeps(s, p);
    case Wake(p) => WakeKeeps(s, p);
    case Post => PostKeeps(s);
  }

  lemma CallKeeps(s: Sem, p: nat)
    requires Apart(s) && Enabled(s, Call(p))
    ensures var u := Step(s, Call(p)); Apart(u) && (Covered(s) ==> Covered(u))
  {
    Grows(s.testing, p);
  }

  /** A test that takes a unit neither covers nor uncovers one; one that fails finds none to cover. */
  lemma TestKeeps(s: Sem, p: nat)
    requires Apart(s) && Enabled(s, Test(p))
    ensures var u := Step(s, Test(p));
            && Apart(u) && |u.testing| == |s.testing| - 1 && (if s.value > 0 then Covered(u) == Covered(s) else Covered(u))
            && (s.value > 0 ==> u.leaving == s.leaving && u.pending == s.pending)
  {
    Grows(s.testing, p);
  }

  lemma BlockKeeps(s: Sem, p: nat)
    requires Apart(s) && Enabled(s, Block(p))
    ensures var u := Step(s, Block(p));
            && Apart(u) && |u.leaving| == |s.leaving| - 1 && u.testing == s.testing && u.pending == s.pending
            && (Covered(s) ==> Covered(u)) && (s.pending == 0 && !Covered(s) ==> !Covered(u))
  {
    Grows(s.blocked, p);
    Grows(s.leaving, p);
  }

  lemma WakeKeeps(s: Sem, p: nat)
    requires Apart(s) && Enabled(s, Wake(p))
    ensures var u := Step(s, Wake(p));
            Apart(u) && Covered(u) == Covered(s) && |u.testing| <= |s.testing| + 1 && u.leaving == s.leaving && u.pending == s.pending - 1
  {
    Grows(s.blocked, p);
    Grows(s.testing, p);
  }

  lemma PostKeeps(s: Sem)
    requires Apart(s) && Covered(s)
    ensures var u := Step(s, Post); Apart(u) && (Covered(u) <==> !PostIsLost(s))
  {
  }

  // ---------------------------------------------------------------- runs

  predicate EnabledRun(s: Sem, acts: seq<Act>)
    decreases |acts|
  {
    acts == [] || (Enabled(s, acts[0]) && EnabledRun(Step(s, acts[0]), acts[1..]))
  }

  function Run(s: Sem, acts: seq<Act>): Sem
    requires EnabledRun(s, acts)
    decreases |acts|
  {
    if acts == [] then s else Run(Step(s, acts[0]), acts[1..])
  }

  /** Completed increments and decrements of a run. */
  function Posts(acts: seq<Act>): nat {
    if acts == [] then 0 else (if acts[0].Post? then 1 else 0) + Posts(acts[1..])
  }

  function Taken(s: Sem, acts: seq<Act>): nat
    requires EnabledRun(s, acts)
    decreases |acts|
  {
    if acts == [] then 0 else (if acts[0].Test? && Passes(s, acts[0].p) then 1 else 0) + Taken(Step(s, acts[0]), acts[1..])
  }

  /** A test after which the task is out of the call. */
  predicate Passes(s: Sem, p: nat)
    requires p in s.testing
  {
    p !in Step(s, Test(p)).leaving
  }

  lemma {:induction false} Conserves(s: Sem, acts: seq<Act>)
    requires Apart(s) && EnabledRun(s, acts)
    ensures Apart(Run(s, acts)) && Run(s, acts).value + Taken(s, acts) == s.value + Posts(acts)
    decreases |acts|
  {
    if acts != [] {
      Conserves(Step(s, acts[0]), acts[1..]);
    }
  }

  /** Whatever the interleaving, the value is what it started with and what was posted, less one for every wait that has passed its
      test: no wait passes without a unit to take. A wait passes exactly when there is one. */
  lemma SemaphoreConserves(value: int, acts: seq<Act>)
    requires EnabledRun(Init(value), acts)
    ensures Run(Init(value), acts).value + Taken(Init(value), acts) == (if value < 0 then 0 else value) + Posts(acts)
    ensures forall p :: p in Run(Init(value), acts).testing ==> (Passes(Run(Init(value), acts), p) <==> Run(Init(value), acts).value > 0)
  {
    Conserves(Init(value), acts);
  }

  /** No post of the run is lost. */
  predicate NoneLost(s: Sem, acts: seq<Act>)
    requires EnabledRun(s, acts)
    decreases |acts|
  {
    acts == [] || (!(acts[0] == Post && PostIsLost(s)) && NoneLost(Step(s, acts[0]), acts[1..]))
  }

  lemma {:induction false} RunCovered(s: Sem, acts: seq<Act>)
    requires Apart(s) && Covered(s) && EnabledRun(s, acts) && NoneLost(s, acts)
    ensures Apart(Run(s, acts)) && Covered(Run(s, acts)) && !Stuck(Run(s, acts))
    decreases |acts|
  {
    hide Apart, Covered, Enabled, Step, PostIsLost;
    if acts == [] {
      NotStuck(s);
    } else {
      StepKeepsIff(s, acts[0]);
      RunCovered(Step(s, acts[0]), acts[1..]);
    }
  }

  lemma NotStuck(s: Sem)
    requires Covered(s)
    ensures !Stuck(s)
  {
    if Stuck(s) {
      var p :| p in s.blocked;
      Grows(s.blocked, p);
    }
  }

  /** From any initial value, over every interleaving of calls in which no post is lost: never are units left beside a blocked task
      with nothing under way. */
  lemma NeverStuck(value: int, acts: seq<Act>)
    requires EnabledRun(Init(value), acts) && NoneLost(Init(value), acts)
    ensures !Stuck(Run(Init(value), acts))
  {
    RunCovered(Init(value), acts);
  }

  /** Steps of calls that have begun: no new wait and no new post. */
  predicate Inner(acts: seq<Act>) {
    forall i :: 0 <= i < |acts| ==> acts[i].Test? || acts[i].Block? || acts[i].Wake?
  }

  lemma InnerLosesNone(s: Sem, acts: seq<Act>)
    requires EnabledRun(s, acts) && Inner(acts)
    ensures NoneLost(s, acts)
    decreases |acts|
  {
    hide Enabled, Step, PostIsLost;
    if acts != [] {
      InnerLosesNone(Step(s, acts[0]), acts[1..]);
    }
  }

  /** The next step on the way to a stuck state: wake-ups first, then tests, then blocks. */
  function Next(s: Sem, p: nat): Act {
    if s.pending > 0 then Wake(p) else if s.testing != {} then Test(p) else Block(p)
  }

  lemma StaysUncovered(s: Sem, p: nat)
    requires Apart(s) && !Covered(s) && Enabled(s, Next(s, p))
    ensures Apart(Step(s, Next(s, p))) && !Covered(Step(s, Next(s, p)))
    ensures var u := Step(s, Next(s, p)); 2 * u.pending + 2 * |u.leaving| + |u.testing| < 2 * s.pending + 2 * |s.leaving| + |s.testing|
  {
    if s.pending > 0 {
      WakeKeeps(s, p);
    } else if s.testing != {} {
      Grows(s.testing, p);
      TestKeeps(s, p);
    } else {
      BlockKeeps(s, p);
    }
  }

  lemma {:induction false} ReachStuck(s: Sem) returns (acts: seq<Act>)
    requires Apart(s) && !Covered(s)
    ensures Inner(acts) && EnabledRun(s, acts) && Stuck(Run(s, acts))
    decreases 2 * s.pending + 2 * |s.leaving| + |s.testing|
  {
    hide Covered, Step;
    if s.pending == 0 && s.testing == {} && s.leaving == {} {
      acts := [];
      LeftBehind(s);
    } else {
      var p := Mover(s);
      StaysUncovered(s, p);
      var rest := ReachStuck(Step(s, Next(s, p)));
      acts := [Next(s, p)] + rest;
      assert acts[1..] == rest;
    }
  }

  lemma LeftBehind(s: Sem)
    requires !Covered(s) && s.pending == 0 && s.testing == {} && s.leaving == {}
    ensures Stuck(s)
  {
  }

  lemma Mover(s: Sem) returns (p: nat)
    requires s.pending > 0 || s.testing != {} || s.leaving != {}
    ensures Enabled(s, Next(s, p))
  {
    if s.pending > 0 {
      if s.blocked != {} {
        p :| p in s.blocked;
      } else {
        p := 0;
      }
    } else if s.testing != {} {
      p :| p in s.testing;
    } else {
      p :| p in s.leaving;
    }
  }

  /** A state from which the calls already begun can end up stuck is exactly one with a unit that is not covered. */
  lemma StuckIff(s: Sem)
    requires Apart(s)
    ensures (exists acts :: EnabledRun(s, acts) && Inner(acts) && Stuck(Run(s, acts))) <==> !Covered(s)
  {
    hide Covered, Enabled, Step, Stuck;
    if Covered(s) {
      forall acts | EnabledRun(s, acts) && Inner(acts) ensures !Stuck(Run(s, acts)) {
        InnerLosesNone(s, acts);
        RunCovered(s, acts);
      }
    } else {
      var acts := ReachStuck(s);
    }
  }

  /** The smallest case: a semaphore at 0, one task past its test, one post, and the task blocks for good beside the unit. */
  lemma LostPost(p: nat)
    ensures var acts := [Call(p), Test(p), Post, Wake(p), Block(p)];
            EnabledRun(Init(0), acts) && Stuck(Run(Init(0), acts))
  {
    var s1 := Step(Init(0), Call(p));
    var s2 := Step(s1, Test(p));
    var s3 := Step(s2, Post);
    var s4 := Step(s3, Wake(p));
    var a4 := [Block(p)];
    var a3 := [Wake(p)] + a4;
    var a2 := [Post] + a3;
    var a1 := [Test(p)] + a2;
    assert a1[1..] == a2 && a2[1..] == a3 && a3[1..] == a4 && a4[1..] == [];
    assert EnabledRun(s4, a4) && Stuck(Run(s4, a4));
    assert EnabledRun(s3, a3) && Stuck(Run(s3, a3));
    assert EnabledRun(s2, a2) && Stuck(Run(s2, a2));
    assert EnabledRun(s1, a1) && Stuck(Run(s1, a1));
    assert [Call(p), Test(p), Post, Wake(p), Block(p)][1..] == a1;
  }
}
