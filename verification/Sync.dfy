/** Mutexes of sync.c under every interleaving: each step below is one section that interrupts cannot split. */
module Sync {

  /** Where a task is: between calls, in `sem_wait` of a lock, with the unit taken but `owner` not yet set, past the owner
      test of an unlock, with `owner` cleared but the unit not yet given back, or about to wake a waiter. */
  datatype Pc = Idle | Testing | Blocking | Acquired | Clearing | Releasing | Waking

  datatype Action = Lock | TryLock | Unlock

  /** `holders` are the tasks between taking the unit and giving it back. */
  datatype Mutex = Mutex(value: int, owner: int, holders: set<nat>, pcs: map<nat, Pc>)

  const NOBODY := -1

  function Init(): (s: Mutex) {
    Mutex(1, NOBODY, {}, map[])
  }

  function PcOf(s: Mutex, p: nat): Pc {
    if p in s.pcs then s.pcs[p] else Idle
  }

  function Goto(s: Mutex, p: nat, pc: Pc): Mutex {
    s.(pcs := s.pcs[p := pc])
  }

  /** The next step of task `p`; between calls, `a` says what it calls. */
  function Step(s: Mutex, p: nat, a: Action): (u: Mutex) {
    match PcOf(s, p)
    case Idle =>
      (match a
       case Lock => Goto(s, p, Testing)
       case TryLock => if s.value == 0 then s else s.(value := 0, owner := p, holders := s.holders + {p})
       case Unlock => if s.owner != p then s else Goto(s, p, Clearing))
    case Testing =>
      if s.value > 0 then Goto(s.(value := s.value - 1, holders := s.holders + {p}), p, Acquired) else Goto(s, p, Blocking)
    case Blocking => Goto(s, p, Testing)
    case Acquired => Goto(s.(owner := p), p, Idle)
    case Clearing => Goto(s.(owner := NOBODY), p, Releasing)
    case Releasing => Goto(s.(value := s.value + 1, holders := s.holders - {p}), p, Waking)
    case Waking => Goto(s, p, Idle)
  }

  function Run(s: Mutex, steps: seq<(nat, Action)>): Mutex
    decreases |steps|
  {
    if steps == [] then s else Run(Step(s, steps[0].0, steps[0].1), steps[1..])
  }

  /** What the owner field says about task `p`, depending on where it is. */
  predicate TaskOk(s: Mutex, p: nat) {
    var pc := PcOf(s, p);
    && (pc == Acquired || pc == Clearing || pc == Releasing ==> p in s.holders)
    && (p in s.holders ==> s.owner == if pc == Acquired || pc == Releasing then NOBODY else p)
    && (s.owner == p ==> p in s.holders)
  }

  ghost predicate MutexOk(s: Mutex) {
    && 0 <= s.value <= 1
    && (s.value == 1 <==> s.holders == {})
    && (forall p, q :: p in s.holders && q in s.holders ==> p == q)
    && s.owner >= NOBODY
    && forall p: nat :: TaskOk(s, p)
  }

  lemma InitOk()
    ensures MutexOk(Init())
  {
  }

  lemma OneElement(h: set<nat>, p: nat)
    requires p in h && forall a, b :: a in h && b in h ==> a == b
    ensures h == {p} && |h| == 1
  {
    forall q ensures q in h <==> q in {p} {
    }
    assert h == {p};
  }

  /** One step of any task keeps the protocol. */
  lemma StepOk(s: Mutex, p: nat, a: Action)
    requires MutexOk(s)
    ensures MutexOk(Step(s, p, a))
  {
    var u := Step(s, p, a);
    assert TaskOk(s, p);
    assert s.owner >= 0 ==> TaskOk(s, s.owner);
    if p in s.holders {
      OneElement(s.holders, p);
    }
    forall q: nat ensures TaskOk(u, q) {
      assert TaskOk(s, q);
    }
  }

  lemma {:induction false} RunOk(s: Mutex, steps: seq<(nat, Action)>)
    requires MutexOk(s)
    ensures MutexOk(Run(s, steps))
    decreases |steps|
  {
    hide MutexOk, Step;
    if steps != [] {
      StepOk(s, steps[0].0, steps[0].1);
      RunOk(Step(s, steps[0].0, steps[0].1), steps[1..]);
    }
  }

  /** Mutual exclusion over every interleaving: the value and the holders make one, and the recorded owner holds. */
  lemma {:induction false} MutualExclusion(steps: seq<(nat, Action)>)
    ensures var s := Run(Init(), steps);
            s.value + |s.holders| == 1 && (s.owner >= 0 ==> s.holders == {s.owner})
  {
    InitOk();
    RunOk(Init(), steps);
    OneHolder(Run(Init(), steps));
  }

  lemma OneHolder(s: Mutex)
    requires MutexOk(s)
    ensures s.value + |s.holders| == 1 && (s.owner >= 0 ==> s.holders == {s.owner})
  {
    if s.holders != {} {
      var p :| p in s.holders;
      OneElement(s.holders, p);
    }
    if s.owner >= 0 {
      assert TaskOk(s, s.owner);
      OneElement(s.holders, s.owner);
    }
  }

  /** A task that does not hold the mutex cannot release it, and none but the holder can: after any run, an unlock by
      somebody else changes neither the value, the owner nor the holders, and a try at a taken mutex changes nothing. */
  lemma {:induction false} OnlyTheHolderReleases(steps: seq<(nat, Action)>, p: nat, a: Action)
    ensures var s := Run(Init(), steps);
            var u := Step(s, p, a);
            && (p !in s.holders ==> s.holders <= u.holders && u.value <= s.value && (u.owner != s.owner ==> u.owner == p))
            && (PcOf(s, p) == Idle && a == Unlock && p !in s.holders ==> u == s)
            && (PcOf(s, p) == Idle && a == TryLock ==> if s.holders == {} then u.holders == {p} && u.owner == p else u == s)
  {
    InitOk();
    RunOk(Init(), steps);
    assert TaskOk(Run(Init(), steps), p);
  }

  /** A lock that is not disturbed: with the mutex free, three steps of the caller make it holder and owner, back outside the call;
      four of an unlock give the mutex back. With the mutex held, the test sends the caller to block and changes nothing else. */
  lemma LockAndUnlock(s: Mutex, p: nat, a: Action)
    requires MutexOk(s) && PcOf(s, p) == Idle
    ensures var t := Step(s, p, Lock);
            var l := Step(Step(t, p, a), p, a);
            if s.holders == {} then
              && l.holders == {p} && l.owner == p && l.value == 0 && PcOf(l, p) == Idle
              && var u := Step(Step(Step(Step(l, p, Unlock), p, a), p, a), p, a);
                 u.holders == {} && u.owner == NOBODY && u.value == 1 && PcOf(u, p) == Idle
            else Step(t, p, a) == Goto(t, p, Blocking)
  {
  }
}
