/** A mutex in memory, section by section as sync.c updates it. */
module MutexCell {
  import opened Sync

  /** A mutex in memory; each method is one section of sync.c. */
  class MutexCell {
    var value: int
    var owner: int

    constructor ()
      ensures value == Init().value && owner == Init().owner
    {
      value, owner := 1, NOBODY;
    }

    /** The protected section of `sem_wait`: whether the unit was taken. */
    method Take() returns (taken: bool)
      modifies this
      ensures forall s: Mutex, p: nat, a: Action ::
                s.value == old(value) && s.owner == old(owner) && PcOf(s, p) == Testing ==>
                  var u := Step(s, p, a);
                  u.value == value && u.owner == owner && taken == (PcOf(u, p) == Acquired)
    {
      if value > 0 {
        value := value - 1;
        return true;
      }
      return false;
    }

    /** `mutex_trylock` by task `p`. */
    method Try(p: nat) returns (taken: bool)
      modifies this
      ensures forall s: Mutex :: s.value == old(value) && s.owner == old(owner) && PcOf(s, p) == Idle ==>
                var u := Step(s, p, TryLock);
                u.value == value && u.owner == owner && taken == (old(value) != 0)
    {
      if value == 0 {
        return false;
      }
      value, owner := 0, p;
      return true;
    }

    /** `mutex_unlock` by task `p`, run to its end without interruption: three steps of the protocol. */
    method Release(p: nat)
      modifies this
      ensures forall s: Mutex :: s.value == old(value) && s.owner == old(owner) && PcOf(s, p) == Idle ==>
                var u := if s.owner == p then Step(Step(Step(s, p, Unlock), p, Unlock), p, Unlock) else Step(s, p, Unlock);
                u.value == value && u.owner == owner
    {
      if owner != p {
        return;
      }
      owner := NOBODY;
      value := value + 1;
    }
  }
}
