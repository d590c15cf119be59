/** The mutex: its regions with interrupts off, each one step for every other task. */
module Mutex {
  import opened Prelude
  import opened RoundRobin

  type Tid = nat

  datatype Outcome = Acquired | AlreadyOwner | MustYield

  datatype Errno = MUTEX_OK | MUTEX_FREE | MUTEX_LOCKED | MUTEX_ERR_ALREADY_LOCKED | MUTEX_ERR_NOT_OWNER

  /** One pass through mtx_lock with interrupts off: from the entry (or the return of yield) to
      the return (or the next yield). Only the first pass tests for the caller being the owner. */
  function LockPass(owner: Option<Tid>, cTask: Tid, first: bool): (Option<Tid>, Outcome) {
    if first && owner == Some(cTask) then (owner, AlreadyOwner)
    else if owner != None then (owner, MustYield)
    else (Some(cTask), Acquired)
  }

  function TryLocked(owner: Option<Tid>, cTask: Tid): (Option<Tid>, Errno) {
    if owner != None then (owner, MUTEX_ERR_ALREADY_LOCKED) else (Some(cTask), MUTEX_OK)
  }

  function Released(owner: Option<Tid>, cTask: Tid): (Option<Tid>, Errno) {
    if owner != Some(cTask) then (owner, MUTEX_ERR_NOT_OWNER) else (None, MUTEX_OK)
  }

  /** Nested locking is not counted: the first release frees the mutex, and the second fails. */
  lemma NestedLockIsNotCounted(t: Tid)
    ensures
      var (o1, r1) := LockPass(None, t, true);
      var (o2, r2) := LockPass(o1, t, true);
      var (o3, r3) := Released(o2, t);
      && r1 == Acquired && r2 == AlreadyOwner && r3 == MUTEX_OK
      && o3 == None && Released(o3, t).1 == MUTEX_ERR_NOT_OWNER
  {
  }

  /** mutex_t; blocked_head is initialised and never used by the code. */
  class MutexObject {
    var owner: Option<Tid>

    constructor ()
      ensures owner == None
    {
      owner := None;
    }

    method LockRegion(cTask: Tid, first: bool) returns (r: Outcome)
      modifies this
      ensures (owner, r) == LockPass(old(owner), cTask, first)
    {
      if first && owner == Some(cTask) {
        return AlreadyOwner;
      }
      if owner != None {
        return MustYield;
      }
      owner := Some(cTask);
      return Acquired;
    }

    method TryLock(cTask: Tid) returns (r: Errno)
      modifies this
      ensures (owner, r) == TryLocked(old(owner), cTask)
    {
      if owner != None {
        return MUTEX_ERR_ALREADY_LOCKED;
      }
      owner := Some(cTask);
      return MUTEX_OK;
    }

    method Release(cTask: Tid) returns (r: Errno)
      modifies this
      ensures (owner, r) == Released(old(owner), cTask)
    {
      if owner != Some(cTask) {
        return MUTEX_ERR_NOT_OWNER;
      }
      owner := None;
      return MUTEX_OK;
    }
  }
}
