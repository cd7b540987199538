/**
 * The in-process lock factory: every lock it makes shares one set of held
 * lock names, so a name is held by at most one lock at a time.
 */
module SingleInstance {

  /** The factory's shared HashSet of held lock names. */
  class LockSet {
    var names: set<string>

    constructor ()
      ensures names == {}
    {
      names := {};
    }
  }

  class SingleInstanceLock {
    const locks: LockSet
    const lockName: string

    constructor (locks: LockSet, lockName: string)
      ensures this.locks == locks && this.lockName == lockName
    {
      this.locks := locks;
      this.lockName := lockName;
    }

    /** doObtain: adds the name to the shared set; true iff it was not held. */
    method DoObtain() returns (r: bool)
      modifies locks
      ensures r <==> lockName !in old(locks.names)
      ensures locks.names == old(locks.names) + {lockName}
    {
      r := lockName !in locks.names;
      locks.names := locks.names + {lockName};
    }

    /** doRelease: removes the name from the shared set; true iff it was held. */
    method DoRelease() returns (r: bool)
      modifies locks
      ensures r <==> lockName in old(locks.names)
      ensures locks.names == old(locks.names) - {lockName}
    {
      r := lockName in locks.names;
      locks.names := locks.names - {lockName};
    }

    /** isLocked: whether the name is in the shared set. */
    method IsLocked() returns (r: bool)
      ensures r <==> lockName in locks.names
    {
      r := lockName in locks.names;
    }
  }

  class SingleInstanceLockFactory {
    const locks: LockSet

    constructor ()
      ensures fresh(locks) && locks.names == {}
    {
      locks := new LockSet();
    }

    /** makeLock: a lock on the factory's own set. */
    method MakeLock(lockName: string) returns (l: SingleInstanceLock)
      ensures fresh(l) && l.locks == locks && l.lockName == lockName
    {
      l := new SingleInstanceLock(locks, lockName);
    }

    /** clearLock: drops the name if it is held; otherwise nothing changes. */
    method ClearLock(lockName: string)
      modifies locks
      ensures locks.names == old(locks.names) - {lockName}
      ensures lockName !in old(locks.names) ==> locks.names == old(locks.names)
    {
      if lockName in locks.names {
        locks.names := locks.names - {lockName};
      }
    }
  }

  /**
   * Two locks with one name from one factory: once the first has obtained
   * the name, the second cannot until the first releases it, and then it can.
   */
  method Exclusive(a: SingleInstanceLock, b: SingleInstanceLock)
    returns (first: bool, second: bool, third: bool)
    requires a.locks == b.locks && a.lockName == b.lockName
    requires a.lockName !in a.locks.names
    modifies a.locks
    ensures first && !second && third
    ensures a.locks.names == old(a.locks.names) + {a.lockName}
  {
    first := a.DoObtain();
    second := b.DoObtain();
    var released := a.DoRelease();
    third := b.DoObtain();
  }
}
