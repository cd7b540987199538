/**
 * The reentrant write lock: a depth counter over an acquire/release primitive
 * that a concrete lock supplies, a bounded polling acquire, and the
 * run-with-lock helper. The primitive's answers are given to the lock as an
 * oracle: `obtainOracle(k)` is what the k-th call of doObtain returns, and
 * `releaseOracle(k)` the same for doRelease. Listeners are represented by
 * the log of notifications they receive.
 */
module Locking {
  import opened Wrappers

  /** Milliseconds between two attempts of the polling acquire. */
  const LOCK_POLL_INTERVAL: int := 1000
  const LOCK_OBTAIN_WAIT_FOREVER: int := -1

  /** A call to the listeners: `obtained(lock, depth)` or `released(lock, depth)`. */
  datatype Notification = Obtained(depth: int) | Released(depth: int)

  /** The number of polls the timed acquire allows: lockWaitTimeout / LOCK_POLL_INTERVAL, truncated as Java divides. */
  function MaxSleepCount(lockWaitTimeout: int): (n: int)
    requires lockWaitTimeout >= 0
    ensures n >= 0 && n * LOCK_POLL_INTERVAL <= lockWaitTimeout < (n + 1) * LOCK_POLL_INTERVAL
  {
    lockWaitTimeout / LOCK_POLL_INTERVAL
  }

  class Lock {
    const obtainOracle: nat -> bool
    const releaseOracle: nat -> bool
    /** How many times doObtain and doRelease have been called. */
    var obtainCalls: nat
    var releaseCalls: nat
    var lockDepth: int
    var notifications: seq<Notification>

    constructor (obtainOracle: nat -> bool, releaseOracle: nat -> bool)
      ensures this.obtainOracle == obtainOracle && this.releaseOracle == releaseOracle
      ensures obtainCalls == 0 && releaseCalls == 0 && lockDepth == 0 && notifications == []
    {
      this.obtainOracle := obtainOracle;
      this.releaseOracle := releaseOracle;
      obtainCalls, releaseCalls, lockDepth, notifications := 0, 0, 0, [];
    }

    method DoObtain() returns (r: bool)
      modifies this
      ensures r == obtainOracle(old(obtainCalls)) && obtainCalls == old(obtainCalls) + 1
      ensures releaseCalls == old(releaseCalls) && lockDepth == old(lockDepth) && notifications == old(notifications)
    {
      r := obtainOracle(obtainCalls);
      obtainCalls := obtainCalls + 1;
    }

    method DoRelease() returns (r: bool)
      modifies this
      ensures r == releaseOracle(old(releaseCalls)) && releaseCalls == old(releaseCalls) + 1
      ensures obtainCalls == old(obtainCalls) && lockDepth == old(lockDepth) && notifications == old(notifications)
    {
      r := releaseOracle(releaseCalls);
      releaseCalls := releaseCalls + 1;
    }

    /**
     * obtain(): a lock already held by this object is taken again without
     * asking the primitive; otherwise the primitive decides. A success raises
     * the depth by one and tells the listeners the new depth.
     */
    method Obtain() returns (obtained: bool)
      modifies this
      ensures old(lockDepth) > 0 ==> obtained && obtainCalls == old(obtainCalls)
      ensures old(lockDepth) <= 0 ==> obtained == obtainOracle(old(obtainCalls)) && obtainCalls == old(obtainCalls) + 1
      ensures lockDepth == if obtained then old(lockDepth) + 1 else old(lockDepth)
      ensures notifications == old(notifications) + if obtained then [Obtained(lockDepth)] else []
      ensures releaseCalls == old(releaseCalls)
    {
      var depth := 0;
      if lockDepth > 0 {
        lockDepth := lockDepth + 1;
        depth := lockDepth;
        obtained := true;
      } else {
        obtained := DoObtain();
        if obtained {
          lockDepth := lockDepth + 1;
          depth := lockDepth;
        }
      }
      if obtained {
        notifications := notifications + [Obtained(depth)];
      }
    }

    /**
     * release(): a nested hold only lowers the depth; the outermost one asks
     * the primitive and lowers the depth only if it released. A release tells
     * the listeners the new depth.
     */
    method Release()
      modifies this
      ensures old(lockDepth) > 1 ==>
        lockDepth == old(lockDepth) - 1 && releaseCalls == old(releaseCalls)
        && notifications == old(notifications) + [Released(lockDepth)]
      ensures old(lockDepth) <= 1 ==>
        releaseCalls == old(releaseCalls) + 1
        && if releaseOracle(old(releaseCalls))
           then lockDepth == old(lockDepth) - 1 && notifications == old(notifications) + [Released(lockDepth)]
           else lockDepth == old(lockDepth) && notifications == old(notifications)
      ensures obtainCalls == old(obtainCalls)
    {
      var depth := 0;
      var released;
      if lockDepth > 1 {
        lockDepth := lockDepth - 1;
        depth := lockDepth;
        released := true;
      } else {
        released := DoRelease();
        if released {
          lockDepth := lockDepth - 1;
          depth := lockDepth;
        }
      }
      if released {
        notifications := notifications + [Released(depth)];
      }
    }

    /**
     * obtain(lockWaitTimeout): one attempt, then the argument check (so a bad
     * timeout is refused only after that attempt, whose success is kept),
     * then up to lockWaitTimeout / LOCK_POLL_INTERVAL further attempts, one
     * per poll, before LockObtainFailed. With LOCK_OBTAIN_WAIT_FOREVER it polls
     * until an attempt succeeds; the sleep between polls is not modelled.
     */
    method ObtainTimeout(lockWaitTimeout: int) returns (r: Result<bool>)
      requires lockWaitTimeout == LOCK_OBTAIN_WAIT_FOREVER ==>
        lockDepth > 0 || exists k :: obtainCalls <= k && obtainOracle(k)
      modifies this
      ensures releaseCalls == old(releaseCalls)
      ensures r.Ok? ==>
        r.value && lockDepth == old(lockDepth) + 1
        && notifications == old(notifications) + [Obtained(lockDepth)]
      ensures r.Err? ==> r.error.IllegalArgument? || r.error == LockObtainFailed
      ensures lockWaitTimeout < 0 && lockWaitTimeout != LOCK_OBTAIN_WAIT_FOREVER ==>
        r.Err? && r.error.IllegalArgument?
        && (old(lockDepth) > 0 || obtainOracle(old(obtainCalls)) ==> lockDepth == old(lockDepth) + 1)
      ensures lockWaitTimeout == LOCK_OBTAIN_WAIT_FOREVER ==> r == Ok(true)
      ensures old(lockDepth) > 0 && lockWaitTimeout >= -1 ==> r == Ok(true) && obtainCalls == old(obtainCalls)
      ensures old(lockDepth) <= 0 && lockWaitTimeout >= 0 ==>
        (r.Ok? <==> exists k :: old(obtainCalls) <= k <= old(obtainCalls) + MaxSleepCount(lockWaitTimeout) && obtainOracle(k))
      ensures old(lockDepth) <= 0 && lockWaitTimeout >= 0 && r.Err? ==>
        r.error == LockObtainFailed && lockDepth == old(lockDepth) && notifications == old(notifications)
        && obtainCalls == old(obtainCalls) + MaxSleepCount(lockWaitTimeout) + 1
      ensures old(lockDepth) <= 0 && lockWaitTimeout >= -1 && r.Ok? ==>
        old(obtainCalls) < obtainCalls && obtainOracle(obtainCalls - 1)
        && forall k :: old(obtainCalls) <= k < obtainCalls - 1 ==> !obtainOracle(k)
    {
      ghost var c0 := obtainCalls;
      var locked := Obtain();
      if lockWaitTimeout < 0 && lockWaitTimeout != LOCK_OBTAIN_WAIT_FOREVER {
        return Err(IllegalArgument("lockWaitTimeout should be LOCK_OBTAIN_WAIT_FOREVER or a non-negative number"));
      }
      if locked {
        return Ok(true);
      }
      // Java's `/` truncates toward zero, so -1 / 1000 is 0; the value is not used for -1.
      var maxSleepCount := if lockWaitTimeout >= 0 then MaxSleepCount(lockWaitTimeout) else 0;
      if lockWaitTimeout == LOCK_OBTAIN_WAIT_FOREVER {
        ghost var k :| c0 <= k && obtainOracle(k);
        assert obtainCalls <= k;
      }
      r := Poll(lockWaitTimeout, maxSleepCount);
      if r.Err? {
        assert forall k :: c0 <= k <= c0 + maxSleepCount ==> !obtainOracle(k);
      }
    }

    /**
     * The polling loop of obtain(lockWaitTimeout), entered once the first
     * attempt has failed: before each further attempt one poll is counted,
     * and once `maxSleepCount` polls are used up it fails; waiting forever,
     * polls are not counted.
     */
    method Poll(lockWaitTimeout: int, maxSleepCount: nat) returns (r: Result<bool>)
      requires lockDepth <= 0 && lockWaitTimeout >= -1
      requires lockWaitTimeout == LOCK_OBTAIN_WAIT_FOREVER ==> exists k :: obtainCalls <= k && obtainOracle(k)
      modifies this
      ensures releaseCalls == old(releaseCalls)
      ensures lockWaitTimeout == LOCK_OBTAIN_WAIT_FOREVER ==> r.Ok?
      ensures r.Ok? ==>
        r.value && lockDepth == old(lockDepth) + 1 && notifications == old(notifications) + [Obtained(lockDepth)]
        && old(obtainCalls) < obtainCalls && obtainOracle(obtainCalls - 1)
        && (lockWaitTimeout >= 0 ==> obtainCalls <= old(obtainCalls) + maxSleepCount)
        && forall k :: old(obtainCalls) <= k < obtainCalls - 1 ==> !obtainOracle(k)
      ensures r.Err? ==>
        lockWaitTimeout >= 0 && r.error == LockObtainFailed
        && lockDepth == old(lockDepth) && notifications == old(notifications)
        && obtainCalls == old(obtainCalls) + maxSleepCount
        && forall k :: old(obtainCalls) <= k < obtainCalls ==> !obtainOracle(k)
    {
      var locked := false;
      var sleepCount := 0;
      ghost var goal: nat := obtainCalls;
      if lockWaitTimeout == LOCK_OBTAIN_WAIT_FOREVER {
        goal :| obtainCalls <= goal && obtainOracle(goal);
      }
      while !locked
        invariant lockWaitTimeout >= 0 ==> sleepCount <= maxSleepCount && obtainCalls == old(obtainCalls) + sleepCount
        invariant lockWaitTimeout == LOCK_OBTAIN_WAIT_FOREVER ==> sleepCount == 0
        invariant old(obtainCalls) <= obtainCalls && releaseCalls == old(releaseCalls)
        invariant !locked ==> (lockDepth == old(lockDepth) && notifications == old(notifications)
          && forall k :: old(obtainCalls) <= k < obtainCalls ==> !obtainOracle(k))
        invariant locked ==> (lockDepth == old(lockDepth) + 1 && notifications == old(notifications) + [Obtained(lockDepth)]
          && old(obtainCalls) < obtainCalls && obtainOracle(obtainCalls - 1)
          && forall k :: old(obtainCalls) <= k < obtainCalls - 1 ==> !obtainOracle(k))
        invariant !locked && lockWaitTimeout == LOCK_OBTAIN_WAIT_FOREVER ==> obtainCalls <= goal && obtainOracle(goal)
        decreases if lockWaitTimeout == LOCK_OBTAIN_WAIT_FOREVER then goal - obtainCalls else maxSleepCount - sleepCount, if locked then 0 else 1
      {
        if lockWaitTimeout != LOCK_OBTAIN_WAIT_FOREVER {
          if sleepCount >= maxSleepCount {
            return Err(LockObtainFailed);
          }
          sleepCount := sleepCount + 1;
        }
        locked := Obtain();
      }
      r := Ok(true);
    }
  }

  /**
   * Lock.With.run: the body runs only after the lock is obtained; the lock is
   * released once, after the body, whether the body returned or threw, and
   * only if it was obtained. The body's outcome is given as `body`.
   */
  method Run<T>(lock: Lock, lockWaitTimeout: int, body: Result<T>) returns (r: Result<T>)
    requires lockWaitTimeout == LOCK_OBTAIN_WAIT_FOREVER ==>
      lock.lockDepth > 0 || exists k :: lock.obtainCalls <= k && lock.obtainOracle(k)
    modifies lock
    ensures r == body || (r.Err? && (r.error.IllegalArgument? || r.error == LockObtainFailed))
    ensures r != body ==> lock.releaseCalls == old(lock.releaseCalls)
    ensures lockWaitTimeout >= -1 && r != body ==> lock.lockDepth == old(lock.lockDepth)
    ensures lockWaitTimeout >= -1 && old(lock.lockDepth) > 0 ==>
      r == body && lock.lockDepth == old(lock.lockDepth) && lock.releaseCalls == old(lock.releaseCalls)
      && lock.notifications == old(lock.notifications) + [Obtained(old(lock.lockDepth) + 1), Released(old(lock.lockDepth))]
    ensures lockWaitTimeout >= -1 && old(lock.lockDepth) <= 0 ==>
      (r == body && lock.releaseCalls == old(lock.releaseCalls) + 1
       && lock.lockDepth == (if lock.releaseOracle(old(lock.releaseCalls)) then old(lock.lockDepth) else old(lock.lockDepth) + 1)
       && lock.notifications == old(lock.notifications) + [Obtained(old(lock.lockDepth) + 1)]
          + (if lock.releaseOracle(old(lock.releaseCalls)) then [Released(old(lock.lockDepth))] else []))
      || (lockWaitTimeout >= 0 && r == Err(LockObtainFailed) && lock.releaseCalls == old(lock.releaseCalls)
          && lock.lockDepth == old(lock.lockDepth) && lock.notifications == old(lock.notifications))
    ensures lockWaitTimeout >= 0 && old(lock.lockDepth) <= 0 ==>
      (lock.releaseCalls == old(lock.releaseCalls) + 1 <==>
       exists k :: old(lock.obtainCalls) <= k <= old(lock.obtainCalls) + MaxSleepCount(lockWaitTimeout) && lock.obtainOracle(k))
  {
    var locked := false;
    var obtained := lock.ObtainTimeout(lockWaitTimeout);
    if obtained.Err? {
      return Err(obtained.error);
    }
    locked := obtained.value;
    r := body;
    if locked {
      lock.Release();
    }
  }
}
