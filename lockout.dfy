/** The login-attempt lockout of the form as a state machine over the three
    pieces of state it uses: the failed-attempt counter, the lock flag and the
    seconds left on the lock. */
module Lockout {

  const MaxAttempts: nat := 5
  const LockoutDuration: nat := 30

  /** `loginAttempts`, `isLocked` and `lockoutTime`. */
  datatype LockState = LockState(attempts: int, locked: bool, time: int)

  const Initial := LockState(0, false, 0)

  /** The state right after the fifth rejection. */
  const FreshLockout := LockState(MaxAttempts, true, LockoutDuration)

  /** What holds of every state the form can reach: unlocked, fewer than
      `MaxAttempts` failures and no time left; locked, exactly `MaxAttempts`
      failures and between 1 and `LockoutDuration` seconds left. */
  predicate Inv(s: LockState) {
    if s.locked then s.attempts == MaxAttempts && 1 <= s.time <= LockoutDuration
    else 0 <= s.attempts < MaxAttempts && s.time == 0
  }

  /** The bounds the invariant gives. */
  lemma InvBounds(s: LockState)
    requires Inv(s)
    ensures 0 <= s.attempts <= MaxAttempts
    ensures 0 <= s.time <= LockoutDuration
    ensures s.locked ==> s.attempts == MaxAttempts
  {
  }

  /** `startLockout`: lock for the full duration. The lock is a reachable
      state exactly when the counter has reached `MaxAttempts`, and then it is
      the fresh lockout. */
  function StartLockout(s: LockState): (r: LockState)
    ensures Inv(r) <==> s.attempts == MaxAttempts
    ensures s.attempts == MaxAttempts ==> r == FreshLockout
  {
    s.(locked := true, time := LockoutDuration)
  }

  /** A rejected login: the counter goes up by one, and reaching `MaxAttempts`
      starts the lockout. */
  function Failed(s: LockState): (r: LockState)
    requires !s.locked
    ensures Inv(s) ==> Inv(r)
  {
    var newAttempts := s.attempts + 1;
    var counted := s.(attempts := newAttempts);
    if newAttempts >= MaxAttempts then StartLockout(counted) else counted
  }

  /** An accepted login clears the counter. */
  function Succeeded(s: LockState): (r: LockState)
    requires !s.locked
    ensures Inv(s) ==> Inv(r) && r == Initial
  {
    s.(attempts := 0)
  }

  /** One run of the countdown callback: near the end it unlocks and clears
      the counter, otherwise it takes one second off. */
  function Tick(s: LockState): (r: LockState)
    requires s.locked
    ensures Inv(s) ==> Inv(r)
  {
    if s.time <= 1 then s.(locked := false, attempts := 0, time := 0)
    else s.(time := s.time - 1)
  }

  /** What a submission of a valid form does to the lock state: nothing while
      locked, otherwise the outcome of the login. */
  function Attempt(s: LockState, success: bool): (r: LockState)
    ensures Inv(s) ==> Inv(r)
  {
    if s.locked then s else if success then Succeeded(s) else Failed(s)
  }

  /** `seconds` seconds pass; the countdown runs only while the form is
      locked, so once it has unlocked nothing more happens. */
  function Elapse(s: LockState, seconds: nat): LockState
    decreases seconds
  {
    if seconds == 0 || !s.locked then s else Elapse(Tick(s), seconds - 1)
  }

  /** `k` submissions in a row, each of a valid form that the login rejects. */
  function FailRepeatedly(s: LockState, k: nat): LockState
    decreases k
  {
    if k == 0 then s else FailRepeatedly(Attempt(s, false), k - 1)
  }

  /** Before the countdown has run its course the form stays locked, one
      second less for each second passed. */
  lemma {:induction false} CountdownRuns(s: LockState, k: nat)
    requires Inv(s) && s.locked && k < s.time
    ensures Elapse(s, k) == s.(time := s.time - k)
    decreases k
  {
    if k > 0 {
      CountdownRuns(Tick(s), k - 1);
    }
  }

  /** After exactly as many seconds as are left, the form is unlocked with a
      cleared counter. */
  lemma {:induction false} CountdownEnds(s: LockState)
    requires Inv(s) && s.locked
    ensures Elapse(s, s.time) == Initial
  {
    CountdownRuns(s, s.time - 1);
    assert Elapse(s, s.time) == Elapse(Elapse(s, s.time - 1), 1) by {
      ElapseSplit(s, s.time - 1, 1);
    }
  }

  /** Passing `a` seconds and then `b` is passing `a + b`. */
  lemma {:induction false} ElapseSplit(s: LockState, a: nat, b: nat)
    ensures Elapse(s, a + b) == Elapse(Elapse(s, a), b)
    decreases a
  {
    if a > 0 && s.locked {
      ElapseSplit(Tick(s), a - 1, b);
    }
  }

  /** A fresh lockout lasts `LockoutDuration` seconds: locked one second
      before, unlocked and cleared after. */
  lemma LockoutLastsDuration()
    ensures Elapse(FreshLockout, LockoutDuration - 1).locked
    ensures Elapse(FreshLockout, LockoutDuration) == Initial
  {
    CountdownRuns(FreshLockout, LockoutDuration - 1);
    CountdownEnds(FreshLockout);
  }

  /** From an unlocked state, fewer failures than remain leave the form
      unlocked and counting; as many or more lock it for the full duration,
      because submissions made while locked are ignored. */
  lemma {:induction false} FailuresLock(s: LockState, k: nat)
    requires Inv(s) && !s.locked
    ensures k < MaxAttempts - s.attempts ==>
              FailRepeatedly(s, k) == LockState(s.attempts + k, false, 0)
    ensures k >= MaxAttempts - s.attempts ==>
              FailRepeatedly(s, k) == FreshLockout
    decreases k
  {
    if k > 0 {
      var t := Attempt(s, false);
      if t.locked {
        LockedIgnoresFailures(t, k - 1);
      } else {
        FailuresLock(t, k - 1);
      }
    }
  }

  /** While locked, further submissions change nothing. */
  lemma {:induction false} LockedIgnoresFailures(s: LockState, k: nat)
    requires s.locked
    ensures FailRepeatedly(s, k) == s
    decreases k
  {
    if k > 0 {
      LockedIgnoresFailures(s, k - 1);
    }
  }

  /** From the initial state, the fifth consecutive rejection is the one
      that locks. */
  lemma FifthFailureLocks()
    ensures !FailRepeatedly(Initial, MaxAttempts - 1).locked
    ensures FailRepeatedly(Initial, MaxAttempts) == FreshLockout
  {
    FailuresLock(Initial, MaxAttempts - 1);
    FailuresLock(Initial, MaxAttempts);
  }
}
