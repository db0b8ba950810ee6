/**
 * The failed-login counter of one username and the lockout rule over it,
 * together with the transition one login call makes on that counter.
 */
module LoginAttempts {
  import opened Wrappers
  import opened Entities

  /** Failed logins that lock the username. */
  const LockThreshold: int := 10
  /** How long the lock lasts after the last failure. */
  const LockoutTicks: int := 5 * TicksPerMinute

  datatype LoginAttempt = LoginAttempt(username: string, attemptCount: int, lastAttempt: int)

  /** A record as the default constructor leaves it: no username, no failures, stamped now. */
  function Fresh(now: int): LoginAttempt {
    LoginAttempt("", 0, now)
  }

  /** `IsLocked`: at least ten failures, the last one less than five minutes before `now`. */
  predicate IsLocked(a: LoginAttempt, now: int) {
    a.attemptCount >= LockThreshold && a.lastAttempt + LockoutTicks > now
  }

  lemma FewFailuresNeverLock(a: LoginAttempt, now: int)
    requires a.attemptCount < LockThreshold
    ensures !IsLocked(a, now)
  {
  }

  /** Five minutes after the last failure the record is unlocked, whatever its count. */
  lemma LockExpires(a: LoginAttempt, now: int)
    requires now >= a.lastAttempt + 5 * TicksPerMinute
    ensures !IsLocked(a, now)
  {
  }

  lemma FreshIsUnlocked(now: int, later: int)
    ensures Fresh(now).attemptCount == 0 && Fresh(now).lastAttempt == now
    ensures !IsLocked(Fresh(now), later)
  {
  }

  /** What one `LoginAsync` call concluded. */
  datatype LoginOutcome =
    | Locked     // threw: the username is locked
    | Rejected   // unknown user or wrong password: empty token
    | Accepted   // a token for the user

  /** The counter after a failed login: created at 1, or incremented, stamped now. */
  function AfterFailure(rec: Option<LoginAttempt>, username: string, now: int): (r: LoginAttempt)
    ensures r.attemptCount == (if rec.Some? then rec.value.attemptCount else 0) + 1
    ensures r.lastAttempt == now
    ensures rec.Some? ==> r.username == rec.value.username
    ensures rec.None? ==> r.username == username
  {
    match rec
    case None => LoginAttempt(username, 1, now)
    case Some(a) => a.(attemptCount := a.attemptCount + 1, lastAttempt := now)
  }

  /**
   * One login call on the username's counter `rec`, where `valid` says
   * whether the user exists and the password verifies: the outcome and the
   * counter afterwards (None: still no counter).
   */
  function LoginStep(rec: Option<LoginAttempt>, username: string, valid: bool, now: int): (r: (LoginOutcome, Option<LoginAttempt>))
    ensures r.0 == Locked <==> rec.Some? && IsLocked(rec.value, now)
    ensures r.0 == Accepted <==> valid && !(rec.Some? && IsLocked(rec.value, now))
    ensures r.0 == Locked ==> r.1 == rec
    ensures r.0 == Rejected ==> r.1 == Some(AfterFailure(rec, username, now))
    ensures r.0 == Accepted ==> r.1.Some? == rec.Some? && (r.1.Some? ==> r.1.value.attemptCount == 0 && r.1.value.lastAttempt == now)
  {
    if rec.Some? && IsLocked(rec.value, now) then (Locked, rec)
    else if !valid then (Rejected, Some(AfterFailure(rec, username, now)))
    else if rec.Some? then (Accepted, Some(rec.value.(attemptCount := 0, lastAttempt := now)))
    else (Accepted, None)
  }

  /** The counter after a run of login calls, each a (credentials valid, instant) pair. */
  function Replay(rec: Option<LoginAttempt>, username: string, calls: seq<(bool, int)>): Option<LoginAttempt>
    decreases |calls|
  {
    if calls == [] then rec
    else Replay(LoginStep(rec, username, calls[0].0, calls[0].1).1, username, calls[1..])
  }

  /**
   * From any record, or none, a run of `k` failed logins that keeps the
   * count (the record's, or 0) plus `k` at most `LockThreshold` is all
   * rejected (none is refused as locked), adds `k` to the counter, and stamps
   * it with the last failure's instant.
   */
  lemma {:induction false} FailuresCount(rec: Option<LoginAttempt>, username: string, calls: seq<(bool, int)>)
    requires forall i :: 0 <= i < |calls| ==> !calls[i].0
    requires |calls| > 0
    requires (if rec.Some? then rec.value.attemptCount else 0) + |calls| <= LockThreshold
    ensures Replay(rec, username, calls).Some?
    ensures Replay(rec, username, calls).value.attemptCount == (if rec.Some? then rec.value.attemptCount else 0) + |calls|
    ensures Replay(rec, username, calls).value.lastAttempt == calls[|calls| - 1].1
    decreases |calls|
  {
    var step := LoginStep(rec, username, calls[0].0, calls[0].1);
    assert step.0 == Rejected;
    if |calls| > 1 {
      FailuresCount(step.1, username, calls[1..]);
    }
  }

  /**
   * Ten failed logins from a clean slate lock the username for five minutes
   * after the tenth, even against the right password.
   */
  lemma TenFailuresLock(username: string, calls: seq<(bool, int)>, now: int)
    requires |calls| == LockThreshold
    requires forall i :: 0 <= i < |calls| ==> !calls[i].0
    requires calls[|calls| - 1].1 <= now < calls[|calls| - 1].1 + LockoutTicks
    ensures Replay(None, username, calls).Some?
    ensures IsLocked(Replay(None, username, calls).value, now)
    ensures LoginStep(Replay(None, username, calls), username, true, now).0 == Locked
  {
    FailuresCount(None, username, calls);
  }

  /**
   * Once the count has reached nine, every further failure locks the
   * username again for five minutes: the count never goes back down
   * without a successful login.
   */
  lemma FailureAfterNineRelocks(a: LoginAttempt, username: string, now: int, later: int)
    requires a.attemptCount >= LockThreshold - 1
    requires !IsLocked(a, now)
    requires now <= later < now + LockoutTicks
    ensures LoginStep(Some(a), username, false, now).0 == Rejected
    ensures IsLocked(LoginStep(Some(a), username, false, now).1.value, later)
  {
  }

  /** A successful login after the lock has expired clears the counter. */
  lemma ExpiredLockThenSuccessResets(a: LoginAttempt, username: string, now: int)
    requires now >= a.lastAttempt + LockoutTicks
    ensures LoginStep(Some(a), username, true, now) == (Accepted, Some(a.(attemptCount := 0, lastAttempt := now)))
  {
  }
}
