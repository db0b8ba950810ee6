/**
 * The `LoginAttempts` table, keyed by username. Only the upsert inserts, and
 * only for a username with no record, so each username has at most one
 * record and the by-username lookup is a map lookup.
 */
module LoginAttemptRepository {
  import opened Wrappers
  import opened LoginAttempts

  class LoginAttemptRepository {
    var attempts: map<string, LoginAttempt>

    /** Every record sits under its own username. */
    ghost predicate Valid()
      reads this
    {
      forall u :: u in attempts ==> attempts[u].username == u
    }

    constructor ()
      ensures Valid() && attempts == map[]
    {
      attempts := map[];
    }

    /** `GetByUsernameAsync`. */
    function GetByUsername(username: string): (r: Option<LoginAttempt>)
      reads this
      requires Valid()
      ensures r.Some? <==> username in attempts
      ensures r.Some? ==> r.value == attempts[username] && r.value.username == username
    {
      if username in attempts then Some(attempts[username]) else None
    }

    /**
     * `AddOrUpdateAsync`: inserts the record when its username has none;
     * otherwise overwrites the stored record's count and timestamp.
     */
    method AddOrUpdate(attempt: LoginAttempt)
      requires Valid()
      modifies this
      ensures Valid()
      ensures attempts == old(attempts)[attempt.username := attempt]
      ensures GetByUsername(attempt.username) == Some(attempt)
      ensures forall u :: u != attempt.username ==> GetByUsername(u) == old(GetByUsername(u))
    {
      var existing := GetByUsername(attempt.username);
      if existing.None? {
        attempts := attempts[attempt.username := attempt];
      } else {
        var updated := existing.value.(attemptCount := attempt.attemptCount, lastAttempt := attempt.lastAttempt);
        attempts := attempts[attempt.username := updated];
      }
    }

    /** `ResetAttemptsAsync`: an existing record goes back to zero, stamped now; an absent one stays absent. */
    method ResetAttempts(username: string, now: int)
      requires Valid()
      modifies this
      ensures Valid()
      ensures username in old(attempts) ==>
        attempts == old(attempts)[username := old(attempts)[username].(attemptCount := 0, lastAttempt := now)]
      ensures username !in old(attempts) ==> attempts == old(attempts)
      ensures forall u :: u != username ==> GetByUsername(u) == old(GetByUsername(u))
    {
      var existing := GetByUsername(username);
      if existing.Some? {
        attempts := attempts[username := existing.value.(attemptCount := 0, lastAttempt := now)];
      }
    }
  }
}
