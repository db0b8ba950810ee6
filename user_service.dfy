/**
 * Registration, login with the failed-attempt lockout, and the user
 * record's update and delete. Password hashing and token signing are
 * parameters: a `Hasher`, and `Jwt(id)` for a token issued to user `id`.
 */
module UserService {
  import opened Wrappers
  import opened Storage
  import opened Entities
  import opened LoginAttempts
  import opened LoginAttemptRepository

  function HasUsername(username: string): Row<User> -> bool {
    (row: Row<User>) => row.val.username == username
  }

  /** `UserRepository.GetByUsernameAsync`: the first user with exactly that name. */
  function FindByUsername(rows: seq<Row<User>>, username: string): (r: Option<Row<User>>)
    ensures r.Some? ==> r.value in rows && r.value.val.username == username
    ensures r.None? <==> forall i :: 0 <= i < |rows| ==> rows[i].val.username != username
  {
    FindFirst(rows, HasUsername(username))
  }

  /** No two stored users share a username. */
  ghost predicate UniqueUsernames(rows: seq<Row<User>>) {
    forall i, j :: 0 <= i < |rows| && 0 <= j < |rows| && i != j ==> rows[i].val.username != rows[j].val.username
  }

  /** Whether `username`/`password` name an existing user whose stored hash verifies. */
  predicate CredentialsValid(rows: seq<Row<User>>, username: string, password: string, hasher: Hasher) {
    var user := FindByUsername(rows, username);
    user.Some? && hasher.verify(password, user.value.val.passwordHash)
  }

  /**
   * `RegisterAsync`: a taken username yields the empty token and adds
   * nothing; otherwise the user is stored with the hashed password and a
   * token for the new id is returned.
   */
  method Register(users: Table<User>, username: string, password: string, hasher: Hasher, now: int)
    returns (token: TokenString)
    requires users.Valid()
    modifies users
    ensures users.Valid()
    ensures FindByUsername(old(users.rows), username).Some? ==> token == EmptyToken && users.rows == old(users.rows)
    ensures FindByUsername(old(users.rows), username).None? ==>
      && token == Jwt(old(users.nextId))
      && users.rows == old(users.rows) + [Row(old(users.nextId), User(username, hasher.hash(password), now))]
      && FindByUsername(users.rows, username) == Some(Row(old(users.nextId), User(username, hasher.hash(password), now)))
    ensures UniqueUsernames(old(users.rows)) ==> UniqueUsernames(users.rows)
  {
    var existing := FindByUsername(users.rows, username);
    if existing.Some? {
      return EmptyToken;
    }
    var user := User(username, hasher.hash(password), now);
    FindFirstAppend(users.rows, Row(users.nextId, user), HasUsername(username));
    var row := users.Add(user);
    token := Jwt(row.id);
  }

  /**
   * With a hasher whose `Verify` accepts what its `Hash` produced, the
   * credentials a user registered with are valid for login.
   */
  lemma RegisteredCredentialsValid(rows: seq<Row<User>>, id: int, username: string, password: string, hasher: Hasher, now: int)
    requires FindByUsername(rows, username).None?
    requires hasher.verify(password, hasher.hash(password))
    ensures CredentialsValid(rows + [Row(id, User(username, hasher.hash(password), now))], username, password, hasher)
  {
    FindFirstAppend(rows, Row(id, User(username, hasher.hash(password), now)), HasUsername(username));
  }

  /**
   * `LoginAsync`. A locked username throws before the password is looked at;
   * a failed login bumps the counter and yields the empty token; a
   * successful one resets an existing counter and yields a token for the user.
   */
  method Login(users: Table<User>, attempts: LoginAttemptRepository, username: string, password: string, hasher: Hasher, now: int)
    returns (r: Result<TokenString>)
    requires attempts.Valid()
    modifies attempts
    ensures attempts.Valid()
    ensures var step := LoginStep(old(attempts.GetByUsername(username)), username, CredentialsValid(users.rows, username, password, hasher), now);
      && (step.0 == Locked <==> r.Failure?)
      && (step.0 == Rejected <==> r == Success(EmptyToken))
      && (step.0 == Accepted <==> r.Success? && r.value.Jwt?)
      && (step.0 == Accepted ==> r == Success(Jwt(FindByUsername(users.rows, username).value.id)))
      && (step.1.Some? ==> attempts.attempts == old(attempts.attempts)[username := step.1.value])
      && (step.1.None? ==> attempts.attempts == old(attempts.attempts))
    ensures r.Success? && r.value.Jwt? ==> CredentialsValid(users.rows, username, password, hasher)
  {
    var attempt := attempts.GetByUsername(username);
    if attempt.Some? && IsLocked(attempt.value, now) {
      return Failure(Failed);
    }
    var user := FindByUsername(users.rows, username);
    if user.None? || !hasher.verify(password, user.value.val.passwordHash) {
      var counted: LoginAttempt;
      if attempt.None? {
        counted := LoginAttempt(username, 1, now);
      } else {
        counted := attempt.value.(attemptCount := attempt.value.attemptCount + 1, lastAttempt := now);
      }
      attempts.AddOrUpdate(counted);
      return Success(EmptyToken);
    }
    if attempt.Some? {
      attempts.ResetAttempts(username, now);
    }
    return Success(Jwt(user.value.id));
  }

  /** `DeleteAsync`: false and nothing removed for an unknown id. */
  method Delete(users: Table<User>, id: int) returns (ok: bool)
    requires users.Valid()
    modifies users
    ensures users.Valid()
    ensures ok <==> FindById(old(users.rows), id).Some?
    ensures users.rows == RemoveById(old(users.rows), id)
    ensures !ok ==> users.rows == old(users.rows)
  {
    var user := FindById(users.rows, id);
    if user.None? {
      RemoveAbsent(users.rows, id);
      return false;
    }
    users.Remove(id);
    return true;
  }

  /** `UpdateAsync`: copies only the username and the password hash onto the stored user. */
  method Update(users: Table<User>, id: int, user: User) returns (ok: bool)
    requires users.Valid()
    modifies users
    ensures users.Valid()
    ensures ok <==> FindById(old(users.rows), id).Some?
    ensures !ok ==> users.rows == old(users.rows)
    ensures ok ==> users.rows == ReplaceById(old(users.rows), id,
      FindById(old(users.rows), id).value.val.(username := user.username, passwordHash := user.passwordHash))
    ensures ok ==> FindById(users.rows, id).Some? && FindById(users.rows, id).value.val.createdAt == FindById(old(users.rows), id).value.val.createdAt
  {
    var existing := FindById(users.rows, id);
    if existing.None? {
      return false;
    }
    var updated := existing.value.val.(username := user.username, passwordHash := user.passwordHash);
    users.Update(id, updated);
    return true;
  }
}
