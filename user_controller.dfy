/**
 * The user endpoints: public look-ups (users, a user's quizzes and
 * attempts), a profile update and deletion reserved to the signed-in user
 * themself, registration, login with a refresh-token cookie, refresh and
 * logout.
 */
module UserController {
  import opened Wrappers
  import opened Storage
  import opened Entities
  import opened Text
  import opened HttpContextExtensions
  import opened Dtos
  import opened UserService
  import opened LoginAttempts
  import opened LoginAttemptRepository
  import RefreshTokenService
  import QuizRepository
  import AttemptRepository
  import QuizController
  import AttemptController

  /** What the look-ups show of a user: id and name, never the password hash. */
  datatype UserDto = UserDto(id: int, name: string)

  function ToUserDto(u: Row<User>): UserDto {
    UserDto(u.id, u.val.username)
  }

  /** `GetAllUsers`: every stored user, in table order. */
  function GetAllUsers(users: seq<Row<User>>): (r: seq<UserDto>)
    ensures |r| == |users|
    ensures forall i :: 0 <= i < |users| ==> r[i] == UserDto(users[i].id, users[i].val.username)
  {
    seq(|users|, i requires 0 <= i < |users| => ToUserDto(users[i]))
  }

  /** `GetById`: 404 for an unknown id. */
  function GetById(users: seq<Row<User>>, id: int): (resp: Response<UserDto>)
    ensures resp.Error? <==> FindById(users, id).None?
    ensures resp.Error? ==> resp.status == NotFound
    ensures resp.Ok? ==> exists u :: u in users && u.id == id && resp.body == UserDto(id, u.val.username)
  {
    match FindById(users, id)
    case None => Error(NotFound)
    case Some(u) => Ok(ToUserDto(u))
  }

  /** `GetByUsername`: 404 when no user has exactly that name. */
  function GetByUsername(users: seq<Row<User>>, username: string): (resp: Response<UserDto>)
    ensures resp.Error? <==> forall i :: 0 <= i < |users| ==> users[i].val.username != username
    ensures resp.Error? ==> resp.status == NotFound
    ensures resp.Ok? ==> resp.body.name == username && exists u :: u in users && resp.body == ToUserDto(u)
  {
    match FindByUsername(users, username)
    case None => Error(NotFound)
    case Some(u) => Ok(ToUserDto(u))
  }

  /**
   * `GetQuizzes`: every quiz of the author, private ones included, each with
   * its access key; nobody has to be signed in.
   */
  function GetQuizzes(quizzes: seq<Row<Quiz>>, userId: int): (r: seq<QuizController.QuizDto>)
    ensures forall d :: d in r ==> d.authorId == userId
    ensures forall q :: q in quizzes && q.val.authorId == userId ==> QuizController.ToDto(q, q.val.privateAccessKey) in r
    ensures forall d :: d in r ==> exists q :: q in quizzes && q.val.authorId == userId && d == QuizController.ToDto(q, q.val.privateAccessKey)
    ensures |r| == |QuizRepository.ByAuthor(quizzes, userId)|
    ensures forall i :: 0 <= i < |r| ==>
      r[i] == QuizController.ToDto(QuizRepository.ByAuthor(quizzes, userId)[i], QuizRepository.ByAuthor(quizzes, userId)[i].val.privateAccessKey)
  {
    var own := QuizRepository.ByAuthor(quizzes, userId);
    var r := seq(|own|, i requires 0 <= i < |own| => QuizController.ToDto(own[i], own[i].val.privateAccessKey));
    OwnQuizzesMapped(quizzes, userId, own, r);
    r
  }

  lemma OwnQuizzesMapped(quizzes: seq<Row<Quiz>>, userId: int, own: seq<Row<Quiz>>, r: seq<QuizController.QuizDto>)
    requires forall x :: multiset(own)[x] == if x.val.authorId == userId then multiset(quizzes)[x] else 0
    requires |r| == |own| && forall i :: 0 <= i < |own| ==> r[i] == QuizController.ToDto(own[i], own[i].val.privateAccessKey)
    ensures forall d :: d in r ==> d.authorId == userId
    ensures forall d :: d in r ==> exists q :: q in quizzes && q.val.authorId == userId && d == QuizController.ToDto(q, q.val.privateAccessKey)
    ensures forall q :: q in quizzes && q.val.authorId == userId ==> QuizController.ToDto(q, q.val.privateAccessKey) in r
  {
    forall d | d in r
      ensures d.authorId == userId
      ensures exists q :: q in quizzes && q.val.authorId == userId && d == QuizController.ToDto(q, q.val.privateAccessKey)
    {
      var i :| 0 <= i < |r| && r[i] == d;
      assert multiset(own)[own[i]] > 0;
      assert own[i] in quizzes;
    }
    forall q | q in quizzes && q.val.authorId == userId ensures QuizController.ToDto(q, q.val.privateAccessKey) in r {
      assert multiset(own)[q] > 0;
      var i :| 0 <= i < |own| && own[i] == q;
      assert r[i] == QuizController.ToDto(q, q.val.privateAccessKey);
    }
  }

  /** `GetAttempts`: the user's attempts, newest first, mapped as the attempt endpoints map them. */
  function GetAttempts(attempts: seq<Row<Attempt>>, userId: int): (r: seq<AttemptController.AttemptDto>)
    ensures forall d :: d in r ==> d.userId == Some(userId) && d.guestSessionId.None?
    ensures forall i, j :: 0 <= i < j < |r| ==> r[i].completedAt >= r[j].completedAt
    ensures forall a :: a in attempts && a.val.userId == Some(userId) ==> AttemptController.MapToAttemptDto(a) in r
    ensures forall d :: d in r ==> exists a :: a in attempts && a.val.userId == Some(userId) && d == AttemptController.MapToAttemptDto(a)
    ensures |r| == |AttemptRepository.ByUser(attempts, userId)|
    ensures forall i :: 0 <= i < |r| ==> r[i] == AttemptController.MapToAttemptDto(AttemptRepository.ByUser(attempts, userId)[i])
  {
    var own := AttemptRepository.ByUser(attempts, userId);
    OwnAttemptsMapped(attempts, userId, own);
    QuizController.MapAll(own)
  }

  lemma OwnAttemptsMapped(attempts: seq<Row<Attempt>>, userId: int, own: seq<Row<Attempt>>)
    requires forall x :: multiset(own)[x] == if x.val.userId == Some(userId) then multiset(attempts)[x] else 0
    ensures forall d :: d in QuizController.MapAll(own) ==> d.userId == Some(userId)
    ensures forall d :: d in QuizController.MapAll(own) ==>
      exists a :: a in attempts && a.val.userId == Some(userId) && d == AttemptController.MapToAttemptDto(a)
    ensures forall a :: a in attempts && a.val.userId == Some(userId) ==> AttemptController.MapToAttemptDto(a) in QuizController.MapAll(own)
  {
    var r := QuizController.MapAll(own);
    forall d | d in r
      ensures d.userId == Some(userId)
      ensures exists a :: a in attempts && a.val.userId == Some(userId) && d == AttemptController.MapToAttemptDto(a)
    {
      var i :| 0 <= i < |r| && r[i] == d;
      assert multiset(own)[own[i]] > 0;
      assert own[i] in attempts;
    }
    forall a | a in attempts && a.val.userId == Some(userId) ensures AttemptController.MapToAttemptDto(a) in r {
      assert multiset(own)[a] > 0;
      var i :| 0 <= i < |own| && own[i] == a;
      assert r[i] == AttemptController.MapToAttemptDto(a);
    }
  }

  /** A password change is asked for when the new password is not blank. */
  predicate ChangesPassword(dto: UserUpdateDto) {
    !IsNullOrWhiteSpace(dto.password)
  }

  /** A rename is asked for when the new name is not blank and differs from the current one. */
  predicate Renames(existing: User, dto: UserUpdateDto) {
    !IsNullOrWhiteSpace(dto.userName) && dto.userName.value != existing.username
  }

  /** The user after a permitted update: new hash and new name where asked for, the rest kept. */
  function Updated(existing: User, dto: UserUpdateDto, hasher: Hasher): (u: User)
    ensures u.passwordHash == if ChangesPassword(dto) then hasher.hash(dto.password.value) else existing.passwordHash
    ensures u.username == if Renames(existing, dto) then dto.userName.value else existing.username
    ensures u.createdAt == existing.createdAt
  {
    existing.(
      passwordHash := if ChangesPassword(dto) then hasher.hash(dto.password.value) else existing.passwordHash,
      username := if Renames(existing, dto) then dto.userName.value else existing.username)
  }

  /**
   * The checks of the profile update once `[Authorize]` has let the caller
   * through, in order: the body's annotations
   * (400), the user (404), the claim (500 when it does not parse, 403 for
   * another user), the current password for a password change (400 when
   * blank, 401 when wrong), and a free name for a rename (409).
   */
  function UpdateGate(users: seq<Row<User>>, id: int, dto: UserUpdateDto, oldPassword: Option<string>,
                      user: ClaimsPrincipal, hasher: Hasher): (r: Option<Status>)
    ensures !UserUpdateValid(dto) ==> r == Some(BadRequest)
    ensures UserUpdateValid(dto) ==> (r == Some(NotFound) <==> FindById(users, id).None?)
    ensures r.None? <==>
      && UserUpdateValid(dto)
      && FindById(users, id).Some?
      && RequiredCallerId(user) == Success(id)
      && (ChangesPassword(dto) ==> !IsNullOrWhiteSpace(oldPassword) && hasher.verify(oldPassword.value, FindById(users, id).value.val.passwordHash))
      && (Renames(FindById(users, id).value.val, dto) ==> FindByUsername(users, dto.userName.value).None?)
    ensures r == Some(Unauthorized) ==>
      ChangesPassword(dto) && !IsNullOrWhiteSpace(oldPassword) && !hasher.verify(oldPassword.value, FindById(users, id).value.val.passwordHash)
    ensures r == Some(Conflict) ==>
      Renames(FindById(users, id).value.val, dto) && FindByUsername(users, dto.userName.value).Some?
    ensures r == Some(Forbidden) ==> RequiredCallerId(user).Success? && RequiredCallerId(user).value != id
    ensures UserUpdateValid(dto) && FindById(users, id).Some? ==>
      var existing := FindById(users, id).value.val;
      && (RequiredCallerId(user).Failure? ==> r == Some(InternalServerError))
      && (RequiredCallerId(user).Success? && RequiredCallerId(user).value != id ==> r == Some(Forbidden))
      && (RequiredCallerId(user) == Success(id) && ChangesPassword(dto) && IsNullOrWhiteSpace(oldPassword) ==> r == Some(BadRequest))
      && ((RequiredCallerId(user) == Success(id) && ChangesPassword(dto) && !IsNullOrWhiteSpace(oldPassword)
            && !hasher.verify(oldPassword.value, existing.passwordHash)) ==> r == Some(Unauthorized))
      && ((RequiredCallerId(user) == Success(id)
            && (ChangesPassword(dto) ==> !IsNullOrWhiteSpace(oldPassword) && hasher.verify(oldPassword.value, existing.passwordHash))
            && Renames(existing, dto) && FindByUsername(users, dto.userName.value).Some?) ==> r == Some(Conflict))
  {
    if !UserUpdateValid(dto) then Some(BadRequest)
    else
      match FindById(users, id)
      case None => Some(NotFound)
      case Some(existing) =>
        match RequiredCallerId(user)
        case Failure(_) => Some(InternalServerError)
        case Success(caller) =>
          if existing.id != caller then Some(Forbidden)
          else if ChangesPassword(dto) && IsNullOrWhiteSpace(oldPassword) then Some(BadRequest)
          else if ChangesPassword(dto) && !hasher.verify(oldPassword.value, existing.val.passwordHash) then Some(Unauthorized)
          else if Renames(existing.val, dto) && FindByUsername(users, dto.userName.value).Some? then Some(Conflict)
          else None
  }

  /** Replacing one user by a user whose name is either unchanged or free keeps names unique. */
  lemma RenameKeepsUnique(rows: seq<Row<User>>, id: int, v: User)
    requires IdsIncreasing(rows) && UniqueUsernames(rows)
    requires FindById(rows, id).Some?
    requires v.username == FindById(rows, id).value.val.username || FindByUsername(rows, v.username).None?
    ensures UniqueUsernames(ReplaceById(rows, id, v))
  {
    var r := ReplaceById(rows, id, v);
    var k :| 0 <= k < |rows| && rows[k] == FindById(rows, id).value;
    forall i, j | 0 <= i < |r| && 0 <= j < |r| && i != j
      ensures r[i].val.username != r[j].val.username
    {
      if rows[i].id == id {
        assert i == k;
        assert rows[j].id != id;
      } else if rows[j].id == id {
        assert j == k;
      }
    }
  }

  /**
   * `Update`, under `[Authorize]`: 401 for a caller that is not
   * authenticated; otherwise, after the checks, the stored user gets the updated name and
   * hash; names stay unique, and a password changes only on proof of the
   * current one.
   */
  method UpdateEndpoint(users: Table<User>, id: int, dto: UserUpdateDto, oldPassword: Option<string>,
                        user: ClaimsPrincipal, hasher: Hasher)
    returns (resp: Response<()>)
    requires users.Valid()
    modifies users
    ensures users.Valid()
    ensures !user.isAuthenticated ==> resp == Error(Unauthorized) && users.rows == old(users.rows)
    ensures user.isAuthenticated ==> (resp.Error? <==> UpdateGate(old(users.rows), id, dto, oldPassword, user, hasher).Some?)
    ensures user.isAuthenticated && resp.Error? ==>
      && resp.status == UpdateGate(old(users.rows), id, dto, oldPassword, user, hasher).value
      && users.rows == old(users.rows)
    ensures resp.Ok? ==>
      && user.isAuthenticated
      && users.rows == ReplaceById(old(users.rows), id, Updated(FindById(old(users.rows), id).value.val, dto, hasher))
    ensures UniqueUsernames(old(users.rows)) ==> UniqueUsernames(users.rows)
  {
    if !user.isAuthenticated {
      return Error(Unauthorized);
    }
    var gate := UpdateGate(users.rows, id, dto, oldPassword, user, hasher);
    if gate.Some? {
      return Error(gate.value);
    }
    var existing := FindById(users.rows, id).value;
    var updated := Updated(existing.val, dto, hasher);
    if UniqueUsernames(users.rows) {
      RenameKeepsUnique(users.rows, id, updated);
    }
    var success := UserService.Update(users, id, updated);
    if !success {
      assert false;
      return Error(InternalServerError);
    }
    assert updated.(username := updated.username, passwordHash := updated.passwordHash) == updated;
    return Ok(());
  }

  /**
   * `Delete`, under `[Authorize]`: 401 for a caller that is not
   * authenticated; then 404 for an unknown id, 500 for an unparsable claim,
   * 403 for another user; otherwise the user is removed.
   */
  method DeleteEndpoint(users: Table<User>, id: int, user: ClaimsPrincipal) returns (resp: Response<()>)
    requires users.Valid()
    modifies users
    ensures users.Valid()
    ensures resp.Error? ==> users.rows == old(users.rows)
    ensures !user.isAuthenticated ==> resp == Error(Unauthorized)
    ensures user.isAuthenticated ==> (FindById(old(users.rows), id).None? <==> resp == Error(NotFound))
    ensures user.isAuthenticated && FindById(old(users.rows), id).Some? && RequiredCallerId(user).Failure? ==> resp == Error(InternalServerError)
    ensures user.isAuthenticated && FindById(old(users.rows), id).Some? && RequiredCallerId(user).Success? && RequiredCallerId(user).value != id ==>
      resp == Error(Forbidden)
    ensures resp.Ok? <==> user.isAuthenticated && FindById(old(users.rows), id).Some? && RequiredCallerId(user) == Success(id)
    ensures resp.Ok? ==> users.rows == RemoveById(old(users.rows), id) && FindById(users.rows, id).None?
  {
    if !user.isAuthenticated {
      return Error(Unauthorized);
    }
    var existing := FindById(users.rows, id);
    if existing.None? {
      return Error(NotFound);
    }
    var caller := RequiredCallerId(user);
    if caller.Failure? {
      return Error(InternalServerError);
    }
    if existing.value.id != caller.value {
      return Error(Forbidden);
    }
    var success := UserService.Delete(users, id);
    if !success {
      assert false;
      return Error(InternalServerError);
    }
    return Ok(());
  }

  /** `AddNewUser`: 400 for an invalid body, 409 for a taken name; otherwise the new user's token. */
  method RegisterEndpoint(users: Table<User>, dto: AuthDto, hasher: Hasher, now: int) returns (resp: Response<TokenString>)
    requires users.Valid()
    modifies users
    ensures users.Valid()
    ensures resp.Error? ==> users.rows == old(users.rows)
    ensures !AuthValid(dto) ==> resp == Error(BadRequest)
    ensures AuthValid(dto) ==>
      && (FindByUsername(old(users.rows), dto.username.value).Some? <==> resp == Error(Conflict))
      && (resp.Ok? ==>
            && resp.body == Jwt(old(users.nextId))
            && users.rows == old(users.rows) + [Row(old(users.nextId), User(dto.username.value, hasher.hash(dto.password.value), now))])
    ensures resp.Ok? || resp == Error(BadRequest) || resp == Error(Conflict)
    ensures resp.Ok? ==> |users.rows| > 0 && 3 <= Utf16Length(users.rows[|users.rows| - 1].val.username) <= 50
    ensures UniqueUsernames(old(users.rows)) ==> UniqueUsernames(users.rows)
  {
    if !AuthValid(dto) {
      return Error(BadRequest);
    }
    var token := UserService.Register(users, dto.username.value, dto.password.value, hasher, now);
    if token == EmptyToken {
      return Error(Conflict);
    }
    return Ok(token);
  }

  /** A successful login: the access token, and the refresh token set as a cookie. */
  datatype LoginResult = LoginResult(token: TokenString, refreshCookie: string)

  /**
   * `Login`: 400 for an invalid body; a locked username is a 500 (the
   * service throws); wrong credentials are a 401; otherwise a refresh token
   * for the user is stored and set as a cookie next to the access token.
   * The username's failure counter moves as the lockout rule says.
   */
  method LoginEndpoint(users: Table<User>, loginAttempts: LoginAttemptRepository, tokens: Table<RefreshToken>,
                       dto: AuthDto, hasher: Hasher, now: int, guid: string)
    returns (resp: Response<LoginResult>)
    requires loginAttempts.Valid() && tokens.Valid()
    modifies loginAttempts, tokens
    ensures loginAttempts.Valid() && tokens.Valid()
    ensures !AuthValid(dto) ==> resp == Error(BadRequest) && loginAttempts.attempts == old(loginAttempts.attempts)
    ensures resp.Error? ==> tokens.rows == old(tokens.rows)
    ensures AuthValid(dto) ==>
      var step := LoginStep(old(loginAttempts.GetByUsername(dto.username.value)), dto.username.value,
                            CredentialsValid(users.rows, dto.username.value, dto.password.value, hasher), now);
      && (step.0 == Locked <==> resp == Error(InternalServerError))
      && (step.0 == Rejected <==> resp == Error(Unauthorized))
      && (step.0 == Accepted <==> resp.Ok?)
      && (step.1.Some? ==> loginAttempts.attempts == old(loginAttempts.attempts)[dto.username.value := step.1.value])
      && (step.1.None? ==> loginAttempts.attempts == old(loginAttempts.attempts))
    ensures resp.Ok? ==>
      && CredentialsValid(users.rows, dto.username.value, dto.password.value, hasher)
      && var id := FindByUsername(users.rows, dto.username.value).value.id;
      && resp.body == LoginResult(Jwt(id), guid)
      && tokens.rows == old(tokens.rows) + [Row(old(tokens.nextId), RefreshToken(guid, id, now + RefreshTokenService.RefreshLifetime, false))]
  {
    if !AuthValid(dto) {
      return Error(BadRequest);
    }
    var token := UserService.Login(users, loginAttempts, dto.username.value, dto.password.value, hasher, now);
    if token.Failure? {
      return Error(InternalServerError);
    }
    if token.value == EmptyToken {
      return Error(Unauthorized);
    }
    var found := FindByUsername(users.rows, dto.username.value);
    var refresh := RefreshTokenService.CreateRefreshToken(tokens, found.value.id, guid, now);
    return Ok(LoginResult(token.value, refresh));
  }

  /** `Refresh`: 401 without the cookie or for a token that does not refresh; otherwise a new access token. */
  function RefreshEndpoint(tokens: seq<Row<RefreshToken>>, cookie: Option<string>, now: int): (resp: Response<TokenString>)
    ensures resp.Error? ==> resp.status == Unauthorized
    ensures cookie.None? ==> resp.Error?
    ensures resp.Ok? <==> cookie.Some? && RefreshTokenService.Refresh(tokens, cookie.value, now).Some?
    ensures resp.Ok? ==> resp.body == Jwt(RefreshTokenService.FindByToken(tokens, cookie.value).value.val.userId)
  {
    match cookie
    case None => Error(Unauthorized)
    case Some(token) =>
      match RefreshTokenService.Refresh(tokens, token, now)
      case None => Error(Unauthorized)
      case Some(access) => Ok(access)
  }

  /**
   * `Logout`: with the cookie, its token is revoked and the cookie
   * removed; without it, nothing happens. Either way the answer is 200 and
   * no cookie remains, and a revoked token never refreshes again.
   */
  method LogoutEndpoint(tokens: Table<RefreshToken>, cookie: Option<string>) returns (cookieAfter: Option<string>)
    requires tokens.Valid()
    modifies tokens
    ensures tokens.Valid()
    ensures cookieAfter.None?
    ensures cookie.None? ==> tokens.rows == old(tokens.rows)
    ensures cookie.Some? ==> tokens.rows == RefreshTokenService.Revoked(old(tokens.rows), cookie.value)
    ensures cookie.Some? ==> forall t :: RefreshTokenService.Refresh(tokens.rows, cookie.value, t).None?
  {
    if cookie.Some? {
      RefreshTokenService.Logout(tokens, cookie.value);
      forall t ensures RefreshTokenService.Refresh(tokens.rows, cookie.value, t).None? {
        RefreshTokenService.RevokedNeverRefreshes(old(tokens.rows), cookie.value, t);
      }
    }
    return None;
  }
}
