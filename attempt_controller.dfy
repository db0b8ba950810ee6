/**
 * The attempt endpoints: the DTO an attempt is shown as, the mapping of the
 * service's failures to status codes, and who may read an attempt's answers.
 */
module AttemptController {
  import opened Wrappers
  import opened Storage
  import opened Entities
  import opened Text
  import opened HttpContextExtensions
  import opened AttemptService
  import opened UserAnswerService

  datatype AttemptDto = AttemptDto(
    id: int, score: int, timeSpent: int, completedAt: int,
    userId: Option<int>, guestSessionId: Option<string>, quizId: int)

  /** `MapToAttemptDto`: the guest session id is shown only for an attempt without a user. */
  function MapToAttemptDto(a: Row<Attempt>): (d: AttemptDto)
    ensures d.id == a.id && d.score == a.val.score && d.timeSpent == a.val.timeSpent
    ensures d.completedAt == a.val.completedAt && d.userId == a.val.userId && d.quizId == a.val.quizId
    ensures d.guestSessionId.Some? ==> d.userId.None?
    ensures a.val.userId.None? ==> d.guestSessionId == a.val.guestSessionId
  {
    AttemptDto(a.id, a.val.score, a.val.timeSpent, a.val.completedAt, a.val.userId,
      if a.val.userId.None? then a.val.guestSessionId else None, a.val.quizId)
  }

  /** `StartAttempt`'s catch-all: every failure of the service is a 400. */
  function StartResponse(r: Result<Row<Attempt>>): (resp: Response<AttemptDto>)
    ensures resp.Error? <==> r.Failure?
    ensures resp.Error? ==> resp.status == BadRequest
    ensures r.Success? ==> resp == Ok(MapToAttemptDto(r.value))
  {
    match r
    case Success(a) => Ok(MapToAttemptDto(a))
    case Failure(_) => Error(BadRequest)
  }

  /** `FinishAttempt`'s catch clauses: not-found 404, invalid-operation 409, anything else 400. */
  function FinishResponse(r: Result<Row<Attempt>>): (resp: Response<AttemptDto>)
    ensures resp.Error? <==> r.Failure?
    ensures r.Failure? ==> resp.status == match r.fault
      case KeyNotFound => NotFound
      case InvalidOperation => Conflict
      case Failed => BadRequest
    ensures r.Success? ==> resp == Ok(MapToAttemptDto(r.value))
  {
    match r
    case Success(a) => Ok(MapToAttemptDto(a))
    case Failure(KeyNotFound) => Error(NotFound)
    case Failure(InvalidOperation) => Error(Conflict)
    case Failure(Failed) => Error(BadRequest)
  }

  /** The finish body's model-state rule: the list is present and every question id is at least 1. */
  predicate FinishBodyValid(answers: Option<seq<AnswerFinishDto>>) {
    answers.Some? && forall i :: 0 <= i < |answers.value| ==> answers.value[i].questionId >= 1
  }

  /**
   * `StartAttempt`: 400 for an unknown quiz, with nothing stored; otherwise
   * the new attempt is stored and shown as a DTO.
   */
  method StartAttemptEndpoint(quizzes: Table<Quiz>, attempts: Table<Attempt>, quizId: int, ctx: HttpContext, now: int)
    returns (resp: Response<AttemptDto>)
    requires attempts.Valid()
    modifies attempts
    ensures attempts.Valid()
    ensures FindById(quizzes.rows, quizId).None? ==> resp == Error(BadRequest) && attempts.rows == old(attempts.rows)
    ensures FindById(quizzes.rows, quizId).Some? ==>
      var row := Row(old(attempts.nextId), NewAttempt(quizId, ctx, now));
      && resp == Ok(MapToAttemptDto(row))
      && attempts.rows == old(attempts.rows) + [row]
  {
    var r := StartAttempt(quizzes, attempts, quizId, ctx, now);
    resp := StartResponse(r);
  }

  /**
   * `FinishAttempt`: 400 for an invalid body, 404 for an unknown attempt,
   * 409 for a finished attempt or an answer to a question outside its quiz.
   * A selected id that names no option makes the service throw a plain
   * exception, a 400, after the selections before it were saved. Otherwise
   * the selections are saved and the closed attempt is returned.
   */
  method FinishAttemptEndpoint(
    attempts: Table<Attempt>, questions: Table<Question>, options: Table<AnswerOption>, userAnswers: Table<UserAnswer>,
    attemptId: int, answers: Option<seq<AnswerFinishDto>>, now: int, later: int)
    returns (resp: Response<AttemptDto>)
    requires attempts.Valid() && questions.Valid() && userAnswers.Valid()
    modifies attempts, userAnswers
    ensures attempts.Valid() && userAnswers.Valid()
    ensures !FinishBodyValid(answers) ==> resp == Error(BadRequest)
    ensures resp.Error? ==> attempts.rows == old(attempts.rows)
    ensures resp.Error? && resp.status != BadRequest ==> userAnswers.rows == old(userAnswers.rows)
    ensures !FinishBodyValid(answers) ==> userAnswers.rows == old(userAnswers.rows)
    ensures FinishBodyValid(answers) ==>
      var found := FindById(old(attempts.rows), attemptId);
      && (resp == Error(NotFound) <==> found.None?)
      && (found.Some? && !InProgress(found.value.val) ==> resp == Error(Conflict))
      && (found.Some? && InProgress(found.value.val) ==>
            var g := Grade(attemptId, QuizQuestions(questions.rows, options.rows, found.value.val.quizId), answers.value);
            && (g.UnknownQuestion? ==> resp == Error(Conflict))
            && (g.Graded? ==>
                  var k := SavedPrefix(options.rows, g.toSave);
                  && userAnswers.rows == old(userAnswers.rows) + Numbered(old(userAnswers.nextId), g.toSave[..k])
                  && (k < |g.toSave| ==> resp == Error(BadRequest))
                  && (k == |g.toSave| ==>
                        var closed := Row(attemptId, Closed(found.value.val, g.correctCount, now, later));
                        && resp == Ok(MapToAttemptDto(closed))
                        && attempts.rows == ReplaceById(old(attempts.rows), attemptId, closed.val))))
  {
    if !FinishBodyValid(answers) {
      return Error(BadRequest);
    }
    var r := FinishAttempt(attempts, questions, options, userAnswers, attemptId, answers.value, now, later);
    resp := FinishResponse(r);
  }

  /** `GetById`: 404 for an unknown attempt, otherwise its DTO. */
  function GetById(attempts: seq<Row<Attempt>>, id: int): (resp: Response<AttemptDto>)
    ensures resp.Error? <==> FindById(attempts, id).None?
    ensures resp.Error? ==> resp.status == NotFound
    ensures resp.Ok? ==> resp.body.id == id && exists a :: a in attempts && a.id == id && resp.body == MapToAttemptDto(a)
  {
    match FindById(attempts, id)
    case None => Error(NotFound)
    case Some(a) => Ok(MapToAttemptDto(a))
  }

  /** The caller reached the attempt through a guest session: both ids present, non-empty and equal. */
  predicate IsGuestOwner(attempt: Attempt, guestSessionId: Option<string>) {
    !IsNullOrEmpty(attempt.guestSessionId) && !IsNullOrEmpty(guestSessionId) && attempt.guestSessionId == guestSessionId
  }

  /** Who may read an attempt's answers: the quiz's author, the attempt's user, or its guest session. */
  predicate MayViewAnswers(quiz: Quiz, attempt: Attempt, callerId: Option<int>, guestSessionId: Option<string>) {
    || (callerId.Some? && quiz.authorId == callerId.value)
    || (callerId.Some? && attempt.userId == callerId)
    || IsGuestOwner(attempt, guestSessionId)
  }

  /**
   * `GetAnswers`: 404 for an unknown attempt or quiz before any permission
   * check; an unparsable claim escapes as a 500; a caller who may not view
   * gets 403; otherwise the attempt's stored answers.
   */
  function GetAnswers(
    attempts: seq<Row<Attempt>>, quizzes: seq<Row<Quiz>>, userAnswers: seq<Row<UserAnswer>>,
    attemptId: int, user: ClaimsPrincipal, guestSessionId: Option<string>): (resp: Response<seq<Row<UserAnswer>>>)
    ensures FindById(attempts, attemptId).None? ==> resp == Error(NotFound)
    ensures FindById(attempts, attemptId).Some? && FindById(quizzes, FindById(attempts, attemptId).value.val.quizId).None? ==>
      resp == Error(NotFound)
    ensures FindById(attempts, attemptId).Some? && FindById(quizzes, FindById(attempts, attemptId).value.val.quizId).Some? ==>
      var attempt := FindById(attempts, attemptId).value.val;
      var quiz := FindById(quizzes, attempt.quizId).value.val;
      && (OptionalCallerId(user).Failure? <==> resp == Error(InternalServerError))
      && (OptionalCallerId(user).Success? && MayViewAnswers(quiz, attempt, OptionalCallerId(user).value, guestSessionId) ==>
            resp == Ok(AnswersByAttempt(userAnswers, attemptId)))
      && (OptionalCallerId(user).Success? && !MayViewAnswers(quiz, attempt, OptionalCallerId(user).value, guestSessionId) ==>
            resp == Error(Forbidden))
    ensures resp.Ok? ==>
      && FindById(attempts, attemptId).Some?
      && FindById(quizzes, FindById(attempts, attemptId).value.val.quizId).Some?
      && OptionalCallerId(user).Success?
      && MayViewAnswers(FindById(quizzes, FindById(attempts, attemptId).value.val.quizId).value.val,
           FindById(attempts, attemptId).value.val, OptionalCallerId(user).value, guestSessionId)
      && resp.body == AnswersByAttempt(userAnswers, attemptId)
    ensures resp == Error(Forbidden) ==>
      && FindById(attempts, attemptId).Some?
      && FindById(quizzes, FindById(attempts, attemptId).value.val.quizId).Some?
      && OptionalCallerId(user).Success?
      && !MayViewAnswers(FindById(quizzes, FindById(attempts, attemptId).value.val.quizId).value.val,
        FindById(attempts, attemptId).value.val, OptionalCallerId(user).value, guestSessionId)
  {
    match FindById(attempts, attemptId)
    case None => Error(NotFound)
    case Some(attempt) =>
      match FindById(quizzes, attempt.val.quizId)
      case None => Error(NotFound)
      case Some(quiz) =>
        match OptionalCallerId(user)
        case Failure(_) => Error(InternalServerError)
        case Success(callerId) =>
          if !MayViewAnswers(quiz.val, attempt.val, callerId, guestSessionId) then Error(Forbidden)
          else Ok(AnswersByAttempt(userAnswers, attemptId))
  }

  /** An anonymous caller without a guest session id is refused any existing attempt's answers. */
  lemma AnonymousWithoutSessionRefused(
    attempts: seq<Row<Attempt>>, quizzes: seq<Row<Quiz>>, userAnswers: seq<Row<UserAnswer>>, attemptId: int)
    requires FindById(attempts, attemptId).Some?
    requires FindById(quizzes, FindById(attempts, attemptId).value.val.quizId).Some?
    ensures GetAnswers(attempts, quizzes, userAnswers, attemptId, Anonymous, None) == Error(Forbidden)
  {
  }

  /** The quiz's author may read the answers of every attempt at the quiz. */
  lemma AuthorMayView(
    attempts: seq<Row<Attempt>>, quizzes: seq<Row<Quiz>>, userAnswers: seq<Row<UserAnswer>>, attemptId: int,
    authorId: int, guestSessionId: Option<string>)
    requires MinInt32 <= authorId <= MaxInt32
    requires FindById(attempts, attemptId).Some?
    requires FindById(quizzes, FindById(attempts, attemptId).value.val.quizId).Some?
    requires FindById(quizzes, FindById(attempts, attemptId).value.val.quizId).value.val.authorId == authorId
    ensures GetAnswers(attempts, quizzes, userAnswers, attemptId, SignedIn(authorId), guestSessionId)
      == Ok(AnswersByAttempt(userAnswers, attemptId))
  {
    FormatThenParse(authorId);
  }

  /**
   * Whoever started an attempt may read its answers afterwards: the
   * signed-in user through their token, a guest through the session id it
   * was started under (when that id is non-empty).
   */
  lemma StarterMayView(quiz: Quiz, quizId: int, ctx: HttpContext, now: int, later: HttpContext)
    requires ClaimUserId(ctx.user).Some? ==> later.user == ctx.user && later.user.isAuthenticated
    requires ClaimUserId(ctx.user).None? ==> !IsNullOrEmpty(GetGuestSessionId(ctx))
    ensures var a := NewAttempt(quizId, ctx, now);
      MayViewAnswers(quiz, a,
        if ClaimUserId(ctx.user).Some? then OptionalCallerId(later.user).value else None,
        GetGuestSessionId(ctx))
  {
    if ClaimUserId(ctx.user).Some? {
      assert OptionalCallerId(later.user) == Success(ClaimUserId(ctx.user));
    }
  }
}
