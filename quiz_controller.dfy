/**
 * The quiz endpoints: who sees a private quiz and its access key, who may
 * list its questions and which of its attempts a caller sees, joining a
 * private quiz by its five-character code, and the author-only update and
 * delete.
 */
module QuizController {
  import opened Wrappers
  import opened Storage
  import opened Entities
  import opened Text
  import opened HttpContextExtensions
  import opened Dtos
  import opened QuizRepository
  import QuestionRepository
  import AttemptRepository
  import opened AttemptController
  import QuizService

  /** A quiz as the endpoints show it; the category defaults to `Other`. */
  datatype QuizDto = QuizDto(
    id: int, title: string, description: Option<string>, category: CategoryType, isPublic: bool,
    authorId: int, timeLimit: Option<int>, createdAt: int, privateAccessKey: Option<string>, isDeleted: bool)

  /** What joining by code reveals. */
  datatype QuizAccessInfoDto = QuizAccessInfoDto(quizId: int, title: string, description: Option<string>, timeLimit: Option<int>, accessKey: Option<string>)

  function ToDto(q: Row<Quiz>, accessKey: Option<string>): (d: QuizDto)
    ensures d.id == q.id && d.title == q.val.title && d.isPublic == q.val.isPublic && d.authorId == q.val.authorId
    ensures d.category == q.val.category.GetOr(Other) && d.privateAccessKey == accessKey
  {
    QuizDto(q.id, q.val.title, q.val.description, q.val.category.GetOr(Other), q.val.isPublic,
      q.val.authorId, q.val.timeLimit, q.val.createdAt, accessKey, q.val.isDeleted)
  }

  /** `GetAllPublic`: the public quizzes, in table order, without their keys. */
  function GetAllPublic(quizzes: seq<Row<Quiz>>): (r: seq<QuizDto>)
    ensures |r| == |Public(quizzes)|
    ensures forall i :: 0 <= i < |r| ==> r[i] == ToDto(Public(quizzes)[i], None)
    ensures forall i :: 0 <= i < |r| ==> r[i].isPublic && r[i].privateAccessKey.None?
  {
    var ps := Public(quizzes);
    assert forall i :: 0 <= i < |ps| ==> ps[i].val.isPublic by {
      forall i | 0 <= i < |ps| ensures ps[i].val.isPublic {
        assert multiset(ps)[ps[i]] > 0;
      }
    }
    seq(|ps|, i requires 0 <= i < |ps| => ToDto(ps[i], None))
  }

  /** The caller is the quiz's author according to the `int.TryParse` of their claim. */
  predicate ClaimsAuthorship(user: ClaimsPrincipal, quiz: Quiz) {
    ClaimUserId(user) == Some(quiz.authorId)
  }

  /**
   * `GetById`: 404 for an unknown id; a private quiz is shown, with its key,
   * only to its author, and is 403 for everyone else; a public quiz is shown
   * to anyone, without a key.
   */
  function GetById(quizzes: seq<Row<Quiz>>, id: int, user: ClaimsPrincipal): (resp: Response<QuizDto>)
    ensures FindById(quizzes, id).None? <==> resp == Error(NotFound)
    ensures FindById(quizzes, id).Some? ==>
      var q := FindById(quizzes, id).value;
      && (q.val.isPublic ==> resp == Ok(ToDto(q, None)))
      && (!q.val.isPublic && ClaimsAuthorship(user, q.val) ==> resp == Ok(ToDto(q, q.val.privateAccessKey)))
      && (!q.val.isPublic && !ClaimsAuthorship(user, q.val) ==> resp == Error(Forbidden))
  {
    match FindById(quizzes, id)
    case None => Error(NotFound)
    case Some(q) =>
      if q.val.isPublic then Ok(ToDto(q, None))
      else if ClaimsAuthorship(user, q.val) then Ok(ToDto(q, q.val.privateAccessKey))
      else Error(Forbidden)
  }

  /** A key is revealed only to the author of a private quiz. */
  lemma KeyOnlyToAuthor(quizzes: seq<Row<Quiz>>, id: int, user: ClaimsPrincipal)
    requires GetById(quizzes, id, user).Ok? && GetById(quizzes, id, user).body.privateAccessKey.Some?
    ensures !FindById(quizzes, id).value.val.isPublic && ClaimsAuthorship(user, FindById(quizzes, id).value.val)
  {
  }

  /** An anonymous caller never gets past a private quiz. */
  lemma AnonymousRefusedPrivate(quizzes: seq<Row<Quiz>>, id: int)
    requires FindById(quizzes, id).Some? && !FindById(quizzes, id).value.val.isPublic
    ensures GetById(quizzes, id, Anonymous) == Error(Forbidden)
  {
  }

  /** `GetByAccessKey`: 400 for an empty key; 404 when no quiz carries the upper-cased key; otherwise the quiz with its key. */
  function GetByAccessKeyEndpoint(quizzes: seq<Row<Quiz>>, accessKey: Option<string>): (resp: Response<QuizDto>)
    ensures IsNullOrEmpty(accessKey) ==> resp == Error(BadRequest)
    ensures !IsNullOrEmpty(accessKey) && GetByAccessKey(quizzes, accessKey.value).None? ==> resp == Error(NotFound)
    ensures !IsNullOrEmpty(accessKey) && GetByAccessKey(quizzes, accessKey.value).Some? ==>
      var q := GetByAccessKey(quizzes, accessKey.value).value;
      resp == Ok(ToDto(q, q.val.privateAccessKey))
    ensures resp.Ok? ==>
      && !IsNullOrEmpty(accessKey)
      && resp.body.privateAccessKey == Some(ToUpperInvariant(accessKey.value))
      && exists q :: q in quizzes && resp.body == ToDto(q, q.val.privateAccessKey)
  {
    if IsNullOrEmpty(accessKey) then Error(BadRequest)
    else
      AccessKeyCaseInsensitive(quizzes, accessKey.value);
      match GetByAccessKey(quizzes, ToUpperInvariant(accessKey.value))
      case None => Error(NotFound)
      case Some(q) => Ok(ToDto(q, q.val.privateAccessKey))
  }

  /** The key a caller supplied opens the private quiz: the quiz has a key and it equals the supplied one upper-cased. */
  predicate KeyOpens(quiz: Quiz, accessKey: Option<string>) {
    quiz.privateAccessKey.Some? && accessKey.Some? && quiz.privateAccessKey.value == ToUpperInvariant(accessKey.value)
  }

  /**
   * `GetQuestions`: 404 for an unknown quiz; a private quiz's questions go
   * to its author or to a caller with its key, and are 403 for everyone
   * else; a public quiz's go to anyone.
   */
  function GetQuestions(quizzes: seq<Row<Quiz>>, questions: seq<Row<Question>>, quizId: int, user: ClaimsPrincipal, accessKey: Option<string>)
    : (resp: Response<seq<Row<Question>>>)
    ensures FindById(quizzes, quizId).None? <==> resp == Error(NotFound)
    ensures FindById(quizzes, quizId).Some? ==>
      var q := FindById(quizzes, quizId).value.val;
      && (resp == Error(Forbidden) <==> !q.isPublic && !ClaimsAuthorship(user, q) && !KeyOpens(q, accessKey))
      && (q.isPublic || ClaimsAuthorship(user, q) || KeyOpens(q, accessKey) ==>
            resp == Ok(QuestionRepository.ByQuiz(questions, quizId)))
  {
    match FindById(quizzes, quizId)
    case None => Error(NotFound)
    case Some(q) =>
      if !q.val.isPublic && !ClaimsAuthorship(user, q.val) && !KeyOpens(q.val, accessKey) then Error(Forbidden)
      else Ok(QuestionRepository.ByQuiz(questions, quizId))
  }

  /** The key is matched regardless of the letter case it is typed in. */
  lemma QuestionKeyCaseInsensitive(quiz: Quiz, key: string)
    ensures KeyOpens(quiz, Some(key)) <==> KeyOpens(quiz, Some(ToUpperInvariant(key)))
  {
    UpperIdempotent(key);
  }

  /** Which attempts a caller of `GetAttepmts` is shown. */
  datatype AttemptScope = AllOfQuiz | OwnAsUser(userId: int) | OwnAsGuest(guestSessionId: string) | NoScope

  /**
   * The branch `GetAttepmts` takes: the author sees all attempts, another
   * signed-in user their own, a caller with a non-empty guest session id
   * that session's; anyone else none.
   */
  function Scope(quiz: Quiz, callerId: Option<int>, guestSessionId: Option<string>): (s: AttemptScope)
    ensures s == AllOfQuiz <==> callerId == Some(quiz.authorId)
    ensures s.OwnAsUser? <==> callerId.Some? && callerId.value != quiz.authorId
    ensures s.OwnAsUser? ==> s.userId == callerId.value
    ensures s.OwnAsGuest? <==> callerId.None? && !IsNullOrEmpty(guestSessionId)
    ensures s.OwnAsGuest? ==> Some(s.guestSessionId) == guestSessionId
  {
    if callerId == Some(quiz.authorId) then AllOfQuiz
    else if callerId.Some? then OwnAsUser(callerId.value)
    else if !IsNullOrEmpty(guestSessionId) then OwnAsGuest(guestSessionId.value)
    else NoScope
  }

  function Listed(attempts: seq<Row<Attempt>>, quizId: int, s: AttemptScope): seq<Row<Attempt>>
    requires s != NoScope
  {
    match s
    case AllOfQuiz => AttemptRepository.ByQuiz(attempts, quizId)
    case OwnAsUser(u) => AttemptRepository.ByUserAndQuiz(attempts, u, quizId)
    case OwnAsGuest(g) => AttemptRepository.ByGuestAndQuiz(attempts, g, quizId)
  }

  function MapAll(xs: seq<Row<Attempt>>): (r: seq<AttemptDto>)
    ensures |r| == |xs| && forall i :: 0 <= i < |xs| ==> r[i] == MapToAttemptDto(xs[i])
  {
    seq(|xs|, i requires 0 <= i < |xs| => MapToAttemptDto(xs[i]))
  }

  /**
   * `GetAttepmts`: 404 for an unknown quiz; an unparsable claim of an
   * authenticated caller escapes as a 500; 403 for a caller with no scope;
   * otherwise the scope's attempts as DTOs.
   */
  function GetAttempts(quizzes: seq<Row<Quiz>>, attempts: seq<Row<Attempt>>, quizId: int, user: ClaimsPrincipal, guestSessionId: Option<string>)
    : (resp: Response<seq<AttemptDto>>)
    ensures FindById(quizzes, quizId).None? <==> resp == Error(NotFound)
    ensures FindById(quizzes, quizId).Some? ==>
      && (resp == Error(InternalServerError) <==> OptionalCallerId(user).Failure?)
      && (OptionalCallerId(user).Success? ==>
            var s := Scope(FindById(quizzes, quizId).value.val, OptionalCallerId(user).value, guestSessionId);
            && (s == NoScope <==> resp == Error(Forbidden))
            && (s != NoScope ==> resp == Ok(MapAll(Listed(attempts, quizId, s)))))
  {
    match FindById(quizzes, quizId)
    case None => Error(NotFound)
    case Some(q) =>
      match OptionalCallerId(user)
      case Failure(_) => Error(InternalServerError)
      case Success(callerId) =>
        var s := Scope(q.val, callerId, guestSessionId);
        if s == NoScope then Error(Forbidden) else Ok(MapAll(Listed(attempts, quizId, s)))
  }

  /** Every listed attempt is one of the quiz's, and, below the author's scope, the caller's own. */
  lemma ListedBelongs(attempts: seq<Row<Attempt>>, quizId: int, s: AttemptScope, x: Row<Attempt>)
    requires s != NoScope && x in Listed(attempts, quizId, s)
    ensures x.val.quizId == quizId
    ensures s.OwnAsUser? ==> x.val.userId == Some(s.userId)
    ensures s.OwnAsGuest? ==> x.val.guestSessionId == Some(s.guestSessionId)
  {
    assert multiset(Listed(attempts, quizId, s))[x] > 0;
  }

  /**
   * A caller who is not the author sees only attempts that are theirs: a
   * signed-in user's carry their id; a guest sees attempts of their session.
   */
  lemma NonAuthorSeesOnlyOwn(quizzes: seq<Row<Quiz>>, attempts: seq<Row<Attempt>>, quizId: int, user: ClaimsPrincipal, guestSessionId: Option<string>)
    requires FindById(quizzes, quizId).Some? && OptionalCallerId(user).Success?
    requires OptionalCallerId(user).value != Some(FindById(quizzes, quizId).value.val.authorId)
    requires GetAttempts(quizzes, attempts, quizId, user, guestSessionId).Ok?
    ensures var shown := GetAttempts(quizzes, attempts, quizId, user, guestSessionId).body;
      forall i :: 0 <= i < |shown| ==>
        && shown[i].quizId == quizId
        && (OptionalCallerId(user).value.Some? ==> shown[i].userId == OptionalCallerId(user).value)
        && (OptionalCallerId(user).value.None? && shown[i].userId.None? ==> shown[i].guestSessionId == guestSessionId)
  {
    var callerId := OptionalCallerId(user).value;
    var s := Scope(FindById(quizzes, quizId).value.val, callerId, guestSessionId);
    var xs := Listed(attempts, quizId, s);
    forall i | 0 <= i < |xs|
      ensures xs[i].val.quizId == quizId
      ensures s.OwnAsUser? ==> xs[i].val.userId == Some(s.userId)
      ensures s.OwnAsGuest? ==> xs[i].val.guestSessionId == Some(s.guestSessionId)
    {
      ListedBelongs(attempts, quizId, s, xs[i]);
    }
  }

  /**
   * `ConnectByCode`: 400 unless the code is five UTF-16 code units long
   * (`code.Length`); 404 when no
   * quiz carries it; 400 for a public quiz; otherwise what a guest needs to
   * join the private quiz, its key included.
   */
  function ConnectByCode(quizzes: seq<Row<Quiz>>, code: Option<string>): (resp: Response<QuizAccessInfoDto>)
    ensures IsNullOrEmpty(code) || Utf16Length(code.value) != 5 ==> resp == Error(BadRequest)
    ensures !IsNullOrEmpty(code) && Utf16Length(code.value) == 5 ==>
      && (GetByAccessKey(quizzes, code.value).None? ==> resp == Error(NotFound))
      && (GetByAccessKey(quizzes, code.value).Some? && GetByAccessKey(quizzes, code.value).value.val.isPublic ==> resp == Error(BadRequest))
      && (GetByAccessKey(quizzes, code.value).Some? && !GetByAccessKey(quizzes, code.value).value.val.isPublic ==>
            var q := GetByAccessKey(quizzes, code.value).value;
            resp == Ok(QuizAccessInfoDto(q.id, q.val.title, q.val.description, q.val.timeLimit, q.val.privateAccessKey)))
    ensures resp.Ok? ==>
      && code.Some? && Utf16Length(code.value) == 5
      && exists q :: q in quizzes && !q.val.isPublic && q.id == resp.body.quizId
           && q.val.privateAccessKey == Some(ToUpperInvariant(code.value)) && resp.body.accessKey == q.val.privateAccessKey
  {
    if IsNullOrEmpty(code) || Utf16Length(code.value) != 5 then Error(BadRequest)
    else
      match GetByAccessKey(quizzes, code.value)
      case None => Error(NotFound)
      case Some(q) =>
        if q.val.isPublic then Error(BadRequest)
        else Ok(QuizAccessInfoDto(q.id, q.val.title, q.val.description, q.val.timeLimit, q.val.privateAccessKey))
  }
  /**
   * The length test counts code units: four characters, one of them above
   * U+FFFF, pass it and reach the key lookup.
   */
  lemma CodeLengthInCodeUnits(quizzes: seq<Row<Quiz>>)
    ensures GetByAccessKey(quizzes, "ab\U{1F600}c").None? ==> ConnectByCode(quizzes, Some("ab\U{1F600}c")) == Error(NotFound)
  {
    var code := "ab\U{1F600}c";
    assert |code| == 4;
    assert Utf16Length(code) == 5 by {
      assert code[1..] == "b\U{1F600}c";
      assert code[1..][1..] == "\U{1F600}c";
      assert code[1..][1..][1..] == "c";
      assert code[1..][1..][1..][1..] == "";
    }
  }


  /** The fields `Update` reads from its body; each may be null. */
  datatype QuizUpdateDto = QuizUpdateDto(
    title: Option<string>, description: Option<string>, category: Option<CategoryType>, isPublic: Option<bool>, timeLimit: Option<int>)

  /** `dto.X ?? existing.X` for each field of the body. */
  function Merge(existing: Quiz, dto: QuizUpdateDto): (q: Quiz)
    ensures q.title == dto.title.GetOr(existing.title)
    ensures dto.description.Some? ==> q.description == dto.description
    ensures dto.description.None? ==> q.description == existing.description
    ensures dto.category.Some? ==> q.category == dto.category
    ensures dto.category.None? ==> q.category == existing.category
    ensures q.isPublic == dto.isPublic.GetOr(existing.isPublic)
    ensures dto.timeLimit.Some? ==> q.timeLimit == dto.timeLimit
    ensures dto.timeLimit.None? ==> q.timeLimit == existing.timeLimit
    ensures q.language == existing.language && q.authorId == existing.authorId && q.createdAt == existing.createdAt
    ensures q.isDeleted == existing.isDeleted && q.privateAccessKey == existing.privateAccessKey
  {
    existing.(
      title := dto.title.GetOr(existing.title),
      description := if dto.description.Some? then dto.description else existing.description,
      category := if dto.category.Some? then dto.category else existing.category,
      isPublic := dto.isPublic.GetOr(existing.isPublic),
      timeLimit := if dto.timeLimit.Some? then dto.timeLimit else existing.timeLimit)
  }

  /** A body with every field null changes nothing. */
  lemma EmptyMergeIsIdentity(existing: Quiz)
    ensures Merge(existing, QuizUpdateDto(None, None, None, None, None)) == existing
  {
  }

  /** Storing the merged quiz through the service keeps every field `Merge` produced. */
  lemma ServiceKeepsMerge(existing: Quiz, dto: QuizUpdateDto)
    ensures QuizService.Edited(existing, Merge(existing, dto)) == Merge(existing, dto)
  {
  }

  /**
   * `Update`, under `[Authorize]`: 401 for a caller that is not
   * authenticated, before the action runs; then 404 for an unknown quiz, 400 for a deleted one, a claim that
   * does not parse escapes as a 500, 403 for anyone but the author;
   * otherwise the body is merged over the stored quiz. The service's own
   * false answer (500) cannot happen here, since the quiz was just found.
   */
  method UpdateEndpoint(quizzes: Table<Quiz>, users: Table<User>, id: int, dto: QuizUpdateDto, user: ClaimsPrincipal)
    returns (resp: Response<()>)
    requires quizzes.Valid()
    modifies quizzes
    ensures quizzes.Valid()
    ensures resp.Error? ==> quizzes.rows == old(quizzes.rows)
    ensures !user.isAuthenticated ==> resp == Error(Unauthorized)
    ensures user.isAuthenticated ==> var found := FindById(old(quizzes.rows), id);
      && (found.None? <==> resp == Error(NotFound))
      && (found.Some? && found.value.val.isDeleted ==> resp == Error(BadRequest))
      && (found.Some? && !found.value.val.isDeleted ==>
            && (RequiredCallerId(user).Failure? ==> resp == Error(InternalServerError))
            && (RequiredCallerId(user).Success? && RequiredCallerId(user).value != found.value.val.authorId ==> resp == Error(Forbidden))
            && (RequiredCallerId(user) == Success(found.value.val.authorId) ==>
                  resp == Ok(()) && quizzes.rows == ReplaceById(old(quizzes.rows), id, Merge(found.value.val, dto))))
  {
    if !user.isAuthenticated {
      return Error(Unauthorized);
    }
    var existing := FindById(quizzes.rows, id);
    if existing.None? {
      return Error(NotFound);
    }
    var quiz := existing.value.val;
    if quiz.isDeleted {
      return Error(BadRequest);
    }
    var caller := RequiredCallerId(user);
    if caller.Failure? {
      return Error(InternalServerError);
    }
    if quiz.authorId != caller.value {
      return Error(Forbidden);
    }
    var merged := Merge(quiz, dto);
    var success := QuizService.Update(quizzes, users, Row(id, merged));
    if !success {
      return Error(InternalServerError);
    }
    return Ok(());
  }

  /**
   * `Delete`, under `[Authorize]`: 401 for a caller that is not
   * authenticated; then 404 for an unknown quiz, a claim that does not parse escapes
   * as a 500, 403 for anyone but the author; otherwise the quiz is removed.
   */
  method DeleteEndpoint(quizzes: Table<Quiz>, id: int, user: ClaimsPrincipal) returns (resp: Response<()>)
    requires quizzes.Valid()
    modifies quizzes
    ensures quizzes.Valid()
    ensures resp.Error? ==> quizzes.rows == old(quizzes.rows)
    ensures !user.isAuthenticated ==> resp == Error(Unauthorized)
    ensures user.isAuthenticated ==> var found := FindById(old(quizzes.rows), id);
      && (found.None? <==> resp == Error(NotFound))
      && (found.Some? ==>
            && (RequiredCallerId(user).Failure? ==> resp == Error(InternalServerError))
            && (RequiredCallerId(user).Success? && RequiredCallerId(user).value != found.value.val.authorId ==> resp == Error(Forbidden))
            && (RequiredCallerId(user) == Success(found.value.val.authorId) ==>
                  resp == Ok(()) && quizzes.rows == RemoveById(old(quizzes.rows), id)))
  {
    if !user.isAuthenticated {
      return Error(Unauthorized);
    }
    var existing := FindById(quizzes.rows, id);
    if existing.None? {
      return Error(NotFound);
    }
    var caller := RequiredCallerId(user);
    if caller.Failure? {
      return Error(InternalServerError);
    }
    if existing.value.val.authorId != caller.value {
      return Error(Forbidden);
    }
    var success := QuizService.Delete(quizzes, id);
    if !success {
      return Error(InternalServerError);
    }
    return Ok(());
  }

  /**
   * `Create`, under `[Authorize]`: 401 for a caller that is not
   * authenticated, before the body is validated; then 400 for an invalid body, 401 without a claim, a claim that
   * does not parse escapes as a 500, 400 when the author is not a stored
   * user; otherwise the quiz is stored under the caller as author. The
   * controller's own local-time stamp is overwritten by the service's
   * `now`. `category` is the value the controller reads as the body's
   * category.
   */
  method CreateEndpoint(quizzes: Table<Quiz>, users: Table<User>, dto: QuizCreateDto, category: Option<CategoryType>,
                        user: ClaimsPrincipal, localNow: int, now: int)
    returns (resp: Response<QuizDto>)
    requires quizzes.Valid()
    modifies quizzes
    ensures quizzes.Valid()
    ensures resp.Error? ==> quizzes.rows == old(quizzes.rows)
    ensures !user.isAuthenticated ==> resp == Error(Unauthorized)
    ensures user.isAuthenticated && !QuizCreateValid(dto) ==> resp == Error(BadRequest)
    ensures user.isAuthenticated && QuizCreateValid(dto) && IsNullOrEmpty(user.nameIdentifier) ==> resp == Error(Unauthorized)
    ensures user.isAuthenticated && QuizCreateValid(dto) && !IsNullOrEmpty(user.nameIdentifier) ==>
      && (RequiredCallerId(user).Failure? ==> resp == Error(InternalServerError))
      && (RequiredCallerId(user).Success? ==>
            var q := Quiz(dto.title.value, dto.description, category, None, dto.isPublic, dto.timeLimit,
                          RequiredCallerId(user).value, now, false, None);
            && (FindById(users.rows, RequiredCallerId(user).value).None? ==> resp == Error(BadRequest))
            && (FindById(users.rows, RequiredCallerId(user).value).Some? ==>
                  && resp == Ok(ToDto(Row(old(quizzes.nextId), q), None))
                  && quizzes.rows == old(quizzes.rows) + [Row(old(quizzes.nextId), q)]))
    ensures resp.Ok? ==> 3 <= Utf16Length(resp.body.title) <= 50 && quizzes.rows[|quizzes.rows| - 1].val.title == resp.body.title
  {
    if !user.isAuthenticated {
      return Error(Unauthorized);
    }
    if !QuizCreateValid(dto) {
      return Error(BadRequest);
    }
    if IsNullOrEmpty(user.nameIdentifier) {
      return Error(Unauthorized);
    }
    var caller := RequiredCallerId(user);
    if caller.Failure? {
      return Error(InternalServerError);
    }
    var quiz := Quiz(dto.title.value, dto.description, category, None, dto.isPublic, dto.timeLimit,
                     caller.value, localNow, false, None);
    var created := QuizService.Create(quizzes, users, quiz, now);
    if created.Failure? {
      return Error(BadRequest);
    }
    return Ok(ToDto(created.value, created.value.val.privateAccessKey));
  }

  /**
   * `GetByCategory`: 400 when the name is not a member of the enumeration
   * (`parsed` is `Enum.TryParse`'s answer), 404 when the category holds no
   * public quiz, otherwise its public quizzes with their stored keys.
   */
  function GetByCategoryEndpoint(quizzes: seq<Row<Quiz>>, parsed: Option<CategoryType>): (resp: Response<seq<QuizDto>>)
    ensures parsed.None? ==> resp == Error(BadRequest)
    ensures parsed.Some? ==> (resp == Error(NotFound) <==> ByCategory(quizzes, parsed.value) == [])
    ensures parsed.Some? && ByCategory(quizzes, parsed.value) != [] ==> resp.Ok?
    ensures resp.Ok? ==>
      var qs := ByCategory(quizzes, parsed.value);
      && |resp.body| == |qs| > 0
      && (forall i :: 0 <= i < |qs| ==> resp.body[i] == ToDto(qs[i], qs[i].val.privateAccessKey))
      && (forall i :: 0 <= i < |resp.body| ==> resp.body[i].isPublic)
  {
    match parsed
    case None => Error(BadRequest)
    case Some(c) =>
      var qs := ByCategory(quizzes, c);
      if qs == [] then Error(NotFound)
      else Ok(seq(|qs|, i requires 0 <= i < |qs| => ToDto(qs[i], qs[i].val.privateAccessKey)))
  }
}
