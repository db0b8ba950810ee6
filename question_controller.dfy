/**
 * The question and option endpoints. Every write is reserved to the author
 * of the quiz the question belongs to; creating and updating a question
 * hand the service the option texts and correctness flags as two parallel
 * lists. The service overloads taking those lists are not part of this
 * model, so the question endpoints are modelled up to the call they make:
 * their result is the arguments they pass on.
 */
module QuestionController {
  import opened Wrappers
  import opened Storage
  import opened Entities
  import opened Text
  import opened HttpContextExtensions
  import opened Dtos
  import OptionService
  import QuestionRepository
  import QuestionService

  /** The author check of the write endpoints: `int.Parse` of the claim, then equality with the author. */
  function AuthorCheck(authorId: int, user: ClaimsPrincipal): (r: Option<Status>)
    ensures r.None? <==> RequiredCallerId(user) == Success(authorId)
    ensures r == Some(InternalServerError) <==> RequiredCallerId(user).Failure?
    ensures r == Some(Forbidden) <==> RequiredCallerId(user).Success? && RequiredCallerId(user).value != authorId
  {
    match RequiredCallerId(user)
    case Failure(_) => Some(InternalServerError)
    case Success(caller) => if caller != authorId then Some(Forbidden) else None
  }

  /** The author of the quiz a question belongs to (`question.Quiz.AuthorId`), or null when that quiz is gone. */
  function QuizAuthor(quizzes: seq<Row<Quiz>>, question: Question): (r: Option<int>)
    ensures r.Some? <==> FindById(quizzes, question.quizId).Some?
    ensures r.Some? ==> r.value == FindById(quizzes, question.quizId).value.val.authorId
  {
    match FindById(quizzes, question.quizId)
    case None => None
    case Some(q) => Some(q.val.authorId)
  }

  /** `Select(o => o.Text)` and `Select(o => o.IsCorrect)`: the options as two parallel lists. */
  function Split(options: seq<OptionRequestDto>): (r: (seq<Option<string>>, seq<bool>))
    ensures |r.0| == |options| && |r.1| == |options|
    ensures forall i :: 0 <= i < |options| ==> r.0[i] == options[i].text && r.1[i] == options[i].isCorrect
  {
    (seq(|options|, i requires 0 <= i < |options| => options[i].text),
     seq(|options|, i requires 0 <= i < |options| => options[i].isCorrect))
  }

  /** Pairing the two lists back up position by position. */
  function Zip(texts: seq<Option<string>>, flags: seq<bool>): (r: seq<OptionRequestDto>)
    requires |texts| == |flags|
    ensures |r| == |texts|
  {
    seq(|texts|, i requires 0 <= i < |texts| => OptionRequestDto(texts[i], flags[i]))
  }

  /** The two lists lose nothing: pairing them again gives back the options, in order. */
  lemma SplitThenZip(options: seq<OptionRequestDto>)
    ensures Zip(Split(options).0, Split(options).1) == options
  {
    var z := Zip(Split(options).0, Split(options).1);
    assert forall i :: 0 <= i < |options| ==> z[i] == options[i];
  }

  /** What a question endpoint hands the service: the question, and the option lists when there are any. */
  datatype QuestionDraft = QuestionDraft(question: Question, optionTexts: Option<seq<Option<string>>>, isCorrectFlags: Option<seq<bool>>)

  /**
   * `Create`, under `[Authorize]`: 401 for a caller that is not
   * authenticated, before the body is validated; then 400 for an invalid body; an unknown quiz is dereferenced and
   * escapes as a 500; 400 for a deleted quiz; then the author check; the
   * draft carries the body's text, quiz and type and its options split.
   */
  function CreateQuestion(quizzes: seq<Row<Quiz>>, dto: QuestionCreateDto, user: ClaimsPrincipal): (resp: Response<QuestionDraft>)
    ensures !user.isAuthenticated ==> resp == Error(Unauthorized)
    ensures user.isAuthenticated && !QuestionCreateValid(dto) ==> resp == Error(BadRequest)
    ensures user.isAuthenticated && QuestionCreateValid(dto) && FindById(quizzes, dto.quizId).None? ==> resp == Error(InternalServerError)
    ensures user.isAuthenticated && QuestionCreateValid(dto) && FindById(quizzes, dto.quizId).Some? ==>
      var quiz := FindById(quizzes, dto.quizId).value.val;
      && (quiz.isDeleted ==> resp == Error(BadRequest))
      && (!quiz.isDeleted && AuthorCheck(quiz.authorId, user).Some? ==> resp == Error(AuthorCheck(quiz.authorId, user).value))
      && (!quiz.isDeleted && AuthorCheck(quiz.authorId, user).None? ==> resp.Ok?)
    ensures resp.Ok? ==>
      && user.isAuthenticated
      && QuestionCreateValid(dto)
      && FindById(quizzes, dto.quizId).Some? && !FindById(quizzes, dto.quizId).value.val.isDeleted
      && RequiredCallerId(user) == Success(FindById(quizzes, dto.quizId).value.val.authorId)
      && resp.body.question == Question(dto.quizId, dto.text.value, dto.qtype, None, None)
      && resp.body.optionTexts.Some? && resp.body.isCorrectFlags.Some?
      && |resp.body.optionTexts.value| == |resp.body.isCorrectFlags.value| == |dto.options.value|
      && Zip(resp.body.optionTexts.value, resp.body.isCorrectFlags.value) == dto.options.value
  {
    if !user.isAuthenticated then Error(Unauthorized)
    else if !QuestionCreateValid(dto) then Error(BadRequest)
    else
      match FindById(quizzes, dto.quizId)
      case None => Error(InternalServerError)
      case Some(quiz) =>
        if quiz.val.isDeleted then Error(BadRequest)
        else
          match AuthorCheck(quiz.val.authorId, user)
          case Some(status) => Error(status)
          case None =>
            var lists := Split(dto.options.value);
            SplitThenZip(dto.options.value);
            Ok(QuestionDraft(Question(dto.quizId, dto.text.value, dto.qtype, None, None), Some(lists.0), Some(lists.1)))
  }

  /**
   * What the validation guarantees the service: a created question's text
   * has 5 to 500 code units, and it comes with 2 to 10 option texts of 1 to
   * 500 code units each, paired with as many correctness flags.
   */
  lemma CreatedQuestionBounds(quizzes: seq<Row<Quiz>>, dto: QuestionCreateDto, user: ClaimsPrincipal)
    ensures var resp := CreateQuestion(quizzes, dto, user);
      resp.Ok? ==>
        && 5 <= Utf16Length(resp.body.question.text) <= 500
        && resp.body.optionTexts.Some? && resp.body.isCorrectFlags.Some?
        && 2 <= |resp.body.optionTexts.value| == |resp.body.isCorrectFlags.value| <= 10
        && forall i :: 0 <= i < |resp.body.optionTexts.value| ==>
             resp.body.optionTexts.value[i].Some? && 1 <= Utf16Length(resp.body.optionTexts.value[i].value) <= 500
  {
    var resp := CreateQuestion(quizzes, dto, user);
    if resp.Ok? {
      QuestionCreateBounds(dto);
      var texts := resp.body.optionTexts.value;
      var flags := resp.body.isCorrectFlags.value;
      forall i | 0 <= i < |texts| ensures texts[i] == dto.options.value[i].text {
        assert Zip(texts, flags)[i] == dto.options.value[i];
      }
    }
  }

  /** `dto.Text ?? existing.Text` and `dto.Type ?? existing.Type`. */
  function MergeQuestion(existing: Question, dto: QuestionUpdateDto): (q: Question)
    ensures q.text == dto.text.GetOr(existing.text) && q.qtype == dto.qtype.GetOr(existing.qtype)
    ensures q.quizId == existing.quizId && q.options == existing.options && q.correctAnswer == existing.correctAnswer
  {
    existing.(text := dto.text.GetOr(existing.text), qtype := dto.qtype.GetOr(existing.qtype))
  }

  /**
   * `Update`, under `[Authorize]`: 401 for a caller that is not
   * authenticated; then 400 when an option of the body fails the option
   * rules (the automatic model validation); then 404 for an unknown
   * question, then the author check; the
   * draft is the merged question, and both lists are null exactly when the
   * body has no options.
   */
  function UpdateQuestion(quizzes: seq<Row<Quiz>>, questions: seq<Row<Question>>, id: int, dto: QuestionUpdateDto, user: ClaimsPrincipal)
    : (resp: Response<QuestionDraft>)
    ensures !user.isAuthenticated ==> resp == Error(Unauthorized)
    ensures user.isAuthenticated && !QuestionUpdateValid(dto) ==> resp == Error(BadRequest)
    ensures user.isAuthenticated && QuestionUpdateValid(dto) ==> (FindById(questions, id).None? <==> resp == Error(NotFound))
    ensures (user.isAuthenticated && QuestionUpdateValid(dto) && FindById(questions, id).Some?
      && QuizAuthor(quizzes, FindById(questions, id).value.val).None?) ==> resp == Error(InternalServerError)
    ensures (user.isAuthenticated && QuestionUpdateValid(dto) && FindById(questions, id).Some?
      && QuizAuthor(quizzes, FindById(questions, id).value.val).Some?) ==>
      var check := AuthorCheck(QuizAuthor(quizzes, FindById(questions, id).value.val).value, user);
      && (check.Some? ==> resp == Error(check.value))
      && (check.None? ==> resp.Ok?)
    ensures resp.Ok? ==>
      var existing := FindById(questions, id).value.val;
      && user.isAuthenticated
      && QuestionUpdateValid(dto)
      && QuizAuthor(quizzes, existing).Some?
      && RequiredCallerId(user) == Success(QuizAuthor(quizzes, existing).value)
      && resp.body.question == MergeQuestion(existing, dto)
      && (dto.options.None? <==> resp.body.optionTexts.None?)
      && (dto.options.None? <==> resp.body.isCorrectFlags.None?)
      && (dto.options.Some? ==>
            && |resp.body.optionTexts.value| == |resp.body.isCorrectFlags.value|
            && Zip(resp.body.optionTexts.value, resp.body.isCorrectFlags.value) == dto.options.value)
    ensures resp == Error(Forbidden) ==> RequiredCallerId(user).Success? && QuizAuthor(quizzes, FindById(questions, id).value.val) != Some(RequiredCallerId(user).value)
  {
    if !user.isAuthenticated then Error(Unauthorized)
    else if !QuestionUpdateValid(dto) then Error(BadRequest)
    else
    match FindById(questions, id)
    case None => Error(NotFound)
    case Some(existing) =>
      match QuizAuthor(quizzes, existing.val)
      case None => Error(InternalServerError)
      case Some(authorId) =>
        match AuthorCheck(authorId, user)
        case Some(status) => Error(status)
        case None =>
          var merged := MergeQuestion(existing.val, dto);
          if dto.options.None? then Ok(QuestionDraft(merged, None, None))
          else
            var lists := Split(dto.options.value);
            SplitThenZip(dto.options.value);
            Ok(QuestionDraft(merged, Some(lists.0), Some(lists.1)))
  }

  /**
   * `Delete`, under `[Authorize]`: 401 for a caller that is not
   * authenticated; then 404 for an unknown question; inside its try block an
   * unparsable claim or a missing quiz throws and becomes a 409; 403 for
   * anyone but the author; otherwise the question is removed.
   */
  method DeleteQuestion(quizzes: Table<Quiz>, questions: Table<Question>, id: int, user: ClaimsPrincipal) returns (resp: Response<()>)
    requires questions.Valid()
    modifies questions
    ensures questions.Valid()
    ensures resp.Error? ==> questions.rows == old(questions.rows)
    ensures !user.isAuthenticated ==> resp == Error(Unauthorized)
    ensures user.isAuthenticated ==> var found := FindById(old(questions.rows), id);
      && (found.None? <==> resp == Error(NotFound))
      && (found.Some? ==>
            var author := QuizAuthor(quizzes.rows, found.value.val);
            && (RequiredCallerId(user).Failure? || author.None? ==> resp == Error(Conflict))
            && (RequiredCallerId(user).Success? && author.Some? && author.value != RequiredCallerId(user).value ==>
                  resp == Error(Forbidden))
            && (author.Some? && RequiredCallerId(user) == Success(author.value) ==>
                  resp == Ok(()) && questions.rows == RemoveById(old(questions.rows), id)))
  {
    if !user.isAuthenticated {
      return Error(Unauthorized);
    }
    var question := FindById(questions.rows, id);
    if question.None? {
      return Error(NotFound);
    }
    var caller := RequiredCallerId(user);
    if caller.Failure? {
      return Error(Conflict);
    }
    var authorId := QuizAuthor(quizzes.rows, question.value.val);
    if authorId.None? {
      return Error(Conflict);
    }
    if authorId.value != caller.value {
      return Error(Forbidden);
    }
    var success := QuestionService.Delete(questions, id);
    if !success {
      return Error(InternalServerError);
    }
    return Ok(());
  }

  /** A question as `GetById` returns it (its option list is not part of this model). */
  datatype QuestionDto = QuestionDto(id: int, text: string, qtype: QuestionType, quizId: int)

  /** `GetById`: 404 for an unknown question, the question otherwise; anyone may ask. */
  function GetQuestionById(questions: seq<Row<Question>>, id: int): (resp: Response<QuestionDto>)
    ensures resp.Error? <==> FindById(questions, id).None?
    ensures resp.Error? ==> resp.status == NotFound
    ensures resp.Ok? ==> exists q :: q in questions && q.id == id && resp.body == QuestionDto(id, q.val.text, q.val.qtype, q.val.quizId)
  {
    match FindById(questions, id)
    case None => Error(NotFound)
    case Some(q) => Ok(QuestionDto(q.id, q.val.text, q.val.qtype, q.val.quizId))
  }

  /** An option as the read endpoints return it, correctness flag included. */
  datatype OptionDto = OptionDto(id: int, text: string, isCorrect: bool)

  function ToOptionDto(o: Row<AnswerOption>): OptionDto {
    OptionDto(o.id, o.val.text, o.val.isCorrect)
  }

  /** `GetOptionById`: 404 for an unknown option; otherwise the option, correctness flag included, to any caller. */
  function GetOptionById(options: seq<Row<AnswerOption>>, id: int): (resp: Response<OptionDto>)
    ensures resp.Error? <==> FindById(options, id).None?
    ensures resp.Error? ==> resp.status == NotFound
    ensures resp.Ok? ==> exists o :: o in options && o.id == id && resp.body == OptionDto(id, o.val.text, o.val.isCorrect)
  {
    match FindById(options, id)
    case None => Error(NotFound)
    case Some(o) => Ok(ToOptionDto(o))
  }

  /** The DTOs of some option rows, one per row, in the same order. */
  function ToOptionDtos(rows: seq<Row<AnswerOption>>): (r: seq<OptionDto>)
    ensures |r| == |rows| && forall i :: 0 <= i < |rows| ==> r[i] == ToOptionDto(rows[i])
  {
    seq(|rows|, i requires 0 <= i < |rows| => ToOptionDto(rows[i]))
  }

  /**
   * `GetByQuestion`: the question's options in table order, so by increasing
   * id in a table whose ids increase; an empty list, never 404, for an
   * unknown question.
   */
  function GetOptionsByQuestion(options: seq<Row<AnswerOption>>, questionId: int): (r: seq<OptionDto>)
    ensures forall d :: d in r <==> exists o :: o in options && o.val.questionId == questionId && d == ToOptionDto(o)
    ensures IdsIncreasing(options) ==> forall i, j :: 0 <= i < j < |r| ==> r[i].id < r[j].id
  {
    var own := QuestionRepository.OptionsOf(options, questionId);
    OptionDtosOfQuestion(options, questionId);
    ToOptionDtos(own)
  }

  /** The facts `GetOptionsByQuestion` promises, about the DTOs of the question's rows. */
  lemma OptionDtosOfQuestion(options: seq<Row<AnswerOption>>, questionId: int)
    ensures var r := ToOptionDtos(QuestionRepository.OptionsOf(options, questionId));
      && (forall d :: d in r <==> exists o :: o in options && o.val.questionId == questionId && d == ToOptionDto(o))
      && (IdsIncreasing(options) ==> forall i, j :: 0 <= i < j < |r| ==> r[i].id < r[j].id)
  {
    var own := QuestionRepository.OptionsOf(options, questionId);
    var r := ToOptionDtos(own);
    if IdsIncreasing(options) {
      WhereKeepsIdOrder(options, QuestionRepository.OfQuestion(questionId));
    }
    forall d | d in r ensures exists o :: o in options && o.val.questionId == questionId && d == ToOptionDto(o) {
      var i :| 0 <= i < |r| && r[i] == d;
      assert own[i] in own;
    }
    forall o | o in options && o.val.questionId == questionId ensures ToOptionDto(o) in r {
      var i :| 0 <= i < |own| && own[i] == o;
      assert r[i] == ToOptionDto(o);
    }
  }

  /** What option `Create` returns: id and text only. */
  datatype CreatedOption = CreatedOption(id: int, text: string)

  /**
   * Option `Create`, under `[Authorize]`: 401 for a caller that is not
   * authenticated; then 404 for an unknown question, then the author check,
   * then the option is stored under the question. The response carries
   * the new id and the text.
   */
  method CreateOption(quizzes: Table<Quiz>, questions: Table<Question>, options: Table<AnswerOption>,
                      questionId: int, text: string, isCorrect: bool, user: ClaimsPrincipal)
    returns (resp: Response<CreatedOption>)
    requires options.Valid()
    modifies options
    ensures options.Valid()
    ensures resp.Error? ==> options.rows == old(options.rows)
    ensures !user.isAuthenticated ==> resp == Error(Unauthorized)
    ensures user.isAuthenticated ==> (FindById(questions.rows, questionId).None? <==> resp == Error(NotFound))
    ensures user.isAuthenticated && FindById(questions.rows, questionId).Some? && QuizAuthor(quizzes.rows, FindById(questions.rows, questionId).value.val).None? ==>
      resp == Error(InternalServerError)
    ensures user.isAuthenticated && FindById(questions.rows, questionId).Some? && QuizAuthor(quizzes.rows, FindById(questions.rows, questionId).value.val).Some? ==>
      var check := AuthorCheck(QuizAuthor(quizzes.rows, FindById(questions.rows, questionId).value.val).value, user);
      && (check.Some? ==> resp == Error(check.value))
      && (check.None? ==> resp.Ok?)
    ensures resp.Ok? ==>
      && user.isAuthenticated
      && QuizAuthor(quizzes.rows, FindById(questions.rows, questionId).value.val).Some?
      && RequiredCallerId(user) == Success(QuizAuthor(quizzes.rows, FindById(questions.rows, questionId).value.val).value)
      && options.rows == old(options.rows) + [Row(old(options.nextId), AnswerOption(questionId, text, isCorrect))]
      && resp.body == CreatedOption(old(options.nextId), text)
  {
    if !user.isAuthenticated {
      return Error(Unauthorized);
    }
    var question := FindById(questions.rows, questionId);
    if question.None? {
      return Error(NotFound);
    }
    var authorId := QuizAuthor(quizzes.rows, question.value.val);
    if authorId.None? {
      return Error(InternalServerError);
    }
    var check := AuthorCheck(authorId.value, user);
    if check.Some? {
      return Error(check.value);
    }
    var created := OptionService.Create(options, questions, AnswerOption(questionId, text, isCorrect));
    if created.Failure? {
      // the question was found above
      return Error(InternalServerError);
    }
    return Ok(CreatedOption(created.value.id, created.value.val.text));
  }

  /** The author of the quiz an option belongs to, through its question. */
  function OptionAuthor(quizzes: seq<Row<Quiz>>, questions: seq<Row<Question>>, option: AnswerOption): Option<int> {
    match FindById(questions, option.questionId)
    case None => None
    case Some(q) => QuizAuthor(quizzes, q.val)
  }

  /**
   * The checks the option edit and delete endpoints make before writing:
   * 401 from `[Authorize]` for a caller that is not authenticated, then
   * 404 for an unknown option, 500 when its question or quiz is missing
   * (null is dereferenced) or the claim does not parse, 403 for anyone but
   * the author.
   */
  function OptionGate(quizzes: seq<Row<Quiz>>, questions: seq<Row<Question>>, options: seq<Row<AnswerOption>>, id: int, user: ClaimsPrincipal)
    : (r: Option<Status>)
    ensures r == Some(Unauthorized) <==> !user.isAuthenticated
    ensures user.isAuthenticated ==> (r == Some(NotFound) <==> FindById(options, id).None?)
    ensures user.isAuthenticated && FindById(options, id).Some? ==>
      var author := OptionAuthor(quizzes, questions, FindById(options, id).value.val);
      && (author.None? ==> r == Some(InternalServerError))
      && (author.Some? && RequiredCallerId(user).Failure? ==> r == Some(InternalServerError))
      && (author.Some? && RequiredCallerId(user).Success? && RequiredCallerId(user).value != author.value ==> r == Some(Forbidden))
    ensures r.None? <==>
      && user.isAuthenticated
      && FindById(options, id).Some?
      && OptionAuthor(quizzes, questions, FindById(options, id).value.val).Some?
      && RequiredCallerId(user) == Success(OptionAuthor(quizzes, questions, FindById(options, id).value.val).value)
    ensures r == Some(Forbidden) ==> RequiredCallerId(user).Success?
    ensures r.Some? ==> r.value in {Unauthorized, NotFound, InternalServerError, Forbidden}
  {
    if !user.isAuthenticated then Some(Unauthorized)
    else
    match FindById(options, id)
    case None => Some(NotFound)
    case Some(existing) =>
      match OptionAuthor(quizzes, questions, existing.val)
      case None => Some(InternalServerError)
      case Some(authorId) => AuthorCheck(authorId, user)
  }

  /** `dto.Text ?? existing.Text` and `dto.IsCorrect ?? existing.IsCorrect`. */
  function MergeOption(existing: AnswerOption, text: Option<string>, isCorrect: Option<bool>): (o: AnswerOption)
    ensures o.text == text.GetOr(existing.text) && o.isCorrect == isCorrect.GetOr(existing.isCorrect)
    ensures o.questionId == existing.questionId
  {
    existing.(text := text.GetOr(existing.text), isCorrect := isCorrect.GetOr(existing.isCorrect))
  }

  /**
   * `UpdateOption`, under `[Authorize]`: after the gate (401, 404, 500, 403), the merged option is stored. The
   * service's refusals cannot happen, as the merged option keeps its question.
   */
  method UpdateOption(quizzes: Table<Quiz>, questions: Table<Question>, options: Table<AnswerOption>,
                      id: int, text: Option<string>, isCorrect: Option<bool>, user: ClaimsPrincipal)
    returns (resp: Response<()>)
    requires options.Valid()
    modifies options
    ensures options.Valid()
    ensures !user.isAuthenticated ==> resp == Error(Unauthorized) && options.rows == old(options.rows)
    ensures resp.Error? <==> OptionGate(quizzes.rows, questions.rows, old(options.rows), id, user).Some?
    ensures resp.Error? ==>
      && resp.status == OptionGate(quizzes.rows, questions.rows, old(options.rows), id, user).value
      && options.rows == old(options.rows)
    ensures resp.Ok? ==>
      options.rows == ReplaceById(old(options.rows), id, MergeOption(FindById(old(options.rows), id).value.val, text, isCorrect))
  {
    var gate := OptionGate(quizzes.rows, questions.rows, options.rows, id, user);
    if gate.Some? {
      return Error(gate.value);
    }
    var existing := FindById(options.rows, id).value;
    var merged := MergeOption(existing.val, text, isCorrect);
    assert OptionService.Edited(existing.val, merged) == merged;
    assert FindById(options.rows, id).Some? && FindById(options.rows, id).value.val.questionId == merged.questionId;
    var result := OptionService.Update(options, questions, Row(id, merged));
    assert result.Success? && result.value;
    return Ok(());
  }

  /** `DeleteOption`, under `[Authorize]`: after the gate (401, 404, 500, 403), the option is removed. */
  method DeleteOption(quizzes: Table<Quiz>, questions: Table<Question>, options: Table<AnswerOption>, id: int, user: ClaimsPrincipal)
    returns (resp: Response<()>)
    requires options.Valid()
    modifies options
    ensures options.Valid()
    ensures !user.isAuthenticated ==> resp == Error(Unauthorized) && options.rows == old(options.rows)
    ensures resp.Error? <==> OptionGate(quizzes.rows, questions.rows, old(options.rows), id, user).Some?
    ensures resp.Error? ==>
      && resp.status == OptionGate(quizzes.rows, questions.rows, old(options.rows), id, user).value
      && options.rows == old(options.rows)
    ensures resp.Ok? ==> options.rows == RemoveById(old(options.rows), id) && FindById(options.rows, id).None?
  {
    var gate := OptionGate(quizzes.rows, questions.rows, options.rows, id, user);
    if gate.Some? {
      return Error(gate.value);
    }
    var success := OptionService.Delete(options, id);
    if !success {
      assert false;
      return Error(InternalServerError);
    }
    return Ok(());
  }
}
