/**
 * The per-option answers of an attempt (`UserAnswer`): listing, and the
 * create/update/delete operations that check what they refer to.
 */
module UserAnswerService {
  import opened Wrappers
  import opened Storage
  import opened Entities

  function OfAttempt(attemptId: int): Row<UserAnswer> -> bool {
    (a: Row<UserAnswer>) => a.val.attemptId == attemptId
  }

  /** `GetAnswersByAttemptAsync`: exactly the attempt's answers, in table order. */
  function AnswersByAttempt(rows: seq<Row<UserAnswer>>, attemptId: int): (r: seq<Row<UserAnswer>>)
    ensures forall x :: multiset(r)[x] == if x.val.attemptId == attemptId then multiset(rows)[x] else 0
  {
    WhereCounts(rows, OfAttempt(attemptId));
    Where(rows, OfAttempt(attemptId))
  }

  /**
   * The check both answer services make before storing: the attempt and the
   * question exist and belong to the same quiz. Each failure is a plain
   * exception.
   */
  function CheckTarget(attempts: seq<Row<Attempt>>, questions: seq<Row<Question>>, attemptId: int, questionId: int): (r: Option<Fault>)
    ensures r.None? <==>
      && FindById(attempts, attemptId).Some?
      && FindById(questions, questionId).Some?
      && FindById(questions, questionId).value.val.quizId == FindById(attempts, attemptId).value.val.quizId
    ensures r.Some? ==> r.value == Failed
  {
    match FindById(attempts, attemptId)
    case None => Some(Failed)
    case Some(attempt) =>
      match FindById(questions, questionId)
      case None => Some(Failed)
      case Some(question) => if question.val.quizId != attempt.val.quizId then Some(Failed) else None
  }

  /** The database's foreign key on `ChosenOptionId`: the answer names a stored option. */
  predicate KnownOption(options: seq<Row<AnswerOption>>, a: UserAnswer) {
    FindById(options, a.chosenOptionId).Some?
  }

  /** Every stored answer refers to an existing attempt and a question of the attempt's quiz. */
  ghost predicate Consistent(rows: seq<Row<UserAnswer>>, attempts: seq<Row<Attempt>>, questions: seq<Row<Question>>) {
    forall i :: 0 <= i < |rows| ==> CheckTarget(attempts, questions, rows[i].val.attemptId, rows[i].val.questionId).None?
  }

  /**
   * `CreateAsync`: a missing attempt, a missing question or a question of
   * another quiz throws and stores nothing; so does the database when the
   * chosen option id names no option. Otherwise the answer is stored and
   * returned.
   */
  method Create(userAnswers: Table<UserAnswer>, attempts: Table<Attempt>, questions: Table<Question>,
                options: Table<AnswerOption>, answer: UserAnswer)
    returns (r: Result<Row<UserAnswer>>)
    requires userAnswers.Valid()
    modifies userAnswers
    ensures userAnswers.Valid()
    ensures r.Failure? <==>
      CheckTarget(attempts.rows, questions.rows, answer.attemptId, answer.questionId).Some? || !KnownOption(options.rows, answer)
    ensures r.Failure? ==> r.fault == Failed && userAnswers.rows == old(userAnswers.rows)
    ensures r.Success? ==> r.value == Row(old(userAnswers.nextId), answer) && userAnswers.rows == old(userAnswers.rows) + [r.value]
    ensures Consistent(old(userAnswers.rows), attempts.rows, questions.rows) ==> Consistent(userAnswers.rows, attempts.rows, questions.rows)
  {
    var check := CheckTarget(attempts.rows, questions.rows, answer.attemptId, answer.questionId);
    if check.Some? {
      return Failure(check.value);
    }
    if !KnownOption(options.rows, answer) {
      return Failure(Failed);
    }
    var row := userAnswers.Add(answer);
    return Success(row);
  }

  /** `UpdateAsync`: false for an unknown id; otherwise the stored answer is replaced as given. */
  method Update(userAnswers: Table<UserAnswer>, answer: Row<UserAnswer>) returns (ok: bool)
    requires userAnswers.Valid()
    modifies userAnswers
    ensures userAnswers.Valid()
    ensures ok <==> FindById(old(userAnswers.rows), answer.id).Some?
    ensures !ok ==> userAnswers.rows == old(userAnswers.rows)
    ensures ok ==> userAnswers.rows == ReplaceById(old(userAnswers.rows), answer.id, answer.val)
    ensures ok ==> FindById(userAnswers.rows, answer.id) == Some(answer)
  {
    if FindById(userAnswers.rows, answer.id).None? {
      return false;
    }
    userAnswers.Update(answer.id, answer.val);
    return true;
  }

  /** `DeleteAsync`: false and nothing removed for an unknown id; otherwise the answer is gone. */
  method Delete(userAnswers: Table<UserAnswer>, id: int) returns (ok: bool)
    requires userAnswers.Valid()
    modifies userAnswers
    ensures userAnswers.Valid()
    ensures ok <==> FindById(old(userAnswers.rows), id).Some?
    ensures userAnswers.rows == RemoveById(old(userAnswers.rows), id)
    ensures !ok ==> userAnswers.rows == old(userAnswers.rows)
    ensures FindById(userAnswers.rows, id).None?
  {
    if FindById(userAnswers.rows, id).None? {
      RemoveAbsent(userAnswers.rows, id);
      return false;
    }
    userAnswers.Remove(id);
    return true;
  }
}
