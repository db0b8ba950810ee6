/**
 * The free-text answers of an attempt (`Answer`): the same check-then-write
 * shape as the per-option answers, on their own table.
 */
module AnswerService {
  import opened Wrappers
  import opened Storage
  import opened Entities
  import opened UserAnswerService

  function OfAttempt(attemptId: int): Row<Answer> -> bool {
    (a: Row<Answer>) => a.val.attemptId == attemptId
  }

  /** `GetAnswersByAttemptAsync`: exactly the attempt's answers, in table order. */
  function AnswersByAttempt(rows: seq<Row<Answer>>, attemptId: int): (r: seq<Row<Answer>>)
    ensures forall x :: multiset(r)[x] == if x.val.attemptId == attemptId then multiset(rows)[x] else 0
  {
    WhereCounts(rows, OfAttempt(attemptId));
    Where(rows, OfAttempt(attemptId))
  }

  /**
   * `CreateAsync`: a missing attempt, a missing question or a question of
   * another quiz throws and stores nothing; otherwise the answer is stored
   * and returned.
   */
  method Create(answers: Table<Answer>, attempts: Table<Attempt>, questions: Table<Question>, answer: Answer)
    returns (r: Result<Row<Answer>>)
    requires answers.Valid()
    modifies answers
    ensures answers.Valid()
    ensures r.Failure? <==> CheckTarget(attempts.rows, questions.rows, answer.attemptId, answer.questionId).Some?
    ensures r.Failure? ==> r.fault == Failed && answers.rows == old(answers.rows)
    ensures r.Success? ==> r.value == Row(old(answers.nextId), answer) && answers.rows == old(answers.rows) + [r.value]
  {
    var check := CheckTarget(attempts.rows, questions.rows, answer.attemptId, answer.questionId);
    if check.Some? {
      return Failure(check.value);
    }
    var row := answers.Add(answer);
    return Success(row);
  }

  /** `UpdateAsync`: false for an unknown id; otherwise the stored answer is replaced as given. */
  method Update(answers: Table<Answer>, answer: Row<Answer>) returns (ok: bool)
    requires answers.Valid()
    modifies answers
    ensures answers.Valid()
    ensures ok <==> FindById(old(answers.rows), answer.id).Some?
    ensures !ok ==> answers.rows == old(answers.rows)
    ensures ok ==> answers.rows == ReplaceById(old(answers.rows), answer.id, answer.val)
    ensures ok ==> FindById(answers.rows, answer.id) == Some(answer)
  {
    if FindById(answers.rows, answer.id).None? {
      return false;
    }
    answers.Update(answer.id, answer.val);
    return true;
  }

  /** `DeleteAsync`: false and nothing removed for an unknown id; otherwise the answer is gone. */
  method Delete(answers: Table<Answer>, id: int) returns (ok: bool)
    requires answers.Valid()
    modifies answers
    ensures answers.Valid()
    ensures ok <==> FindById(old(answers.rows), id).Some?
    ensures answers.rows == RemoveById(old(answers.rows), id)
    ensures !ok ==> answers.rows == old(answers.rows)
    ensures FindById(answers.rows, id).None?
  {
    if FindById(answers.rows, id).None? {
      RemoveAbsent(answers.rows, id);
      return false;
    }
    answers.Remove(id);
    return true;
  }
}
