/**
 * Questions: creation under an existing quiz, a field-copying update and
 * deletion. Both write paths turn a null option list or a null list of
 * correct answers into an empty list, so a stored question always has both.
 */
module QuestionService {
  import opened Wrappers
  import opened Storage
  import opened Entities

  /** Both lists of every stored question are present. */
  ghost predicate ListsPresent(rows: seq<Row<Question>>) {
    forall i :: 0 <= i < |rows| ==> rows[i].val.options.Some? && rows[i].val.correctAnswer.Some?
  }

  /** `??= new List<string>()` on both lists. */
  function WithLists(q: Question): (r: Question)
    ensures r.options == Some(q.options.GetOr([])) && r.correctAnswer == Some(q.correctAnswer.GetOr([]))
    ensures r.quizId == q.quizId && r.text == q.text && r.qtype == q.qtype
  {
    q.(options := Some(q.options.GetOr([])), correctAnswer := Some(q.correctAnswer.GetOr([])))
  }

  /** `CreateAsync`: an unknown quiz throws and stores nothing; otherwise the question is stored with both lists present. */
  method Create(questions: Table<Question>, quizzes: Table<Quiz>, question: Question) returns (r: Result<Row<Question>>)
    requires questions.Valid()
    modifies questions
    ensures questions.Valid()
    ensures r.Failure? <==> FindById(quizzes.rows, question.quizId).None?
    ensures r.Failure? ==> r.fault == Failed && questions.rows == old(questions.rows)
    ensures r.Success? ==> r.value == Row(old(questions.nextId), WithLists(question)) && questions.rows == old(questions.rows) + [r.value]
    ensures ListsPresent(old(questions.rows)) ==> ListsPresent(questions.rows)
  {
    if FindById(quizzes.rows, question.quizId).None? {
      return Failure(Failed);
    }
    var row := questions.Add(WithLists(question));
    return Success(row);
  }

  /** The stored question after an update: text, type and both lists from `question`, the quiz kept. */
  function Edited(existing: Question, question: Question): (e: Question)
    ensures e.quizId == existing.quizId && e.text == question.text && e.qtype == question.qtype
    ensures e.options == Some(question.options.GetOr([])) && e.correctAnswer == Some(question.correctAnswer.GetOr([]))
  {
    WithLists(question).(quizId := existing.quizId)
  }

  /** `UpdateAsync`: false for an unknown id; otherwise the fields are copied and the question stays in its quiz. */
  method Update(questions: Table<Question>, question: Row<Question>) returns (ok: bool)
    requires questions.Valid()
    modifies questions
    ensures questions.Valid()
    ensures ok <==> FindById(old(questions.rows), question.id).Some?
    ensures !ok ==> questions.rows == old(questions.rows)
    ensures ok ==> questions.rows == ReplaceById(old(questions.rows), question.id, Edited(FindById(old(questions.rows), question.id).value.val, question.val))
    ensures ListsPresent(old(questions.rows)) ==> ListsPresent(questions.rows)
  {
    var existing := FindById(questions.rows, question.id);
    if existing.None? {
      return false;
    }
    questions.Update(question.id, Edited(existing.value.val, question.val));
    return true;
  }

  /** `DeleteAsync`: false and nothing removed for an unknown id; otherwise the question is gone. */
  method Delete(questions: Table<Question>, id: int) returns (ok: bool)
    requires questions.Valid()
    modifies questions
    ensures questions.Valid()
    ensures ok <==> FindById(old(questions.rows), id).Some?
    ensures questions.rows == RemoveById(old(questions.rows), id)
    ensures !ok ==> questions.rows == old(questions.rows)
    ensures FindById(questions.rows, id).None?
  {
    if FindById(questions.rows, id).None? {
      RemoveAbsent(questions.rows, id);
      return false;
    }
    questions.Remove(id);
    return true;
  }
}
