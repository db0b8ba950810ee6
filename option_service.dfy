/**
 * The answer options of questions: creation under an existing question, an
 * update that may change the text and the correctness flag but never the
 * question an option belongs to, and deletion.
 */
module OptionService {
  import opened Wrappers
  import opened Storage
  import opened Entities

  /** Every stored option belongs to a stored question. */
  ghost predicate Attached(options: seq<Row<AnswerOption>>, questions: seq<Row<Question>>) {
    forall i :: 0 <= i < |options| ==> FindById(questions, options[i].val.questionId).Some?
  }

  /** `CreateAsync`: an unknown question throws and stores nothing; otherwise the option is stored and returned. */
  method Create(options: Table<AnswerOption>, questions: Table<Question>, option: AnswerOption)
    returns (r: Result<Row<AnswerOption>>)
    requires options.Valid()
    modifies options
    ensures options.Valid()
    ensures r.Failure? <==> FindById(questions.rows, option.questionId).None?
    ensures r.Failure? ==> r.fault == Failed && options.rows == old(options.rows)
    ensures r.Success? ==> r.value == Row(old(options.nextId), option) && options.rows == old(options.rows) + [r.value]
    ensures Attached(old(options.rows), questions.rows) ==> Attached(options.rows, questions.rows)
  {
    if FindById(questions.rows, option.questionId).None? {
      return Failure(Failed);
    }
    var row := options.Add(option);
    return Success(row);
  }

  /** The stored option after an update: new text and flag, same question. */
  function Edited(existing: AnswerOption, option: AnswerOption): (e: AnswerOption)
    ensures e.text == option.text && e.isCorrect == option.isCorrect && e.questionId == existing.questionId
  {
    existing.(text := option.text, isCorrect := option.isCorrect)
  }

  /**
   * `UpdateAsync`: false for an unknown id; an option whose question id
   * differs from the stored one throws and nothing is written; otherwise
   * only the text and the correctness flag change.
   */
  method Update(options: Table<AnswerOption>, questions: Table<Question>, option: Row<AnswerOption>) returns (r: Result<bool>)
    requires options.Valid()
    modifies options
    ensures options.Valid()
    ensures FindById(old(options.rows), option.id).None? <==> r == Success(false)
    ensures r != Success(true) ==> options.rows == old(options.rows)
    ensures r.Failure? <==> FindById(old(options.rows), option.id).Some? && FindById(old(options.rows), option.id).value.val.questionId != option.val.questionId
    ensures r == Success(true) ==>
      && options.rows == ReplaceById(old(options.rows), option.id, Edited(FindById(old(options.rows), option.id).value.val, option.val))
      && FindById(options.rows, option.id) == Some(option)
    ensures Attached(old(options.rows), questions.rows) ==> Attached(options.rows, questions.rows)
  {
    var existing := FindById(options.rows, option.id);
    if existing.None? {
      return Success(false);
    }
    var edited := Edited(existing.value.val, option.val);
    if existing.value.val.questionId != option.val.questionId {
      return Failure(Failed);
    }
    ghost var before := options.rows;
    options.Update(option.id, edited);
    assert forall i :: 0 <= i < |options.rows| ==> options.rows[i].val.questionId == before[i].val.questionId;
    forall i | 0 <= i < |options.rows| && Attached(before, questions.rows)
      ensures FindById(questions.rows, options.rows[i].val.questionId).Some?
    {
    }
    return Success(true);
  }

  /** `DeleteAsync`: false and nothing removed for an unknown id; otherwise the option is gone. */
  method Delete(options: Table<AnswerOption>, id: int) returns (ok: bool)
    requires options.Valid()
    modifies options
    ensures options.Valid()
    ensures ok <==> FindById(old(options.rows), id).Some?
    ensures options.rows == RemoveById(old(options.rows), id)
    ensures !ok ==> options.rows == old(options.rows)
    ensures FindById(options.rows, id).None?
  {
    if FindById(options.rows, id).None? {
      RemoveAbsent(options.rows, id);
      return false;
    }
    options.Remove(id);
    return true;
  }
}
