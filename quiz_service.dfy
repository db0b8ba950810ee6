/**
 * Quizzes: creation by an existing author (the creation instant is the
 * service's own clock reading), an update that copies the editable fields
 * and keeps the author, and deletion.
 */
module QuizService {
  import opened Wrappers
  import opened Storage
  import opened Entities

  /** Every stored quiz names a stored user as its author. */
  ghost predicate Authored(quizzes: seq<Row<Quiz>>, users: seq<Row<User>>) {
    forall i :: 0 <= i < |quizzes| ==> FindById(users, quizzes[i].val.authorId).Some?
  }

  /** `CreateAsync`: an unknown author throws and stores nothing; otherwise the quiz is stored with `CreatedAt = now`. */
  method Create(quizzes: Table<Quiz>, users: Table<User>, quiz: Quiz, now: int) returns (r: Result<Row<Quiz>>)
    requires quizzes.Valid()
    modifies quizzes
    ensures quizzes.Valid()
    ensures r.Failure? <==> FindById(users.rows, quiz.authorId).None?
    ensures r.Failure? ==> r.fault == Failed && quizzes.rows == old(quizzes.rows)
    ensures r.Success? ==>
      && r.value == Row(old(quizzes.nextId), quiz.(createdAt := now))
      && quizzes.rows == old(quizzes.rows) + [r.value]
    ensures Authored(old(quizzes.rows), users.rows) ==> Authored(quizzes.rows, users.rows)
  {
    if FindById(users.rows, quiz.authorId).None? {
      return Failure(Failed);
    }
    var stamped := quiz.(createdAt := now);
    var row := quizzes.Add(stamped);
    return Success(row);
  }

  /**
   * The stored quiz after an update: title, description, category,
   * language, visibility and time limit from `quiz`; author, creation
   * instant, deletion flag and access key kept.
   */
  function Edited(existing: Quiz, quiz: Quiz): (e: Quiz)
    ensures e.title == quiz.title && e.description == quiz.description && e.category == quiz.category
    ensures e.language == quiz.language && e.isPublic == quiz.isPublic && e.timeLimit == quiz.timeLimit
    ensures e.authorId == existing.authorId && e.createdAt == existing.createdAt
    ensures e.isDeleted == existing.isDeleted && e.privateAccessKey == existing.privateAccessKey
  {
    existing.(title := quiz.title, description := quiz.description, category := quiz.category,
              language := quiz.language, isPublic := quiz.isPublic, timeLimit := quiz.timeLimit)
  }

  /** `UpdateAsync`: false for an unknown id; otherwise the editable fields are copied. */
  method Update(quizzes: Table<Quiz>, users: Table<User>, quiz: Row<Quiz>) returns (ok: bool)
    requires quizzes.Valid()
    modifies quizzes
    ensures quizzes.Valid()
    ensures ok <==> FindById(old(quizzes.rows), quiz.id).Some?
    ensures !ok ==> quizzes.rows == old(quizzes.rows)
    ensures ok ==> quizzes.rows == ReplaceById(old(quizzes.rows), quiz.id, Edited(FindById(old(quizzes.rows), quiz.id).value.val, quiz.val))
    ensures Authored(old(quizzes.rows), users.rows) ==> Authored(quizzes.rows, users.rows)
  {
    var existing := FindById(quizzes.rows, quiz.id);
    if existing.None? {
      return false;
    }
    ghost var before := quizzes.rows;
    quizzes.Update(quiz.id, Edited(existing.value.val, quiz.val));
    assert forall i :: 0 <= i < |quizzes.rows| ==> quizzes.rows[i].val.authorId == before[i].val.authorId;
    return true;
  }

  /** `DeleteAsync`: false and nothing removed for an unknown id; otherwise the quiz is physically removed. */
  method Delete(quizzes: Table<Quiz>, id: int) returns (ok: bool)
    requires quizzes.Valid()
    modifies quizzes
    ensures quizzes.Valid()
    ensures ok <==> FindById(old(quizzes.rows), id).Some?
    ensures quizzes.rows == RemoveById(old(quizzes.rows), id)
    ensures !ok ==> quizzes.rows == old(quizzes.rows)
    ensures FindById(quizzes.rows, id).None?
  {
    if FindById(quizzes.rows, id).None? {
      RemoveAbsent(quizzes.rows, id);
      return false;
    }
    quizzes.Remove(id);
    return true;
  }
}
