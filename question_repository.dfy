/**
 * The queries over the `Questions` table, including the id-ordered listing
 * with each question's options that grading reads. Adding, updating and
 * deleting a question are the table's own `Add`, `Update` and `Remove`.
 */
module QuestionRepository {
  import opened Wrappers
  import opened Storage
  import opened Entities

  /** A question together with its options (`Include(q => q.Options)`). */
  datatype QuestionWithOptions = QuestionWithOptions(question: Row<Question>, options: seq<Row<AnswerOption>>)

  function InQuiz(quizId: int): Row<Question> -> bool {
    (q: Row<Question>) => q.val.quizId == quizId
  }

  function OfQuestion(questionId: int): Row<AnswerOption> -> bool {
    (o: Row<AnswerOption>) => o.val.questionId == questionId
  }

  /** `GetQuestionsByQuizAsync`: exactly the quiz's questions. */
  function ByQuiz(rows: seq<Row<Question>>, quizId: int): (r: seq<Row<Question>>)
    ensures forall x :: multiset(r)[x] == if x.val.quizId == quizId then multiset(rows)[x] else 0
  {
    WhereCounts(rows, InQuiz(quizId));
    Where(rows, InQuiz(quizId))
  }

  /** The options stored for one question. */
  function OptionsOf(options: seq<Row<AnswerOption>>, questionId: int): (r: seq<Row<AnswerOption>>)
    ensures forall x :: x in r <==> x in options && x.val.questionId == questionId
  {
    Where(options, OfQuestion(questionId))
  }

  function Attach(qs: seq<Row<Question>>, options: seq<Row<AnswerOption>>): (r: seq<QuestionWithOptions>)
    ensures |r| == |qs|
    ensures forall i :: 0 <= i < |qs| ==> r[i] == QuestionWithOptions(qs[i], OptionsOf(options, qs[i].id))
  {
    seq(|qs|, i requires 0 <= i < |qs| => QuestionWithOptions(qs[i], OptionsOf(options, qs[i].id)))
  }

  /**
   * `GetQuestionsWithOptionsByQuizAsync`: the quiz's questions in ascending id
   * order, each with its options. Stored rows are already in id order and
   * ids are unique, so the ORDER BY leaves the filtered rows as they are.
   */
  function WithOptionsByQuiz(rows: seq<Row<Question>>, options: seq<Row<AnswerOption>>, quizId: int): (r: seq<QuestionWithOptions>)
    requires IdsIncreasing(rows)
    ensures forall i :: 0 <= i < |r| ==> r[i].question.val.quizId == quizId && r[i].question in rows
    ensures forall i :: 0 <= i < |r| ==> r[i].options == OptionsOf(options, r[i].question.id)
    ensures forall i, j :: 0 <= i < j < |r| ==> r[i].question.id < r[j].question.id
    ensures forall x :: x in rows && x.val.quizId == quizId ==> exists i :: 0 <= i < |r| && r[i].question == x
  {
    var r := Attach(Where(rows, InQuiz(quizId)), options);
    QuizQuestionsAttached(rows, options, quizId, r);
    r
  }

  /** What `WithOptionsByQuiz` promises, about the quiz's filtered rows with their options attached. */
  lemma QuizQuestionsAttached(rows: seq<Row<Question>>, options: seq<Row<AnswerOption>>, quizId: int, r: seq<QuestionWithOptions>)
    requires IdsIncreasing(rows)
    requires r == Attach(Where(rows, InQuiz(quizId)), options)
    ensures forall i :: 0 <= i < |r| ==> r[i].question.val.quizId == quizId && r[i].question in rows
    ensures forall i :: 0 <= i < |r| ==> r[i].options == OptionsOf(options, r[i].question.id)
    ensures forall i, j :: 0 <= i < j < |r| ==> r[i].question.id < r[j].question.id
    ensures forall x :: x in rows && x.val.quizId == quizId ==> exists i :: 0 <= i < |r| && r[i].question == x
  {
    var qs := Where(rows, InQuiz(quizId));
    WhereKeepsIdOrder(rows, InQuiz(quizId));
    QuizRowsListed(rows, quizId, qs);
    assert |r| == |qs|;
    forall i | 0 <= i < |r| ensures r[i].question == qs[i] && r[i].options == OptionsOf(options, qs[i].id) {
    }
    forall i, j | 0 <= i < j < |r| ensures r[i].question.id < r[j].question.id {
      assert r[i].question == qs[i] && r[j].question == qs[j];
    }
    forall x | x in rows && x.val.quizId == quizId ensures exists i :: 0 <= i < |r| && r[i].question == x {
      var i :| 0 <= i < |qs| && qs[i] == x;
      assert r[i].question == x;
    }
  }

  /** The filtered rows are stored rows of the quiz, and every stored row of the quiz is among them. */
  lemma QuizRowsListed(rows: seq<Row<Question>>, quizId: int, qs: seq<Row<Question>>)
    requires qs == Where(rows, InQuiz(quizId))
    ensures forall i :: 0 <= i < |qs| ==> qs[i] in rows && qs[i].val.quizId == quizId
    ensures forall x :: x in rows && x.val.quizId == quizId ==> exists i :: 0 <= i < |qs| && qs[i] == x
  {
    forall i | 0 <= i < |qs| ensures qs[i] in rows && qs[i].val.quizId == quizId {
      assert qs[i] in qs;
    }
    forall x | x in rows && x.val.quizId == quizId ensures exists i :: 0 <= i < |qs| && qs[i] == x {
      assert x in qs;
    }
  }

  function AnswersFor(questionId: int): Row<UserAnswer> -> bool {
    (a: Row<UserAnswer>) => a.val.questionId == questionId
  }

  /** `HasAnswersAsync`: whether any stored user answer refers to the question. */
  function HasAnswers(userAnswers: seq<Row<UserAnswer>>, questionId: int): (r: bool)
    ensures r <==> exists i :: 0 <= i < |userAnswers| && userAnswers[i].val.questionId == questionId
  {
    FindFirst(userAnswers, AnswersFor(questionId)).Some?
  }
}
