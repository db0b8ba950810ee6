/**
 * The attempt lifecycle: starting an attempt for a user or a guest, and
 * finishing it by grading the submitted answers.
 *
 * An attempt is in progress while its `timeSpent` is zero; `completedAt`
 * then holds its start instant. Grading compares, per submitted entry, the
 * set of selected option ids with the set of ids of the question's options
 * flagged correct: all or nothing, order and repetitions irrelevant.
 */
module AttemptService {
  import opened Wrappers
  import opened Storage
  import opened Entities
  import opened HttpContextExtensions
  import opened QuestionRepository
  import UserAnswerService

  /** One submitted entry: a question and the option ids chosen for it (the list may be null). */
  datatype AnswerFinishDto = AnswerFinishDto(questionId: int, selectedOptionIds: Option<seq<int>>)

  /** The state of grading after some entries: still going, or stopped at a question outside the quiz. */
  datatype Grading =
    | Graded(correctCount: nat, toSave: seq<UserAnswer>)
    | UnknownQuestion(questionId: int)

  /** The elements of `s` without repetitions, in order of first occurrence (a `HashSet` built from `s`). */
  function Distinct(s: seq<int>): (r: seq<int>)
    ensures forall x :: x in r <==> x in s
    ensures forall i, j :: 0 <= i < j < |r| ==> r[i] != r[j]
  {
    if s == [] then []
    else
      var d := Distinct(s[..|s| - 1]);
      assert forall x :: x in s ==> x in s[..|s| - 1] || x == s[|s| - 1] by {
        assert s == s[..|s| - 1] + [s[|s| - 1]];
      }
      if s[|s| - 1] in d then d else d + [s[|s| - 1]]
  }

  /** The ids an entry selected, a null list counting as none. */
  function Submitted(dto: AnswerFinishDto): seq<int> {
    dto.selectedOptionIds.GetOr([])
  }

  /** The ids of the question's options flagged correct. */
  function CorrectOptionIds(q: QuestionWithOptions): set<int> {
    set o | o in q.options && o.val.isCorrect :: o.id
  }

  /** An entry is correct when it selected exactly the correct options, as a set. */
  predicate IsCorrect(dto: AnswerFinishDto, q: QuestionWithOptions) {
    (set x | x in Submitted(dto)) == CorrectOptionIds(q)
  }

  predicate UniqueIds(questions: seq<QuestionWithOptions>) {
    forall i, j :: 0 <= i < |questions| && 0 <= j < |questions| && questions[i].question.id == questions[j].question.id ==> i == j
  }

  /** `ToDictionary(q => q.Id)` over questions with distinct ids. */
  function QuestionDict(questions: seq<QuestionWithOptions>): (d: map<int, QuestionWithOptions>)
    requires UniqueIds(questions)
    ensures forall id :: id in d <==> exists i :: 0 <= i < |questions| && questions[i].question.id == id
    ensures forall i :: 0 <= i < |questions| ==> questions[i].question.id in d && d[questions[i].question.id] == questions[i]
  {
    map i | 0 <= i < |questions| :: questions[i].question.id := questions[i]
  }

  /** The user answers one entry produces: one per distinct selected id. */
  function EntryAnswers(attemptId: int, dto: AnswerFinishDto): (r: seq<UserAnswer>)
    ensures |r| == |Distinct(Submitted(dto))|
    ensures forall i :: 0 <= i < |r| ==> r[i] == UserAnswer(attemptId, dto.questionId, Distinct(Submitted(dto))[i])
  {
    var sel := Distinct(Submitted(dto));
    seq(|sel|, i requires 0 <= i < |sel| => UserAnswer(attemptId, dto.questionId, sel[i]))
  }

  /** Grading the entries in order, as the finish loop does. */
  function Grade(attemptId: int, dict: map<int, QuestionWithOptions>, dtos: seq<AnswerFinishDto>): Grading
    decreases |dtos|
  {
    if dtos == [] then Graded(0, [])
    else
      match Grade(attemptId, dict, dtos[..|dtos| - 1])
      case UnknownQuestion(q) => UnknownQuestion(q)
      case Graded(count, saved) =>
        var dto := dtos[|dtos| - 1];
        if dto.questionId !in dict then UnknownQuestion(dto.questionId)
        else
          var verdict := if IsCorrect(dto, dict[dto.questionId]) then 1 else 0;
          Graded(count + verdict, saved + EntryAnswers(attemptId, dto))
  }

  /** Once an entry names an unknown question, later entries do not matter. */
  lemma {:induction false} UnknownPersists(attemptId: int, dict: map<int, QuestionWithOptions>, dtos: seq<AnswerFinishDto>, n: nat)
    requires n <= |dtos|
    requires Grade(attemptId, dict, dtos[..n]).UnknownQuestion?
    ensures Grade(attemptId, dict, dtos) == Grade(attemptId, dict, dtos[..n])
    decreases |dtos|
  {
    if n < |dtos| {
      var init := dtos[..|dtos| - 1];
      assert init[..n] == dtos[..n];
      UnknownPersists(attemptId, dict, init, n);
    } else {
      assert dtos[..n] == dtos;
    }
  }

  /** The indices of the entries judged correct. */
  function CorrectEntries(dict: map<int, QuestionWithOptions>, dtos: seq<AnswerFinishDto>): set<int> {
    set i | 0 <= i < |dtos| && dtos[i].questionId in dict && IsCorrect(dtos[i], dict[dtos[i].questionId])
  }

  /**
   * Grading fails exactly when some entry names a question outside the
   * quiz, and then it reports the first such entry's question.
   */
  lemma {:induction false} GradeFailsOnFirstUnknown(attemptId: int, dict: map<int, QuestionWithOptions>, dtos: seq<AnswerFinishDto>)
    ensures Grade(attemptId, dict, dtos).Graded? <==> forall i :: 0 <= i < |dtos| ==> dtos[i].questionId in dict
    ensures Grade(attemptId, dict, dtos).UnknownQuestion? ==>
      exists i :: 0 <= i < |dtos| && dtos[i].questionId !in dict
        && (forall j :: 0 <= j < i ==> dtos[j].questionId in dict)
        && Grade(attemptId, dict, dtos).questionId == dtos[i].questionId
    decreases |dtos|
  {
    if dtos != [] {
      var init := dtos[..|dtos| - 1];
      GradeFailsOnFirstUnknown(attemptId, dict, init);
      assert forall i :: 0 <= i < |init| ==> init[i] == dtos[i];
    }
  }

  /**
   * A successful grading scores the number of entries judged correct, so
   * the score lies between zero and the number of entries.
   */
  lemma {:induction false} ScoreCountsCorrectEntries(attemptId: int, dict: map<int, QuestionWithOptions>, dtos: seq<AnswerFinishDto>)
    requires Grade(attemptId, dict, dtos).Graded?
    ensures Grade(attemptId, dict, dtos).correctCount == |CorrectEntries(dict, dtos)|
    ensures Grade(attemptId, dict, dtos).correctCount <= |dtos|
    decreases |dtos|
  {
    if dtos != [] {
      var n := |dtos| - 1;
      var init := dtos[..n];
      ScoreCountsCorrectEntries(attemptId, dict, init);
      var before := CorrectEntries(dict, init);
      var after := CorrectEntries(dict, dtos);
      assert forall i :: 0 <= i < n ==> init[i] == dtos[i];
      if dtos[n].questionId in dict && IsCorrect(dtos[n], dict[dtos[n].questionId]) {
        assert after == before + {n};
      } else {
        assert after == before;
      }
    }
  }

  /**
   * The answers saved by a successful grading: for each entry, one answer
   * per distinct selected id, and nothing else.
   */
  lemma {:induction false} SavedAnswersAreTheSelections(attemptId: int, dict: map<int, QuestionWithOptions>, dtos: seq<AnswerFinishDto>)
    requires Grade(attemptId, dict, dtos).Graded?
    ensures forall ua :: ua in Grade(attemptId, dict, dtos).toSave <==>
      ua.attemptId == attemptId && exists i :: 0 <= i < |dtos| && ua.questionId == dtos[i].questionId && ua.chosenOptionId in Submitted(dtos[i])
    decreases |dtos|
  {
    if dtos != [] {
      var n := |dtos| - 1;
      var init := dtos[..n];
      SavedAnswersAreTheSelections(attemptId, dict, init);
      assert forall i :: 0 <= i < n ==> init[i] == dtos[i];
      var entry := EntryAnswers(attemptId, dtos[n]);
      assert forall ua :: ua in entry <==>
        ua.attemptId == attemptId && ua.questionId == dtos[n].questionId && ua.chosenOptionId in Submitted(dtos[n]) by {
        forall ua: UserAnswer | ua.attemptId == attemptId && ua.questionId == dtos[n].questionId && ua.chosenOptionId in Submitted(dtos[n])
          ensures ua in entry
        {
          var sel := Distinct(Submitted(dtos[n]));
          var k :| 0 <= k < |sel| && sel[k] == ua.chosenOptionId;
          assert entry[k] == ua;
        }
      }
    }
  }

  /** A question submitted twice is judged, and scored, once per entry. */
  lemma RepeatedEntryCountsTwice(attemptId: int, dict: map<int, QuestionWithOptions>, dto: AnswerFinishDto)
    requires dto.questionId in dict
    ensures Grade(attemptId, dict, [dto, dto]).Graded?
    ensures Grade(attemptId, dict, [dto, dto]).correctCount == if IsCorrect(dto, dict[dto.questionId]) then 2 else 0
  {
    var v := if IsCorrect(dto, dict[dto.questionId]) then 1 else 0;
    assert [dto][..0] == [];
    assert Grade(attemptId, dict, [dto]) == Graded(v, EntryAnswers(attemptId, dto));
    assert [dto, dto][..1] == [dto];
    assert Grade(attemptId, dict, [dto, dto]) == Graded(v + v, EntryAnswers(attemptId, dto) + EntryAnswers(attemptId, dto));
  }

  /**
   * No partial credit: missing one correct option, or adding one that is
   * not correct, makes the entry wrong. A null or empty selection is right
   * only for a question with no correct option.
   */
  lemma NoPartialCredit(dto: AnswerFinishDto, q: QuestionWithOptions)
    ensures (exists o :: o in CorrectOptionIds(q) && o !in Submitted(dto)) ==> !IsCorrect(dto, q)
    ensures (exists o :: o in Submitted(dto) && o !in CorrectOptionIds(q)) ==> !IsCorrect(dto, q)
    ensures Submitted(dto) == [] ==> (IsCorrect(dto, q) <==> CorrectOptionIds(q) == {})
  {
    if Submitted(dto) == [] {
      assert (set x | x in Submitted(dto)) == {};
    }
  }

  /** The finish loop over the entries: counts the correct ones and collects the answers to save. */
  method GradeEntries(attemptId: int, dict: map<int, QuestionWithOptions>, dtos: seq<AnswerFinishDto>) returns (g: Grading)
    ensures g == Grade(attemptId, dict, dtos)
  {
    var correctCount: nat := 0;
    var toSave: seq<UserAnswer> := [];
    for i := 0 to |dtos|
      invariant Grade(attemptId, dict, dtos[..i]) == Graded(correctCount, toSave)
    {
      var dto := dtos[i];
      assert dtos[..i + 1][..i] == dtos[..i];
      if dto.questionId !in dict {
        UnknownPersists(attemptId, dict, dtos, i + 1);
        return UnknownQuestion(dto.questionId);
      }
      var question := dict[dto.questionId];
      var selected := Distinct(Submitted(dto));
      var correct := CorrectOptionIds(question);
      var isCorrect := (set x | x in selected) == correct;
      if isCorrect {
        correctCount := correctCount + 1;
      }
      var entryStart := toSave;
      for j := 0 to |selected|
        invariant toSave == entryStart + EntryAnswers(attemptId, dto)[..j]
      {
        toSave := toSave + [UserAnswer(attemptId, dto.questionId, selected[j])];
      }
      assert EntryAnswers(attemptId, dto)[..|selected|] == EntryAnswers(attemptId, dto);
    }
    assert dtos[..|dtos|] == dtos;
    return Graded(correctCount, toSave);
  }

  /** The attempt `StartAttemptAsync` builds for the caller described by `ctx`. */
  function NewAttempt(quizId: int, ctx: HttpContext, now: int): (a: Attempt)
    ensures a.quizId == quizId && a.score == 0 && a.timeSpent == 0 && a.completedAt == now
    ensures !(a.userId.Some? && a.guestSessionId.Some?)
    ensures a.userId == ClaimUserId(ctx.user)
    ensures a.userId.None? ==> a.guestSessionId == GetGuestSessionId(ctx)
  {
    var userId := ClaimUserId(ctx.user);
    Attempt(quizId, userId, if userId.None? then GetGuestSessionId(ctx) else None, 0, 0, now)
  }

  /** An attempt is in progress until it has been finished with a nonzero time. */
  predicate InProgress(a: Attempt) {
    a.timeSpent == 0
  }

  /**
   * The attempt after a successful finish: the score, the time since the
   * start (clock read at `now`) and the completion instant (clock read
   * again at `later`).
   */
  function Closed(a: Attempt, score: nat, now: int, later: int): (c: Attempt)
    ensures c.quizId == a.quizId && c.userId == a.userId && c.guestSessionId == a.guestSessionId
    ensures c.score == score && c.timeSpent == now - a.completedAt && c.completedAt == later
  {
    a.(score := score, timeSpent := now - a.completedAt, completedAt := later)
  }

  /** With a clock that has moved since the start, a finished attempt is no longer in progress. */
  lemma ClosedIsFinal(a: Attempt, score: nat, now: int, later: int)
    requires InProgress(a) && now > a.completedAt
    ensures !InProgress(Closed(a, score, now, later))
    ensures Closed(a, score, now, later).timeSpent > 0
  {
  }

  /** Finished in the very tick it started, an attempt stays in progress and can be finished again. */
  lemma SameTickFinishStaysOpen(a: Attempt, score: nat, later: int)
    requires InProgress(a)
    ensures InProgress(Closed(a, score, a.completedAt, later))
  {
  }

  /**
   * `StartAttemptAsync`: an unknown quiz throws not-found and stores
   * nothing; otherwise the new attempt is stored and returned.
   */
  method StartAttempt(quizzes: Table<Quiz>, attempts: Table<Attempt>, quizId: int, ctx: HttpContext, now: int)
    returns (r: Result<Row<Attempt>>)
    requires attempts.Valid()
    modifies attempts
    ensures attempts.Valid()
    ensures FindById(quizzes.rows, quizId).None? ==> r == Failure(KeyNotFound) && attempts.rows == old(attempts.rows)
    ensures FindById(quizzes.rows, quizId).Some? ==>
      && r == Success(Row(old(attempts.nextId), NewAttempt(quizId, ctx, now)))
      && attempts.rows == old(attempts.rows) + [r.value]
  {
    var quiz := FindById(quizzes.rows, quizId);
    if quiz.None? {
      return Failure(KeyNotFound);
    }
    var attempt := NewAttempt(quizId, ctx, now);
    var row := attempts.Add(attempt);
    return Success(row);
  }

  /** The question dictionary grading uses for an attempt of quiz `quizId`. */
  function QuizQuestions(questions: seq<Row<Question>>, options: seq<Row<AnswerOption>>, quizId: int): map<int, QuestionWithOptions>
    requires IdsIncreasing(questions)
  {
    var qs := WithOptionsByQuiz(questions, options, quizId);
    assert UniqueIds(qs) by {
      forall i, j | 0 <= i < |qs| && 0 <= j < |qs| && qs[i].question.id == qs[j].question.id ensures i == j {
      }
    }
    QuestionDict(qs)
  }

  /** How many answers, from the front, the database accepts before the first one naming no option. */
  function SavedPrefix(options: seq<Row<AnswerOption>>, toSave: seq<UserAnswer>): (k: nat)
    ensures k <= |toSave|
    ensures forall i :: 0 <= i < k ==> UserAnswerService.KnownOption(options, toSave[i])
    ensures k < |toSave| ==> !UserAnswerService.KnownOption(options, toSave[k])
  {
    if toSave == [] || !UserAnswerService.KnownOption(options, toSave[0]) then 0
    else 1 + SavedPrefix(options, toSave[1..])
  }

  /**
   * `FinishAttemptAsync`. An unknown attempt throws not-found; a finished
   * one, or an entry naming a question outside the attempt's quiz, throws
   * invalid-operation; none of these writes anything. Otherwise the
   * selections are saved one by one; the first selected id that names no
   * option is refused by the database, which throws with the earlier
   * selections already saved and the attempt still open. When every
   * selection is saved the attempt is closed with its score.
   * `now` and `later` are the two clock readings, for the time spent and
   * for the completion instant.
   */
  method FinishAttempt(
    attempts: Table<Attempt>, questions: Table<Question>, options: Table<AnswerOption>, userAnswers: Table<UserAnswer>,
    attemptId: int, dtos: seq<AnswerFinishDto>, now: int, later: int)
    returns (r: Result<Row<Attempt>>)
    requires attempts.Valid() && questions.Valid() && userAnswers.Valid()
    requires forall i :: 0 <= i < |dtos| ==> dtos[i].questionId >= 1
    modifies attempts, userAnswers
    ensures attempts.Valid() && userAnswers.Valid()
    ensures var found := FindById(old(attempts.rows), attemptId);
      && (found.None? ==> r == Failure(KeyNotFound))
      && (found.Some? && !InProgress(found.value.val) ==> r == Failure(InvalidOperation))
      && (found.Some? && InProgress(found.value.val) ==>
            var g := Grade(attemptId, QuizQuestions(questions.rows, options.rows, found.value.val.quizId), dtos);
            && (g.UnknownQuestion? ==> r == Failure(InvalidOperation))
            && (g.Graded? ==>
                  var k := SavedPrefix(options.rows, g.toSave);
                  && userAnswers.rows == old(userAnswers.rows) + Numbered(old(userAnswers.nextId), g.toSave[..k])
                  && (k < |g.toSave| ==> r == Failure(Failed))
                  && (k == |g.toSave| ==>
                        && r == Success(Row(attemptId, Closed(found.value.val, g.correctCount, now, later)))
                        && attempts.rows == ReplaceById(old(attempts.rows), attemptId, r.value.val))))
    ensures r.Failure? ==> attempts.rows == old(attempts.rows)
    ensures r.Failure? && r.fault != Failed ==> userAnswers.rows == old(userAnswers.rows)
  {
    var found := FindById(attempts.rows, attemptId);
    if found.None? {
      return Failure(KeyNotFound);
    }
    var attempt := found.value.val;
    if !InProgress(attempt) {
      return Failure(InvalidOperation);
    }
    var dict := QuizQuestions(questions.rows, options.rows, attempt.quizId);
    var g := GradeEntries(attemptId, dict, dtos);
    if g.UnknownQuestion? {
      return Failure(InvalidOperation);
    }
    var saved := SaveAll(userAnswers, options.rows, g.toSave);
    if !saved {
      return Failure(Failed);
    }
    var closed := Closed(attempt, g.correctCount, now, later);
    attempts.Update(attemptId, closed);
    return Success(Row(attemptId, closed));
  }

  /**
   * The loop of `UserAnswerRepository.AddAsync` calls, each saving one
   * answer: the answers are stored in order under fresh ids until one names
   * no stored option, which the database refuses; `saved` tells whether
   * all of them went in.
   */
  method SaveAll(userAnswers: Table<UserAnswer>, options: seq<Row<AnswerOption>>, toSave: seq<UserAnswer>) returns (saved: bool)
    requires userAnswers.Valid()
    modifies userAnswers
    ensures userAnswers.Valid()
    ensures saved <==> forall i :: 0 <= i < |toSave| ==> UserAnswerService.KnownOption(options, toSave[i])
    ensures saved <==> SavedPrefix(options, toSave) == |toSave|
    ensures userAnswers.nextId == old(userAnswers.nextId) + SavedPrefix(options, toSave)
    ensures userAnswers.rows == old(userAnswers.rows) + Numbered(old(userAnswers.nextId), toSave[..SavedPrefix(options, toSave)])
  {
    var start := userAnswers.nextId;
    var k := 0;
    while k < |toSave| && UserAnswerService.KnownOption(options, toSave[k])
      invariant 0 <= k <= |toSave|
      invariant forall i :: 0 <= i < k ==> UserAnswerService.KnownOption(options, toSave[i])
      invariant userAnswers.Valid()
      invariant userAnswers.nextId == start + k
      invariant userAnswers.rows == old(userAnswers.rows) + Numbered(start, toSave[..k])
    {
      var _ := userAnswers.Add(toSave[k]);
      assert Numbered(start, toSave[..k + 1]) == Numbered(start, toSave[..k]) + [Row(start + k, toSave[k])];
      k := k + 1;
    }
    assert k == SavedPrefix(options, toSave);
    saved := k == |toSave|;
  }

  /** `DeleteAsync`: removes the attempt if present and reports true either way. */
  method Delete(attempts: Table<Attempt>, id: int) returns (ok: bool)
    requires attempts.Valid()
    modifies attempts
    ensures attempts.Valid()
    ensures ok
    ensures attempts.rows == RemoveById(old(attempts.rows), id)
  {
    attempts.Remove(id);
    return true;
  }
}
