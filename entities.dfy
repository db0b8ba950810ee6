/**
 * The records the services and controllers read and write, with the fields
 * their bodies actually use. Identity values live in `Storage.Row`, not here.
 *
 * Instants and durations are integer counts of 100-nanosecond ticks, the
 * resolution of `DateTime` and `TimeSpan`.
 */
module Entities {
  import opened Wrappers

  const TicksPerMinute: int := 600_000_000
  const TicksPerDay: int := 864_000_000_000

  /** The quiz category enumeration; `Other` is the only member the logic names. */
  datatype CategoryType = Other | Listed(ordinal: nat)

  datatype QuestionType = Single | Multiple

  datatype Quiz = Quiz(
    title: string,
    description: Option<string>,
    category: Option<CategoryType>,
    language: Option<string>,
    isPublic: bool,
    timeLimit: Option<int>,
    authorId: int,
    createdAt: int,
    isDeleted: bool,
    privateAccessKey: Option<string>)

  datatype Question = Question(
    quizId: int,
    text: string,
    qtype: QuestionType,
    options: Option<seq<string>>,
    correctAnswer: Option<seq<string>>)

  /** An answer option of a question (the `Option` entity). */
  datatype AnswerOption = AnswerOption(questionId: int, text: string, isCorrect: bool)

  /**
   * An attempt. `timeSpent == 0` marks an attempt still in progress; while in
   * progress `completedAt` holds the start instant.
   */
  datatype Attempt = Attempt(
    quizId: int,
    userId: Option<int>,
    guestSessionId: Option<string>,
    score: int,
    timeSpent: int,
    completedAt: int)

  /** One chosen option of one question within an attempt. */
  datatype UserAnswer = UserAnswer(attemptId: int, questionId: int, chosenOptionId: int)

  /** A free-text answer record (the older `Answer` entity). */
  datatype Answer = Answer(attemptId: int, questionId: int, userAnswer: string, isCorrect: bool)

  datatype User = User(username: string, passwordHash: string, createdAt: int)

  datatype Category = Category(name: string, quizIds: seq<int>)

  datatype RefreshToken = RefreshToken(token: string, userId: int, expires: int, isRevoked: bool)

  /**
   * An access token as `TokenGeneration.GenerateToken` produces it: a signed
   * token whose subject is a user id. The empty string is the services'
   * "no token" answer.
   */
  datatype TokenString = EmptyToken | Jwt(subject: int)

  /** The password hasher: `Hash` and `Verify(password, hash)`, left uninterpreted. */
  datatype Hasher = Hasher(hash: string -> string, verify: (string, string) -> bool)
}
