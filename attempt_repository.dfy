/**
 * The queries over the `Attempts` table. Adding, updating and deleting an
 * attempt are the table's own `Add`, `Update` and `Remove`.
 *
 * Each listing is the matching subset of the table, each attempt as often
 * as it is stored, in the order the query's ORDER BY asks for. Rows that tie
 * on every sort key may come back in any order; the model fixes one.
 */
module AttemptRepository {
  import opened Wrappers
  import opened Storage
  import opened Entities

  /** `OrderByDescending(a => a.CompletedAt)`. */
  function NewestFirst(a: Row<Attempt>): Key {
    (-a.val.completedAt, 0)
  }

  /** `OrderByDescending(a => a.Score).ThenBy(a => a.TimeSpent)`: the leaderboard order. */
  function Leaderboard(a: Row<Attempt>): Key {
    (-a.val.score, a.val.timeSpent)
  }

  function OfUser(userId: int): Row<Attempt> -> bool {
    (a: Row<Attempt>) => a.val.userId == Some(userId)
  }

  function OfQuiz(quizId: int): Row<Attempt> -> bool {
    (a: Row<Attempt>) => a.val.quizId == quizId
  }

  function OfUserInQuiz(userId: int, quizId: int): Row<Attempt> -> bool {
    (a: Row<Attempt>) => a.val.userId == Some(userId) && a.val.quizId == quizId
  }

  function OfGuestInQuiz(guestSessionId: string, quizId: int): Row<Attempt> -> bool {
    (a: Row<Attempt>) => a.val.guestSessionId == Some(guestSessionId) && a.val.quizId == quizId
  }

  /** `GetAttemptsByUserAsync`: the user's attempts, most recent first. */
  function ByUser(rows: seq<Row<Attempt>>, userId: int): (r: seq<Row<Attempt>>)
    ensures forall x :: multiset(r)[x] == if x.val.userId == Some(userId) then multiset(rows)[x] else 0
    ensures forall i, j :: 0 <= i < j < |r| ==> r[i].val.completedAt >= r[j].val.completedAt
  {
    WhereCounts(rows, OfUser(userId));
    var r := SortBy(Where(rows, OfUser(userId)), NewestFirst);
    assert SortedBy(r, NewestFirst);
    r
  }

  /** `GetAttemptsByQuizAsync`: the quiz's attempts, best score first, faster first among equal scores. */
  function ByQuiz(rows: seq<Row<Attempt>>, quizId: int): (r: seq<Row<Attempt>>)
    ensures forall x :: multiset(r)[x] == if x.val.quizId == quizId then multiset(rows)[x] else 0
    ensures forall i, j :: 0 <= i < j < |r| ==>
      r[i].val.score > r[j].val.score || (r[i].val.score == r[j].val.score && r[i].val.timeSpent <= r[j].val.timeSpent)
  {
    WhereCounts(rows, OfQuiz(quizId));
    var r := SortBy(Where(rows, OfQuiz(quizId)), Leaderboard);
    assert SortedBy(r, Leaderboard);
    r
  }

  /** `GetAttemptsByUserIdAndQuizIdAsync`: one user's attempts at one quiz, most recent first. */
  function ByUserAndQuiz(rows: seq<Row<Attempt>>, userId: int, quizId: int): (r: seq<Row<Attempt>>)
    ensures forall x :: multiset(r)[x] == if x.val.userId == Some(userId) && x.val.quizId == quizId then multiset(rows)[x] else 0
    ensures forall i, j :: 0 <= i < j < |r| ==> r[i].val.completedAt >= r[j].val.completedAt
  {
    WhereCounts(rows, OfUserInQuiz(userId, quizId));
    var r := SortBy(Where(rows, OfUserInQuiz(userId, quizId)), NewestFirst);
    assert SortedBy(r, NewestFirst);
    r
  }

  /** `GetAttemptsByGuestIdAndQuizIdAsync`: one guest session's attempts at one quiz, most recent first. */
  function ByGuestAndQuiz(rows: seq<Row<Attempt>>, guestSessionId: string, quizId: int): (r: seq<Row<Attempt>>)
    ensures forall x :: multiset(r)[x] == if x.val.guestSessionId == Some(guestSessionId) && x.val.quizId == quizId then multiset(rows)[x] else 0
    ensures forall i, j :: 0 <= i < j < |r| ==> r[i].val.completedAt >= r[j].val.completedAt
  {
    WhereCounts(rows, OfGuestInQuiz(guestSessionId, quizId));
    var r := SortBy(Where(rows, OfGuestInQuiz(guestSessionId, quizId)), NewestFirst);
    assert SortedBy(r, NewestFirst);
    r
  }

  /** A user's attempts at one quiz are exactly the quiz's attempts that belong to that user. */
  lemma UserAndQuizIsBoth(rows: seq<Row<Attempt>>, userId: int, quizId: int)
    ensures multiset(ByUserAndQuiz(rows, userId, quizId)) == multiset(Where(ByQuiz(rows, quizId), OfUser(userId)))
  {
    var a := ByUserAndQuiz(rows, userId, quizId);
    var b := Where(ByQuiz(rows, quizId), OfUser(userId));
    WhereCounts(ByQuiz(rows, quizId), OfUser(userId));
    forall x ensures multiset(a)[x] == multiset(b)[x] {
    }
  }
}
