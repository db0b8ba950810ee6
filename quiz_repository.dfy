/**
 * The queries over the `Quizzes` table. Adding, updating and deleting a quiz
 * are the table's own `Add`, `Update` and `Remove`; delete is a physical
 * removal.
 */
module QuizRepository {
  import opened Wrappers
  import opened Storage
  import opened Entities
  import opened Text

  function IsPublic(): Row<Quiz> -> bool {
    (q: Row<Quiz>) => q.val.isPublic
  }

  function ByAuthorFilter(authorId: int): Row<Quiz> -> bool {
    (q: Row<Quiz>) => q.val.authorId == authorId
  }

  function HasAccessKey(key: string): Row<Quiz> -> bool {
    (q: Row<Quiz>) => q.val.privateAccessKey == Some(ToUpperInvariant(key))
  }

  /** Whether a quiz falls in `category` for the listing: `Other` also takes quizzes with no category. */
  predicate InCategory(q: Quiz, category: CategoryType) {
    if category == Other then q.category == Some(Other) || q.category.None?
    else q.category == Some(category)
  }

  function InCategoryFilter(category: CategoryType): Row<Quiz> -> bool {
    (q: Row<Quiz>) => q.val.isPublic && InCategory(q.val, category)
  }

  /** `GetPublicQuizzesAsync`: exactly the public quizzes, in table order. */
  function Public(rows: seq<Row<Quiz>>): (r: seq<Row<Quiz>>)
    ensures forall x :: multiset(r)[x] == if x.val.isPublic then multiset(rows)[x] else 0
  {
    WhereCounts(rows, IsPublic());
    Where(rows, IsPublic())
  }

  /** `GetQuizzesByAuthorAsync`: exactly the author's quizzes, public or not. */
  function ByAuthor(rows: seq<Row<Quiz>>, authorId: int): (r: seq<Row<Quiz>>)
    ensures forall x :: multiset(r)[x] == if x.val.authorId == authorId then multiset(rows)[x] else 0
  {
    WhereCounts(rows, ByAuthorFilter(authorId));
    Where(rows, ByAuthorFilter(authorId))
  }

  /** `GetByAccessKeyAsync`: the first quiz whose stored key equals the upper-cased `key`. */
  function GetByAccessKey(rows: seq<Row<Quiz>>, key: string): (r: Option<Row<Quiz>>)
    ensures r.Some? ==> r.value in rows && r.value.val.privateAccessKey == Some(ToUpperInvariant(key))
    ensures r.None? <==> forall i :: 0 <= i < |rows| ==> rows[i].val.privateAccessKey != Some(ToUpperInvariant(key))
  {
    FindFirst(rows, HasAccessKey(key))
  }

  /** The lookup ignores the letter case of the key it is given. */
  lemma AccessKeyCaseInsensitive(rows: seq<Row<Quiz>>, key: string)
    ensures GetByAccessKey(rows, ToUpperInvariant(key)) == GetByAccessKey(rows, key)
  {
    UpperIdempotent(key);
    assert HasAccessKey(ToUpperInvariant(key)) == HasAccessKey(key);
  }

  /** `GetQuizzesByCategoryAsync`: public quizzes only; `Other` includes uncategorised ones. */
  function ByCategory(rows: seq<Row<Quiz>>, category: CategoryType): (r: seq<Row<Quiz>>)
    ensures forall x :: multiset(r)[x] == if x.val.isPublic && InCategory(x.val, category) then multiset(rows)[x] else 0
    ensures forall x :: x in r ==> x.val.isPublic
  {
    WhereCounts(rows, InCategoryFilter(category));
    Where(rows, InCategoryFilter(category))
  }

  /**
   * Every public quiz is listed under exactly one category: the one it
   * carries, or `Other` when it has none.
   */
  lemma CategoriesPartitionPublic(q: Quiz, c: CategoryType)
    requires q.isPublic
    ensures InCategory(q, c) <==> c == q.category.GetOr(Other)
  {
  }
}
