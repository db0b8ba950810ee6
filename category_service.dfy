/**
 * Categories: creation, renaming, and a deletion that refuses a category
 * still holding quizzes. A stored category carries the ids of its quizzes,
 * the collection the lookup loads with it.
 */
module CategoryService {
  import opened Wrappers
  import opened Storage
  import opened Entities

  /** `CreateAsync`: stores the category and returns it. */
  method Create(categories: Table<Category>, category: Category) returns (row: Row<Category>)
    requires categories.Valid()
    modifies categories
    ensures categories.Valid()
    ensures row == Row(old(categories.nextId), category)
    ensures categories.rows == old(categories.rows) + [row]
    ensures FindById(categories.rows, row.id) == Some(row)
  {
    row := categories.Add(category);
  }

  /** `UpdateAsync`: false for an unknown id; otherwise only the name changes. */
  method Update(categories: Table<Category>, category: Row<Category>) returns (ok: bool)
    requires categories.Valid()
    modifies categories
    ensures categories.Valid()
    ensures ok <==> FindById(old(categories.rows), category.id).Some?
    ensures !ok ==> categories.rows == old(categories.rows)
    ensures ok ==> categories.rows == ReplaceById(old(categories.rows), category.id,
      FindById(old(categories.rows), category.id).value.val.(name := category.val.name))
    ensures ok ==>
      && FindById(categories.rows, category.id).Some?
      && FindById(categories.rows, category.id).value.val.name == category.val.name
      && FindById(categories.rows, category.id).value.val.quizIds == FindById(old(categories.rows), category.id).value.val.quizIds
  {
    var existing := FindById(categories.rows, category.id);
    if existing.None? {
      return false;
    }
    categories.Update(category.id, existing.value.val.(name := category.val.name));
    return true;
  }

  /**
   * `DeleteAsync`: false for an unknown id; a category with quizzes throws
   * and stays; otherwise it is removed.
   */
  method Delete(categories: Table<Category>, id: int) returns (r: Result<bool>)
    requires categories.Valid()
    modifies categories
    ensures categories.Valid()
    ensures FindById(old(categories.rows), id).None? ==> r == Success(false) && categories.rows == old(categories.rows)
    ensures r.Failure? <==> FindById(old(categories.rows), id).Some? && FindById(old(categories.rows), id).value.val.quizIds != []
    ensures r.Failure? ==> r.fault == Failed && categories.rows == old(categories.rows)
    ensures r == Success(true) ==> categories.rows == RemoveById(old(categories.rows), id) && FindById(categories.rows, id).None?
    ensures forall c :: c in old(categories.rows) && c.val.quizIds != [] ==> c in categories.rows
  {
    var existing := FindById(categories.rows, id);
    if existing.None? {
      return Success(false);
    }
    if existing.value.val.quizIds != [] {
      return Failure(Failed);
    }
    ghost var before := categories.rows;
    categories.Remove(id);
    forall c | c in before && c.val.quizIds != [] ensures c in categories.rows {
      if c.id == id {
        FindByIdUnique(before, c);
      }
    }
    return Success(true);
  }
}
