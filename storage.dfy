/**
 * The database tables the repositories wrap, and the LINQ operators their
 * queries are built from (Where, FirstOrDefault, OrderBy/ThenBy).
 *
 * A table is the sequence of its rows in insertion order; the database gives
 * each inserted row the next identity value, so ids grow strictly along the
 * sequence and a lookup by id finds at most one row.
 */
module Storage {
  import opened Wrappers

  /** A stored entity together with the identity value the database assigned it. */
  datatype Row<T> = Row(id: int, val: T)

  ghost predicate IdsIncreasing<T>(rows: seq<Row<T>>) {
    forall i, j :: 0 <= i < j < |rows| ==> rows[i].id < rows[j].id
  }

  /**
   * `FirstOrDefaultAsync(x => x.Id == id)`: every repository's `GetByIdAsync`
   * (and `GetByIdWithDetailsAsync`, whose includes the callers resolve themselves).
   */
  function FindById<T>(rows: seq<Row<T>>, id: int): (r: Option<Row<T>>)
    ensures r.Some? ==> r.value in rows && r.value.id == id
    ensures r.None? <==> forall x :: x in rows ==> x.id != id
  {
    if rows == [] then None
    else if rows[0].id == id then Some(rows[0])
    else FindById(rows[1..], id)
  }

  /** With unique ids, the row a lookup finds is the only row with that id. */
  lemma {:induction false} FindByIdUnique<T>(rows: seq<Row<T>>, x: Row<T>)
    requires IdsIncreasing(rows)
    requires x in rows
    ensures FindById(rows, x.id) == Some(x)
  {
    if rows[0] != x {
      assert rows == [rows[0]] + rows[1..];
      assert x in rows[1..];
      var k :| 1 <= k < |rows| && rows[k] == x;
      assert rows[0].id < rows[k].id;
      FindByIdUnique(rows[1..], x);
    }
  }

  /** LINQ `FirstOrDefault(p)`: the first element satisfying `p`, or null. */
  function FindFirst<T>(s: seq<T>, p: T -> bool): (r: Option<T>)
    ensures r.Some? ==> exists i :: 0 <= i < |s| && s[i] == r.value && p(s[i]) && forall j :: 0 <= j < i ==> !p(s[j])
    ensures r.None? <==> forall i :: 0 <= i < |s| ==> !p(s[i])
  {
    if s == [] then None
    else if p(s[0]) then Some(s[0])
    else
      var r := FindFirst(s[1..], p);
      assert forall i :: 1 <= i < |s| ==> s[i] == s[1..][i - 1];
      r
  }

  /** Appending an element can only matter to a search that found nothing before. */
  lemma {:induction false} FindFirstAppend<T>(s: seq<T>, x: T, p: T -> bool)
    ensures FindFirst(s + [x], p) == if FindFirst(s, p).Some? then FindFirst(s, p) else if p(x) then Some(x) else None
  {
    if s == [] {
      assert s + [x] == [x];
    } else {
      assert (s + [x])[1..] == s[1..] + [x];
      FindFirstAppend(s[1..], x, p);
    }
  }

  /** The rows after EF's `Update` of row `id` with the new value `v`. */
  function ReplaceById<T>(rows: seq<Row<T>>, id: int, v: T): seq<Row<T>> {
    seq(|rows|, i requires 0 <= i < |rows| => if rows[i].id == id then Row(id, v) else rows[i])
  }

  /** The rows after `Remove` of row `id` (a missing id removes nothing). */
  function RemoveById<T>(rows: seq<Row<T>>, id: int): (r: seq<Row<T>>)
    ensures forall x :: x in r ==> x in rows && x.id != id
    ensures forall x :: x in rows && x.id != id ==> x in r
    ensures IdsIncreasing(rows) ==> IdsIncreasing(r)
  {
    if rows == [] then []
    else if rows[0].id == id then RemoveById(rows[1..], id)
    else
      var rest := RemoveById(rows[1..], id);
      assert forall x :: x in rest ==> x in rows[1..];
      [rows[0]] + rest
  }

  /** Rows numbered from `start`, as consecutive inserts produce them. */
  function Numbered<T>(start: int, vs: seq<T>): (r: seq<Row<T>>)
    ensures |r| == |vs|
    ensures forall i :: 0 <= i < |vs| ==> r[i] == Row(start + i, vs[i])
  {
    seq(|vs|, i requires 0 <= i < |vs| => Row(start + i, vs[i]))
  }

  /** Inserting a row whose id is above all others makes it retrievable and hides nothing. */
  lemma {:induction false} FindAfterAppend<T>(rows: seq<Row<T>>, row: Row<T>, id: int)
    requires forall x :: x in rows ==> x.id < row.id
    ensures FindById(rows + [row], id) == if id == row.id then Some(row) else FindById(rows, id)
  {
    if rows == [] {
      assert rows + [row] == [row];
    } else {
      assert (rows + [row])[1..] == rows[1..] + [row];
      FindAfterAppend(rows[1..], row, id);
    }
  }

  /** After an update, the updated id finds the new value and every other lookup is unchanged. */
  lemma {:induction false} FindAfterReplace<T>(rows: seq<Row<T>>, id: int, v: T, other: int)
    requires FindById(rows, id).Some?
    ensures FindById(ReplaceById(rows, id, v), id) == Some(Row(id, v))
    ensures other != id ==> FindById(ReplaceById(rows, id, v), other) == FindById(rows, other)
  {
    var r := ReplaceById(rows, id, v);
    assert r[1..] == ReplaceById(rows[1..], id, v);
    if rows[0].id != id {
      FindAfterReplace(rows[1..], id, v, other);
    } else if other != id && FindById(rows[1..], id).Some? {
      FindAfterReplace(rows[1..], id, v, other);
    } else if other != id {
      FindByIdUnchanged(rows[1..], id, v, other);
    }
  }

  lemma {:induction false} FindByIdUnchanged<T>(rows: seq<Row<T>>, id: int, v: T, other: int)
    requires other != id
    ensures FindById(ReplaceById(rows, id, v), other) == FindById(rows, other)
  {
    if rows != [] {
      assert ReplaceById(rows, id, v)[1..] == ReplaceById(rows[1..], id, v);
      FindByIdUnchanged(rows[1..], id, v, other);
    }
  }

  /** An update changes values, never ids. */
  lemma ReplaceKeepsIds<T>(rows: seq<Row<T>>, id: int, v: T, bound: int)
    requires IdsIncreasing(rows)
    requires forall x :: x in rows ==> 1 <= x.id < bound
    ensures IdsIncreasing(ReplaceById(rows, id, v))
    ensures forall x :: x in ReplaceById(rows, id, v) ==> 1 <= x.id < bound
  {
    var r := ReplaceById(rows, id, v);
    forall x | x in r ensures 1 <= x.id < bound {
      var i :| 0 <= i < |r| && r[i] == x;
      assert rows[i] in rows;
    }
  }

  /** Removing an id nobody has is a no-op. */
  lemma {:induction false} RemoveAbsent<T>(rows: seq<Row<T>>, id: int)
    requires FindById(rows, id).None?
    ensures RemoveById(rows, id) == rows
  {
    if rows != [] {
      assert rows[0] in rows;
      RemoveAbsent(rows[1..], id);
      assert rows == [rows[0]] + rows[1..];
    }
  }

  /** LINQ `Where`: keeps exactly the elements satisfying `p`, in their order. */
  function Where<T(!new)>(s: seq<T>, p: T -> bool): (r: seq<T>)
    ensures forall x :: x in r <==> x in s && p(x)
    ensures |r| <= |s|
  {
    if s == [] then []
    else
      assert s == [s[0]] + s[1..];
      (if p(s[0]) then [s[0]] else []) + Where(s[1..], p)
  }

  /** `Where` drops and duplicates nothing: each kept element occurs as often as before. */
  lemma {:induction false} WhereCounts<T(!new)>(s: seq<T>, p: T -> bool)
    ensures forall x :: multiset(Where(s, p))[x] == if p(x) then multiset(s)[x] else 0
  {
    if s != [] {
      WhereCounts(s[1..], p);
      assert s == [s[0]] + s[1..];
      assert multiset(s) == multiset{s[0]} + multiset(s[1..]);
    }
  }

  /** Filtering keeps the table's order, so a filtered table is still in id order. */
  lemma {:induction false} WhereKeepsIdOrder<T(!new)>(rows: seq<Row<T>>, p: Row<T> -> bool)
    requires IdsIncreasing(rows)
    ensures IdsIncreasing(Where(rows, p))
  {
    if rows != [] {
      var rest := Where(rows[1..], p);
      WhereKeepsIdOrder(rows[1..], p);
      if p(rows[0]) {
        forall y | y in rest ensures rows[0].id < y.id {
          var k :| 0 <= k < |rows[1..]| && rows[1..][k] == y;
          assert rows[k + 1] == y;
        }
        PrependKeepsIdOrder(rows[0], rest);
        assert Where(rows, p) == [rows[0]] + rest;
      } else {
        assert Where(rows, p) == rest;
      }
    }
  }

  lemma PrependKeepsIdOrder<T>(x: Row<T>, rest: seq<Row<T>>)
    requires IdsIncreasing(rest)
    requires forall y :: y in rest ==> x.id < y.id
    ensures IdsIncreasing([x] + rest)
  {
    var r := [x] + rest;
    forall i, j | 0 <= i < j < |r| ensures r[i].id < r[j].id {
      assert r[j] == rest[j - 1];
      if i > 0 {
        assert r[i] == rest[i - 1];
      }
    }
  }

  /** Sort keys, compared lexicographically as `OrderBy(k1).ThenBy(k2)` compares them. */
  type Key = (int, int)

  predicate KeyLe(a: Key, b: Key) {
    a.0 < b.0 || (a.0 == b.0 && a.1 <= b.1)
  }

  ghost predicate SortedBy<T>(s: seq<T>, key: T -> Key) {
    forall i, j :: 0 <= i < j < |s| ==> KeyLe(key(s[i]), key(s[j]))
  }

  function Insert<T>(x: T, s: seq<T>, key: T -> Key): (r: seq<T>)
    requires SortedBy(s, key)
    ensures SortedBy(r, key)
    ensures multiset(r) == multiset(s) + multiset{x}
  {
    if s == [] then [x]
    else if KeyLe(key(x), key(s[0])) then
      assert forall j :: 0 <= j < |s| ==> KeyLe(key(x), key(s[j]));
      [x] + s
    else
      var rest := Insert(x, s[1..], key);
      assert s == [s[0]] + s[1..];
      assert forall y :: y in rest ==> y == x || y in s[1..] by {
        forall y | y in rest ensures y == x || y in s[1..] {
          assert y in multiset(rest);
        }
      }
      assert forall j :: 0 <= j < |rest| ==> KeyLe(key(s[0]), key(rest[j])) by {
        forall j | 0 <= j < |rest| ensures KeyLe(key(s[0]), key(rest[j])) {
          assert rest[j] in rest;
          if rest[j] != x {
            var k :| 0 <= k < |s[1..]| && s[1..][k] == rest[j];
            assert s[k + 1] == rest[j];
          }
        }
      }
      [s[0]] + rest
  }

  /** LINQ `OrderBy`: a permutation of the input, in key order. */
  function SortBy<T>(s: seq<T>, key: T -> Key): (r: seq<T>)
    ensures SortedBy(r, key)
    ensures multiset(r) == multiset(s)
  {
    if s == [] then []
    else
      assert s == [s[0]] + s[1..];
      Insert(s[0], SortBy(s[1..], key), key)
  }

  /** A database table: its rows in insertion order and the next identity value. */
  class Table<T> {
    var rows: seq<Row<T>>
    var nextId: int

    ghost predicate Valid()
      reads this
    {
      && 1 <= nextId
      && IdsIncreasing(rows)
      && forall x :: x in rows ==> 1 <= x.id < nextId
    }

    constructor ()
      ensures Valid() && rows == [] && nextId == 1
    {
      rows := [];
      nextId := 1;
    }

    /** `AddAsync` + `SaveChangesAsync`: the new row gets the next identity value. */
    method Add(v: T) returns (row: Row<T>)
      requires Valid()
      modifies this
      ensures Valid()
      ensures row == Row(old(nextId), v)
      ensures rows == old(rows) + [row] && nextId == old(nextId) + 1
      ensures forall id :: FindById(rows, id) == if id == row.id then Some(row) else FindById(old(rows), id)
    {
      row := Row(nextId, v);
      forall id ensures FindById(rows + [row], id) == if id == row.id then Some(row) else FindById(rows, id) {
        FindAfterAppend(rows, row, id);
      }
      rows := rows + [row];
      nextId := nextId + 1;
    }

    /** `Update` + `SaveChangesAsync` on a row the caller has just read. */
    method Update(id: int, v: T)
      requires Valid() && FindById(rows, id).Some?
      modifies this
      ensures Valid() && nextId == old(nextId)
      ensures rows == ReplaceById(old(rows), id, v)
      ensures forall other :: FindById(rows, other) == if other == id then Some(Row(id, v)) else FindById(old(rows), other)
    {
      var r := ReplaceById(rows, id, v);
      forall other ensures FindById(r, other) == if other == id then Some(Row(id, v)) else FindById(rows, other) {
        FindAfterReplace(rows, id, v, other);
      }
      ReplaceKeepsIds(rows, id, v, nextId);
      rows := r;
    }

    /** `FindAsync(id)` then `Remove` + `SaveChangesAsync` when found. */
    method Remove(id: int)
      requires Valid()
      modifies this
      ensures Valid() && nextId == old(nextId)
      ensures rows == RemoveById(old(rows), id)
      ensures FindById(rows, id).None?
      ensures FindById(old(rows), id).None? ==> rows == old(rows)
    {
      if FindById(rows, id).None? {
        RemoveAbsent(rows, id);
      }
      rows := RemoveById(rows, id);
    }
  }
}
