/**
 * An in-memory stand-in for the `posts` table behind the database handle.
 * The SQL a post sends is given meaning by the functions here and in
 * module PostModel; connections, statement preparation and parameter
 * binding are not part of this model.
 */
module Store {
  import opened Wrappers
  import opened Users

  /** One row of the `posts` table. */
  datatype Row = Row(
    uuid: string,
    author: string,
    content: string,
    createdTime: int,
    modifiedTime: Option<int>,
    parent: Option<string>,
    link: Option<string>)

  /** The rows satisfying `keep`, in table order: the effect of a WHERE clause. */
  function Filter(rows: seq<Row>, keep: Row -> bool): (r: seq<Row>)
    ensures forall x :: multiset(r)[x] == if keep(x) then multiset(rows)[x] else 0
    ensures forall x :: x in r <==> x in rows && keep(x)
  {
    if rows == [] then []
    else
      assert rows == [rows[0]] + rows[1..];
      var rest := Filter(rows[1..], keep);
      if keep(rows[0]) then [rows[0]] + rest else rest
  }

  /** Row `i` is the one and only row satisfying `keep`. */
  ghost predicate UniqueAt(rows: seq<Row>, keep: Row -> bool, i: int) {
    && 0 <= i < |rows|
    && keep(rows[i])
    && forall j :: 0 <= j < |rows| && keep(rows[j]) ==> j == i
  }

  /** A WHERE clause returns nothing precisely when no row matches. */
  lemma FilterEmpty(rows: seq<Row>, keep: Row -> bool)
    ensures Filter(rows, keep) == [] <==> forall j :: 0 <= j < |rows| ==> !keep(rows[j])
  {
    if Filter(rows, keep) != [] {
      assert Filter(rows, keep)[0] in Filter(rows, keep);
    } else {
      forall j | 0 <= j < |rows| ensures !keep(rows[j]) {
        assert rows[j] in rows;
      }
    }
  }

  /** When row `i` is the only match, it is the whole result of the WHERE clause. */
  lemma {:induction false} FilterUniqueAt(rows: seq<Row>, keep: Row -> bool, i: int)
    requires UniqueAt(rows, keep, i)
    ensures Filter(rows, keep) == [rows[i]]
  {
    var t := rows[1..];
    assert forall j :: 0 < j < |rows| ==> rows[j] == t[j - 1];
    if i == 0 {
      FilterEmpty(t, keep);
    } else {
      assert UniqueAt(t, keep, i - 1);
      FilterUniqueAt(t, keep, i - 1);
    }
  }

  /** A WHERE clause that returns exactly one row has exactly one matching row. */
  lemma {:induction false} FilterSingle(rows: seq<Row>, keep: Row -> bool)
    requires |Filter(rows, keep)| == 1
    ensures exists i :: UniqueAt(rows, keep, i)
  {
    var t := rows[1..];
    assert forall j :: 0 < j < |rows| ==> rows[j] == t[j - 1];
    if keep(rows[0]) {
      FilterEmpty(t, keep);
      assert UniqueAt(rows, keep, 0);
    } else {
      FilterSingle(t, keep);
      var i :| UniqueAt(t, keep, i);
      assert UniqueAt(rows, keep, i + 1);
    }
  }

  /** A WHERE clause returns exactly one row precisely when exactly one row
      matches, and that row is then the whole result. */
  lemma FilterUnique(rows: seq<Row>, keep: Row -> bool)
    ensures |Filter(rows, keep)| == 1 <==> exists i :: UniqueAt(rows, keep, i)
    ensures forall i :: UniqueAt(rows, keep, i) ==> Filter(rows, keep) == [rows[i]]
  {
    forall i | UniqueAt(rows, keep, i) ensures Filter(rows, keep) == [rows[i]] {
      FilterUniqueAt(rows, keep, i);
    }
    if |Filter(rows, keep)| == 1 {
      FilterSingle(rows, keep);
    }
  }

  /** Newest first: `created_time` never increases along the sequence. */
  ghost predicate NewestFirst(rows: seq<Row>) {
    forall i, j :: 0 <= i < j < |rows| ==> rows[i].createdTime >= rows[j].createdTime
  }

  /** A row no older than every row of a newest-first sequence can lead it. */
  lemma NewestFirstCons(h: Row, rest: seq<Row>)
    requires NewestFirst(rest)
    requires forall y :: y in rest ==> h.createdTime >= y.createdTime
    ensures NewestFirst([h] + rest)
  {
    forall i, j | 0 <= i < j < |rest| + 1
      ensures ([h] + rest)[i].createdTime >= ([h] + rest)[j].createdTime
    {
      if i == 0 {
        assert ([h] + rest)[j] in rest;
      }
    }
  }

  /** Puts `x` into a newest-first sequence, before the rows no newer than it. */
  function InsertNewest(x: Row, sorted: seq<Row>): (r: seq<Row>)
    requires NewestFirst(sorted)
    ensures NewestFirst(r)
    ensures multiset(r) == multiset(sorted) + multiset{x}
    ensures forall y :: y in r ==> y == x || y in sorted
  {
    if sorted == [] || x.createdTime >= sorted[0].createdTime then
      NewestFirstCons(x, sorted);
      [x] + sorted
    else
      var rest := InsertNewest(x, sorted[1..]);
      assert sorted == [sorted[0]] + sorted[1..];
      assert forall y :: y in sorted[1..] ==> sorted[0].createdTime >= y.createdTime;
      NewestFirstCons(sorted[0], rest);
      [sorted[0]] + rest
  }

  /** `ORDER BY created_time DESC`: a newest-first arrangement of the same rows. */
  function SortNewestFirst(rows: seq<Row>): (r: seq<Row>)
    ensures NewestFirst(r)
    ensures multiset(r) == multiset(rows)
  {
    if rows == [] then []
    else
      assert rows == [rows[0]] + rows[1..];
      InsertNewest(rows[0], SortNewestFirst(rows[1..]))
  }

  /** The database handle: the `posts` table, which statements change in
      place, and the lookup `User::load` performs against the same store. */
  class Database {
    var rows: seq<Row>
    const findUser: UserLookup

    constructor (rows: seq<Row>, findUser: UserLookup)
      ensures this.rows == rows && this.findUser == findUser
    {
      this.rows := rows;
      this.findUser := findUser;
    }
  }
}
