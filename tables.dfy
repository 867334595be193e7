/**
 * Tables as sequences of rows, and the one generic statement the backend runs
 * on them: DELETE ... WHERE column = value.
 */
module Tables {

  /** Row keys strictly increase along the table (rows are kept in rowid order). */
  ghost predicate Ascending<T>(rows: seq<T>, key: T -> int) {
    forall i, j :: 0 <= i < j < |rows| ==> key(rows[i]) < key(rows[j])
  }

  /** Every key lies between lo and hi. */
  ghost predicate KeysWithin<T>(rows: seq<T>, key: T -> int, lo: int, hi: int) {
    forall i :: 0 <= i < |rows| ==> lo <= key(rows[i]) <= hi
  }

  /**
   * The table after DELETE FROM rows WHERE key = k: exactly the rows whose key
   * differs from k remain, and when none matches the table is untouched.
   */
  function DeleteWhere<T(!new)>(rows: seq<T>, key: T -> int, k: int): (r: seq<T>)
    ensures forall x :: x in r <==> x in rows && key(x) != k
    ensures (forall x :: x in rows ==> key(x) != k) ==> r == rows
    ensures |r| <= |rows|
  {
    if rows == [] then []
    else if key(rows[0]) == k then DeleteWhere(rows[1..], key, k)
    else [rows[0]] + DeleteWhere(rows[1..], key, k)
  }

  /** Deleting rows keeps the surviving rows in their order and range. */
  lemma {:induction false} DeleteWhereKeepsOrder<T(!new)>(rows: seq<T>, key: T -> int, k: int, order: T -> int, lo: int, hi: int)
    requires Ascending(rows, order) && KeysWithin(rows, order, lo, hi)
    ensures Ascending(DeleteWhere(rows, key, k), order)
    ensures KeysWithin(DeleteWhere(rows, key, k), order, lo, hi)
  {
    if rows != [] {
      var tail := rows[1..];
      assert Ascending(tail, order) && KeysWithin(tail, order, lo, hi) by {
        forall i | 0 <= i < |tail| ensures tail[i] == rows[i + 1] { }
      }
      DeleteWhereKeepsOrder(tail, key, k, order, lo, hi);
      var rest := DeleteWhere(tail, key, k);
      if key(rows[0]) != k {
        var r := [rows[0]] + rest;
        assert DeleteWhere(rows, key, k) == r;
        forall j | 0 <= j < |rest| ensures order(rows[0]) < order(rest[j]) {
          assert rest[j] in tail;
          var m :| 0 <= m < |tail| && tail[m] == rest[j];
          assert rows[m + 1] == rest[j];
        }
        forall i, j | 0 <= i < j < |r| ensures order(r[i]) < order(r[j]) {
          assert r[j] == rest[j - 1];
          if i > 0 {
            assert r[i] == rest[i - 1];
          }
        }
        forall i | 0 <= i < |r| ensures lo <= order(r[i]) <= hi {
          if i > 0 {
            assert r[i] == rest[i - 1];
          }
        }
      }
    }
  }
}
