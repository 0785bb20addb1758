/** The rows of a repository table, in insertion order, and the by-id operations of
    `BaseCrudRepository`: `findById`, `update(id, entity)` and `delete(id)`. A row type gives its
    id through `key`. An UPDATE or DELETE whose id matches no row changes nothing. */
module Tables {
  import opened Wrappers

  /** The ids of the rows, in row order. */
  function Ids<T>(rows: seq<T>, key: T -> int): (ids: seq<int>)
    ensures |ids| == |rows|
    ensures forall i :: 0 <= i < |rows| ==> ids[i] == key(rows[i])
  {
    if rows == [] then [] else [key(rows[0])] + Ids(rows[1..], key)
  }

  /** The table's primary key: no two rows share an id. */
  predicate DistinctIds<T>(rows: seq<T>, key: T -> int)
  {
    forall i, j :: 0 <= i < j < |rows| ==> key(rows[i]) != key(rows[j])
  }

  /** `findById`: the first row carrying the id, if any. */
  function FindById<T>(rows: seq<T>, key: T -> int, id: int): (r: Option<T>)
    ensures r.Some? <==> id in Ids(rows, key)
    ensures r.Some? ==> r.value in rows && key(r.value) == id
  {
    if rows == [] then None
    else if key(rows[0]) == id then Some(rows[0])
    else FindById(rows[1..], key, id)
  }

  /** `update(id, entity)`: each row carrying the id becomes `row`; every other row stays as and
      where it was. */
  function ReplaceById<T>(rows: seq<T>, key: T -> int, id: int, row: T): (r: seq<T>)
    ensures |r| == |rows|
    ensures forall i :: 0 <= i < |rows| ==> r[i] == if key(rows[i]) == id then row else rows[i]
  {
    if rows == [] then []
    else [if key(rows[0]) == id then row else rows[0]] + ReplaceById(rows[1..], key, id, row)
  }

  /** `delete(id)`: the rows not carrying the id, in their order. */
  function RemoveById<T(!new)>(rows: seq<T>, key: T -> int, id: int): (r: seq<T>)
    ensures |r| <= |rows|
    ensures forall x :: x in r <==> x in rows && key(x) != id
  {
    if rows == [] then []
    else if key(rows[0]) == id then RemoveById(rows[1..], key, id)
    else [rows[0]] + RemoveById(rows[1..], key, id)
  }

  /** An update that keeps the row's id leaves the table's ids as they were, and a later read of
      that id sees the new row while reads of other ids see what they saw before. */
  lemma ReplaceThenFind<T>(rows: seq<T>, key: T -> int, id: int, row: T, other: int)
    requires key(row) == id
    ensures Ids(ReplaceById(rows, key, id, row), key) == Ids(rows, key)
    ensures id in Ids(rows, key) ==> FindById(ReplaceById(rows, key, id, row), key, id) == Some(row)
    ensures other != id ==> FindById(ReplaceById(rows, key, id, row), key, other) == FindById(rows, key, other)
  {
    var r := ReplaceById(rows, key, id, row);
    assert Ids(r, key) == Ids(rows, key);
    if rows != [] {
      ReplaceThenFind(rows[1..], key, id, row, other);
      assert r[1..] == ReplaceById(rows[1..], key, id, row);
    }
  }

  /** A delete keeps the primary key, removes exactly the id from the table's ids, and reads of
      every other id see what they saw before. */
  lemma {:induction false} RemoveThenFind<T(!new)>(rows: seq<T>, key: T -> int, id: int, other: int)
    requires DistinctIds(rows, key)
    ensures DistinctIds(RemoveById(rows, key, id), key)
    ensures forall x :: x in Ids(RemoveById(rows, key, id), key) <==> x in Ids(rows, key) && x != id
    ensures FindById(RemoveById(rows, key, id), key, id) == None
    ensures other != id ==> FindById(RemoveById(rows, key, id), key, other) == FindById(rows, key, other)
  {
    var r := RemoveById(rows, key, id);
    if rows != [] {
      var tail := RemoveById(rows[1..], key, id);
      assert DistinctIds(rows[1..], key) by {
        forall i, j | 0 <= i < j < |rows[1..]| ensures key(rows[1..][i]) != key(rows[1..][j]) {
          assert rows[1..][i] == rows[i + 1] && rows[1..][j] == rows[j + 1];
        }
      }
      RemoveThenFind(rows[1..], key, id, other);
      if key(rows[0]) != id {
        assert r == [rows[0]] + tail;
        forall j | 0 <= j < |tail| ensures key(rows[0]) != key(tail[j]) {
          assert tail[j] in rows[1..];
          var k :| 0 <= k < |rows[1..]| && rows[1..][k] == tail[j];
          assert rows[k + 1] == tail[j];
        }
        assert Ids(r, key) == [key(rows[0])] + Ids(tail, key);
      }
      assert Ids(rows, key) == [key(rows[0])] + Ids(rows[1..], key);
    }
  }
}
