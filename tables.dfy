/**
 Operations every table supports, whatever its columns: allocating the next
 id, indexing rows by id the way a dictionary comprehension does, and the
 set of distinct ids. Each takes the table's `id` column as `key`.
 */
module Tables {

  /** The largest id in a non-empty table. */
  function MaxId<T>(rows: seq<T>, key: T -> nat): (m: nat)
    requires rows != []
    ensures forall i :: 0 <= i < |rows| ==> key(rows[i]) <= m
    ensures exists i :: 0 <= i < |rows| && key(rows[i]) == m
    decreases |rows|
  {
    if |rows| == 1 then key(rows[0])
    else
      var rest := MaxId(rows[1..], key);
      assert forall i :: 1 <= i < |rows| ==> rows[i] == rows[1..][i - 1];
      if key(rows[0]) < rest then rest else key(rows[0])
  }

  /** The id given to a new row: 1 for an empty table, otherwise the largest id plus one. */
  function NextId<T>(rows: seq<T>, key: T -> nat): (n: nat)
    ensures rows == [] ==> n == 1
    ensures rows != [] ==> exists i :: 0 <= i < |rows| && n == key(rows[i]) + 1
    ensures forall i :: 0 <= i < |rows| ==> key(rows[i]) < n
  {
    if rows == [] then 1 else MaxId(rows, key) + 1
  }

  /** No two rows of the table share an id. */
  predicate UniqueIds<T>(rows: seq<T>, key: T -> nat)
  {
    forall i, j :: 0 <= i < j < |rows| ==> key(rows[i]) != key(rows[j])
  }

  /** The distinct ids that occur in the table. */
  function IdSet<T>(rows: seq<T>, key: T -> nat): set<nat>
  {
    set i | 0 <= i < |rows| :: key(rows[i])
  }

  /** Row `i` has id `k` and no later row has it. */
  predicate LastWithId<T>(rows: seq<T>, key: T -> nat, i: int, k: nat)
  {
    0 <= i < |rows| && key(rows[i]) == k && forall j :: i < j < |rows| ==> key(rows[j]) != k
  }

  /** With unique ids, the last row with an id is the only row with it. */
  lemma LastWithIdIsOnly<T>(rows: seq<T>, key: T -> nat, i: int, j: int, k: nat)
    requires UniqueIds(rows, key)
    requires LastWithId(rows, key, i, k)
    requires 0 <= j < |rows| && key(rows[j]) == k
    ensures i == j
  {
  }

  /**
   The dictionary `{row.id: row for row in rows}`: one entry per distinct id,
   and since a later row overwrites an earlier one, the entry for an id is
   the LAST row that has it.
   */
  function IndexById<T>(rows: seq<T>, key: T -> nat): (m: map<nat, T>)
    ensures m.Keys == IdSet(rows, key)
    ensures forall k :: k in m ==> exists i :: LastWithId(rows, key, i, k) && m[k] == rows[i]
    decreases |rows|
  {
    if rows == [] then map[]
    else
      var init, last := rows[..|rows| - 1], rows[|rows| - 1];
      var m := IndexById(init, key);
      IndexExtend(init, last, rows, key, m, m[key(last) := last]);
      m[key(last) := last]
  }

  /** Entering one more row into the index of a table gives the index of the longer table. */
  lemma IndexExtend<T>(init: seq<T>, last: T, rows: seq<T>, key: T -> nat, m: map<nat, T>, r: map<nat, T>)
    requires rows == init + [last] && r == m[key(last) := last]
    requires m.Keys == IdSet(init, key)
    requires forall k :: k in m ==> exists i :: LastWithId(init, key, i, k) && m[k] == init[i]
    ensures r.Keys == IdSet(rows, key)
    ensures forall k :: k in r ==> exists i :: LastWithId(rows, key, i, k) && r[k] == rows[i]
  {
    assert forall i :: 0 <= i < |init| ==> init[i] == rows[i];
    assert IdSet(rows, key) == IdSet(init, key) + {key(last)} by {
      assert forall i :: 0 <= i < |rows| - 1 ==> key(rows[i]) in IdSet(init, key);
      assert key(rows[|rows| - 1]) == key(last);
    }
    forall k | k in r ensures exists i :: LastWithId(rows, key, i, k) && r[k] == rows[i] {
      if k == key(last) {
        assert LastWithId(rows, key, |rows| - 1, k);
      } else {
        var i :| LastWithId(init, key, i, k) && m[k] == init[i];
        assert LastWithId(rows, key, i, k);
      }
    }
  }

  /** Appending a row whose id is the next id keeps the ids unique. */
  lemma AppendNextIdKeepsUnique<T>(rows: seq<T>, key: T -> nat, x: T)
    requires UniqueIds(rows, key)
    requires key(x) == NextId(rows, key)
    ensures UniqueIds(rows + [x], key)
  {
    var s := rows + [x];
    forall i, j | 0 <= i < j < |s| ensures key(s[i]) != key(s[j]) {
      if j == |rows| {
        assert s[i] == rows[i];
      } else {
        assert s[i] == rows[i] && s[j] == rows[j];
      }
    }
  }

  /**
   A dictionary keyed by id has one entry per distinct id: at most the number
   of rows, and exactly that many when the ids are unique.
   */
  lemma {:induction false} IdSetSize<T>(rows: seq<T>, key: T -> nat)
    ensures |IndexById(rows, key)| == |IdSet(rows, key)| <= |rows|
    ensures UniqueIds(rows, key) ==> |IdSet(rows, key)| == |rows|
  {
    DistinctIds(rows, key);
    assert IndexById(rows, key).Keys == IdSet(rows, key);
  }

  lemma {:induction false} DistinctIds<T>(rows: seq<T>, key: T -> nat)
    ensures |IdSet(rows, key)| <= |rows|
    ensures UniqueIds(rows, key) ==> |IdSet(rows, key)| == |rows|
    decreases |rows|
  {
    if rows != [] {
      var init, last := rows[..|rows| - 1], rows[|rows| - 1];
      DistinctIds(init, key);
      assert forall i :: 0 <= i < |init| ==> init[i] == rows[i];
      assert IdSet(rows, key) == IdSet(init, key) + {key(last)} by {
        assert forall i :: 0 <= i < |rows| - 1 ==> key(rows[i]) in IdSet(init, key);
        assert key(rows[|rows| - 1]) == key(last);
      }
      if UniqueIds(rows, key) {
        assert key(last) !in IdSet(init, key) by {
          forall i | 0 <= i < |init| ensures key(init[i]) != key(last) {
            assert init[i] == rows[i];
          }
        }
      }
    }
  }
}
