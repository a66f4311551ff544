/**
 * The record store behind both services, seen as a finite map from key to row.
 * Reading every row back, and finding a key the store has not handed out yet,
 * are the only two things the services need from it beyond map lookup and update.
 */
module Repository {

  /**
   * Visits every row of the table once, in some order the store chooses, and
   * returns the visited keys with the rows found under them.
   */
  method ListRows<K, V>(rows: map<K, V>) returns (keys: seq<K>, values: seq<V>)
    ensures |keys| == |values| == |rows|
    ensures forall i | 0 <= i < |keys| :: keys[i] in rows && values[i] == rows[keys[i]]
    ensures forall k | k in rows :: k in keys
    ensures forall i, j | 0 <= i < j < |keys| :: keys[i] != keys[j]
  {
    keys, values := [], [];
    var todo := rows.Keys;
    ghost var done: set<K> := {};
    while todo != {}
      invariant todo !! done && todo + done == rows.Keys
      invariant |keys| == |values| == |done|
      invariant forall i | 0 <= i < |keys| :: keys[i] in done && values[i] == rows[keys[i]]
      invariant forall k | k in done :: k in keys
      invariant forall i, j | 0 <= i < j < |keys| :: keys[i] != keys[j]
      decreases todo
    {
      var k :| k in todo;
      keys, values := keys + [k], values + [rows[k]];
      todo, done := todo - {k}, done + {k};
    }
    assert done == rows.Keys;
  }

  /** A number above every id in `ids`: the store can always hand out a fresh id. */
  ghost function IdBound(ids: set<int>): (bound: int)
    ensures forall id | id in ids :: id < bound
  {
    if ids == {} then 1
    else
      assert exists id :: id in ids by {
        if forall id :: id !in ids { assert false; }
      }
      var picked :| picked in ids;
      var rest := IdBound(ids - {picked});
      assert forall id | id in ids && id != picked :: id in ids - {picked};
      if picked < rest then rest else picked + 1
  }
}
