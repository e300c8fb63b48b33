/** Spring Data's derived single-result queries (`existsByX`, `Optional<T> findByX`)
    over a table keyed by id, for a string column. */
module SingleResult {
  import opened Wrappers
  import opened Model
  import SetFacts

  /** Ids of the rows whose `column` holds `key`. */
  function Hits<V>(rows: map<int, V>, column: V -> string, key: string): (hits: set<int>)
    ensures forall k :: k in hits <==> k in rows && column(rows[k]) == key
  {
    set k | k in rows && column(rows[k]) == key
  }

  /** `existsByX(key)`: some row's `column` holds `key`. */
  predicate Taken<V>(rows: map<int, V>, column: V -> string, key: string): (taken: bool)
    ensures taken <==> exists k :: k in rows && column(rows[k]) == key
  {
    SetFacts.SizeCases(Hits(rows, column, key));
    |Hits(rows, column, key)| != 0
  }

  /** `findByX(key)`: empty when no row matches, the row when exactly one does, and a
      failure when several do (a single-result query that matches more than one row
      throws). */
  function FindBy<V>(rows: map<int, V>, column: V -> string, key: string): (r: Result<Option<V>, Error>)
    ensures r == Ok(None) <==> !Taken(rows, column, key)
    ensures forall k :: k in rows && column(rows[k]) == key && r.Ok? ==> r.value == Some(rows[k])
    ensures r.Err? <==> exists j, k ::
      j in rows && k in rows && j != k && column(rows[j]) == key && column(rows[k]) == key
  {
    SetFacts.SizeCases(Hits(rows, column, key));
    if |Hits(rows, column, key)| == 0 then
      Ok(None)
    else if |Hits(rows, column, key)| == 1 then
      var k :| k in Hits(rows, column, key);
      assert Hits(rows, column, key) == {k};
      Ok(Some(rows[k]))
    else
      Err(NonUniqueResult(|Hits(rows, column, key)|))
  }
}
