/**
 * The `:basic` lookup: one query per row. The job's method receives the row and
 * `adapter.db`; the first element of what it returns, when it is a row, is merged
 * into the current row, so on a column both have the looked-up value wins.
 */
module BasicLookups {
  import opened Common
  import opened Hashes
  import opened Rows

  /**
   * The job's method: given the row and `adapter.db`, the looked-up results. An
   * element `None` is a falsy element (`nil` or `false`) rather than a row.
   */
  type RowQuery = (Row, Option<Db>) -> seq<Option<Row>>

  /** Ruby's `Array#first`: nil on an empty array. */
  function First<T>(results: seq<Option<T>>): (first: Option<T>)
    ensures first.Some? <==> results != [] && results[0].Some?
    ensures first.Some? ==> first == results[0]
  {
    if results == [] then None else results[0]
  }

  /**
   * `process(row)`: the row untouched when the query returns nothing or a falsy
   * first element; otherwise the row merged with the first looked-up row. Later
   * results never matter.
   */
  function Process(row: Row, db: Option<Db>, query: RowQuery): (r: Row)
    ensures var results := query(row, db);
      (results == [] || results[0] == None) ==> r == row
    ensures var results := query(row, db);
      results != [] && results[0].Some? ==>
        var matching := results[0].value;
        && r.keys == row.keys + NewKeys(matching.keys, row.entries.Keys)
        && r.entries.Keys == row.entries.Keys + matching.entries.Keys
        && (forall c | c in matching.entries :: r.entries[c] == matching.entries[c])
        && (forall c | c in row.entries && c !in matching.entries :: r.entries[c] == row.entries[c])
  {
    var matchingRow := First(query(row, db));
    if matchingRow.None? then row else Merge(row, matchingRow.value)
  }
}
