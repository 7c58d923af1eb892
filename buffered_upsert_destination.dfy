/**
 * The `:buffered_upsert` destination. When its buffer is flushed it opens the
 * database if it is closed and hands the job's method the buffer, the hash that
 * tells an `INSERT ... ON CONFLICT` to update every column from the `excluded`
 * pseudo-table, and the connection.
 */
module UpsertDestinations {
  import opened Common
  import opened Hashes
  import opened Rows
  import opened Adapters

  /** `Sequel[:excluded][column]`: the qualified identifier `excluded.column`. */
  datatype Identifier = Excluded(column: Column)

  /** The arguments the job's method receives: `(buffer, excluded, db)`. */
  datatype UpsertCall = UpsertCall(buffer: seq<Row>, excluded: Hash<Column, Identifier>, db: Db)

  /**
   * `excluded`: maps every column of the FIRST buffered row, in that row's order,
   * to `excluded.<column>`. Later rows play no part; an empty buffer has no first
   * row to read the columns from.
   */
  function ExcludedHash(buffer: seq<Row>): (r: Hash<Column, Identifier>)
    requires buffer != []
    ensures r.keys == buffer[0].keys
    ensures forall c | c in r.entries :: r.entries[c] == Excluded(c)
  {
    var keys := buffer[0].keys;
    var excludedKeys := seq(|keys|, i requires 0 <= i < |keys| => Excluded(keys[i]));
    var pairs := seq(|keys|, i requires 0 <= i < |keys| => (keys[i], excludedKeys[i]));
    FromDistinctPairs(pairs);
    FromPairs(pairs)
  }

  class BufferedUpsertDestination {
    const adapter: Adapter
    /** `@buffer`: filled and emptied by the parent class. */
    var buffer: seq<Row>

    constructor (adapter: Adapter)
      ensures this.adapter == adapter && buffer == []
    {
      this.adapter := adapter;
      buffer := [];
    }

    /**
     * `on_flush`: opens the database only when `adapter.db` is nil, with
     * `connection` the handle opening produces, then calls the job's method with
     * the buffer, its excluded hash and the now open connection.
     */
    method OnFlush(connection: Db) returns (call: UpsertCall)
      requires buffer != []
      modifies adapter
      ensures old(adapter.db).Some? ==> adapter.db == old(adapter.db)
      ensures old(adapter.db).None? ==> adapter.db == Some(connection)
      ensures adapter.db.Some?
      ensures call == UpsertCall(buffer, ExcludedHash(buffer), adapter.db.value)
    {
      if adapter.db.None? {
        var _ := adapter.Open(connection);
      }
      call := UpsertCall(buffer, ExcludedHash(buffer), adapter.db.value);
    }
  }
}
