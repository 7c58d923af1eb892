/**
 * The SQLite adapter: it holds the current database connection, or nil when the
 * connection is closed. Opening calls `Sequel.sqlite` with the adapter's
 * configuration; that call is outside the model, so the connection it returns is
 * a parameter of `Open`.
 */
module Adapters {
  import opened Common

  class Adapter {
    /** `@db`: the open connection, `None` while closed. */
    var db: Option<Db>

    constructor ()
      ensures db == None
    {
      db := None;
    }

    /** `open!`: stores and returns the connection `Sequel.sqlite(**config)` produced. */
    method Open(connection: Db) returns (handle: Db)
      modifies this
      ensures db == Some(connection)
      ensures handle == connection
    {
      db := Some(connection);
      handle := connection;
    }
  }
}
