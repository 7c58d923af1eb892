/**
 * The `:match` lookup. Once its buffer of rows is flushed, it projects one column
 * out of every buffered row, hands that list of keys to the job's method in one
 * query, and merges every looked-up row with the first buffered row whose key
 * matches it.
 *
 * The `:merge` option is a list of column names. Its first entry (`from_key`) is
 * the column read on BUFFERED rows, both to build the list of keys and to match;
 * its last entry (`to_key`) is the column read on LOOKED-UP rows.
 */
module MatchLookups {
  import opened Common
  import opened Hashes
  import opened Rows

  /** The job's method: given `adapter.db` and the buffer's keys, the looked-up rows. */
  type LookupQuery = (Option<Db>, seq<Cell>) -> seq<Row>

  /** `from_key`: the first entry of the `:merge` option. */
  function FromKey(merge: seq<Column>): (c: Column)
    requires merge != []
    ensures c in merge
    ensures merge == [c] + merge[1..]
  {
    merge[0]
  }

  /** `to_key`: the last entry of the `:merge` option. */
  function ToKey(merge: seq<Column>): (c: Column)
    requires merge != []
    ensures c in merge
    ensures merge == merge[..|merge| - 1] + [c]
    ensures |merge| == 1 ==> c == FromKey(merge)
  {
    merge[|merge| - 1]
  }

  /** The buffered row's `from_key` value equals the looked-up row's `to_key` value (nil equals nil). */
  predicate Matches(merge: seq<Column>, bufferRow: Row, row: Row): (m: bool)
    requires merge != []
    ensures m <==>
      || (FromKey(merge) in bufferRow.entries && ToKey(merge) in row.entries
          && bufferRow.entries[FromKey(merge)] == row.entries[ToKey(merge)])
      || (Fetch(bufferRow, FromKey(merge)) == None && Fetch(row, ToKey(merge)) == None)
  {
    Fetch(bufferRow, FromKey(merge)) == Fetch(row, ToKey(merge))
  }

  /** `i` is the first index at or after `from` whose buffered row matches `row`. */
  ghost predicate FirstMatchAt(merge: seq<Column>, buffer: seq<Row>, row: Row, from: nat, i: int)
    requires merge != []
  {
    && from <= i < |buffer|
    && Matches(merge, buffer[i], row)
    && forall j | from <= j < i :: !Matches(merge, buffer[j], row)
  }

  lemma FirstMatchUnique(merge: seq<Column>, buffer: seq<Row>, row: Row, from: nat, i: int, i': int)
    requires merge != []
    requires FirstMatchAt(merge, buffer, row, from, i) && FirstMatchAt(merge, buffer, row, from, i')
    ensures i == i'
  {
  }

  /** `buffer_keys`: the `from_key` value of every buffered row, in buffer order, duplicates kept. */
  function BufferKeys(merge: seq<Column>, buffer: seq<Row>): (keys: seq<Cell>)
    requires merge != []
    ensures |keys| == |buffer|
    ensures forall i | 0 <= i < |buffer| :: keys[i] == Fetch(buffer[i], FromKey(merge))
  {
    if buffer == [] then []
    else [Fetch(buffer[0], FromKey(merge))] + BufferKeys(merge, buffer[1..])
  }

  /** The linear scan of `Array#find`, starting at index `from`. */
  function FindFrom(merge: seq<Column>, buffer: seq<Row>, row: Row, from: nat): (found: Option<Row>)
    requires merge != []
    requires from <= |buffer|
    ensures found.None? <==> forall i | from <= i < |buffer| :: !Matches(merge, buffer[i], row)
    ensures found.Some? ==> exists i :: FirstMatchAt(merge, buffer, row, from, i) && found.value == buffer[i]
    decreases |buffer| - from
  {
    if from == |buffer| then None
    else if Matches(merge, buffer[from], row) then
      assert FirstMatchAt(merge, buffer, row, from, from);
      Some(buffer[from])
    else
      var found := FindFrom(merge, buffer, row, from + 1);
      assert found.Some? ==> exists i :: FirstMatchAt(merge, buffer, row, from, i) && found.value == buffer[i] by {
        if found.Some? {
          var i :| FirstMatchAt(merge, buffer, row, from + 1, i) && found.value == buffer[i];
          assert FirstMatchAt(merge, buffer, row, from, i);
        }
      }
      found
  }

  /**
   * `buffer_find(row)`: the buffered row with the lowest index whose `from_key`
   * value equals `row`'s `to_key` value, or nil when no buffered row matches.
   */
  function BufferFind(merge: seq<Column>, buffer: seq<Row>, row: Row): (found: Option<Row>)
    requires merge != []
    ensures found.None? <==> forall i | 0 <= i < |buffer| :: !Matches(merge, buffer[i], row)
    ensures found.Some? ==> exists i :: FirstMatchAt(merge, buffer, row, 0, i) && found.value == buffer[i]
  {
    FindFrom(merge, buffer, row, 0)
  }

  /**
   * The row `on_flush` yields for one looked-up row: the row untouched when no
   * buffered row matches, otherwise `row.merge(match)` with the first match, so
   * that the buffered row's values win on the columns both rows have.
   */
  function Emitted(merge: seq<Column>, buffer: seq<Row>, row: Row): (r: Row)
    requires merge != []
    ensures (forall i | 0 <= i < |buffer| :: !Matches(merge, buffer[i], row)) ==> r == row
    ensures forall i | FirstMatchAt(merge, buffer, row, 0, i) ::
      && r.keys == row.keys + NewKeys(buffer[i].keys, row.entries.Keys)
      && r.entries.Keys == row.entries.Keys + buffer[i].entries.Keys
      && (forall c | c in buffer[i].entries :: r.entries[c] == buffer[i].entries[c])
      && (forall c | c in row.entries && c !in buffer[i].entries :: r.entries[c] == row.entries[c])
  {
    var found := BufferFind(merge, buffer, row);
    if found.None? then row
    else
      assert forall i | FirstMatchAt(merge, buffer, row, 0, i) :: buffer[i] == found.value by {
        var k :| FirstMatchAt(merge, buffer, row, 0, k) && found.value == buffer[k];
        forall i | FirstMatchAt(merge, buffer, row, 0, i)
          ensures buffer[i] == found.value
        {
          FirstMatchUnique(merge, buffer, row, 0, i, k);
        }
      }
      Merge(row, found.value)
  }

  /**
   * `on_flush`: calls the job's method once with `adapter.db` and the buffer's keys,
   * and yields one row per looked-up row, in the query's order. Buffered rows
   * that no looked-up row matches are never yielded.
   */
  method OnFlush(merge: seq<Column>, buffer: seq<Row>, db: Option<Db>, query: LookupQuery)
    returns (yielded: seq<Row>)
    requires merge != []
    ensures var looked := query(db, BufferKeys(merge, buffer));
      && |yielded| == |looked|
      && forall i | 0 <= i < |looked| :: yielded[i] == Emitted(merge, buffer, looked[i])
  {
    var looked := query(db, BufferKeys(merge, buffer));
    yielded := [];
    for n := 0 to |looked|
      invariant |yielded| == n
      invariant forall i | 0 <= i < n :: yielded[i] == Emitted(merge, buffer, looked[i])
    {
      var row := looked[n];
      var found := BufferFind(merge, buffer, row);
      if found.None? {
        yielded := yielded + [row];
      } else {
        yielded := yielded + [Merge(row, found.value)];
      }
    }
  }

  /**
   * The roles of the two `:merge` entries: with `merge: [a, b]`, the keys sent to
   * the query are the buffered rows' `a` values, and a looked-up row matches a
   * buffered row when its `b` value equals the buffered row's `a` value.
   */
  lemma MergeOptionRoles(a: Column, b: Column, buffer: seq<Row>, row: Row)
    ensures FromKey([a, b]) == a && ToKey([a, b]) == b
    ensures BufferKeys([a, b], buffer) == seq(|buffer|, i requires 0 <= i < |buffer| => Fetch(buffer[i], a))
    ensures forall i | 0 <= i < |buffer| :: Matches([a, b], buffer[i], row) <==> Fetch(buffer[i], a) == Fetch(row, b)
  {
  }

  /** Conversely, the first matching buffered row is the one `buffer_find` returns. */
  lemma BufferFindFirst(merge: seq<Column>, buffer: seq<Row>, row: Row, i: nat)
    requires merge != []
    requires FirstMatchAt(merge, buffer, row, 0, i)
    ensures BufferFind(merge, buffer, row) == Some(buffer[i])
  {
    var found := BufferFind(merge, buffer, row);
    var k :| FirstMatchAt(merge, buffer, row, 0, k) && found.value == buffer[k];
    FirstMatchUnique(merge, buffer, row, 0, i, k);
  }

  /** Every buffered row lacking `from_key` matches a looked-up row lacking `to_key` (nil equals nil), so one is found. */
  lemma MissingKeysMatch(merge: seq<Column>, buffer: seq<Row>, row: Row)
    requires merge != [] && ToKey(merge) !in row.entries
    ensures forall i | 0 <= i < |buffer| && FromKey(merge) !in buffer[i].entries :: Matches(merge, buffer[i], row)
    ensures (exists i | 0 <= i < |buffer| :: FromKey(merge) !in buffer[i].entries) ==> BufferFind(merge, buffer, row).Some?
  {
  }

  /**
   * With two buffered rows sharing the key 1, `merge: [:one, :two]` and the
   * looked-up row `{two: 1}`, the first buffered row is found.
   */
  lemma FirstOccurrenceWins(first: Row, second: Row, row: Row)
    requires first.entries == map["one" := Some(Integer(1)), "first" := Some(Boolean(true))]
    requires second.entries == map["one" := Some(Integer(1)), "first" := Some(Boolean(false))]
    requires row.entries == map["two" := Some(Integer(1))]
    ensures BufferFind(["one", "two"], [first, second], row) == Some(first)
  {
    BufferFindFirst(["one", "two"], [first, second], row, 0);
  }
}
