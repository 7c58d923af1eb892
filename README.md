# ductr-sqlite controls, modelled in Dafny

ductr-sqlite supplies the SQLite controls of an ETL framework: sources that read
rows, lookups that enrich rows, destinations that write them, and a polling
trigger. Most controls only forward their arguments to the job's method. This
model covers the five that hold their own row or state logic:

- the `:match` lookup (`MatchLookups`). It projects the `from_key` column out of
  every buffered row. It asks the job's method for the looked-up rows in one
  query. Each looked-up row is merged with the first buffered row whose
  `from_key` value equals the looked-up row's `to_key` value.
- the `:paginated` source (`PaginatedSources`). It yields one page of rows, then
  raises `InconsistentPaginationError` when the page holds more rows than the page
  size. Otherwise it reports whether the page was full.
- the polling handler (`PollingHandlers`). This is an edge detector: a call
  triggers only when the yielded key differs from the last one stored.
- the `:basic` lookup (`BasicLookups`). It merges the first looked-up row into the
  current row.
- the `:buffered_upsert` destination (`UpsertDestinations`). It builds the
  `excluded` conflict hash from the first buffered row. It opens the database only
  when it is closed.

Rows are Ruby hashes, so `Hashes` models an insertion-ordered hash. It has
`h[k] = v` (`Store`), `Hash#merge` (`Merge`, a left-to-right fold of `Store`) and
`Array#to_h` (`FromPairs`). `Rows` fixes a row as a hash from column names to
`Option<Scalar>`, where `None` is `nil`. `Fetch` reads an absent column as `nil`.
`Adapters` holds the adapter's `db` field (`None` while closed).

The job's methods (`call_method`) are function-valued parameters. The connection
that `Sequel.sqlite` returns is a parameter of `Adapter.Open`.

Where the code and its comments disagree, the model follows the code:

- `lib/ductr/sqlite/match_lookup.rb` lines 10-11 say the first `:merge` entry is
  the looked-up row's key. The code reads the first entry (`from_key`) on
  buffered rows, both in `buffer_keys` and in `buffer_find`. It reads the last
  entry (`to_key`) on looked-up rows. `MatchLookups.MergeOptionRoles` states
  this.
- The same file's `on_flush` comment (line 43) says the database is opened if
  needed. The code passes `adapter.db` as it is, possibly `nil`. So does
  `BasicLookup#process`. `MatchLookups.OnFlush` and `BasicLookups.Process`
  therefore take `db: Option<Db>`.
- In `match_lookup.rb` the looked-up row is the receiver of `merge`. The buffered
  row's values therefore win on shared columns. In `basic_lookup.rb` the
  looked-up row is the argument, so its values win.

## Model

| member | source | states |
|---|---|---|
| `Hashes.Merge` | lib/ductr/sqlite/match_lookup.rb:56 | `h.merge(other)`: the key set is the union of both key sets. `other` wins on shared keys and `h` keeps its other values. `h`'s keys come first in their order, then `other`'s new keys in `other`'s order. |
| `Hashes.StoreAll` | lib/ductr/sqlite/basic_lookup.rb:33 | Storing a distinct key list left to right appends exactly the keys not yet present, in order. Every stored key takes the source value and every other key keeps its value. This is the fold behind `merge`. |
| `Hashes.FromPairs` | lib/rocket/sqlite/buffered_upsert_destination.rb:48 | `to_h`: every pair's key is a key of the result and the result has no other key. There are at most as many keys as pairs. Each key takes the value of its last pair. |
| `Hashes.FromDistinctPairs` | lib/rocket/sqlite/buffered_upsert_destination.rb:48 | `to_h` on pairs with distinct keys keeps the pairs' order and maps each key to its pair's value. |
| `MatchLookups.FromKey` | lib/ductr/sqlite/match_lookup.rb:29-31 | `from_key` is an entry of `:merge`, namely its first one. |
| `MatchLookups.ToKey` | lib/ductr/sqlite/match_lookup.rb:38-40 | `to_key` is an entry of `:merge`, namely its last one. With a single entry, `to_key` and `from_key` are the same column. |
| `MatchLookups.Matches` | lib/ductr/sqlite/match_lookup.rb:70 | The `find` block holds iff both rows have their key column with equal values, or both read nil there, because the column is absent or holds nil. |
| `MatchLookups.MergeOptionRoles` | lib/ductr/sqlite/match_lookup.rb:29-40 | With `merge: [a, b]`, `from_key` is `a` and `to_key` is `b`. The query keys are the buffered rows' `a` values. A match compares a buffered row's `a` with the looked-up row's `b`. |
| `MatchLookups.BufferKeys` | lib/ductr/sqlite/match_lookup.rb:78-80 | Same length as the buffer. Element i is `buffer[i][from_key]`, with nil for a missing column and duplicates kept. |
| `MatchLookups.FindFrom` | lib/ductr/sqlite/match_lookup.rb:70 | The linear scan from an index finds nothing exactly when no later row matches. Otherwise it finds the row at the first matching index. |
| `MatchLookups.BufferFind` | lib/ductr/sqlite/match_lookup.rb:69-71 | Returns nil iff no buffered row's `from_key` value equals the row's `to_key` value. Otherwise it returns the buffered row at the lowest matching index, and no earlier row matches. |
| `MatchLookups.BufferFindFirst` | lib/ductr/sqlite/match_lookup.rb:69-71 | The converse: whenever index i is the first match, `buffer_find` returns `buffer[i]`. |
| `MatchLookups.MissingKeysMatch` | lib/ductr/sqlite/match_lookup.rb:69-71 | If the looked-up row lacks `to_key`, every buffered row lacking `from_key` matches it, because nil equals nil. So `buffer_find` finds a row whenever such a buffered row exists. |
| `MatchLookups.FirstOccurrenceWins` | spec/rocket/sqlite/match_lookup_spec.rb:97-103 | Two buffered rows share key 1 and the looked-up row is `{two: 1}`. The first buffered row is returned. |
| `MatchLookups.Emitted` | lib/ductr/sqlite/match_lookup.rb:53-56 | With no match, the looked-up row is yielded unchanged. Otherwise the result is `row.merge(first match)`. Its columns are the union of both rows' columns, in merge order. The buffered row's values win on shared columns and the looked-up row's values are kept elsewhere. |
| `MatchLookups.OnFlush` | lib/ductr/sqlite/match_lookup.rb:51-58 | One query with `(db, buffer_keys)`. It yields exactly one row per looked-up row, in query order, each as `Emitted` gives it. Buffered rows are never yielded on their own. |
| `PaginatedSources.PaginatedSource.constructor` | lib/rocket/sqlite/paginated_source.rb:7 | The page size is the `:page_size` option, or 10 000 when it is absent. |
| `PaginatedSources.PaginatedSource.EachPage` | lib/rocket/sqlite/paginated_source.rb:29-43 | The query is called with `(db, offset, page_size)` and every row is yielded in order, the excess rows too. It raises `InconsistentPagination(count, page_size)` iff count > page_size. Otherwise it returns true iff count == page_size, so a short or empty page returns false. No state, `offset` included, is changed. |
| `PollingHandlers.PollingHandler.constructor` | lib/rocket/sqlite/polling_handler.rb:18-23 | A new handler stores the nil key. |
| `PollingHandlers.Observe` | lib/rocket/sqlite/polling_handler.rb:32-37 | The block triggers iff the yielded key differs from the stored one. A non-triggering key leaves the stored key alone. Afterwards the stored key always equals the yielded key. |
| `PollingHandlers.PollingHandler.Call` | lib/rocket/sqlite/polling_handler.rb:30-39 | One tick, given the key the scheduler's method yields on it. An equal key returns false with no change. A different key is stored and answers true. |
| `PollingHandlers.PollingHandler.CallEach` | lib/rocket/sqlite/polling_handler.rb:30-39 | Calling the handler at successive ticks that yield `keys` answers `Triggers` and leaves the stored key `StoredAfter`. The lemmas below therefore describe a handler's real history. |
| `PollingHandlers.TriggersOnChange` | lib/rocket/sqlite/polling_handler.rb:33-36 | Over successive calls, call i triggers iff its key differs from the key of call i-1 (the stored key for the first call). |
| `PollingHandlers.StoredIsLastYielded` | lib/rocket/sqlite/polling_handler.rb:35 | After one or more calls, the stored key is the key yielded last. |
| `PollingHandlers.RepeatedKeyTriggersOnce` | lib/rocket/sqlite/polling_handler.rb:33-36 | A run of identical keys triggers at most once: only on the first call, and only if the key differs from the stored one. |
| `PollingHandlers.FreshHandlerIgnoresNil` | lib/rocket/sqlite/polling_handler.rb:22-33 | On a fresh handler a yielded nil does not trigger. |
| `BasicLookups.First` | lib/ductr/sqlite/basic_lookup.rb:30 | `.first` is a row iff the result is non-empty and its first element is a row, and it is then that element. |
| `BasicLookups.Process` | lib/ductr/sqlite/basic_lookup.rb:29-34 | An empty result or a falsy first element returns the row untouched. Otherwise the result is `row.merge(first)`. The looked-up values overwrite shared columns and the row keeps its other values and its column order. Only the first result matters. |
| `UpsertDestinations.ExcludedHash` | lib/rocket/sqlite/buffered_upsert_destination.rb:41-49 | Needs a non-empty buffer. The keys are exactly the first row's keys, in its order. Each key `c` maps to `Excluded(c)`, meaning `Sequel[:excluded][c]`. Later rows do not matter. |
| `UpsertDestinations.BufferedUpsertDestination.OnFlush` | lib/rocket/sqlite/buffered_upsert_destination.rb:24-28 | It opens the database only when `adapter.db` is nil and leaves an open one untouched. The job's method gets `(buffer, excluded, db)` with the open connection. |
| `Adapters.Adapter.Open` | lib/rocket/sqlite/adapter.rb:28-30 | `open!` stores and returns the new connection. |

## Left out

- Buffer accumulation, size-triggered flushes, buffer reset and the offset advance between pages. These belong to parent classes (`BufferedTransform`, `BufferedDestination`, `PaginatedSource` of the ETL framework) that are not part of this model. `PaginatedSource.offset` and the destination's `buffer` are fields those classes set.
- The control registries (`*_registry.add`), `call_method`'s reflective dispatch, and Sequel's query and dataset objects. The job's methods are plain functions.
- The thin controls that only forward to the job's method (`basic_source`, `basic_destination`, `buffered_destination`, `buffered_lookup`), `lib/rocket/sqlite.rb`, and the polling trigger's scheduler glue (`stop`, `callable`).
- `Sequel.sqlite` and the database itself. `Adapter.Open` takes the connection as a parameter, so two opens do not produce distinct connection objects here.
- The adapter's block form `open`, which the polling handler calls, lives in the framework's `Adapter` class and is not part of this model. The query the scheduler's method runs on that connection is not modelled either: `PollingHandler.Call` receives the key that query yields at each tick. `CallEach` stands for the scheduler running the handler tick after tick; the timing itself belongs to the scheduler.
- `Adapter#close!` is called only by the polling trigger's `stop`, which is left out, so it is not part of this model.
- PollingHandlers.PollingHandler.Call: models a scheduler method that yields exactly once. When the key is new, the block hands true back to that method. What `call` finally returns then is the user method's own value, which is not modelled. A method that yields several times, or never, is not modelled either.
- Errors raised by the job's methods or by the database. They propagate unchanged in the source and are not modelled.
- The `:merge` option of the match lookup is documented as mandatory with two entries. An empty list, where `first` would be nil, is excluded by `requires merge != []`.
- An empty buffer at `excluded` dereferences `nil` and crashes in the source. `ExcludedHash` and `OnFlush` require a non-empty buffer instead.
- Ruby's cross-type value equality (`1 == 1.0`) is not modelled. Cells compare structurally, and floats, times and other value types are not among the scalars.
