/**
 * The `:paginated` source. Each call of `each_page` asks the job's method for one
 * window of rows, `(offset, page_size)`, yields every row it gets back, and then
 * checks the count: more rows than the page size is an inconsistent pagination,
 * exactly the page size means the page is full and another page may follow.
 */
module PaginatedSources {
  import opened Common
  import opened Rows

  /** The page size used when the `:page_size` option is absent. */
  const DefaultPageSize: nat := 10000

  /** `InconsistentPaginationError`, with the two numbers its message reports. */
  datatype PaginationError = InconsistentPagination(rowsCount: nat, pageSize: nat)

  /** The job's method: given `adapter.db`, the offset and the page size, the page's rows. */
  type PageQuery = (Option<Db>, nat, nat) -> seq<Row>

  class PaginatedSource {
    /** `@offset`: where the current page starts; advanced by the parent class between pages. */
    var offset: nat
    /** `page_size`: the `:page_size` option, or the default. */
    const pageSize: nat

    /** The parent class fixes the page size and the first offset. */
    constructor (pageSizeOption: Option<nat>, offset: nat)
      ensures pageSize == (if pageSizeOption.Some? then pageSizeOption.value else DefaultPageSize)
      ensures this.offset == offset
    {
      pageSize := if pageSizeOption.Some? then pageSizeOption.value else DefaultPageSize;
      this.offset := offset;
    }

    /**
     * `each_page`: yields the rows of the window `(offset, pageSize)` in order, and
     * only then raises when there were more than `pageSize` of them; otherwise it
     * reports whether the page was exactly full. It changes no state, `offset`
     * included.
     */
    method EachPage(db: Option<Db>, query: PageQuery) returns (yielded: seq<Row>, full: Result<bool, PaginationError>)
      ensures yielded == query(db, offset, pageSize)
      ensures full.Failure? <==> |yielded| > pageSize
      ensures full.Failure? ==> full.error == InconsistentPagination(|yielded|, pageSize)
      ensures full.Success? ==> (full.value <==> |yielded| == pageSize)
    {
      var rowsCount := 0;
      var rows := query(db, offset, pageSize);
      yielded := [];
      for n := 0 to |rows|
        invariant rowsCount == n
        invariant yielded == rows[..n]
      {
        yielded := yielded + [rows[n]];
        rowsCount := rowsCount + 1;
      }
      assert yielded == rows;
      if rowsCount > pageSize {
        full := Failure(InconsistentPagination(rowsCount, pageSize));
        return;
      }
      full := Success(rowsCount == pageSize);
    }
  }
}
