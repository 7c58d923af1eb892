/** Rows as the ETL controls see them: Ruby hashes from column names to scalar values or nil. */
module Rows {
  import opened Common
  import opened Hashes

  /** A column name (a Ruby symbol). */
  type Column = string

  /** The non-nil values a column can hold. */
  datatype Scalar = Integer(i: int) | Text(s: string) | Symbol(name: string) | Boolean(b: bool)

  /** A column's value; `None` is `nil`. */
  type Cell = Option<Scalar>

  type Row = Hash<Column, Cell>

  /** Ruby's `row[column]`: the stored value, or `nil` when the row has no such column. */
  function Fetch(row: Row, column: Column): Cell
  {
    if column in row.entries then row.entries[column] else None
  }
}
