/**
 * The table the sorter works on, as values: a table is its sequence of rows
 * (the first one is the header row), a row is its sequence of cells.
 */
module TableModel {

  datatype Option<T> = None | Some(value: T)

  /** The TypeErrors the browser raises inside sortTable. */
  datatype Fault =
    | ColumnPastRow     // getRowCol walked past the last cell of a row
    | RowSpanPastTable  // a row group ran past the last row, so an undefined row was appended

  datatype Result<T> = Ok(value: T) | Crash(error: Fault)

  /**
   * A table cell: its rowspan and colspan attributes when present (read as
   * natural numbers) and its inner HTML.
   */
  datatype Cell = Cell(rowspan: Option<nat>, colspan: Option<nat>, html: string)

  type Row = seq<Cell>
}
