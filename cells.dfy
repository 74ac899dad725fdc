/** Spreadsheet cells as pandas hands them over, and Python's view of them. */
module Cells {
  import opened Base
  import opened Text

  /** A raw cell: a number, a piece of text, or a missing value (None / NaN). */
  datatype Cell = Num(n: int) | Str(s: string) | Null

  /** `pd.notna(c)`. */
  predicate NotNull(c: Cell) { !c.Null? }

  /** Python truthiness of a cell value: zero, the empty string and None are false. */
  predicate Truthy(c: Cell)
    ensures Truthy(c) ==> NotNull(c)
  {
    match c
    case Num(n) => n != 0
    case Str(s) => s != ""
    case Null => false
  }

  /** `str(c)`: a number prints as a decimal that reads back as that number and text is
      itself. A missing value prints as "None", as for an empty cell read by openpyxl; every
      caller first tests the cell with `NotNull` or `Truthy`, so that case is never used. */
  function AsString(c: Cell): (r: string)
    ensures c.Num? ==> ParseDecimal(r) == Some(c.n)
    ensures c.Str? ==> r == c.s
    ensures c.Null? ==> r == "None"
  {
    match c
    case Num(n) => DecimalRoundTrip(n); DecimalString(n)
    case Str(s) => s
    case Null => "None"
  }

  /** One row of a sheet, by column name. */
  type Row = map<string, Cell>

  /** `row[col]`; a column the row does not carry reads as missing. */
  function At(row: Row, col: string): Cell
  {
    if col in row then row[col] else Null
  }

  /** A sheet read into a table: its header names (as `str(col)`) in order, and its rows. */
  datatype Table = Table(columns: seq<string>, rows: seq<Row>)
}
