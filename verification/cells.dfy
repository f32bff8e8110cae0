/** A value read into a pandas table: a missing entry (read as NaN), a
    number, or a piece of text. */
module Cells {

  datatype Cell = Missing | Num(x: real) | Text(s: string)

  /** `pd.notna(v)`: everything but a missing entry. */
  predicate NotNa(c: Cell) {
    !c.Missing?
  }

  /** The cell of `row` under `column`: a column the row lacks reads as
      missing, as it does after pandas aligns tables with different columns. */
  function Get(row: map<string, Cell>, column: string): (c: Cell)
    ensures column !in row ==> c == Missing
  {
    if column in row then row[column] else Missing
  }
}
