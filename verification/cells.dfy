/**
 * Spreadsheet cells as the table holds them after it has been read, and the
 * two tests the automation loop applies to them: "is this value missing"
 * (a missing query or file name skips the row) and "does this row already
 * carry a comment" (the search-error handler keeps an existing comment).
 */
module Cells {
  import Numerals
  import Wrappers

  /** A table cell: blank (read as a missing value), text, or a whole number. */
  datatype Cell = Missing | Text(s: string) | Number(n: int)

  /**
   * The missing-value test applied to the query and the file name: only a
   * blank cell is missing (an empty text or a zero is not), and the missing
   * value is NaN, which is truthy and formats as "nan".
   */
  predicate IsMissing(c: Cell)
    ensures IsMissing(c) <==> c == Missing
    ensures IsMissing(c) ==> Truthy(c) && Render(c) == "nan"
  {
    c.Missing?
  }

  /**
   * Python truthiness of a cell value: a blank cell is read as NaN, and NaN
   * is truthy; the empty string and zero are falsy.
   */
  predicate Truthy(c: Cell)
    ensures !Truthy(c) <==> c == Text("") || c == Number(0)
  {
    match c
    case Missing => true
    case Text(s) => s != ""
    case Number(n) => n != 0
  }

  /**
   * Whether a comment cell already holds a comment: a non-empty text or a
   * non-zero number. A blank cell holds none.
   */
  predicate HasComment(c: Cell)
    ensures HasComment(c) <==> Truthy(c) && !IsMissing(c)
  {
    match c
    case Missing => false
    case Text(s) => s != ""
    case Number(n) => n != 0
  }

  /** The text a cell shows when it is formatted into a string. */
  function Render(c: Cell): (r: string)
    ensures c.Text? ==> r == c.s
    ensures c.Number? ==> Numerals.ParseInt(r) == Wrappers.Some(c.n)
  {
    match c
    case Missing => "nan"
    case Text(s) => s
    case Number(n) => Numerals.LemmaParseIntText(n); Numerals.IntText(n)
  }
}
