/**
 * Spreadsheet cell values as the validators receive them (untyped in the
 * sheet data), with the two JavaScript conversions the validators apply:
 * truthiness and the string form.
 */
module Cells {

  import opened Decimal

  /**
   * A cell value: text, a number, a boolean, or nothing (null, undefined, or
   * a column past the end of the row). Numbers are integers; see README.
   */
  datatype Cell = Str(text: string) | Num(number: int) | Bool(flag: bool) | Undef

  /** JavaScript truthiness: `!value` holds exactly when this is false. */
  predicate Truthy(c: Cell) {
    match c
    case Str(t) => t != ""
    case Num(n) => n != 0
    case Bool(b) => b
    case Undef => false
  }

  /**
   * `value?.toString() || ''`. On every truthy value this is also what
   * `value.toString()` gives.
   */
  function StringForm(c: Cell): (s: string)
    ensures Truthy(c) ==> s != ""
    ensures c.Undef? ==> s == ""
  {
    match c
    case Str(t) => t
    case Num(n) => IntToString(n)
    case Bool(b) => if b then "true" else "false"
    case Undef => ""
  }
}
