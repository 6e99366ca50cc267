/**
 * The single-cell validators of the spreadsheet validation engine and the A1
 * notation their messages use. Each validator returns a result carrying the
 * row and column it was given, its own rule tag, whether the cell passed, and
 * a message exactly when it did not (for custom validators: also when the
 * callback supplied one).
 */
module Validation {

  import opened Optional
  import opened Decimal
  import opened Strings
  import opened Cells
  import opened NumberParse
  import opened Formats

  /**
   * A result message. `Text` is a rendered message. `OutOfRange` stands for
   * "Valeur en {cell} doit être entre {min} et {max}", whose rendering of the
   * two bounds as JavaScript numbers is not part of this model.
   */
  datatype Message = Text(text: string) | OutOfRange(cell: string, min: real, max: real)

  /** The message names the cell `cell`. */
  predicate Mentions(m: Message, cell: string) {
    match m
    case Text(t) => Contains(t, cell)
    case OutOfRange(c, _, _) => c == cell
  }

  /** The outcome of one validator on one cell; `message` is None for `undefined`. */
  datatype ValidationResult = ValidationResult(row: int, column: int, rule: string, valid: bool, message: Option<Message>)

  /** What a caller-supplied custom validator returns. */
  datatype CustomOutcome = CustomOutcome(valid: bool, message: Option<string>)

  /**
   * `String.fromCharCode(64 + column)`: the UTF-16 code unit (64 + column)
   * modulo 2^16, so 1..26 give 'A'..'Z' and 27 on give '[', '\', and so on.
   * A code unit in the surrogate range is not a character on its own and
   * becomes U+FFFD here.
   */
  function ColumnLetter(column: int): (c: char)
    ensures 'A' <= c <= 'Z' <==> 1 <= column % 0x1_0000 <= 26
    ensures 1 <= column <= 26 ==> c as int == 64 + column
    ensures !(0xD800 <= (64 + column) % 0x1_0000 < 0xE000) ==> c as int == (64 + column) % 0x1_0000
    ensures 0xD800 <= (64 + column) % 0x1_0000 < 0xE000 ==> c == '\U{FFFD}'
  {
    var code := (64 + column) % 0x1_0000;
    assert code == 64 + column % 0x1_0000 || code == 64 + column % 0x1_0000 - 0x1_0000;
    if 0xD800 <= code < 0xE000 then '\U{FFFD}' else code as char
  }

  /** `getCellNotation(row, column)`: the column letter followed by the decimal row number. */
  function CellNotation(row: int, column: int): (s: string)
    ensures |s| >= 2 && s[0] == ColumnLetter(column)
    ensures s[1..] == IntToString(row)
  {
    [ColumnLetter(column)] + IntToString(row)
  }

  /** `parseFloat` reads the row number back from what follows the column letter. */
  lemma CellNotationReadsRow(row: int, column: int)
    ensures ParseFloat(CellNotation(row, column)[1..]) == Finite(row as real)
  {
    ParseIntText(row, "");
    assert CellNotation(row, column)[1..] == IntToString(row) + "";
  }

  /**
   * `validateRequired`: the cell passes when it is truthy and its string form
   * is not all white space, so 0, false, "", "   " and a missing cell fail.
   */
  function ValidateRequired(value: Cell, row: int, column: int): (r: ValidationResult)
    ensures r.row == row && r.column == column && r.rule == "required"
    ensures r.valid <==> Truthy(value) && !AllWhitespace(StringForm(value))
    ensures r.message.Some? <==> !r.valid
    ensures r.message.Some? ==> Mentions(r.message.value, CellNotation(row, column))
  {
    var isEmpty := !Truthy(value) || Trim(StringForm(value)) == "";
    var cell := CellNotation(row, column);
    ContainsMiddle("Cellule ", cell, " ne peut pas être vide");
    ValidationResult(row, column, "required", !isEmpty,
      if isEmpty then Some(Text("Cellule " + cell + " ne peut pas être vide")) else None)
  }

  /**
   * `validateFormat`: "email" and "date" test the string form against their
   * patterns, "number" asks that `parseFloat` finds a numeric prefix, and any
   * other format name passes with no message.
   */
  function ValidateFormat(value: Cell, row: int, column: int, format: string): (r: ValidationResult)
    ensures r.row == row && r.column == column && r.rule == "format"
    ensures format == "email" ==> (r.valid <==> EmailShape(StringForm(value)))
    ensures format == "date" ==> (r.valid <==> MatchesDate(StringForm(value)))
    ensures format == "number" ==> (r.valid <==> HasNumericPrefix(StringForm(value)))
    ensures format != "email" && format != "date" && format != "number" ==> r.valid && r.message.None?
    ensures r.message.Some? <==> !r.valid
    ensures r.message.Some? ==> Mentions(r.message.value, CellNotation(row, column))
  {
    var str := StringForm(value);
    var cell := CellNotation(row, column);
    MatchesEmailIffShape(str);
    ContainsEnd("Format email invalide en ", cell);
    ContainsMiddle("Format date invalide en ", cell, " (attendu: DD/MM/YYYY)");
    ContainsEnd("Nombre invalide en ", cell);
    var (isValid, message) :=
      if format == "email" then
        var ok := MatchesEmail(str);
        (ok, if ok then "" else "Format email invalide en " + cell)
      else if format == "date" then
        var ok := MatchesDate(str);
        (ok, if ok then "" else "Format date invalide en " + cell + " (attendu: DD/MM/YYYY)")
      else if format == "number" then
        var ok := !ParseFloat(str).NaN?;
        (ok, if ok then "" else "Nombre invalide en " + cell)
      else (true, "");
    ValidationResult(row, column, "format", isValid, if message != "" then Some(Text(message)) else None)
  }

  /** JavaScript's `x >= bound` for a parsed number and a finite bound. */
  predicate AtLeast(x: JsNumber, bound: real) {
    match x
    case NaN => false
    case Infinity(negative) => !negative
    case Finite(v) => v >= bound
  }

  /** JavaScript's `x <= bound` for a parsed number and a finite bound. */
  predicate AtMost(x: JsNumber, bound: real) {
    match x
    case NaN => false
    case Infinity(negative) => negative
    case Finite(v) => v <= bound
  }

  /**
   * `validateRange`: the cell passes exactly when `parseFloat` of its string
   * form is a finite number between `min` and `max`, both inclusive.
   */
  function ValidateRange(value: Cell, row: int, column: int, min: real, max: real): (r: ValidationResult)
    ensures r.row == row && r.column == column && r.rule == "range"
    ensures r.valid <==> var x := ParseFloat(StringForm(value)); x.Finite? && min <= x.value <= max
    ensures !HasNumericPrefix(StringForm(value)) ==> !r.valid
    ensures r.message.Some? <==> !r.valid
    ensures r.message.Some? ==> Mentions(r.message.value, CellNotation(row, column))
  {
    var num := ParseFloat(StringForm(value));
    var isValid := !num.NaN? && AtLeast(num, min) && AtMost(num, max);
    ValidationResult(row, column, "range", isValid,
      if isValid then None else Some(OutOfRange(CellNotation(row, column), min, max)))
  }

  /**
   * `validateCustom`: validity is the callback's; the message is the
   * callback's when it gave a non-empty one, otherwise a generic message
   * naming the cell when the cell failed, and none when it passed.
   */
  function ValidateCustom(value: Cell, row: int, column: int, validator: Cell -> CustomOutcome): (r: ValidationResult)
    ensures r.row == row && r.column == column && r.rule == "custom"
    ensures r.valid == validator(value).valid
    ensures var own := validator(value).message;
      && (own.Some? && own.value != "" ==> r.message == Some(Text(own.value)))
      && (r.message.None? <==> r.valid && (own.None? || own.value == ""))
      && (!(own.Some? && own.value != "") && r.message.Some? ==> Mentions(r.message.value, CellNotation(row, column)))
  {
    var result := validator(value);
    var cell := CellNotation(row, column);
    ContainsEnd("Erreur de validation en ", cell);
    ValidationResult(row, column, "custom", result.valid,
      if result.message.Some? && result.message.value != "" then Some(Text(result.message.value))
      else if result.valid then None
      else Some(Text("Erreur de validation en " + cell)))
  }

  /** Within columns 1..26 the notation determines both the row and the column. */
  lemma CellNotationInjective(r1: int, c1: int, r2: int, c2: int)
    requires 1 <= c1 <= 26 && 1 <= c2 <= 26
    requires CellNotation(r1, c1) == CellNotation(r2, c2)
    ensures r1 == r2 && c1 == c2
  {
    var s := CellNotation(r1, c1);
    CellNotationReadsRow(r1, c1);
    CellNotationReadsRow(r2, c2);
    assert ParseFloat(s[1..]) == Finite(r1 as real) == Finite(r2 as real);
    assert ColumnLetter(c1) == s[0] == ColumnLetter(c2);
  }

  /** A numeric cell passes `required` exactly when it is not zero. */
  lemma RequiredNumber(n: int, row: int, column: int)
    ensures ValidateRequired(Num(n), row, column).valid <==> n != 0
  {
    var s := IntToString(n);
    assert !IsWhitespace(s[0]);
  }

  /** A numeric cell always passes the "number" format. */
  lemma NumberFormatNumber(n: int, row: int, column: int)
    ensures ValidateFormat(Num(n), row, column, "number").valid
  {
    var s := StringForm(Num(n));
    assert s == IntToString(n) + "";
    ParseIntText(n, "");
    assert HasNumericPrefix(s);
  }

  /** A numeric cell is in range exactly when its value is between the bounds. */
  lemma RangeNumber(n: int, row: int, column: int, min: real, max: real)
    ensures ValidateRange(Num(n), row, column, min, max).valid <==> min <= n as real <= max
  {
    ParseIntText(n, "");
    assert IntToString(n) + "" == IntToString(n);
  }
}
