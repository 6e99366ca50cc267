# Spreadsheet row-validation engine, modelled in Dafny

This project models the validation helper of the Grasp Google Sheets add-on. That helper is `grasp-v2/frontend/utils/validation.ts`. It has four single-cell validators:

- `validateRequired`
- `validateFormat`, with the formats `email`, `date` and `number`
- `validateRange`
- `validateCustom`, which calls a caller-supplied callback

It also has the A1 cell label `getCellNotation`, and the sheet driver `validateSheet`. The driver skips the header row, applies every rule to every data row in order, and keeps only the failing results.

The modules:

- `Decimal`, `Strings` and `Cells` model the JavaScript conversions the validators rely on:
  - the truthiness of a cell;
  - `value?.toString()` with `''` in place of a missing or empty text;
  - `String.prototype.trim` and the ECMAScript white-space set;
  - the decimal text of an integer.
- `NumberParse` models `parseFloat`. It skips leading white space, then reads the longest prefix that is a signed decimal literal or `Infinity`. It returns NaN when no such prefix exists.
- `Formats` models the two regular expressions of `validateFormat`:
  - the e-mail pattern is a computed matcher, proved to accept exactly the texts of the shape `local@domain.suffix`;
  - the date predicate `MatchesDate` is itself a literal reading of its pattern. It is proved in both directions against `DateText`, the DD/MM/YYYY text of three fields.
- `Validation` holds the validators and `getCellNotation`, as pure functions whose contracts state the promised behaviour.
- `Sheet` holds `validateSheet` as the imperative method `ValidateSheet`:
  - the outer `data.forEach` is a loop in `ValidateSheet`;
  - the inner `rules.forEach` is the loop of `ValidateRow`;
  - the callback body is `ApplyRule`.

  `ValidateSheet` is proved equal to the functional specification `SheetFailures(Check, data, rules)`.
- `SheetProperties` proves what the result list holds, in which order, and how long it is. The sheet lists take the per-rule check as a parameter, so these lemmas hold for any check that reports its row, column and tag as `Check` does. `CheckReports` shows that `Check` is such a check.
- `ValidationExamples` evaluates the validators and the driver on concrete cells and grids.

The result record follows the `ValidationResult` interface in `grasp-addon/frontend/types.ts:51-57`. Its fields are `row`, `column`, `rule`, `valid` and an optional `message`. `validation.ts` imports the type from `../types`, but `grasp-v2/frontend/types.ts` does not declare it.

The messages are the French texts of the code, for example `Cellule A2 ne peut pas être vide`.

## Model

| member | source | states |
|---|---|---|
| Decimal.IntToString | grasp-v2/frontend/utils/validation.ts:98 | the decimal text of the row in a template literal: a leading '-' exactly for negatives, digits whose value is the magnitude, and no leading zero except in "0" itself |
| Cells.StringForm | grasp-v2/frontend/utils/validation.ts:22 | the string form (`toString()` of the value, or the empty text for a missing value) is non-empty on every truthy cell and empty on undefined |
| Strings.Trim | grasp-v2/frontend/utils/validation.ts:7 | `trim()` is empty exactly when the text is all white space; otherwise it starts and ends with a non-space character; it occurs in the text with only white space before and after it |
| NumberParse.ParseFloat | grasp-v2/frontend/utils/validation.ts:39 | `parseFloat` is NaN exactly when, after white space and one sign, the text starts with no digit, no point-then-digit and no `Infinity` |
| NumberParse.ParseIntText | grasp-v2/frontend/utils/validation.ts:39 | `parseFloat` reads back the decimal text of any integer, also when text follows that cannot continue the literal (no digit, '.', 'e' or 'E'), as in "42abc" |
| Formats.MatchesEmailIffShape | grasp-v2/frontend/utils/validation.ts:28-29 | the computed e-mail test accepts exactly the texts local@domain.suffix whose three parts are non-empty runs of `[^\s@]` |
| Formats.EmailNeedsAt | grasp-v2/frontend/utils/validation.ts:28 | a text with no '@' never matches the e-mail pattern |
| Formats.DateTextMatches | grasp-v2/frontend/utils/validation.ts:34-35 | every zero-padded DD/MM/YYYY text matches the date pattern, with no calendar check |
| Formats.MatchedDateFields | grasp-v2/frontend/utils/validation.ts:34-35 | every text matching the date pattern is the DD/MM/YYYY text of its own three fields |
| NumberParse.ParseFractionText | grasp-v2/frontend/utils/validation.ts:61 | `parseFloat` of `whole.frac` followed by text that cannot continue the literal is the value of the digits of whole and frac together, divided by ten for each fraction digit |
| NumberParse.ParseExponentText | grasp-v2/frontend/utils/validation.ts:61 | `parseFloat` of `whole[.frac]e[+-]exp` (with `e` or `E`) followed by no digit is the value of the mantissa digits times ten to the signed exponent, divided by ten for each fraction digit |
| NumberParse.ParseSkipsSpace | grasp-v2/frontend/utils/validation.ts:61 | leading white space does not change what `parseFloat` reads |
| NumberParse.ReadsUnsigned | grasp-v2/frontend/utils/validation.ts:61 | text starting with a digit or a point reads as its unsigned literal, or NaN when it has none |
| NumberParse.ReadsNegated | grasp-v2/frontend/utils/validation.ts:61 | the same text after a '-' reads as NaN when the unsigned text does, and as the negated value otherwise |
| NumberParse.ReadsPlus | grasp-v2/frontend/utils/validation.ts:61 | a leading '+' before a digit or point changes nothing: "+5" reads as "5" does |
| NumberParse.ScaleUp | grasp-v2/frontend/utils/validation.ts:61 | scaling by a non-negative exponent k multiplies by 10^k |
| NumberParse.ScaleDown | grasp-v2/frontend/utils/validation.ts:61 | scaling by a negative exponent -k divides by 10^k |
| NumberParse.ScaleShift | grasp-v2/frontend/utils/validation.ts:61 | lowering the exponent by k divides the scaled value by 10^k |
| Validation.ColumnLetter | grasp-v2/frontend/utils/validation.ts:97 | `String.fromCharCode(64 + column)` is a letter A-Z exactly when the column is 1..26 modulo 2^16; for columns 1..26 it is the letter with code 64 + column; outside the surrogate range its code is (64 + column) mod 2^16, and inside it the character is U+FFFD |
| Validation.CellNotation | grasp-v2/frontend/utils/validation.ts:96-99 | the label is the column letter followed by the row's decimal text |
| Validation.CellNotationReadsRow | grasp-v2/frontend/utils/validation.ts:98 | the text after the column letter is the row number: `parseFloat` reads it back |
| Validation.CellNotationInjective | grasp-v2/frontend/utils/validation.ts:96-99 | for columns 1..26, the label determines both the row and the column |
| Validation.ValidateRequired | grasp-v2/frontend/utils/validation.ts:6-16 | valid iff the cell is truthy and its string form is not all white space; keeps row and column, tag "required"; a message exactly when invalid, and it names the cell |
| Validation.ValidateFormat | grasp-v2/frontend/utils/validation.ts:21-55 | email: valid iff the pattern matches. date: valid iff DD/MM/YYYY. number: valid iff a numeric prefix exists. Other names: valid with no message. Keeps row and column, tag "format"; a message exactly when invalid, and it names the cell |
| Validation.ValidateRange | grasp-v2/frontend/utils/validation.ts:60-71 | valid iff `parseFloat` gives a finite number within [min, max], inclusive at both ends; a text with no numeric prefix fails; keeps row and column, tag "range"; a message exactly when invalid, and it names the cell |
| Validation.ValidateCustom | grasp-v2/frontend/utils/validation.ts:76-91 | validity is the callback's. A non-empty callback message is kept as is. With none, the message is absent exactly when valid, and otherwise names the cell. Keeps row and column, tag "custom" |
| Validation.RequiredNumber | grasp-v2/frontend/utils/validation.ts:7 | a numeric cell passes `required` exactly when it is not 0 |
| Validation.NumberFormatNumber | grasp-v2/frontend/utils/validation.ts:39-40 | a numeric cell always passes the "number" format |
| Validation.RangeNumber | grasp-v2/frontend/utils/validation.ts:61-62 | a numeric cell is in range exactly when its value lies between the bounds |
| Sheet.Check | grasp-v2/frontend/utils/validation.ts:117-143 | one rule on one row: no result exactly for an unrecognised rule type; otherwise the result reports row rowIndex + 1, the rule's column and the rule's own tag |
| Sheet.ValidateSheet | grasp-v2/frontend/utils/validation.ts:104-152 | the returned list is `SheetFailures(Check, data, rules)`; the header is skipped and each data row appends its failures. Two calls on the same grid and rules therefore return the same list |
| Sheet.ValidateRow | grasp-v2/frontend/utils/validation.ts:117-148 | the inner loop appends exactly the row's failing results, in rule order, to the list so far |
| Sheet.ApplyRule | grasp-v2/frontend/utils/validation.ts:118-147 | one callback: reads `row[rule.column - 1]`, dispatches on the type, returns early on an unknown type, and pushes the result only when it failed |
| Sheet.SheetFailuresStep | grasp-v2/frontend/utils/validation.ts:114-115 | one more row of the grid adds nothing for the header and that row's failures for a data row |
| SheetProperties.CheckReports | grasp-v2/frontend/utils/validation.ts:118-143 | the validator dispatch reports row rowIndex + 1, the rule's column and a non-empty tag, or nothing for an unknown type |
| SheetProperties.FailuresMembership | grasp-v2/frontend/utils/validation.ts:145-147 | a result is kept iff some outcome produced it and it is invalid |
| SheetProperties.FailuresAppend | grasp-v2/frontend/utils/validation.ts:145-147 | keeping the failures of two runs of outcomes gives the two kept lists, in order |
| SheetProperties.FailuresSingle | grasp-v2/frontend/utils/validation.ts:145-147 | one outcome contributes its result exactly when that result is invalid |
| SheetProperties.FailuresLength | grasp-v2/frontend/utils/validation.ts:145-147 | at most one result is kept per outcome |
| SheetProperties.RowFailuresMembership | grasp-v2/frontend/utils/validation.ts:117-148 | a row's list holds exactly the invalid results of its rules |
| SheetProperties.RowFailuresAreFailures | grasp-v2/frontend/utils/validation.ts:119-120 | each result of a row is invalid, reports row rowIndex + 1, and carries the column and tag of one of the rules |
| SheetProperties.RowFailuresAppend | grasp-v2/frontend/utils/validation.ts:117 | within a row, results follow the rule order: the list for rules a + b is the list for a, then the list for b |
| SheetProperties.RowFailuresSingle | grasp-v2/frontend/utils/validation.ts:145-147 | a single rule contributes its result exactly when it failed |
| SheetProperties.Recognized | grasp-v2/frontend/utils/validation.ts:124-143 | exactly the given rules of a recognised type: every kept rule is one of them, and every one of them is kept |
| SheetProperties.RecognizedAppend | grasp-v2/frontend/utils/validation.ts:117 | the filter keeps rule order: the recognised rules of a + b are those of a, then those of b |
| SheetProperties.RowIgnoresUnrecognized | grasp-v2/frontend/utils/validation.ts:141-142 | dropping the rules of an unrecognised type leaves a row's list unchanged |
| SheetProperties.SheetFailureFromRow | grasp-v2/frontend/utils/validation.ts:114-149 | every failure of a data row is in the sheet's list |
| SheetProperties.SheetFailureRow | grasp-v2/frontend/utils/validation.ts:114-149 | every result in the sheet's list comes from the list of a data row with index 1 or more |
| SheetProperties.SheetFailuresMembership | grasp-v2/frontend/utils/validation.ts:112-151 | the sheet's list holds exactly the invalid results of the rules on the rows with index 1 or more |
| SheetProperties.SheetFailuresRows | grasp-v2/frontend/utils/validation.ts:115 | every result is invalid and names row 2 to the row count: never the header, never past the last row |
| SheetProperties.SheetFailuresAreFailures | grasp-v2/frontend/utils/validation.ts:115-147 | every result is invalid, names a data row, and carries the column and tag of one of the rules |
| SheetProperties.AscendingAppend | grasp-v2/frontend/utils/validation.ts:114 | appending a row's results after the results of earlier rows keeps the row numbers ascending |
| SheetProperties.SheetRowsAscending | grasp-v2/frontend/utils/validation.ts:114-149 | the results come row by row: their row numbers never decrease |
| SheetProperties.SheetFailuresLength | grasp-v2/frontend/utils/validation.ts:112-151 | the list has at most (rows - 1) x (rules) results |
| SheetProperties.SheetIgnoresUnrecognized | grasp-v2/frontend/utils/validation.ts:141-142 | rules of an unrecognised type emit nothing on any row: dropping them leaves the list unchanged |
| SheetProperties.CheckReadsOwnCell | grasp-v2/frontend/utils/validation.ts:118 | a rule's outcome depends only on the cell in its own column |
| SheetProperties.MissingCellFailsRequired | grasp-v2/frontend/utils/validation.ts:118 | a column past the end of the row reads as undefined, so `required` fails on it and reports rowIndex + 1 and the column |
| SheetProperties.ValidateSheetReports | grasp-v2/frontend/utils/validation.ts:104-152 | for the sheet's own checks, every result is invalid, names a data row and comes in ascending row order; unknown rule types change nothing |
| ValidationExamples.NotationA2 | grasp-v2/frontend/utils/validation.ts:96-99 | (2, 1) gives "A2" |
| ValidationExamples.NotationB3 | grasp-v2/frontend/utils/validation.ts:96-99 | (3, 2) gives "B3" |
| ValidationExamples.NotationB10 | grasp-v2/frontend/utils/validation.ts:96-99 | (10, 2) gives "B10" |
| ValidationExamples.RequiredUndefined | grasp-v2/frontend/utils/validation.ts:6-16 | an undefined cell fails with "Cellule A2 ne peut pas être vide" |
| ValidationExamples.RequiredText | grasp-v2/frontend/utils/validation.ts:7 | "x" passes and "   " fails |
| ValidationExamples.EmailPasses | grasp-v2/frontend/utils/validation.ts:27-29 | "a@b.com" passes the email format |
| ValidationExamples.EmailFails | grasp-v2/frontend/utils/validation.ts:27-30 | "not-an-email" fails with "Format email invalide en A2" |
| ValidationExamples.DatePasses | grasp-v2/frontend/utils/validation.ts:33-35 | "31/12/2024" and "99/99/9999" pass the date format |
| ValidationExamples.DateFails | grasp-v2/frontend/utils/validation.ts:33-35 | "2024-12-31" fails the date format |
| ValidationExamples.NumberPrefix | grasp-v2/frontend/utils/validation.ts:39-40 | "42abc" passes the number format |
| ValidationExamples.NumberFails | grasp-v2/frontend/utils/validation.ts:39-41 | "abc" and "" fail the number format |
| ValidationExamples.OtherFormat | grasp-v2/frontend/utils/validation.ts:44-46 | an unknown format name is valid with no message |
| ValidationExamples.RangeInside | grasp-v2/frontend/utils/validation.ts:61-62 | "5" and "10" are within 1..10 |
| ValidationExamples.RangeOutside | grasp-v2/frontend/utils/validation.ts:61-62 | "15" and "abc" are not within 1..10 |
| ValidationExamples.SheetExample | grasp-v2/frontend/utils/validation.ts:104-152 | the grid Name/Email, Alice/a@x.com, Bob/bad with one email rule on column 2 yields exactly the failure for B3 |

## Left out

- Number cells are integers. A non-integer number cell is not modelled, because its JavaScript string form needs shortest round-trip float printing. null and undefined are both `Undef`. Objects such as dates are not modelled, because their `toString` is arbitrary.
- Cells.StringForm: JavaScript renders integers of magnitude 10^21 or more in exponent form (`1e+21`). It also loses precision beyond 2^53. Here every integer renders as plain decimal digits.
- NumberParse.ParseFloat: works on exact reals. Rounding to binary floating point is not modelled, nor overflow of a long literal to Infinity, nor the sign of `-0`. So a range check on a value within rounding distance of a bound can differ from the source.
- Validation.ValidateRange: the bounds are reals, and a rule without `params`, or with non-numeric `min`/`max`, is not modelled. In the source, `rule.params.min` throws a TypeError when `params` is undefined. The failure message is the structured `OutOfRange(cell, min, max)`. Rendering the two bounds as JavaScript number text inside "Valeur en … doit être entre … et …" is not modelled.
- Validation.ValidateCustom: the callback is a total, pure function from a cell to a validity flag and an optional string message. Callbacks that throw, have side effects, or return a non-string message are not modelled.
- Validation.ValidateFormat: the `format` parameter is a string. A non-string `rule.params` for a format rule is not modelled.
- Validation.ColumnLetter: a code unit in the UTF-16 surrogate range (0xD800 to 0xDFFF) becomes U+FFFD. A Dafny character cannot hold a lone surrogate.
- Validation.CellNotation: rows and columns are integers. Fractional or non-finite row and column numbers are not modelled.
- Sheet.ValidateSheet: each inner `rules.forEach` is the loop of the separate method `ValidateRow`, and each callback body is the separate method `ApplyRule`. So there is no literal second loop nested inside the first.
  - Sparse arrays are not modelled: `forEach` skips holes, but here every row and rule is visited.
  - Nor are rows that are not arrays.
- The HTTP server, the Google Sheets and Grasp API clients, the Vue bootstrap and the build scripts are not part of this model: they are I/O and tooling with no validation logic.
