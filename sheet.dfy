/**
 * `validateSheet`: every rule, in order, on every data row of the sheet (the
 * row at index 0 is the header and is skipped), keeping only the failing
 * results. The method is proved equal to `SheetFailures(Check, ...)`; the
 * list functions take the per-rule check as a parameter so that what they
 * hold and in which order can be stated for any check that reports its row,
 * column and rule tag as `Check` does.
 */
module Sheet {

  import opened Optional
  import opened Cells
  import opened Validation

  /** The type of a rule with its parameters; `Unrecognized` is any other type string. */
  datatype RuleKind =
    | Required
    | Format(format: string)
    | Range(min: real, max: real)
    | Custom(validator: Cell -> CustomOutcome)
    | Unrecognized(tag: string)

  /** A rule on the 1-based column `column`. */
  datatype Rule = Rule(column: int, kind: RuleKind)

  /** The rule tag a recognised rule type puts in its results. */
  function Tag(kind: RuleKind): string {
    match kind
    case Required => "required"
    case Format(_) => "format"
    case Range(_, _) => "range"
    case Custom(_) => "custom"
    case Unrecognized(_) => ""
  }

  /** `row[column - 1]`; an index outside the row reads as undefined. */
  function CellAt(cells: seq<Cell>, column: int): Cell {
    if 1 <= column <= |cells| then cells[column - 1] else Undef
  }

  /**
   * The result of one rule on the data row at index `rowIndex`, or None when
   * the rule's type is not recognised (the source returns early then).
   */
  function Check(cells: seq<Cell>, rowIndex: int, rule: Rule): (r: Option<ValidationResult>)
    ensures r.None? <==> rule.kind.Unrecognized?
    ensures r.Some? ==> r.value.row == rowIndex + 1 && r.value.column == rule.column
    ensures r.Some? ==> r.value.rule == Tag(rule.kind) && r.value.rule != ""
  {
    var value := CellAt(cells, rule.column);
    match rule.kind
    case Required => Some(ValidateRequired(value, rowIndex + 1, rule.column))
    case Format(f) => Some(ValidateFormat(value, rowIndex + 1, rule.column, f))
    case Range(lo, hi) => Some(ValidateRange(value, rowIndex + 1, rule.column, lo, hi))
    case Custom(v) => Some(ValidateCustom(value, rowIndex + 1, rule.column, v))
    case Unrecognized(_) => None
  }

  /** A per-rule check: the outcome of one rule on one data row, given the row's index. */
  type RuleCheck = (seq<Cell>, int, Rule) -> Option<ValidationResult>

  /** The outcomes of `rules`, in order, on the data row at index `rowIndex`. */
  function Outcomes(check: RuleCheck, cells: seq<Cell>, rowIndex: int, rules: seq<Rule>): (os: seq<Option<ValidationResult>>)
  {
    seq(|rules|, k requires 0 <= k < |rules| => check(cells, rowIndex, rules[k]))
  }

  /** What `results.push` keeps of one outcome: the result, when it failed. */
  function Kept(r: Option<ValidationResult>): seq<ValidationResult> {
    if r.Some? && !r.value.valid then [r.value] else []
  }

  /** The failing results among `outcomes`, in order. */
  function Failures(outcomes: seq<Option<ValidationResult>>): seq<ValidationResult> {
    if outcomes == [] then []
    else Failures(outcomes[..|outcomes| - 1]) + Kept(outcomes[|outcomes| - 1])
  }

  /** The failing results of `rules`, in order, on one data row. */
  function RowFailures(check: RuleCheck, cells: seq<Cell>, rowIndex: int, rules: seq<Rule>): seq<ValidationResult> {
    Failures(Outcomes(check, cells, rowIndex, rules))
  }

  /** The failing results of the whole sheet, row by row, the header row excluded. */
  function SheetFailures(check: RuleCheck, data: seq<seq<Cell>>, rules: seq<Rule>): seq<ValidationResult> {
    if |data| <= 1 then []
    else SheetFailures(check, data[..|data| - 1], rules) + RowFailures(check, data[|data| - 1], |data| - 1, rules)
  }

  /**
   * `validateSheet(data, rules)`: the outer `data.forEach` walks the rows,
   * skipping the header; `ValidateRow` is the inner `rules.forEach`.
   */
  method ValidateSheet(data: seq<seq<Cell>>, rules: seq<Rule>) returns (results: seq<ValidationResult>)
    ensures results == SheetFailures(Check, data, rules)
  {
    results := [];
    for rowIndex := 0 to |data|
      invariant results == SheetFailures(Check, data[..rowIndex], rules)
    {
      SheetFailuresStep(Check, data, rules, rowIndex);
      if rowIndex == 0 {
        continue;
      }
      results := ValidateRow(results, data[rowIndex], rowIndex, rules);
    }
    assert data[..|data|] == data;
  }

  /** The inner `rules.forEach` of `validateSheet` on the data row at index `rowIndex`. */
  method ValidateRow(results: seq<ValidationResult>, row: seq<Cell>, rowIndex: int, rules: seq<Rule>)
    returns (pushed: seq<ValidationResult>)
    ensures pushed == results + RowFailures(Check, row, rowIndex, rules)
  {
    ghost var outcomes := Outcomes(Check, row, rowIndex, rules);
    assert outcomes[..0] == [];
    pushed := results;
    for k := 0 to |rules|
      invariant pushed == results + Failures(outcomes[..k])
    {
      FailuresStep(outcomes, k);
      pushed := ApplyRule(pushed, row, rowIndex, rules[k]);
      AppendAssoc(results, Failures(outcomes[..k]), Kept(outcomes[k]));
    }
    assert outcomes[..|rules|] == outcomes;
  }

  /**
   * The body of the inner `rules.forEach` callback: read the rule's cell,
   * dispatch on the rule type (returning early on an unrecognised one), and
   * push the result when it failed.
   */
  method ApplyRule(results: seq<ValidationResult>, row: seq<Cell>, rowIndex: int, rule: Rule)
    returns (pushed: seq<ValidationResult>)
    ensures pushed == results + Kept(Check(row, rowIndex, rule))
  {
    var cellValue := CellAt(row, rule.column);
    var actualRow := rowIndex + 1;
    var actualColumn := rule.column;
    var result: ValidationResult;
    match rule.kind {
      case Required =>
        result := ValidateRequired(cellValue, actualRow, actualColumn);
      case Format(format) =>
        result := ValidateFormat(cellValue, actualRow, actualColumn, format);
      case Range(min, max) =>
        result := ValidateRange(cellValue, actualRow, actualColumn, min, max);
      case Custom(validator) =>
        result := ValidateCustom(cellValue, actualRow, actualColumn, validator);
      case Unrecognized(_) =>
        return results;
    }
    assert Check(row, rowIndex, rule) == Some(result);
    pushed := results;
    if !result.valid {
      pushed := pushed + [result];
    }
  }

  lemma SheetFailuresStep(check: RuleCheck, data: seq<seq<Cell>>, rules: seq<Rule>, rowIndex: nat)
    requires rowIndex < |data|
    ensures SheetFailures(check, data[..rowIndex + 1], rules) ==
            if rowIndex == 0 then SheetFailures(check, data[..rowIndex], rules)
            else SheetFailures(check, data[..rowIndex], rules) + RowFailures(check, data[rowIndex], rowIndex, rules)
  {
    assert data[..rowIndex + 1][..rowIndex] == data[..rowIndex];
  }

  lemma FailuresStep(outcomes: seq<Option<ValidationResult>>, k: nat)
    requires k < |outcomes|
    ensures Failures(outcomes[..k + 1]) == Failures(outcomes[..k]) + Kept(outcomes[k])
  {
    assert outcomes[..k + 1][..k] == outcomes[..k];
  }

  lemma AppendAssoc<T>(a: seq<T>, b: seq<T>, c: seq<T>)
    ensures (a + b) + c == a + (b + c)
  {
  }
}
