/**
 * What the list `validateSheet` returns holds: exactly the failing results of
 * recognised rules on data rows, grouped by row in ascending row order and,
 * within a row, in the order of the rules; unrecognised rules contribute
 * nothing. The lemmas hold for every per-rule check that reports like `Check`
 * (`Reports`), and `CheckReports` shows that `Check` does.
 */
module SheetProperties {

  import opened Optional
  import opened Cells
  import opened Validation
  import opened Sheet

  /**
   * How one outcome reports on a rule: nothing exactly for an unrecognised
   * rule type, otherwise a result on the 1-based row, in the rule's column,
   * under the rule's tag.
   */
  predicate ReportsOn(o: Option<ValidationResult>, rowIndex: int, rule: Rule) {
    && (o.None? <==> rule.kind.Unrecognized?)
    && (o.Some? ==>
          o.value.row == rowIndex + 1 && o.value.column == rule.column
          && o.value.rule == Tag(rule.kind) && o.value.rule != "")
  }

  ghost predicate Reports(check: RuleCheck) {
    forall cells, rowIndex, rule :: ReportsOn(check(cells, rowIndex, rule), rowIndex, rule)
  }

  /** The check `validateSheet` applies reports as the lemmas below assume. */
  lemma CheckReports()
    ensures Reports(Check)
  {
    forall cells, rowIndex, rule
      ensures ReportsOn(Check(cells, rowIndex, rule), rowIndex, rule)
    {
    }
  }

  // ---------------------------------------------------------------------
  // The filter over outcomes
  // ---------------------------------------------------------------------

  lemma {:induction false} FailuresMembership(os: seq<Option<ValidationResult>>, r: ValidationResult)
    ensures r in Failures(os) <==> exists k | 0 <= k < |os| :: os[k] == Some(r) && !r.valid
  {
    if os != [] {
      var n := |os| - 1;
      var init := os[..n];
      FailuresMembership(init, r);
      var last := os[n] == Some(r) && !r.valid;
      assert r in Failures(os) <==> r in Failures(init) || last;
      if r in Failures(os) {
        if r in Failures(init) {
          var k :| 0 <= k < n && init[k] == Some(r) && !r.valid;
          assert os[k] == Some(r);
        }
      }
      if exists k | 0 <= k < |os| :: os[k] == Some(r) && !r.valid {
        var k :| 0 <= k < |os| && os[k] == Some(r) && !r.valid;
        if k < n {
          assert init[k] == Some(r);
        }
      }
    }
  }

  lemma {:induction false} FailuresAppend(a: seq<Option<ValidationResult>>, b: seq<Option<ValidationResult>>)
    ensures Failures(a + b) == Failures(a) + Failures(b)
  {
    if b == [] {
      assert a + b == a;
    } else {
      var n := |b| - 1;
      assert (a + b)[..|a + b| - 1] == a + b[..n];
      FailuresAppend(a, b[..n]);
    }
  }

  lemma FailuresSingle(o: Option<ValidationResult>)
    ensures Failures([o]) == Kept(o)
  {
    assert [o][..0] == [];
  }

  lemma {:induction false} FailuresLength(os: seq<Option<ValidationResult>>)
    ensures |Failures(os)| <= |os|
  {
    if os != [] {
      FailuresLength(os[..|os| - 1]);
    }
  }

  // ---------------------------------------------------------------------
  // One data row
  // ---------------------------------------------------------------------

  /** A row's list holds exactly the failing results of its rules. */
  lemma RowFailuresMembership(check: RuleCheck, cells: seq<Cell>, rowIndex: int, rules: seq<Rule>, r: ValidationResult)
    ensures r in RowFailures(check, cells, rowIndex, rules) <==>
            exists k | 0 <= k < |rules| :: check(cells, rowIndex, rules[k]) == Some(r) && !r.valid
  {
    var os := Outcomes(check, cells, rowIndex, rules);
    FailuresMembership(os, r);
    if r in RowFailures(check, cells, rowIndex, rules) {
      var k :| 0 <= k < |os| && os[k] == Some(r) && !r.valid;
      assert check(cells, rowIndex, rules[k]) == Some(r);
    }
    if exists k | 0 <= k < |rules| :: check(cells, rowIndex, rules[k]) == Some(r) && !r.valid {
      var k :| 0 <= k < |rules| && check(cells, rowIndex, rules[k]) == Some(r) && !r.valid;
      assert os[k] == Some(r);
    }
  }

  /**
   * Every result of a row is a failure reported on that row (1-based), in the
   * column and under the tag of one of the rules.
   */
  lemma RowFailuresAreFailures(check: RuleCheck, cells: seq<Cell>, rowIndex: int, rules: seq<Rule>, r: ValidationResult)
    requires Reports(check)
    requires r in RowFailures(check, cells, rowIndex, rules)
    ensures !r.valid && r.row == rowIndex + 1 && r.rule != ""
    ensures exists k | 0 <= k < |rules| :: rules[k].column == r.column && Tag(rules[k].kind) == r.rule
  {
    RowFailuresMembership(check, cells, rowIndex, rules, r);
    var k :| 0 <= k < |rules| && check(cells, rowIndex, rules[k]) == Some(r) && !r.valid;
    assert ReportsOn(check(cells, rowIndex, rules[k]), rowIndex, rules[k]);
  }

  /** Within a row, the results follow the order of the rules. */
  lemma RowFailuresAppend(check: RuleCheck, cells: seq<Cell>, rowIndex: int, first: seq<Rule>, second: seq<Rule>)
    ensures RowFailures(check, cells, rowIndex, first + second) ==
            RowFailures(check, cells, rowIndex, first) + RowFailures(check, cells, rowIndex, second)
  {
    var a := Outcomes(check, cells, rowIndex, first);
    var b := Outcomes(check, cells, rowIndex, second);
    var ab := Outcomes(check, cells, rowIndex, first + second);
    forall k | 0 <= k < |ab|
      ensures ab[k] == (a + b)[k]
    {
      if k < |first| {
        assert (first + second)[k] == first[k];
      } else {
        assert (first + second)[k] == second[k - |first|];
      }
    }
    assert ab == a + b;
    FailuresAppend(a, b);
  }

  /** A single rule contributes its result exactly when that result failed. */
  lemma RowFailuresSingle(check: RuleCheck, cells: seq<Cell>, rowIndex: int, rule: Rule)
    ensures RowFailures(check, cells, rowIndex, [rule]) == Kept(check(cells, rowIndex, rule))
  {
    var os := Outcomes(check, cells, rowIndex, [rule]);
    assert os == [check(cells, rowIndex, rule)];
    FailuresSingle(os[0]);
  }

  /** The rules whose type `validateSheet` recognises, in order. */
  function Recognized(rules: seq<Rule>): (kept: seq<Rule>)
    ensures |kept| <= |rules|
    ensures forall rule | rule in kept :: rule in rules && !rule.kind.Unrecognized?
    ensures forall rule | rule in rules && !rule.kind.Unrecognized? :: rule in kept
  {
    if rules == [] then []
    else
      var n := |rules| - 1;
      assert rules == rules[..n] + [rules[n]];
      Recognized(rules[..n]) + (if rules[n].kind.Unrecognized? then [] else [rules[n]])
  }

  /** The recognised rules of two lists in a row are those of each, in the same order. */
  lemma {:induction false} RecognizedAppend(a: seq<Rule>, b: seq<Rule>)
    ensures Recognized(a + b) == Recognized(a) + Recognized(b)
  {
    if b != [] {
      var n := |b| - 1;
      assert (a + b)[..|a + b| - 1] == a + b[..n];
      assert (a + b)[|a + b| - 1] == b[n];
      RecognizedAppend(a, b[..n]);
    } else {
      assert a + b == a;
    }
  }

  /** Dropping the rules of an unrecognised type leaves a row's results unchanged. */
  lemma {:induction false} RowIgnoresUnrecognized(check: RuleCheck, cells: seq<Cell>, rowIndex: int, rules: seq<Rule>)
    requires Reports(check)
    ensures RowFailures(check, cells, rowIndex, rules) == RowFailures(check, cells, rowIndex, Recognized(rules))
  {
    if rules != [] {
      var n := |rules| - 1;
      var init := rules[..n];
      assert rules == init + [rules[n]];
      RowIgnoresUnrecognized(check, cells, rowIndex, init);
      RowFailuresAppend(check, cells, rowIndex, init, [rules[n]]);
      RowFailuresSingle(check, cells, rowIndex, rules[n]);
      assert ReportsOn(check(cells, rowIndex, rules[n]), rowIndex, rules[n]);
      if rules[n].kind.Unrecognized? {
        assert Recognized(rules) == Recognized(init);
      } else {
        assert Recognized(rules) == Recognized(init) + [rules[n]];
        RowFailuresAppend(check, cells, rowIndex, Recognized(init), [rules[n]]);
      }
    }
  }

  // ---------------------------------------------------------------------
  // The whole sheet
  // ---------------------------------------------------------------------

  /** A failure of a data row's list is in the sheet's list. */
  lemma {:induction false} SheetFailureFromRow(check: RuleCheck, data: seq<seq<Cell>>, rules: seq<Rule>, i: int, r: ValidationResult)
    requires 1 <= i < |data| && r in RowFailures(check, data[i], i, rules)
    ensures r in SheetFailures(check, data, rules)
  {
    var n := |data| - 1;
    var before := SheetFailures(check, data[..n], rules);
    assert SheetFailures(check, data, rules) == before + RowFailures(check, data[n], n, rules);
    if i < n {
      assert data[..n][i] == data[i];
      SheetFailureFromRow(check, data[..n], rules, i, r);
    }
  }

  /** Every result in the sheet's list comes from the list of one data row. */
  lemma {:induction false} SheetFailureRow(check: RuleCheck, data: seq<seq<Cell>>, rules: seq<Rule>, r: ValidationResult) returns (i: int)
    requires r in SheetFailures(check, data, rules)
    ensures 1 <= i < |data| && r in RowFailures(check, data[i], i, rules)
  {
    var n := |data| - 1;
    if r in RowFailures(check, data[n], n, rules) {
      i := n;
    } else {
      i := SheetFailureRow(check, data[..n], rules, r);
      assert data[..n][i] == data[i];
    }
  }

  /** The sheet's list holds exactly the failing results of the rules on the data rows. */
  lemma SheetFailuresMembership(check: RuleCheck, data: seq<seq<Cell>>, rules: seq<Rule>, r: ValidationResult)
    ensures r in SheetFailures(check, data, rules) <==>
            exists i, k | 1 <= i < |data| && 0 <= k < |rules| ::
              check(data[i], i, rules[k]) == Some(r) && !r.valid
  {
    if r in SheetFailures(check, data, rules) {
      var i := SheetFailureRow(check, data, rules, r);
      RowFailuresMembership(check, data[i], i, rules, r);
    }
    if exists i, k | 1 <= i < |data| && 0 <= k < |rules| :: check(data[i], i, rules[k]) == Some(r) && !r.valid {
      var i, k :| 1 <= i < |data| && 0 <= k < |rules| && check(data[i], i, rules[k]) == Some(r) && !r.valid;
      RowFailuresMembership(check, data[i], i, rules, r);
      SheetFailureFromRow(check, data, rules, i, r);
    }
  }

  /** Every result names a data row: never the header (row 1), never past the last row. */
  lemma {:induction false} SheetFailuresRows(check: RuleCheck, data: seq<seq<Cell>>, rules: seq<Rule>)
    requires Reports(check)
    ensures forall r | r in SheetFailures(check, data, rules) :: 2 <= r.row <= |data| && !r.valid
  {
    if |data| > 1 {
      var n := |data| - 1;
      SheetFailuresRows(check, data[..n], rules);
      forall r | r in RowFailures(check, data[n], n, rules)
        ensures r.row == |data| && !r.valid
      {
        RowFailuresAreFailures(check, data[n], n, rules, r);
      }
    }
  }

  /**
   * Every result is a failure on a data row (rows are 1-based, the header is
   * row 1), in the column and under the tag of one of the rules.
   */
  lemma SheetFailuresAreFailures(check: RuleCheck, data: seq<seq<Cell>>, rules: seq<Rule>, r: ValidationResult)
    requires Reports(check)
    requires r in SheetFailures(check, data, rules)
    ensures !r.valid && 2 <= r.row <= |data| && r.rule != ""
    ensures exists k | 0 <= k < |rules| :: rules[k].column == r.column && Tag(rules[k].kind) == r.rule
  {
    var i := SheetFailureRow(check, data, rules, r);
    RowFailuresAreFailures(check, data[i], i, rules, r);
  }

  /** The row numbers of `results` never decrease. */
  predicate RowsAscending(results: seq<ValidationResult>) {
    forall a, b | 0 <= a < b < |results| :: results[a].row <= results[b].row
  }

  /** Rows up to `bound` in ascending order, followed by rows all equal to `bound + 1`. */
  lemma AscendingAppend(earlier: seq<ValidationResult>, last: seq<ValidationResult>, bound: int)
    requires RowsAscending(earlier)
    requires forall r | r in earlier :: r.row <= bound
    requires forall r | r in last :: r.row == bound + 1
    ensures RowsAscending(earlier + last)
  {
    var all := earlier + last;
    forall a, b | 0 <= a < b < |all|
      ensures all[a].row <= all[b].row
    {
      if b >= |earlier| {
        assert all[b] == last[b - |earlier|];
        if a >= |earlier| {
          assert all[a] == last[a - |earlier|];
        } else {
          assert all[a] == earlier[a];
        }
      } else {
        assert all[a] == earlier[a] && all[b] == earlier[b];
      }
    }
  }

  /** The results come row by row: their row numbers never decrease. */
  lemma {:induction false} SheetRowsAscending(check: RuleCheck, data: seq<seq<Cell>>, rules: seq<Rule>)
    requires Reports(check)
    ensures RowsAscending(SheetFailures(check, data, rules))
  {
    if |data| > 1 {
      var n := |data| - 1;
      var last := RowFailures(check, data[n], n, rules);
      SheetRowsAscending(check, data[..n], rules);
      SheetFailuresRows(check, data[..n], rules);
      forall r | r in last
        ensures r.row == n + 1
      {
        RowFailuresAreFailures(check, data[n], n, rules, r);
      }
      AscendingAppend(SheetFailures(check, data[..n], rules), last, n);
    }
  }

  /** At most one result per rule per data row. */
  lemma {:induction false} SheetFailuresLength(check: RuleCheck, data: seq<seq<Cell>>, rules: seq<Rule>)
    ensures |SheetFailures(check, data, rules)| <= if |data| <= 1 then 0 else (|data| - 1) * |rules|
  {
    if |data| > 1 {
      var n := |data| - 1;
      SheetFailuresLength(check, data[..n], rules);
      FailuresLength(Outcomes(check, data[n], n, rules));
      LengthStep(|SheetFailures(check, data[..n], rules)|, |RowFailures(check, data[n], n, rules)|, n, |rules|);
    }
  }

  lemma LengthStep(earlier: int, last: int, n: int, m: int)
    requires n >= 1 && earlier <= (if n <= 1 then 0 else (n - 1) * m) && last <= m
    ensures earlier + last <= n * m
  {
    assert (n - 1) * m + m == n * m;
  }

  /** Dropping the rules of an unrecognised type leaves the sheet's results unchanged. */
  lemma {:induction false} SheetIgnoresUnrecognized(check: RuleCheck, data: seq<seq<Cell>>, rules: seq<Rule>)
    requires Reports(check)
    ensures SheetFailures(check, data, rules) == SheetFailures(check, data, Recognized(rules))
  {
    if |data| > 1 {
      var n := |data| - 1;
      SheetIgnoresUnrecognized(check, data[..n], rules);
      RowIgnoresUnrecognized(check, data[n], n, rules);
    }
  }

  // ---------------------------------------------------------------------
  // The rule check of `validateSheet`
  // ---------------------------------------------------------------------

  /** A rule sees only the cell in its own column of the row. */
  lemma CheckReadsOwnCell(cells: seq<Cell>, other: seq<Cell>, rowIndex: int, rule: Rule)
    requires CellAt(cells, rule.column) == CellAt(other, rule.column)
    ensures Check(cells, rowIndex, rule) == Check(other, rowIndex, rule)
  {
  }

  /**
   * A column past the end of the row (or below 1) reads as undefined, so a
   * `required` rule on it fails, reported at row `rowIndex + 1` and that column.
   */
  lemma MissingCellFailsRequired(cells: seq<Cell>, rowIndex: int, column: int)
    requires !(1 <= column <= |cells|)
    ensures var r := Check(cells, rowIndex, Rule(column, Required));
            r.Some? && !r.value.valid && r.value.message.Some?
            && r.value.row == rowIndex + 1 && r.value.column == column
  {
  }

  /**
   * What `validateSheet` returns: failures only, on data rows only, in
   * ascending row order, and the same as with the unrecognised rules removed.
   */
  lemma ValidateSheetReports(data: seq<seq<Cell>>, rules: seq<Rule>)
    ensures forall r | r in SheetFailures(Check, data, rules) :: !r.valid && 2 <= r.row <= |data|
    ensures RowsAscending(SheetFailures(Check, data, rules))
    ensures SheetFailures(Check, data, rules) == SheetFailures(Check, data, Recognized(rules))
  {
    CheckReports();
    SheetFailuresRows(Check, data, rules);
    SheetRowsAscending(Check, data, rules);
    SheetIgnoresUnrecognized(Check, data, rules);
  }
}
