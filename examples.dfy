/**
 * Concrete cases of the validation engine: the cell notation of a few cells,
 * each validator on a passing and a failing cell, and `validateSheet` on a
 * small sheet.
 */
module ValidationExamples {

  import opened Optional
  import opened Decimal
  import opened Strings
  import opened Cells
  import opened NumberParse
  import opened Formats
  import opened Validation
  import opened Sheet
  import opened SheetProperties

  lemma NotationA2()
    ensures CellNotation(2, 1) == "A2"
  {
    assert IntToString(2) == "2";
  }

  lemma NotationB3()
    ensures CellNotation(3, 2) == "B3"
  {
    assert IntToString(3) == "3";
  }

  lemma NotationB10()
    ensures CellNotation(10, 2) == "B10"
  {
    assert NatToString(1) == "1";
    assert IntToString(10) == "10";
  }

  lemma EmailShapes()
    ensures EmailShape("a@b.com") && EmailShape("a@x.com")
    ensures !EmailShape("not-an-email") && !EmailShape("bad")
  {
    assert EmailSplit("a@b.com", 1, 3);
    assert EmailSplit("a@x.com", 1, 3);
    EmailNeedsAt("not-an-email");
    EmailNeedsAt("bad");
  }

  lemma DateShapes()
    ensures MatchesDate("31/12/2024") && MatchesDate("99/99/9999")
    ensures !MatchesDate("2024-12-31")
  {
  }

  lemma ReadsFive()
    ensures ParseFloat("5") == Finite(5.0)
  {
    assert IntToString(5) + "" == "5";
    ParseIntText(5, "");
  }

  lemma ReadsTen()
    ensures ParseFloat("10") == Finite(10.0)
  {
    assert IntToString(10) + "" == "10";
    ParseIntText(10, "");
  }

  lemma ReadsFifteen()
    ensures ParseFloat("15") == Finite(15.0)
  {
    assert IntToString(15) + "" == "15";
    ParseIntText(15, "");
  }

  lemma ReadsNumericPrefix()
    ensures ParseFloat("42abc") == Finite(42.0)
  {
    assert IntToString(42) + "abc" == "42abc";
    ParseIntText(42, "abc");
  }

  lemma NoNumber()
    ensures !HasNumericPrefix("abc") && !HasNumericPrefix("")
  {
  }

  lemma RequiredUndefined()
    ensures ValidateRequired(Undef, 2, 1) ==
            ValidationResult(2, 1, "required", false, Some(Text("Cellule A2 ne peut pas être vide")))
  {
    NotationA2();
    assert "Cellule " + "A2" + " ne peut pas être vide" == "Cellule A2 ne peut pas être vide";
  }

  lemma RequiredText()
    ensures ValidateRequired(Str("x"), 2, 1).valid
    ensures !ValidateRequired(Str("   "), 2, 1).valid
  {
    assert !IsWhitespace("x"[0]);
    assert AllWhitespace("   ");
  }

  lemma EmailPasses()
    ensures ValidateFormat(Str("a@b.com"), 2, 1, "email").valid
  {
    EmailShapes();
  }

  lemma EmailFails()
    ensures ValidateFormat(Str("not-an-email"), 2, 1, "email") ==
            ValidationResult(2, 1, "format", false, Some(Text("Format email invalide en A2")))
  {
    NotationA2();
    EmailShapes();
    assert "Format email invalide en " + "A2" == "Format email invalide en A2";
  }

  lemma DatePasses()
    ensures ValidateFormat(Str("31/12/2024"), 2, 1, "date").valid
    ensures ValidateFormat(Str("99/99/9999"), 2, 1, "date").valid
  {
    DateShapes();
  }

  lemma DateFails()
    ensures !ValidateFormat(Str("2024-12-31"), 2, 1, "date").valid
  {
    DateShapes();
  }

  lemma NumberPrefix()
    ensures ValidateFormat(Str("42abc"), 2, 1, "number").valid
  {
    ReadsNumericPrefix();
  }

  lemma NumberFails()
    ensures !ValidateFormat(Str("abc"), 2, 1, "number").valid
    ensures !ValidateFormat(Str(""), 2, 1, "number").valid
  {
    NoNumber();
  }

  lemma OtherFormat()
    ensures ValidateFormat(Str("abc"), 2, 1, "phone") == ValidationResult(2, 1, "format", true, None)
  {
  }

  lemma RangeInside()
    ensures ValidateRange(Str("5"), 2, 1, 1.0, 10.0).valid
    ensures ValidateRange(Str("10"), 2, 1, 1.0, 10.0).valid
  {
    ReadsFive();
    ReadsTen();
  }

  lemma RangeOutside()
    ensures !ValidateRange(Str("15"), 2, 1, 1.0, 10.0).valid
    ensures !ValidateRange(Str("abc"), 2, 1, 1.0, 10.0).valid
  {
    ReadsFifteen();
    NoNumber();
  }

  lemma AliceEmail()
    ensures ValidateFormat(Str("a@x.com"), 2, 2, "email").valid
  {
    EmailShapes();
  }

  lemma BobEmail()
    ensures ValidateFormat(Str("bad"), 3, 2, "email") ==
            ValidationResult(3, 2, "format", false, Some(Text("Format email invalide en B3")))
  {
    EmailShapes();
    NotationB3();
    assert "Format email invalide en " + "B3" == "Format email invalide en B3";
  }

  lemma AliceRow()
    ensures RowFailures(Check, [Str("Alice"), Str("a@x.com")], 1, [Rule(2, Format("email"))]) == []
  {
    var cells := [Str("Alice"), Str("a@x.com")];
    var rule := Rule(2, Format("email"));
    RowFailuresSingle(Check, cells, 1, rule);
    AliceEmail();
    assert CellAt(cells, 2) == Str("a@x.com");
    assert Check(cells, 1, rule) == Some(ValidateFormat(Str("a@x.com"), 2, 2, "email"));
  }

  lemma BobRow()
    ensures RowFailures(Check, [Str("Bob"), Str("bad")], 2, [Rule(2, Format("email"))]) ==
            [ValidationResult(3, 2, "format", false, Some(Text("Format email invalide en B3")))]
  {
    var cells := [Str("Bob"), Str("bad")];
    var rule := Rule(2, Format("email"));
    RowFailuresSingle(Check, cells, 2, rule);
    BobEmail();
    assert CellAt(cells, 2) == Str("bad");
    assert Check(cells, 2, rule) == Some(ValidateFormat(Str("bad"), 3, 2, "email"));
  }

  /** A sheet of a header and two data rows fails where its two data rows fail, in order. */
  lemma TwoDataRows(check: RuleCheck, data: seq<seq<Cell>>, rules: seq<Rule>)
    requires |data| == 3
    ensures SheetFailures(check, data, rules) ==
            RowFailures(check, data[1], 1, rules) + RowFailures(check, data[2], 2, rules)
  {
    SheetFailuresStep(check, data, rules, 0);
    SheetFailuresStep(check, data, rules, 1);
    SheetFailuresStep(check, data, rules, 2);
    assert data[..0] == [];
    assert data[..3] == data;
  }

  /** The grid with a header, a valid and an invalid e-mail yields one failure, for B3. */
  lemma SheetExample(data: seq<seq<Cell>>, rules: seq<Rule>)
    requires data == [[Str("Name"), Str("Email")], [Str("Alice"), Str("a@x.com")], [Str("Bob"), Str("bad")]]
    requires rules == [Rule(2, Format("email"))]
    ensures SheetFailures(Check, data, rules)
            == [ValidationResult(3, 2, "format", false, Some(Text("Format email invalide en B3")))]
  {
    TwoDataRows(Check, data, rules);
    AliceRow();
    BobRow();
  }
}
