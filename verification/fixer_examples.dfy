/**
 * Worked inputs for the auto-fixer. Every fact about a string literal is
 * proved in a small lemma of its own; the results are then assembled from
 * those facts and the general lemmas of `RuleFixer`.
 */
module FixerExamples {
  import opened Strings
  import opened RuleFixer

  lemma TrimPadded(w: string)
    requires |w| > 0 && !IsJsSpace(w[0]) && !IsJsSpace(w[|w| - 1])
    ensures Trim(" " + w + " ") == w && Trim(" " + w) == w
  {
    assert (" " + w + " ")[1..] == w + " ";
    assert TrimStart(" " + w + " ") == TrimStart(w + " ") == w + " ";
    assert (w + " ")[..|w|] == w;
    assert TrimEnd(w + " ") == TrimEnd(w) == w;
    assert (" " + w)[1..] == w;
    assert TrimStart(" " + w) == TrimStart(w) == w;
  }

  /** The characters the operator loop looks for, apart from `>`. */
  predicate NoOtherOperatorChar(s: string) {
    '<' !in s && '=' !in s && '!' !in s
  }

  /** None of the operators after `>` occurs in `s`. */
  lemma OnlyGreaterThan(s: string)
    requires NoOtherOperatorChar(s)
    ensures forall i | 1 <= i < |Operators| :: !Contains(s, Operators[i])
  {
    NotContainsFirstChar(s, "<");
    NotContainsFirstChar(s, "<=");
    NotContainsFirstChar(s, "==");
    NotContainsFirstChar(s, "!=");
    NotContainsFirstTwo(s, ">=");
  }

  /** Characters whose absence lets a rule through the first four steps. */
  predicate Plain(s: string) {
    '(' !in s && ')' !in s && '"' !in s && '\'' !in s && 'i' !in s
  }

  /** A rule without parentheses, quotes or an `i` reaches the operator loop unchanged. */
  lemma PlainRule(s: string)
    requires Plain(s)
    ensures FixThen(Balanced(s)) == Start(s)
  {
    CountAbsent(s, '(');
    CountAbsent(s, ')');
    CountAbsent(s, '"');
    CountAbsent(s, '\'');
    BalancedNoop(s);
    NotContainsFirstChar(s, "if");
  }

  /** The position of the first `>` in `s`, given that none comes earlier. */
  lemma GreaterAt(s: string, i: nat)
    requires i < |s| && s[i] == '>' && forall j | 0 <= j < i :: s[j] != '>'
    ensures IndexOf(s, ">") == i && Contains(s, ">")
  {
    assert OccursAt(s, ">", i);
    forall j | 0 <= j < i ensures !OccursAt(s, ">", j) {
      assert s[j..j + 1][0] == s[j];
    }
    IndexOfIs(s, ">", i);
  }

  lemma ExplainFilledGreater()
    ensures Explain(FilledOperand(">")) == "Added missing value after \">\" operator"
  {
  }

  lemma ExplainThen()
    ensures Explain(InsertedThen) == "Added missing \"then\" keyword after conditions"
  {
  }

  /** A rule that passes every step untouched comes back unfixed. */
  lemma NothingFires(s: string)
    requires FixThen(Balanced(s)) == Start(s)
    requires !OperandMissing(s, ">")
    requires forall i | 1 <= i < |Operators| :: !Contains(s, Operators[i])
    ensures AutoFix(s, []) == FixResult(s, ["No automatic fixes applied"], 0, false)
  {
    FixOperatorsNoop(Start(s), Operators);
    NoRepair(s, []);
  }

  /** The operator loop when only `>` fires, on the state `p`. */
  lemma OnlyGreaterFires(p: Progress, out: string)
    requires OperandMissing(p.rule, ">") && Filled(p.rule, ">") == out
    requires forall i | 1 <= i < |Operators| :: !Contains(out, Operators[i])
    ensures FixOperators(p, Operators) == Record(p, out, FilledOperand(">"))
  {
    var q := FixOperator(p, ">");
    FixOperatorsNoop(q, Operators[1..]);
  }

  // ---------------------------------------------------------------------
  // `amount > ` gets a placeholder

  lemma DanglingChars()
    ensures Plain("amount > ")
  {
  }

  lemma DanglingOperatorChars()
    ensures NoOtherOperatorChar("amount > 0 ")
  {
  }

  lemma DanglingGreater()
    ensures "amount > "[7] == '>' && forall j | 0 <= j < 7 :: "amount > "[j] != '>'
  {
  }

  lemma DanglingText()
    ensures "amount > "[8..] == " " && " "[1..] == ""
    ensures "amount > "[..8] + " 0 " + "" == "amount > 0 "
  {
  }

  lemma DanglingStep(s: string)
    requires s == "amount > "
    ensures OperandMissing(s, ">") && Filled(s, ">") == "amount > 0 "
  {
    DanglingGreater();
    DanglingText();
    GreaterAt(s, 7);
  }

  lemma DanglingPlain(s: string)
    requires s == "amount > "
    ensures FixThen(Balanced(s)) == Start(s)
  {
    DanglingChars();
    PlainRule(s);
  }

  lemma DanglingRest(s: string)
    requires s == "amount > 0 "
    ensures forall i | 1 <= i < |Operators| :: !Contains(s, Operators[i])
  {
    DanglingOperatorChars();
    OnlyGreaterThan(s);
  }

  lemma DanglingRepaired(s: string)
    requires s == "amount > "
    ensures Repaired(s) == Record(Start(s), "amount > 0 ", FilledOperand(">"))
  {
    DanglingPlain(s);
    DanglingStep(s);
    DanglingRest("amount > 0 ");
    OnlyGreaterFires(Start(s), "amount > 0 ");
  }

  /** `amount > ` becomes `amount > 0 ` at a cost of 15 points. */
  lemma DanglingOperatorExample(s: string)
    requires s == "amount > "
    ensures AutoFix(s, []) == FixResult("amount > 0 ", ["Added missing value after \">\" operator"], 85, true)
  {
    DanglingRepaired(s);
    OneRepair(s, "amount > 0 ", FilledOperand(">"), []);
    ExplainFilledGreater();
  }

  // ---------------------------------------------------------------------
  // `amount > 100` is left alone

  lemma CompleteChars()
    ensures Plain("amount > 100")
  {
  }

  lemma CompleteOperatorChars()
    ensures NoOtherOperatorChar("amount > 100")
  {
  }

  lemma CompleteGreater()
    ensures "amount > 100"[7] == '>' && forall j | 0 <= j < 7 :: "amount > 100"[j] != '>'
  {
  }

  lemma CompleteEnds()
    ensures !IsJsSpace('1') && !IsJsSpace('0')
  {
  }

  lemma CompleteText()
    ensures "amount > 100"[8..] == " " + "100"
    ensures !Dangling("100")
  {
    assert "100"[..3][0] == '1' && "100"[..2][0] == '1';
  }

  lemma CompleteOthers(s: string)
    requires s == "amount > 100"
    ensures FixThen(Balanced(s)) == Start(s)
    ensures forall i | 1 <= i < |Operators| :: !Contains(s, Operators[i])
  {
    CompleteChars();
    CompleteOperatorChars();
    PlainRule(s);
    OnlyGreaterThan(s);
  }

  lemma CompleteStep(s: string)
    requires s == "amount > 100"
    ensures !OperandMissing(s, ">")
  {
    CompleteGreater();
    CompleteEnds();
    CompleteText();
    GreaterAt(s, 7);
    TrimPadded("100");
  }

  /** `amount > 100` has no defect: the original comes back with confidence 0. */
  lemma CompleteRuleExample(s: string)
    requires s == "amount > 100"
    ensures AutoFix(s, []) == FixResult("amount > 100", ["No automatic fixes applied"], 0, false)
  {
    CompleteOthers(s);
    CompleteStep(s);
    NothingFires(s);
  }

  // ---------------------------------------------------------------------
  // `a > 1 and b >`: only the first `>` is examined

  lemma FirstChars()
    ensures Plain("a > 1 and b >")
  {
  }

  lemma FirstOperatorChars()
    ensures NoOtherOperatorChar("a > 1 and b >")
  {
  }

  lemma FirstGreater()
    ensures "a > 1 and b >"[2] == '>' && forall j | 0 <= j < 2 :: "a > 1 and b >"[j] != '>'
  {
  }

  lemma FirstEnds()
    ensures !IsJsSpace('1') && !IsJsSpace('>')
  {
  }

  lemma FirstText()
    ensures "a > 1 and b >"[3..] == " " + "1 and b >"
    ensures !Dangling("1 and b >")
  {
    var t := "1 and b >";
    assert t[..3][0] == '1' && t[..2][0] == '1' && t[..4][0] == '1';
  }

  lemma FirstOthers(s: string)
    requires s == "a > 1 and b >"
    ensures FixThen(Balanced(s)) == Start(s)
    ensures forall i | 1 <= i < |Operators| :: !Contains(s, Operators[i])
  {
    FirstChars();
    FirstOperatorChars();
    PlainRule(s);
    OnlyGreaterThan(s);
  }

  lemma FirstStep(s: string)
    requires s == "a > 1 and b >"
    ensures !OperandMissing(s, ">")
  {
    FirstGreater();
    FirstEnds();
    FirstText();
    GreaterAt(s, 2);
    TrimPadded("1 and b >");
  }

  /** The trailing `>` of `a > 1 and b >` is never looked at. */
  lemma FirstOccurrenceOnlyExample(s: string)
    requires s == "a > 1 and b >"
    ensures AutoFix(s, []) == FixResult(s, ["No automatic fixes applied"], 0, false)
  {
    FirstOthers(s);
    FirstStep(s);
    NothingFires(s);
  }

  // ---------------------------------------------------------------------
  // `if a and b >`: the operator step strips the `then` just inserted

  lemma ThenChars()
    ensures '(' !in "if a and b >" && ')' !in "if a and b >"
    ensures '"' !in "if a and b >" && '\'' !in "if a and b >"
  {
  }

  lemma ThenBalanced(s: string)
    requires s == "if a and b >"
    ensures Balanced(s) == Start(s)
  {
    ThenChars();
    CountAbsent(s, '(');
    CountAbsent(s, ')');
    CountAbsent(s, '"');
    CountAbsent(s, '\'');
    BalancedNoop(s);
  }

  lemma ThenHasIf()
    ensures Contains("if a and b >", "if")
  {
    assert OccursAt("if a and b >", "if", 0);
    ContainsAt("if a and b >", "if", 0);
  }

  lemma ThenHasAnd()
    ensures Contains("if a and b >", "and")
  {
    assert OccursAt("if a and b >", "and", 5);
    ContainsAt("if a and b >", "and", 5);
  }

  lemma ThenAbsent()
    ensures !Contains("if a and b >", "then")
  {
    NotContainsFirstChar("if a and b >", "then");
  }

  lemma ThenLastAnd()
    ensures LastIndexOf("if a and b >", "and") == 5
  {
    var s := "if a and b >";
    assert OccursAt(s, "and", 5);
    forall j | 5 < j ensures !OccursAt(s, "and", j) {
      if 5 < j <= 9 { assert s[j..j + 3][0] == s[j]; }
    }
    LastIndexOfIs(s, "and", 5);
  }

  lemma ThenTail()
    ensures "if a and b >"[8..] == " b >"
    ensures IndexOf(" b >", " and ") == -1 && IndexOf(" b >", " or ") == -1
  {
    assert " b >"[0..4][1] == 'b';
  }

  lemma ThenSpliced()
    ensures "if a and b >"[..12] + " then " + "if a and b >"[12..] == "if a and b > then "
  {
  }

  lemma ThenInserted(s: string)
    requires s == "if a and b >"
    ensures FixThen(Balanced(s)) == Record(Start(s), "if a and b > then ", InsertedThen)
  {
    ThenBalanced(s);
    ThenHasIf();
    ThenHasAnd();
    ThenAbsent();
    ThenLastAnd();
    ThenTail();
    ThenSpliced();
    assert ThenMissing(s);
    assert ThenPosition(s) == 12;
  }

  lemma StrippedGreater()
    ensures "if a and b > then "[11] == '>' && forall j | 0 <= j < 11 :: "if a and b > then "[j] != '>'
    ensures !IsJsSpace('t') && !IsJsSpace('n')
  {
  }

  lemma StrippedOperatorChars()
    ensures NoOtherOperatorChar("if a and b > 0 ")
  {
  }

  lemma StrippedText()
    ensures "if a and b > then "[12..] == " " + "then" + " "
    ensures Dangling("then") && StripConnective("then") == ""
    ensures "if a and b > then "[..12] + " 0 " + "" == "if a and b > 0 "
  {
    assert "then"[..3][0] == 't' && "then"[..2][0] == 't';
  }

  lemma ThenStripped(s: string)
    requires s == "if a and b > then "
    ensures OperandMissing(s, ">") && Filled(s, ">") == "if a and b > 0 "
  {
    StrippedGreater();
    StrippedText();
    GreaterAt(s, 11);
    TrimPadded("then");
  }

  lemma ThenRest(s: string)
    requires s == "if a and b > 0 "
    ensures forall i | 1 <= i < |Operators| :: !Contains(s, Operators[i])
  {
    StrippedOperatorChars();
    OnlyGreaterThan(s);
  }

  lemma ThenDeletedRepaired(s: string)
    requires s == "if a and b >"
    ensures Repaired(s) ==
      Record(Record(Start(s), "if a and b > then ", InsertedThen), "if a and b > 0 ", FilledOperand(">"))
  {
    ThenInserted(s);
    ThenStripped("if a and b > then ");
    ThenRest("if a and b > 0 ");
    OnlyGreaterFires(FixThen(Balanced(s)), "if a and b > 0 ");
  }

  /**
   * `if a and b >` first gains ` then ` at the end; the operator step then
   * sees `then` as the text after `>`, strips it and leaves no `then` at all.
   */
  lemma ThenDeletedExample(s: string)
    requires s == "if a and b >"
    ensures AutoFix(s, []) == FixResult(
      "if a and b > 0 ",
      ["Added missing \"then\" keyword after conditions", "Added missing value after \">\" operator"],
      75, true)
  {
    ThenDeletedRepaired(s);
    TwoRepairs(s, "if a and b > then ", "if a and b > 0 ", InsertedThen, FilledOperand(">"), []);
    ExplainThen();
    ExplainFilledGreater();
  }
}
