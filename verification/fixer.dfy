/**
 * The heuristic rule auto-fixer (`autoFixRule`): five textual repairs
 * applied in a fixed order to a rule expression, each appending one
 * explanation and lowering an integer confidence score.
 */
module RuleFixer {
  import opened Strings

  /** What `autoFixRule` returns. */
  datatype FixResult = FixResult(
    fixedRule: string,
    fixExplanations: seq<string>,
    confidenceScore: int,
    wasFixed: bool)

  /** One repair that fired. */
  datatype Fix =
    | ClosedParens(count: nat)
    | ClosedDoubleQuote
    | ClosedSingleQuote
    | InsertedThen
    | FilledOperand(op: string)

  /** The explanation the source records for a repair. */
  function Explain(f: Fix): string {
    match f
    case ClosedParens(k) => "Added " + NatToString(k) + " missing closing parenthesis"
    case ClosedDoubleQuote => "Added missing closing quote"
    case ClosedSingleQuote => "Added missing closing quote"
    case InsertedThen => "Added missing \"then\" keyword after conditions"
    case FilledOperand(op) => "Added missing value after \"" + op + "\" operator"
  }

  /** The confidence points a repair costs. */
  function Penalty(f: Fix): nat {
    match f
    case ClosedParens(k) => 5 * k
    case ClosedDoubleQuote => 5
    case ClosedSingleQuote => 5
    case InsertedThen => 10
    case FilledOperand(_) => 15
  }

  function TotalPenalty(fs: seq<Fix>): nat
    decreases |fs|
  {
    if |fs| == 0 then 0 else TotalPenalty(fs[..|fs| - 1]) + Penalty(fs[|fs| - 1])
  }

  function Explanations(fs: seq<Fix>): (es: seq<string>)
    ensures |es| == |fs|
    decreases |fs|
  {
    if |fs| == 0 then [] else Explanations(fs[..|fs| - 1]) + [Explain(fs[|fs| - 1])]
  }

  /**
   * The local variables of `autoFixRule` between steps: the rule text,
   * the explanations and the running confidence; `fixes` logs which
   * repairs fired.
   */
  datatype Progress = Progress(rule: string, explanations: seq<string>, confidence: int, fixes: seq<Fix>)

  /** The explanations and the confidence agree with the log of repairs. */
  predicate Accounted(p: Progress) {
    && p.explanations == Explanations(p.fixes)
    && p.confidence == 100 - TotalPenalty(p.fixes)
  }

  /** `q` is `p` with one more repair `f` recorded. */
  predicate Recorded(p: Progress, q: Progress, f: Fix) {
    && q.fixes == p.fixes + [f]
    && q.explanations == p.explanations + [Explain(f)]
    && q.confidence == p.confidence - Penalty(f)
  }

  /** Record a repair that produced `rule`. */
  function Record(p: Progress, rule: string, f: Fix): (q: Progress)
    ensures q.rule == rule && Recorded(p, q, f)
  {
    Progress(rule, p.explanations + [Explain(f)], p.confidence - Penalty(f), p.fixes + [f])
  }

  /** Recording a repair keeps the explanations and the score in step with the log. */
  lemma RecordedAccounted(p: Progress, q: Progress, f: Fix)
    requires Accounted(p) && Recorded(p, q, f)
    ensures Accounted(q)
  {
    var fs := p.fixes + [f];
    assert fs[..|fs| - 1] == p.fixes;
  }

  function Start(rule: string): (p: Progress)
    ensures Accounted(p) && p.rule == rule && p.fixes == []
  {
    Progress(rule, [], 100, [])
  }

  // ---------------------------------------------------------------------
  // step 1: parentheses

  function FixParens(p: Progress): (q: Progress)
    ensures Count(q.rule, '(') <= Count(q.rule, ')')
    ensures Count(p.rule, '(') > Count(p.rule, ')') ==>
      var k := Count(p.rule, '(') - Count(p.rule, ')');
      && q.rule == p.rule + Repeat(')', k)
      && Recorded(p, q, ClosedParens(k))
    ensures Count(p.rule, '(') <= Count(p.rule, ')') ==> q == p
    ensures forall c | c != ')' :: Count(q.rule, c) == Count(p.rule, c)
  {
    var opens := Count(p.rule, '(');
    var closes := Count(p.rule, ')');
    if opens > closes then
      var k := opens - closes;
      var rule := p.rule + Repeat(')', k);
      assert forall c :: Count(rule, c) == Count(p.rule, c) + (if c == ')' then k else 0) by {
        forall c ensures Count(rule, c) == Count(p.rule, c) + (if c == ')' then k else 0) {
          CountAppend(p.rule, Repeat(')', k), c);
          CountRepeat(')', c, k);
        }
      }
      Record(p, rule, ClosedParens(k))
    else
      p
  }

  // ---------------------------------------------------------------------
  // steps 2 and 3: quotes

  function QuoteFix(quote: char): Fix {
    if quote == '"' then ClosedDoubleQuote else ClosedSingleQuote
  }

  /** Close an odd number of `quote` characters with one more. */
  function FixQuote(p: Progress, quote: char): (q: Progress)
    ensures Count(q.rule, quote) % 2 == 0
    ensures forall c | c != quote :: Count(q.rule, c) == Count(p.rule, c)
    ensures Count(p.rule, quote) % 2 != 0 ==>
      q.rule == p.rule + [quote] && Recorded(p, q, QuoteFix(quote))
    ensures Count(p.rule, quote) % 2 == 0 ==> q == p
  {
    if Count(p.rule, quote) % 2 != 0 then
      var rule := p.rule + [quote];
      forall c ensures Count(rule, c) == Count(p.rule, c) + (if c == quote then 1 else 0) {
        CountAppend(p.rule, [quote], c);
        assert [quote][1..] == [];
      }
      Record(p, rule, QuoteFix(quote))
    else
      p
  }

  // ---------------------------------------------------------------------
  // step 4: the missing `then`

  /** The condition under which the `then` repair fires. */
  predicate ThenMissing(s: string) {
    Contains(s, "if") && !Contains(s, "then") && Contains(s, "and")
  }

  /** `Math.min` over the two searches, with -1 standing for `Infinity`. */
  function FirstFound(a: int, b: int): int {
    if a == -1 then b else if b == -1 then a else if a <= b then a else b
  }

  /** Where ` then ` is inserted: the first ` and `/` or ` after the last `and`, else the end. */
  function ThenPosition(s: string): (i: nat)
    requires Contains(s, "and")
    ensures i <= |s|
  {
    var andEnd := LastIndexOf(s, "and") + 3;
    var tail := s[andEnd..];
    var next := FirstFound(IndexOf(tail, " and "), IndexOf(tail, " or "));
    if next != -1 then andEnd + next else |s|
  }

  function FixThen(p: Progress): (q: Progress)
    ensures ThenMissing(p.rule) ==>
      var i := ThenPosition(p.rule);
      && q.rule == p.rule[..i] + " then " + p.rule[i..]
      && Recorded(p, q, InsertedThen)
    ensures !ThenMissing(p.rule) ==> q == p
  {
    if ThenMissing(p.rule) then
      var i := ThenPosition(p.rule);
      Record(p, p.rule[..i] + " then " + p.rule[i..], InsertedThen)
    else
      p
  }

  lemma InsertedThenFound(s: string, i: nat)
    requires i <= |s|
    ensures Contains(s[..i] + " then " + s[i..], "then")
  {
    var r := s[..i] + " then " + s[i..];
    OccursInMiddle(s[..i], " then ", s[i..]);
    OccursInside(r, " then ", i, 1, 5);
    assert " then "[1..5] == "then";
    ContainsAt(r, "then", i + 1);
  }

  /** After the `then` repair the text contains `then`. */
  lemma FixThenInserts(p: Progress)
    requires ThenMissing(p.rule)
    ensures Contains(FixThen(p).rule, "then")
  {
    InsertedThenFound(p.rule, ThenPosition(p.rule));
  }

  /** No ` and ` follows the last `and`. */
  lemma NoAndAfterLast(s: string)
    requires Contains(s, "and")
    ensures LastIndexOf(s, "and") != -1
    ensures IndexOf(s[LastIndexOf(s, "and") + 3..], " and ") == -1
  {
    ContainsIff(s, "and");
    LastIndexOfLast(s, "and");
    var andEnd := LastIndexOf(s, "and") + 3;
    var tail := s[andEnd..];
    var j := IndexOf(tail, " and ");
    if j != -1 {
      OccursInside(tail, " and ", j, 1, 4);
      assert " and "[1..4] == "and";
      OccursInSuffix(s, andEnd, "and", j + 1);
      assert false;
    }
  }

  /**
   * No ` and ` can follow the last `and`, so ` then ` lands right before the
   * first ` or ` after the last `and`, or at the very end when there is none.
   */
  lemma ThenPositionIsBeforeOr(s: string)
    requires Contains(s, "and")
    ensures var andEnd := LastIndexOf(s, "and") + 3;
      var tail := s[andEnd..];
      && IndexOf(tail, " and ") == -1
      && (IndexOf(tail, " or ") == -1 ==> ThenPosition(s) == |s|)
      && (IndexOf(tail, " or ") != -1 ==>
            ThenPosition(s) == andEnd + IndexOf(tail, " or ") && OccursAt(s, " or ", ThenPosition(s)))
  {
    NoAndAfterLast(s);
    var andEnd := LastIndexOf(s, "and") + 3;
    var tail := s[andEnd..];
    var o := IndexOf(tail, " or ");
    if o != -1 {
      OccursInSuffix(s, andEnd, " or ", o);
    }
  }

  // ---------------------------------------------------------------------
  // step 5: a comparison operator without an operand

  /** The operators in the order the source checks them. */
  const Operators: seq<string> := [">", "<", ">=", "<=", "==", "!="]

  /** The trimmed tail lacks an operand: it is empty or starts with a connective. */
  predicate Dangling(after: string) {
    after == "" || StartsWith(after, "and") || StartsWith(after, "or") || StartsWith(after, "then")
  }

  /** `after.replace(/^(and|or|then)/, '')`. */
  function StripConnective(after: string): (r: string)
    ensures |r| <= |after| && r == after[|after| - |r|..]
  {
    if StartsWith(after, "and") then after[3..]
    else if StartsWith(after, "or") then after[2..]
    else if StartsWith(after, "then") then after[4..]
    else after
  }

  /** The trimmed text after the first occurrence of `op`. */
  function AfterOperator(s: string, op: string): string
    requires Contains(s, op)
  {
    Trim(s[IndexOf(s, op) + |op|..])
  }

  /** Whether the repair for `op` fires on `s`. */
  predicate OperandMissing(s: string, op: string) {
    Contains(s, op) && Dangling(AfterOperator(s, op))
  }

  /** The text with ` 0 ` placed after the operator and a leading connective dropped. */
  function Filled(s: string, op: string): string
    requires OperandMissing(s, op)
  {
    s[..IndexOf(s, op) + |op|] + " 0 " + StripConnective(AfterOperator(s, op))
  }

  function FixOperator(p: Progress, op: string): (q: Progress)
    ensures OperandMissing(p.rule, op) ==> q.rule == Filled(p.rule, op) && Recorded(p, q, FilledOperand(op))
    ensures !OperandMissing(p.rule, op) ==> q == p
  {
    if OperandMissing(p.rule, op) then Record(p, Filled(p.rule, op), FilledOperand(op)) else p
  }

  /** The loop over the operator table. */
  function FixOperators(p: Progress, ops: seq<string>): (q: Progress)
    ensures |p.fixes| <= |q.fixes| <= |p.fixes| + |ops|
    decreases |ops|
  {
    if |ops| == 0 then p else FixOperators(FixOperator(p, ops[0]), ops[1..])
  }

  /** One operator step leaves the log alone or appends one operand repair for `op`. */
  lemma FixOperatorLog(p: Progress, op: string)
    ensures var q := FixOperator(p, op);
      q.fixes == p.fixes || q.fixes == p.fixes + [FilledOperand(op)]
  {
  }

  /** Glue for the induction step of `FixOperatorsAppend`, stated on logs alone. */
  lemma ExtendLog(a: seq<Fix>, b: seq<Fix>, c: seq<Fix>, ops: seq<string>)
    requires |ops| > 0
    requires b == a || b == a + [FilledOperand(ops[0])]
    requires |b| <= |c| && c[..|b|] == b
    requires forall k | |b| <= k < |c| :: c[k].FilledOperand? && c[k].op in ops[1..]
    ensures |a| <= |c| && c[..|a|] == a
    ensures forall k | |a| <= k < |c| :: c[k].FilledOperand? && c[k].op in ops
  {
    assert c[..|a|] == c[..|b|][..|a|];
    forall k | |a| <= k < |c|
      ensures c[k].FilledOperand? && c[k].op in ops
    {
      if k < |b| {
        assert c[k] == c[..|b|][k] == b[k] == FilledOperand(ops[0]);
      } else {
        assert c[k].op in ops[1..];
      }
    }
  }

  /** The operator loop only appends to the log, and only operand repairs. */
  lemma {:induction false} FixOperatorsAppend(p: Progress, ops: seq<string>)
    ensures var q := FixOperators(p, ops);
      && q.fixes[..|p.fixes|] == p.fixes
      && forall k | |p.fixes| <= k < |q.fixes| :: q.fixes[k].FilledOperand? && q.fixes[k].op in ops
    decreases |ops|
  {
    if |ops| > 0 {
      var p1 := FixOperator(p, ops[0]);
      FixOperatorLog(p, ops[0]);
      FixOperatorsAppend(p1, ops[1..]);
      ExtendLog(p.fixes, p1.fixes, FixOperators(p1, ops[1..]).fixes, ops);
    }
  }

  lemma {:induction false} FixOperatorsAccounted(p: Progress, ops: seq<string>)
    requires Accounted(p)
    ensures Accounted(FixOperators(p, ops))
    decreases |ops|
  {
    if |ops| > 0 {
      var q := FixOperator(p, ops[0]);
      if OperandMissing(p.rule, ops[0]) {
        RecordedAccounted(p, q, FilledOperand(ops[0]));
      }
      FixOperatorsAccounted(q, ops[1..]);
    }
  }

  /** When no operand is missing the operator loop changes nothing. */
  lemma {:induction false} FixOperatorsNoop(p: Progress, ops: seq<string>)
    requires forall i | 0 <= i < |ops| :: !OperandMissing(p.rule, ops[i])
    ensures FixOperators(p, ops) == p
    decreases |ops|
  {
    if |ops| > 0 {
      assert !OperandMissing(p.rule, ops[0]);
      FixOperatorsNoop(p, ops[1..]);
    }
  }

  // ---------------------------------------------------------------------
  // the whole fixer

  /** The state after the three balancing steps. */
  function Balanced(rule: string): Progress {
    FixQuote(FixQuote(FixParens(Start(rule)), '"'), '\'')
  }

  /** The state after all five steps. */
  function Repaired(rule: string): Progress {
    FixOperators(FixThen(Balanced(rule)), Operators)
  }

  /** The repairs that fire on `rule`, in the order they fire. */
  function Fixes(rule: string): seq<Fix> {
    Repaired(rule).fixes
  }

  /**
   * Each step pushes exactly the explanation and subtracts exactly the
   * penalty of the repair it logs, so the running values end up equal to
   * the explanations of the log and 100 minus the sum of its penalties.
   */
  lemma RepairedAccounted(rule: string)
    ensures Accounted(Repaired(rule))
  {
    var p0 := Start(rule);
    var p1 := FixParens(p0);
    if Count(rule, '(') > Count(rule, ')') {
      RecordedAccounted(p0, p1, ClosedParens(Count(rule, '(') - Count(rule, ')')));
    }
    var p2 := FixQuote(p1, '"');
    if Count(p1.rule, '"') % 2 != 0 {
      RecordedAccounted(p1, p2, ClosedDoubleQuote);
    }
    var p3 := FixQuote(p2, '\'');
    if Count(p2.rule, '\'') % 2 != 0 {
      RecordedAccounted(p2, p3, ClosedSingleQuote);
    }
    var p4 := FixThen(p3);
    if ThenMissing(p3.rule) {
      RecordedAccounted(p3, p4, InsertedThen);
    }
    FixOperatorsAccounted(p4, Operators);
  }

  /** Balanced text passes the first three steps untouched. */
  lemma BalancedNoop(rule: string)
    requires Count(rule, '(') <= Count(rule, ')')
    requires Count(rule, '"') % 2 == 0 && Count(rule, '\'') % 2 == 0
    ensures Balanced(rule) == Start(rule)
  {
  }

  /** The result when nothing fires. */
  lemma NoRepair(rule: string, errors: seq<string>)
    requires Repaired(rule) == Start(rule)
    ensures AutoFix(rule, errors) == FixResult(rule, ["No automatic fixes applied"], 0, false)
  {
  }

  /** The result when something fires is the final state of the steps. */
  lemma SomeRepair(rule: string, errors: seq<string>)
    requires |Repaired(rule).explanations| > 0
    ensures var p := Repaired(rule);
      AutoFix(rule, errors) == FixResult(p.rule, p.explanations, p.confidence, true)
  {
  }

  /** The result when exactly one repair `f` fires and produces `out`. */
  lemma OneRepair(rule: string, out: string, f: Fix, errors: seq<string>)
    requires Repaired(rule) == Record(Start(rule), out, f)
    ensures AutoFix(rule, errors) == FixResult(out, [Explain(f)], 100 - Penalty(f), true)
  {
    assert Repaired(rule).explanations == [Explain(f)];
    SomeRepair(rule, errors);
  }

  /** The result when `f1` fires, producing `mid`, and then `f2`, producing `out`. */
  lemma TwoRepairs(rule: string, mid: string, out: string, f1: Fix, f2: Fix, errors: seq<string>)
    requires Repaired(rule) == Record(Record(Start(rule), mid, f1), out, f2)
    ensures AutoFix(rule, errors) ==
      FixResult(out, [Explain(f1), Explain(f2)], 100 - Penalty(f1) - Penalty(f2), true)
  {
    TwoRecorded(rule, mid, out, f1, f2);
    SomeRepair(rule, errors);
  }

  lemma TwoRecorded(rule: string, mid: string, out: string, f1: Fix, f2: Fix)
    ensures var q := Record(Record(Start(rule), mid, f1), out, f2);
      && q.rule == out
      && q.explanations == [Explain(f1), Explain(f2)]
      && q.confidence == 100 - Penalty(f1) - Penalty(f2)
  {
  }

  /** At most one repair per step and one per operator: ten in all. */
  lemma FixCountBound(rule: string)
    ensures |Fixes(rule)| <= 10
  {
    var p3 := Balanced(rule);
    assert |p3.fixes| <= 3;
    assert |FixThen(p3).fixes| <= 4;
  }

  /**
   * `autoFixRule(ruleCode, errors)`. The errors are accepted and never
   * consulted.
   */
  function AutoFix(rule: string, errors: seq<string>): (r: FixResult)
    ensures r.wasFixed <==> |Fixes(rule)| > 0
    ensures !r.wasFixed ==> r == FixResult(rule, ["No automatic fixes applied"], 0, false)
    ensures r.wasFixed ==>
      && r.fixedRule == Repaired(rule).rule
      && r.fixExplanations == Explanations(Fixes(rule))
      && r.confidenceScore == 100 - TotalPenalty(Fixes(rule))
    ensures 1 <= |r.fixExplanations| <= 10
    ensures Count(r.fixedRule, '(') <= Count(r.fixedRule, ')')
    ensures Count(r.fixedRule, '"') % 2 == 0
    ensures Count(r.fixedRule, '\'') % 2 == 0
  {
    var p := Repaired(rule);
    RepairedAccounted(rule);
    FixedRuleBalanced(rule);
    FixCountBound(rule);
    if |p.explanations| == 0 then
      FixResult(rule, ["No automatic fixes applied"], 0, false)
    else
      FixResult(p.rule, p.explanations, p.confidence, true)
  }

  /** Characters none of the last two steps adds, deletes or trims away. */
  predicate Structural(c: char) {
    c == '(' || c == ')' || c == '"' || c == '\''
  }

  lemma InsertedThenKeepsStructural(s: string, i: nat, c: char)
    requires i <= |s| && Structural(c)
    ensures Count(s[..i] + " then " + s[i..], c) == Count(s, c)
  {
    assert s == s[..i] + s[i..];
    CountAppend(s[..i], s[i..], c);
    CountAppend(s[..i], " then ", c);
    CountAppend(s[..i] + " then ", s[i..], c);
    CountAbsent(" then ", c);
  }

  lemma FixThenKeepsStructural(p: Progress, c: char)
    requires Structural(c)
    ensures Count(FixThen(p).rule, c) == Count(p.rule, c)
  {
    if ThenMissing(p.rule) {
      InsertedThenKeepsStructural(p.rule, ThenPosition(p.rule), c);
    }
  }

  /** No structural character occurs in the connectives or in the inserted texts. */
  lemma StructuralAbsent(c: char)
    requires Structural(c)
    ensures c !in "and" && c !in "or" && c !in "then" && c !in " 0 " && c !in " then "
  {
  }

  /** Dropping a leading word without `c` keeps the count of `c`. */
  lemma DropKeepsCount(a: string, w: string, c: char)
    requires StartsWith(a, w) && c !in w
    ensures Count(a[|w|..], c) == Count(a, c)
  {
    assert a == w + a[|w|..];
    CountAppend(w, a[|w|..], c);
    CountAbsent(w, c);
  }

  lemma StripKeepsStructural(a: string, c: char)
    requires Structural(c)
    ensures Count(StripConnective(a), c) == Count(a, c)
  {
    StructuralAbsent(c);
    if StartsWith(a, "and") {
      DropKeepsCount(a, "and", c);
    } else if StartsWith(a, "or") {
      DropKeepsCount(a, "or", c);
    } else if StartsWith(a, "then") {
      DropKeepsCount(a, "then", c);
    }
  }

  /** Replacing the tail `t` by ` 0 ` and its stripped, trimmed form keeps structural counts. */
  lemma SpliceKeepsStructural(pre: string, t: string, c: char)
    requires Structural(c)
    ensures Count(pre + " 0 " + StripConnective(Trim(t)), c) == Count(pre + t, c)
  {
    var r := StripConnective(Trim(t));
    CountAppend(pre, t, c);
    CountAppend(pre, " 0 ", c);
    CountAppend(pre + " 0 ", r, c);
    assert Count(" 0 ", c) == 0;
    TrimKeepsCount(t, c);
    StripKeepsStructural(Trim(t), c);
  }

  /** Filling in an operand keeps the text through the operator and adds ` 0 `. */
  lemma FilledKeepsStructural(s: string, op: string, c: char)
    requires OperandMissing(s, op) && Structural(c)
    ensures Count(Filled(s, op), c) == Count(s, c)
  {
    var i := IndexOf(s, op) + |op|;
    assert s == s[..i] + s[i..];
    SpliceKeepsStructural(s[..i], s[i..], c);
  }

  lemma {:induction false} FixOperatorsKeepStructural(p: Progress, ops: seq<string>, c: char)
    requires Structural(c)
    ensures Count(FixOperators(p, ops).rule, c) == Count(p.rule, c)
    decreases |ops|
  {
    if |ops| > 0 {
      if OperandMissing(p.rule, ops[0]) {
        FilledKeepsStructural(p.rule, ops[0], c);
      }
      FixOperatorsKeepStructural(FixOperator(p, ops[0]), ops[1..], c);
    }
  }

  /** The three balancing steps leave `(` closed and both quote counts even. */
  lemma BalancedCounts(rule: string)
    ensures var b := Balanced(rule).rule;
      && Count(b, '(') <= Count(b, ')')
      && Count(b, '"') % 2 == 0
      && Count(b, '\'') % 2 == 0
  {
    var p1 := FixParens(Start(rule));
    var p2 := FixQuote(p1, '"');
    var p3 := FixQuote(p2, '\'');
    assert Count(p2.rule, '(') == Count(p1.rule, '(') && Count(p2.rule, ')') == Count(p1.rule, ')');
    assert Count(p3.rule, '(') == Count(p2.rule, '(') && Count(p3.rule, ')') == Count(p2.rule, ')');
    assert Count(p3.rule, '"') == Count(p2.rule, '"');
  }

  /** The last two steps keep the structural counts of the balanced text. */
  lemma RepairedKeepsStructural(rule: string, c: char)
    requires Structural(c)
    ensures Count(Repaired(rule).rule, c) == Count(Balanced(rule).rule, c)
  {
    var b := Balanced(rule);
    FixThenKeepsStructural(b, c);
    FixOperatorsKeepStructural(FixThen(b), Operators, c);
  }

  /** When nothing fires, the balancing steps saw balanced text. */
  lemma UnfixedWasBalanced(rule: string)
    requires |Fixes(rule)| == 0
    ensures Balanced(rule).rule == rule
  {
    var p1 := FixParens(Start(rule));
    var p2 := FixQuote(p1, '"');
    var p3 := FixQuote(p2, '\'');
    assert |p3.fixes| <= |FixThen(p3).fixes| <= |Fixes(rule)|;
    assert p1 == Start(rule);
    assert p2 == p1;
  }

  /** The fixed text never has an unclosed parenthesis or an odd quote count. */
  lemma FixedRuleBalanced(rule: string)
    ensures var b := Repaired(rule).rule;
      && Count(b, '(') <= Count(b, ')')
      && Count(b, '"') % 2 == 0
      && Count(b, '\'') % 2 == 0
    ensures |Fixes(rule)| == 0 ==>
      && Count(rule, '(') <= Count(rule, ')')
      && Count(rule, '"') % 2 == 0
      && Count(rule, '\'') % 2 == 0
  {
    BalancedCounts(rule);
    RepairedKeepsStructural(rule, '(');
    RepairedKeepsStructural(rule, ')');
    RepairedKeepsStructural(rule, '"');
    RepairedKeepsStructural(rule, '\'');
    if |Fixes(rule)| == 0 {
      UnfixedWasBalanced(rule);
    }
  }

  /** The `errors` argument has no influence on the result. */
  lemma ErrorsIgnored(rule: string, e1: seq<string>, e2: seq<string>)
    ensures AutoFix(rule, e1) == AutoFix(rule, e2)
  {
  }

  // ---------------------------------------------------------------------
  // the score is not clamped

  /** Extending the log never lowers the total penalty. */
  lemma {:induction false} TotalPenaltyGrows(a: seq<Fix>, b: seq<Fix>)
    requires |a| <= |b| && b[..|a|] == a
    ensures TotalPenalty(a) <= TotalPenalty(b)
    decreases |b|
  {
    if |a| < |b| {
      var b' := b[..|b| - 1];
      assert b'[..|a|] == a;
      TotalPenaltyGrows(a, b');
      assert TotalPenalty(b) == TotalPenalty(b') + Penalty(b[|b| - 1]);
    } else {
      assert a == b[..|b|] == b;
    }
  }

  /** `q`'s log starts with `p`'s. */
  predicate LogExtends(p: Progress, q: Progress) {
    |p.fixes| <= |q.fixes| && q.fixes[..|p.fixes|] == p.fixes
  }

  lemma LogExtendsTrans(p: Progress, q: Progress, r: Progress)
    requires LogExtends(p, q) && LogExtends(q, r)
    ensures LogExtends(p, r)
  {
    assert r.fixes[..|p.fixes|] == r.fixes[..|q.fixes|][..|p.fixes|];
  }

  lemma QuoteExtends(p: Progress, quote: char)
    ensures LogExtends(p, FixQuote(p, quote))
  {
  }

  lemma ThenExtends(p: Progress)
    ensures LogExtends(p, FixThen(p))
  {
  }

  lemma OperatorsExtend(p: Progress)
    ensures LogExtends(p, FixOperators(p, Operators))
  {
    FixOperatorsAppend(p, Operators);
  }

  /** The first repair logged survives the later steps. */
  lemma HeadKept(rule: string, f: Fix)
    requires FixParens(Start(rule)).fixes == [f]
    ensures |Fixes(rule)| >= 1 && Fixes(rule)[0] == f
  {
    var p1 := FixParens(Start(rule));
    var p2 := FixQuote(p1, '"');
    var p3 := FixQuote(p2, '\'');
    var p4 := FixThen(p3);
    var p5 := FixOperators(p4, Operators);
    QuoteExtends(p1, '"');
    QuoteExtends(p2, '\'');
    ThenExtends(p3);
    OperatorsExtend(p4);
    LogExtendsTrans(p1, p2, p3);
    LogExtendsTrans(p1, p3, p4);
    LogExtendsTrans(p1, p4, p5);
    assert p5.fixes[0] == p5.fixes[..|p1.fixes|][0];
  }

  /** The parenthesis repair heads the log whenever it fires. */
  lemma ParensHead(rule: string)
    requires Count(rule, '(') > Count(rule, ')')
    ensures |Fixes(rule)| >= 1 && Fixes(rule)[0] == ClosedParens(Count(rule, '(') - Count(rule, ')'))
  {
    ParensLogged(rule);
    HeadKept(rule, ClosedParens(Count(rule, '(') - Count(rule, ')')));
  }

  lemma ParensLogged(rule: string)
    requires Count(rule, '(') > Count(rule, ')')
    ensures FixParens(Start(rule)).fixes == [ClosedParens(Count(rule, '(') - Count(rule, ')'))]
  {
  }

  /** The first repair's penalty is part of the total. */
  lemma HeadPenalty(fs: seq<Fix>)
    requires |fs| >= 1
    ensures TotalPenalty(fs) >= Penalty(fs[0])
  {
    assert fs[..1] == [fs[0]];
    TotalPenaltyGrows([fs[0]], fs);
    assert TotalPenalty([fs[0]]) == TotalPenalty([]) + Penalty(fs[0]);
  }

  /** The parenthesis repair keeps its full penalty in the total. */
  lemma ParensPenaltyKept(rule: string)
    requires Count(rule, '(') > Count(rule, ')')
    ensures |Fixes(rule)| >= 1
    ensures TotalPenalty(Fixes(rule)) >= 5 * (Count(rule, '(') - Count(rule, ')'))
  {
    ParensHead(rule);
    HeadPenalty(Fixes(rule));
  }

  /**
   * The score is not clamped: a rule with 21 more `(` than `)` is reported
   * with a negative confidence.
   */
  lemma ConfidenceCanBeNegative(rule: string, errors: seq<string>)
    requires Count(rule, '(') >= Count(rule, ')') + 21
    ensures AutoFix(rule, errors).wasFixed
    ensures AutoFix(rule, errors).confidenceScore < 0
  {
    ParensPenaltyKept(rule);
  }

  /** For instance 21 opening parentheses. */
  lemma ConfidenceNegativeExample(n: nat)
    requires n >= 21
    ensures AutoFix(Repeat('(', n), []).confidenceScore < 0
  {
    CountRepeat('(', '(', n);
    CountRepeat('(', ')', n);
    ConfidenceCanBeNegative(Repeat('(', n), []);
  }

  // ---------------------------------------------------------------------
  // the fixer as shipped

  /** A completed call or a thrown exception. */
  datatype Outcome<T> = Returned(value: T) | Threw(message: string)

  /**
   * `countOccurrences` as written builds `new RegExp(char, 'g')`. For the
   * four characters the fixer passes, `"` and `'` are literal patterns,
   * while `(` and `)` are not valid regular expressions and the
   * constructor throws a `SyntaxError`.
   */
  function CountAsWritten(s: string, c: char): (r: Outcome<nat>)
    requires Structural(c)
    ensures r.Threw? <==> (c == '(' || c == ')')
    ensures r.Returned? ==> r.value == Count(s, c)
  {
    if c == '(' || c == ')' then Threw("SyntaxError: Invalid regular expression")
    else Returned(Count(s, c))
  }

  /** `autoFixRule` as shipped: its first statement counts `(` and throws. */
  function AutoFixAsWritten(rule: string, errors: seq<string>): (r: Outcome<FixResult>)
    ensures r.Threw?
  {
    match CountAsWritten(rule, '(')
    case Threw(m) => Threw(m)
    case Returned(_) => Returned(AutoFix(rule, errors))
  }
}
