/**
 * The grey completion offered while typing (`components/InlineSuggestions.js`):
 * when a new completion is computed, the ordered table of text patterns it
 * is chosen from, Tab acceptance and when the hint is drawn. The debounce
 * timer and the simulated delay are outside the model; `lower` stands for
 * `toLowerCase`.
 */
module InlineSuggestions {
  import opened Strings
  import opened Optional

  /** The completion, whether one is being computed, and the last text length seen. */
  datatype Inline = Inline(suggestion: string, loading: bool, lastLength: nat)

  const Initial := Inline("", false, 0)

  /** Texts shorter than this get no completion and no hint. */
  const MinLength := 10

  // ---------------------------------------------------------------------
  // the pattern table

  /** All words occur in the text, or some word occurs in the lower-cased text. */
  datatype Trigger = AllOf(words: seq<string>) | AnyLowered(words: seq<string>)

  datatype Pattern = Pattern(trigger: Trigger, completion: string)

  /** The patterns in the order they are tried. */
  const Patterns: seq<Pattern> := [
    Pattern(AllOf(["transactions", "over"]), " $500 from new users"),
    Pattern(AllOf(["users", "in"]), " high-risk countries"),
    Pattern(AllOf(["revenue", "less than"]), " 1,000,000 per month"),
    Pattern(AnyLowered(["muestra", "todas", "personas"]), " que ganan menos de 100 d\U{00C3}\U{00B3}lares")
  ]

  predicate Fires(t: Trigger, text: string, lower: string -> string) {
    match t
    case AllOf(ws) => forall i | 0 <= i < |ws| :: Contains(text, ws[i])
    case AnyLowered(ws) => exists i | 0 <= i < |ws| :: Contains(lower(text), ws[i])
  }

  /** The completion of the first pattern that fires, or "" when none does. */
  function FirstMatch(table: seq<Pattern>, text: string, lower: string -> string): (r: string)
    ensures r == "" || exists i | 0 <= i < |table| :: table[i].completion == r
    decreases |table|
  {
    if |table| == 0 then ""
    else if Fires(table[0].trigger, text, lower) then table[0].completion
    else FirstMatch(table[1..], text, lower)
  }

  /** The first pattern that fires wins, whatever follows it. */
  lemma {:induction false} FirstMatchWins(table: seq<Pattern>, text: string, lower: string -> string, i: int)
    requires 0 <= i < |table| && Fires(table[i].trigger, text, lower)
    requires forall j | 0 <= j < i :: !Fires(table[j].trigger, text, lower)
    ensures FirstMatch(table, text, lower) == table[i].completion
    decreases i
  {
    if i > 0 {
      assert !Fires(table[0].trigger, text, lower);
      FirstMatchWins(table[1..], text, lower, i - 1);
    }
  }

  /** When no pattern fires the completion is empty. */
  lemma {:induction false} NoMatchIsEmpty(table: seq<Pattern>, text: string, lower: string -> string)
    requires forall j | 0 <= j < |table| :: !Fires(table[j].trigger, text, lower)
    ensures FirstMatch(table, text, lower) == ""
    decreases |table|
  {
    if |table| > 0 {
      assert !Fires(table[0].trigger, text, lower);
      NoMatchIsEmpty(table[1..], text, lower);
    }
  }

  /** The completion is empty or the completion of some pattern that fires. */
  lemma {:induction false} MatchFromTable(table: seq<Pattern>, text: string, lower: string -> string)
    ensures var r := FirstMatch(table, text, lower);
      r == "" || exists i | 0 <= i < |table| :: Fires(table[i].trigger, text, lower) && r == table[i].completion
    decreases |table|
  {
    if |table| > 0 && !Fires(table[0].trigger, text, lower) {
      MatchFromTable(table[1..], text, lower);
      var r := FirstMatch(table[1..], text, lower);
      if r != "" {
        var i :| 0 <= i < |table[1..]| && Fires(table[1..][i].trigger, text, lower) && r == table[1..][i].completion;
        assert table[1..][i] == table[i + 1];
      }
    }
  }

  // ---------------------------------------------------------------------
  // computing the completion

  /**
   * `generateSuggestion`, once its delay has passed: a blank text, a missing
   * key or an inactive editor clears the completion; a text shorter than
   * the last one seen only records its length; a short text clears the
   * completion; otherwise the table decides.
   */
  function Generate(s: Inline, text: string, hasKey: bool, active: bool, lower: string -> string): (r: Inline)
    ensures Trim(text) == "" || !hasKey || !active ==> r == s.(suggestion := "")
    ensures Trim(text) != "" && hasKey && active ==> r.lastLength == |text|
    ensures Trim(text) != "" && hasKey && active && |text| < s.lastLength ==> r.suggestion == s.suggestion
    ensures Trim(text) != "" && hasKey && active && s.lastLength <= |text| < MinLength ==> r.suggestion == ""
    ensures Trim(text) != "" && hasKey && active && s.lastLength <= |text| && MinLength <= |text| ==>
      !r.loading && r.suggestion == FirstMatch(Patterns, text, lower)
  {
    if Trim(text) == "" || !hasKey || !active then s.(suggestion := "")
    else if |text| < s.lastLength then s.(lastLength := |text|)
    else if |text| < MinLength then s.(lastLength := |text|, suggestion := "")
    else Inline(FirstMatch(Patterns, text, lower), false, |text|)
  }

  /** A completion is always the old one, empty, or one the table offers for this text. */
  lemma GenerateFromTable(s: Inline, text: string, hasKey: bool, active: bool, lower: string -> string)
    ensures var r := Generate(s, text, hasKey, active, lower);
      r.suggestion == s.suggestion || r.suggestion == ""
      || exists i | 0 <= i < |Patterns| :: Fires(Patterns[i].trigger, text, lower) && r.suggestion == Patterns[i].completion
  {
    MatchFromTable(Patterns, text, lower);
  }

  /** A text mentioning transactions and "over" is completed with the amount clause. */
  lemma TransactionsOver(text: string, lower: string -> string)
    requires Contains(text, "transactions") && Contains(text, "over")
    ensures FirstMatch(Patterns, text, lower) == " $500 from new users"
  {
    FirstMatchWins(Patterns, text, lower, 0);
  }

  /** Spanish words are looked for in the lower-cased text, and only after the English patterns failed. */
  lemma SpanishLast(text: string, lower: string -> string)
    requires !Fires(Patterns[0].trigger, text, lower)
    requires !Fires(Patterns[1].trigger, text, lower)
    requires !Fires(Patterns[2].trigger, text, lower)
    ensures Contains(lower(text), "todas") ==> FirstMatch(Patterns, text, lower) == Patterns[3].completion
    ensures !Contains(lower(text), "muestra") && !Contains(lower(text), "todas") && !Contains(lower(text), "personas")
      ==> FirstMatch(Patterns, text, lower) == ""
  {
    var ws := ["muestra", "todas", "personas"];
    assert Patterns[3].trigger == AnyLowered(ws);
    if Contains(lower(text), "todas") {
      assert ws[1] == "todas";
      FirstMatchWins(Patterns, text, lower, 3);
    }
    if !Contains(lower(text), "muestra") && !Contains(lower(text), "todas") && !Contains(lower(text), "personas") {
      assert !Fires(Patterns[3].trigger, text, lower);
      NoMatchIsEmpty(Patterns, text, lower);
    }
  }

  // ---------------------------------------------------------------------
  // accepting and showing

  /** Tab hands the completion to the editor when there is one and it is not being recomputed. */
  function OnKey(s: Inline, key: string): (accepted: Option<string>)
    ensures accepted.Some? <==> key == "Tab" && s.suggestion != "" && !s.loading
    ensures accepted.Some? ==> accepted.value == s.suggestion
  {
    if key == "Tab" && s.suggestion != "" && !s.loading then Some(s.suggestion) else None
  }

  /** The "Press Tab" hint is drawn for an active editor with a long enough text and a ready completion. */
  predicate HintShown(s: Inline, text: string, active: bool) {
    active && text != "" && |text| >= MinLength && s.suggestion != "" && !s.loading
  }

  /** Whenever the hint is drawn, Tab accepts exactly the completion it refers to. */
  lemma HintMeansTabWorks(s: Inline, text: string, active: bool)
    requires HintShown(s, text, active)
    ensures OnKey(s, "Tab") == Some(s.suggestion)
  {
  }

  /**
   * After a growing text of at least ten characters has been processed, the
   * hint is drawn exactly when some pattern fires.
   */
  lemma HintAfterGenerate(s: Inline, text: string, lower: string -> string)
    requires Trim(text) != "" && s.lastLength <= |text| && MinLength <= |text|
    ensures HintShown(Generate(s, text, true, true, lower), text, true)
      <==> exists i | 0 <= i < |Patterns| :: Fires(Patterns[i].trigger, text, lower)
  {
    PatternsComplete();
    MatchIffFires(Patterns, text, lower);
  }

  /** Every pattern of the table completes the text with something. */
  predicate NonEmptyCompletions(table: seq<Pattern>) {
    forall i | 0 <= i < |table| :: table[i].completion != ""
  }

  lemma PatternsComplete()
    ensures NonEmptyCompletions(Patterns)
  {
  }

  /** With non-empty completions, the completion is non-empty exactly when some pattern fires. */
  lemma MatchIffFires(table: seq<Pattern>, text: string, lower: string -> string)
    requires NonEmptyCompletions(table)
    ensures FirstMatch(table, text, lower) != "" <==> exists i | 0 <= i < |table| :: Fires(table[i].trigger, text, lower)
  {
    if exists i | 0 <= i < |table| :: Fires(table[i].trigger, text, lower) {
      var i :| 0 <= i < |table| && Fires(table[i].trigger, text, lower);
      var k := FirstFiring(table, text, lower, i);
      FirstMatchWins(table, text, lower, k);
    } else {
      NoMatchIsEmpty(table, text, lower);
    }
  }

  /** Given a firing pattern, the first firing pattern exists at or before it. */
  lemma {:induction false} FirstFiring(table: seq<Pattern>, text: string, lower: string -> string, i: int) returns (k: int)
    requires 0 <= i < |table| && Fires(table[i].trigger, text, lower)
    ensures 0 <= k <= i && Fires(table[k].trigger, text, lower)
    ensures forall j | 0 <= j < k :: !Fires(table[j].trigger, text, lower)
    decreases i
  {
    if i == 0 || forall j | 0 <= j < i :: !Fires(table[j].trigger, text, lower) {
      k := i;
    } else {
      var j :| 0 <= j < i && Fires(table[j].trigger, text, lower);
      k := FirstFiring(table, text, lower, j);
    }
  }
}
