/**
 * The step-by-step rule wizard (`components/RuleWizard.js`): five choices
 * (type, subject, condition, value, action) made on steps 1 to 5, a summary
 * on step 6, and the sentence the choices compose. Each user action is one
 * event; `lower` stands for `toLowerCase`. The request that turns the
 * sentence into rule code is outside the model.
 */
module RuleWizard {

  datatype Wizard = Wizard(
    step: int,
    ruleType: string,
    subject: string,
    condition: string,
    value: string,
    action: string,
    error: string,
    sentence: string)

  const Initial := Wizard(1, "", "", "", "", "", "", "")

  const LastStep := 6

  // ---------------------------------------------------------------------
  // the options each step offers

  const RuleTypes: seq<string> := ["Transaction", "User", "Location", "Revenue"]

  function SubjectOptions(ruleType: string): seq<string> {
    if ruleType == "Transaction" then ["amount", "date", "type", "currency", "status"]
    else if ruleType == "User" then ["age", "country", "is_new", "registration_date", "activity_level"]
    else if ruleType == "Location" then ["state", "country", "city", "zip_code"]
    else if ruleType == "Revenue" then ["weekly_revenue", "monthly_revenue", "annual_revenue"]
    else []
  }

  const Conditions: seq<string> :=
    ["greater than", "less than", "equal to", "not equal to", "contains", "does not contain", "in", "not in"]

  const Actions: seq<string> := ["flag", "block", "approve", "review", "select", "exclude"]

  // ---------------------------------------------------------------------
  // the sentence

  /** The sentence for the current choices, with the action prefix only when an action is chosen. */
  function SentenceOf(w: Wizard, lower: string -> string): string {
    (if w.action != "" then w.action + " " else "")
    + lower(w.ruleType) + "s where " + w.subject + " is " + w.condition + " " + w.value
  }

  predicate Complete(w: Wizard) {
    w.ruleType != "" && w.subject != "" && w.condition != "" && w.value != ""
  }

  /** The effect that follows every change of a choice: recompose only when the four are present. */
  function Recompose(w: Wizard, lower: string -> string): (r: Wizard)
    ensures Complete(w) ==> r.sentence == SentenceOf(w, lower)
    ensures !Complete(w) ==> r == w
    ensures r.(sentence := w.sentence) == w
  {
    if Complete(w) then w.(sentence := SentenceOf(w, lower)) else w
  }

  /** Choosing an action only puts `action + " "` in front of the sentence. */
  lemma ActionIsPrefix(w: Wizard, lower: string -> string)
    requires w.action != ""
    ensures SentenceOf(w, lower) == w.action + " " + SentenceOf(w.(action := ""), lower)
  {
  }

  // ---------------------------------------------------------------------
  // steps

  /** The choice step `k` asks for. */
  function Field(w: Wizard, k: int): string
    requires 1 <= k <= 5
  {
    if k == 1 then w.ruleType
    else if k == 2 then w.subject
    else if k == 3 then w.condition
    else if k == 4 then w.value
    else w.action
  }

  /** `canProceed`: steps 1 to 5 need their own choice, step 6 always may, any other step may not. */
  function CanProceed(w: Wizard): (b: bool)
    ensures 1 <= w.step <= 5 ==> (b <==> Field(w, w.step) != "")
    ensures w.step == LastStep ==> b
    ensures !(1 <= w.step <= LastStep) ==> !b
  {
    match w.step
    case 1 => w.ruleType != ""
    case 2 => w.subject != ""
    case 3 => w.condition != ""
    case 4 => w.value != ""
    case 5 => w.action != ""
    case 6 => true
    case _ => false
  }

  /** The Back button is shown from step 2 on. */
  predicate BackShown(w: Wizard) {
    w.step > 1
  }

  /** The Next button is shown before the last step and enabled when the step may be left. */
  predicate NextEnabled(w: Wizard) {
    w.step < LastStep && CanProceed(w)
  }

  /** `handleReset`. */
  function Reset(w: Wizard): (r: Wizard)
    ensures r.step == 1 && r.sentence == "" && r.error == ""
    ensures forall k | 1 <= k <= 5 :: Field(r, k) == ""
  {
    Initial
  }

  // ---------------------------------------------------------------------
  // events

  datatype Event =
    | ChooseType(v: string)
    | ChooseSubject(v: string)
    | ChooseCondition(v: string)
    | TypeValue(v: string)
    | ChooseAction(v: string)
    | Next
    | Back
    | ResetPressed

  /**
   * One user action. A choice is only on screen on its own step and only
   * among the offered options, and Next and Back only when their buttons
   * are shown and enabled; anything else changes nothing.
   */
  function Handle(w: Wizard, e: Event, lower: string -> string): (r: Wizard)
    ensures e.Next? ==> (r.step == w.step + 1 <==> NextEnabled(w)) && (r.step == w.step + 1 || r == w)
    ensures e.Back? ==> (r.step == w.step - 1 <==> BackShown(w)) && (r.step == w.step - 1 || r == w)
    ensures e.ResetPressed? ==> r == Initial
    ensures !e.Next? && !e.Back? && !e.ResetPressed? ==> r.step == w.step
  {
    match e
    case ChooseType(v) =>
      if w.step == 1 && v in RuleTypes then Recompose(w.(ruleType := v), lower) else w
    case ChooseSubject(v) =>
      if w.step == 2 && v in SubjectOptions(w.ruleType) then Recompose(w.(subject := v), lower) else w
    case ChooseCondition(v) =>
      if w.step == 3 && v in Conditions then Recompose(w.(condition := v), lower) else w
    case TypeValue(v) =>
      if w.step == 4 then Recompose(w.(value := v), lower) else w
    case ChooseAction(v) =>
      if w.step == 5 && v in Actions then Recompose(w.(action := v), lower) else w
    case Next => if NextEnabled(w) then w.(step := w.step + 1) else w
    case Back => if BackShown(w) then w.(step := w.step - 1) else w
    case ResetPressed => Reset(w)
  }

  /**
   * What every reachable wizard satisfies: the step is within 1..6, every
   * step before the current one has its choice, and the sentence matches
   * the choices whenever the four it needs are present.
   */
  predicate Consistent(w: Wizard, lower: string -> string) {
    1 <= w.step <= LastStep
    && (forall k | 1 <= k < w.step :: Field(w, k) != "")
    && (Complete(w) ==> w.sentence == SentenceOf(w, lower))
  }

  lemma InitialConsistent(lower: string -> string)
    ensures Consistent(Initial, lower)
  {
  }

  /** The choice of step `k` replaced by `v`. */
  function SetField(w: Wizard, k: int, v: string): (r: Wizard)
    requires 1 <= k <= 5
    ensures r.step == w.step && Field(r, k) == v
    ensures forall j | 1 <= j <= 5 && j != k :: Field(r, j) == Field(w, j)
  {
    if k == 1 then w.(ruleType := v)
    else if k == 2 then w.(subject := v)
    else if k == 3 then w.(condition := v)
    else if k == 4 then w.(value := v)
    else w.(action := v)
  }

  /** Changing the current step's choice keeps the wizard consistent. */
  lemma ChoiceKeepsConsistent(w: Wizard, v: string, lower: string -> string)
    requires Consistent(w, lower) && 1 <= w.step <= 5
    ensures Consistent(Recompose(SetField(w, w.step, v), lower), lower)
  {
    var s := SetField(w, w.step, v);
    var r := Recompose(s, lower);
    forall k | 1 <= k < r.step ensures Field(r, k) != "" {
      assert Field(r, k) == Field(s, k) == Field(w, k);
    }
  }

  /** Moving between steps keeps the wizard consistent. */
  lemma MoveKeepsConsistent(w: Wizard, e: Event, lower: string -> string)
    requires Consistent(w, lower) && (e.Next? || e.Back?)
    ensures Consistent(Handle(w, e, lower), lower)
  {
    var r := Handle(w, e, lower);
    forall k | 1 <= k < r.step ensures Field(r, k) != "" {
      assert Field(r, k) == Field(w, k);
    }
  }

  /** Every event keeps the wizard consistent; in particular the step never leaves 1..6. */
  lemma HandleKeepsConsistent(w: Wizard, e: Event, lower: string -> string)
    requires Consistent(w, lower)
    ensures Consistent(Handle(w, e, lower), lower)
  {
    match e
    case ChooseType(v) =>
      if w.step == 1 && v in RuleTypes {
        assert w.(ruleType := v) == SetField(w, w.step, v);
        ChoiceKeepsConsistent(w, v, lower);
      }
    case ChooseSubject(v) =>
      if w.step == 2 && v in SubjectOptions(w.ruleType) {
        assert w.(subject := v) == SetField(w, w.step, v);
        ChoiceKeepsConsistent(w, v, lower);
      }
    case ChooseCondition(v) =>
      if w.step == 3 && v in Conditions {
        assert w.(condition := v) == SetField(w, w.step, v);
        ChoiceKeepsConsistent(w, v, lower);
      }
    case TypeValue(v) =>
      if w.step == 4 {
        assert w.(value := v) == SetField(w, w.step, v);
        ChoiceKeepsConsistent(w, v, lower);
      }
    case ChooseAction(v) =>
      if w.step == 5 && v in Actions {
        assert w.(action := v) == SetField(w, w.step, v);
        ChoiceKeepsConsistent(w, v, lower);
      }
    case Next => MoveKeepsConsistent(w, e, lower);
    case Back => MoveKeepsConsistent(w, e, lower);
    case ResetPressed =>
  }

  /**
   * On the last step every choice is made, so the sentence sent to the
   * translator starts with the action.
   */
  lemma LastStepHasFullSentence(w: Wizard, lower: string -> string)
    requires Consistent(w, lower) && w.step == LastStep
    ensures w.sentence == w.action + " " + lower(w.ruleType) + "s where " + w.subject + " is " + w.condition + " " + w.value
  {
    assert Field(w, 1) != "" && Field(w, 2) != "" && Field(w, 3) != "" && Field(w, 4) != "" && Field(w, 5) != "";
  }

  /** A choice that leaves the four incomplete keeps the previous sentence. */
  lemma IncompleteKeepsSentence(w: Wizard, e: Event, lower: string -> string)
    requires !e.Next? && !e.Back? && !e.ResetPressed?
    requires !Complete(Handle(w, e, lower))
    ensures Handle(w, e, lower).sentence == w.sentence
  {
  }
}
