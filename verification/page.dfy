/**
 * The page-level handlers of the editor (`pages/index.js`) as transitions
 * over one record of editor state. Each handler is one atomic step: the
 * confirmation dialog is a boolean input, the clock is `now`, and the rule
 * store is the sequence of rules the storage holds, read and written
 * through `RuleStorage`.
 */
module EditorPage {
  import opened Strings
  import opened Optional
  import opened RuleStorage
  import opened RuleFixer
  import TemplatesGallery
  import InlineSuggestions

  /** How the current rule is being authored (`creationMode`). */
  datatype Mode = Direct | WizardMode | VisualMode

  /** A validation result; only its `errors` are read by the page. */
  datatype Validation = Validation(errors: seq<string>)

  datatype Page = Page(
    naturalLanguage: string,
    generated: string,
    validation: Option<Validation>,
    store: seq<Rule>,
    saved: seq<Rule>,
    current: Option<Rule>,
    ruleName: string,
    error: string,
    mode: Mode,
    showWizard: bool,
    showVisual: bool,
    showHistory: bool,
    showTemplates: bool,
    fix: Option<FixResult>,
    showFixModal: bool,
    cursor: nat)

  /** `s.substring(0, i)`: indices past the end are clamped. */
  function Before(s: string, i: nat): (r: string)
    ensures r == s[..if i <= |s| then i else |s|]
  {
    if i <= |s| then s[..i] else s
  }

  /** `s.substring(i)`. */
  function After(s: string, i: nat): (r: string)
    ensures r == s[if i <= |s| then i else |s|..]
  {
    if i <= |s| then s[i..] else ""
  }

  /**
   * `handleSuggestionSelect`: without a text area nothing happens;
   * otherwise the suggestion and one space are inserted at the cursor and
   * the cursor moves past them.
   */
  function SuggestionSelect(p: Page, hasTextarea: bool, cursor: nat, suggestion: string): (q: Page)
    ensures !hasTextarea ==> q == p
    ensures hasTextarea ==>
      && q.naturalLanguage == Before(p.naturalLanguage, cursor) + suggestion + " " + After(p.naturalLanguage, cursor)
      && q.cursor == cursor + |suggestion| + 1
      && q == p.(naturalLanguage := q.naturalLanguage, cursor := q.cursor)
  {
    if !hasTextarea then p
    else
      p.(naturalLanguage := Before(p.naturalLanguage, cursor) + suggestion + " " + After(p.naturalLanguage, cursor),
         cursor := cursor + |suggestion| + 1)
  }

  /** Cutting the inserted suggestion and space back out gives the text before the insertion. */
  lemma SuggestionSelectUndo(p: Page, cursor: nat, suggestion: string)
    requires cursor <= |p.naturalLanguage|
    ensures var t := SuggestionSelect(p, true, cursor, suggestion).naturalLanguage;
      && t[cursor..cursor + |suggestion|] == suggestion
      && t[..cursor] + t[cursor + |suggestion| + 1..] == p.naturalLanguage
  {
    var s := p.naturalLanguage;
    var t := SuggestionSelect(p, true, cursor, suggestion).naturalLanguage;
    assert t == s[..cursor] + suggestion + " " + s[cursor..];
    assert t[..cursor] == s[..cursor];
    assert t[cursor + |suggestion| + 1..] == s[cursor..];
  }

  /** `handleAcceptInlineSuggestion`: the suggestion is appended to the text. */
  function AcceptInline(p: Page, suggestion: string): (q: Page)
    ensures q.naturalLanguage == p.naturalLanguage + suggestion
    ensures q == p.(naturalLanguage := q.naturalLanguage)
  {
    p.(naturalLanguage := p.naturalLanguage + suggestion)
  }

  /**
   * `handleFixRule`: with a generated rule and a validation result, run the
   * auto-fixer on them and open the fix dialog; otherwise do nothing.
   */
  function FixRule(p: Page): (q: Page)
    ensures p.generated == "" || p.validation.None? ==> q == p
    ensures p.generated != "" && p.validation.Some? ==>
      && q.fix == Some(AutoFix(p.generated, p.validation.value.errors))
      && q.showFixModal
      && q == p.(fix := q.fix, showFixModal := true)
  {
    if p.generated == "" || p.validation.None? then p
    else p.(fix := Some(AutoFix(p.generated, p.validation.value.errors)), showFixModal := true)
  }

  /**
   * `handleFixRule` as shipped: `autoFixRule` throws at its first count, so
   * the exception leaves the handler before the result is stored and the
   * dialog never opens.
   */
  function FixRuleAsWritten(p: Page): (q: Page)
    ensures q == p
  {
    if p.generated == "" || p.validation.None? then p
    else
      match AutoFixAsWritten(p.generated, p.validation.value.errors)
      case Threw(_) => p
      case Returned(r) => assert false; p.(fix := Some(r), showFixModal := true)
  }

  /** `handleApplyFix`: the fixed text replaces the rule and the dialog closes. */
  function ApplyFix(p: Page, fixed: string): (q: Page)
    ensures q.generated == fixed && !q.showFixModal
    ensures q == p.(generated := fixed, showFixModal := false)
  {
    p.(generated := fixed, showFixModal := false)
  }

  /** The rule `handleSaveRule` hands to the store. */
  function SaveDraft(p: Page): (d: Draft)
    ensures d.name == p.ruleName && d.naturalLanguage == p.naturalLanguage && d.ruleCode == p.generated
    ensures d.createdAt.None?
    ensures p.current.None? ==> d.id == "" && d.versions == Some([])
    ensures p.current.Some? ==> d.id == p.current.value.id && d.versions == Some(p.current.value.versions)
  {
    Draft(
      if p.current.Some? then p.current.value.id else "",
      p.ruleName, p.naturalLanguage, p.generated,
      None,
      Some(if p.current.Some? then p.current.value.versions else []))
  }

  const NoRuleToSave := "No rule to save"
  const NameRequired := "Please enter a name for this rule"

  /**
   * `handleSaveRule`: refuse with a message when there is no rule or no
   * name; otherwise save, make the saved rule current and refresh the list.
   */
  function Save(p: Page, now: nat): (q: Page)
    ensures p.generated == "" ==> q == p.(error := NoRuleToSave)
    ensures p.generated != "" && p.ruleName == "" ==> q == p.(error := NameRequired)
    ensures p.generated != "" && p.ruleName != "" ==>
      var w := RuleStorage.SaveRule(p.store, SaveDraft(p), now);
      q == p.(error := "", store := w.rules, saved := w.rules, current := Some(w.rule))
  {
    if p.generated == "" then p.(error := NoRuleToSave)
    else if p.ruleName == "" then p.(error := NameRequired)
    else
      var w := RuleStorage.SaveRule(p.store, SaveDraft(p), now);
      p.(error := "", store := w.rules, saved := w.rules, current := Some(w.rule))
  }

  /**
   * `handleLoadRule`: a known id becomes the current rule, its fields fill
   * the editor, validation is cleared and the page returns to direct
   * editing; an unknown id changes nothing.
   */
  function Load(p: Page, id: string): (q: Page)
    ensures Absent(p.store, id) ==> q == p
    ensures !Absent(p.store, id) ==>
      var r := RuleById(p.store, id).value;
      q == p.(current := Some(r), ruleName := r.name, naturalLanguage := r.naturalLanguage,
              generated := r.ruleCode, validation := None, mode := Direct,
              showWizard := false, showVisual := false)
  {
    match RuleById(p.store, id)
    case None => p
    case Some(r) =>
      p.(current := Some(r), ruleName := r.name, naturalLanguage := r.naturalLanguage,
         generated := r.ruleCode, validation := None, mode := Direct,
         showWizard := false, showVisual := false)
  }

  /** The current rule carries `id`. */
  predicate IsCurrent(p: Page, id: string) {
    p.current.Some? && p.current.value.id == id
  }

  /**
   * `handleDeleteRule`: once confirmed, delete and refresh the list; when
   * the deleted rule is the current one, the editor is cleared as well.
   */
  function Delete(p: Page, id: string, confirmed: bool): (q: Page)
    ensures !confirmed ==> q == p
    ensures confirmed ==> q.store == Without(p.store, id) && q.saved == q.store
    ensures confirmed && IsCurrent(p, id) ==>
      q == p.(store := q.store, saved := q.saved, current := None, ruleName := "",
              naturalLanguage := "", generated := "", validation := None)
    ensures confirmed && !IsCurrent(p, id) ==> q == p.(store := q.store, saved := q.saved)
  {
    if !confirmed then p
    else
      var d := RuleStorage.DeleteRule(p.store, id);
      var q := p.(store := d.rules, saved := d.rules);
      if IsCurrent(p, id) then
        q.(current := None, ruleName := "", naturalLanguage := "", generated := "", validation := None)
      else q
  }

  /**
   * `handleRevertToVersion`: needs a current rule and a confirmation; a
   * revert the store refuses changes nothing, one it accepts becomes the
   * current rule and its code the generated rule.
   */
  function Revert(p: Page, vi: int, confirmed: bool, now: nat): (q: Page)
    ensures p.current.None? || !confirmed ==> q == p
    ensures p.current.Some? && confirmed ==>
      var w := RuleStorage.RevertToVersion(p.store, p.current.value.id, vi, now);
      && (w.None? ==> q == p)
      && (w.Some? ==> q == p.(current := Some(w.value.rule), generated := w.value.rule.ruleCode,
                              store := w.value.rules, saved := w.value.rules))
  {
    if p.current.None? || !confirmed then p
    else
      match RuleStorage.RevertToVersion(p.store, p.current.value.id, vi, now)
      case None => p
      case Some(w) =>
        p.(current := Some(w.rule), generated := w.rule.ruleCode, store := w.rules, saved := w.rules)
  }

  /** `handleNewRule`: an empty editor in direct mode; the store is untouched. */
  function NewRule(p: Page): (q: Page)
    ensures q.current.None? && q.ruleName == "" && q.naturalLanguage == "" && q.generated == ""
    ensures q.validation.None? && !q.showHistory && q.mode == Direct && !q.showWizard && !q.showVisual
    ensures q.store == p.store && q.saved == p.saved
    ensures q.error == p.error && q.fix == p.fix && q.showFixModal == p.showFixModal
    ensures q.showTemplates == p.showTemplates && q.cursor == p.cursor
  {
    p.(current := None, ruleName := "", naturalLanguage := "", generated := "", validation := None,
       showHistory := false, mode := Direct, showWizard := false, showVisual := false)
  }

  /** `handleWizardRuleGenerated`: take the wizard's rule and sentence and return to direct editing. */
  function WizardRuleGenerated(p: Page, code: string, sentence: string): (q: Page)
    ensures q == p.(generated := code, naturalLanguage := sentence, showWizard := false,
                    mode := Direct, validation := None)
  {
    p.(generated := code, naturalLanguage := sentence, showWizard := false, mode := Direct, validation := None)
  }

  /** `handleVisualRuleGenerated`: take the builder's code and sentence; the builder stays open. */
  function VisualRuleGenerated(p: Page, code: string, sentence: string): (q: Page)
    ensures q == p.(generated := code, naturalLanguage := sentence, validation := None)
  {
    p.(generated := code, naturalLanguage := sentence, validation := None)
  }

  /** `handleSelectTemplate`: a chosen template fills the editor; the gallery closes either way. */
  function SelectTemplate(p: Page, t: Option<TemplatesGallery.Chosen>): (q: Page)
    ensures !q.showTemplates
    ensures t.None? ==> q == p.(showTemplates := false)
    ensures t.Some? ==>
      q == p.(ruleName := t.value.name, naturalLanguage := t.value.naturalLanguage,
              generated := t.value.ruleCode, validation := None, showTemplates := false)
  {
    match t
    case None => p.(showTemplates := false)
    case Some(c) =>
      p.(ruleName := c.name, naturalLanguage := c.naturalLanguage, generated := c.ruleCode,
         validation := None, showTemplates := false)
  }

  // ---------------------------------------------------------------------
  // properties

  /** The list on screen shows what the store holds. */
  predicate InSync(p: Page) {
    p.saved == p.store
  }

  /** A rule saved with no current rule starts with an empty history and a fresh creation time. */
  lemma FirstSaveHasEmptyHistory(p: Page, now: nat)
    requires p.current.None? && p.generated != "" && p.ruleName != ""
    requires Absent(p.store, MintedId(now))
    ensures var q := Save(p, now);
      && q.current.Some?
      && q.current.value.id == MintedId(now)
      && q.current.value.versions == []
      && q.current.value.createdAt == now
      && q.store == p.store + [q.current.value]
  {
  }

  /** Every save made from the page resets the creation time to the time of the save. */
  lemma SaveResetsCreatedAt(p: Page, now: nat)
    requires p.generated != "" && p.ruleName != ""
    ensures Save(p, now).current.Some? && Save(p, now).current.value.createdAt == now
  {
  }

  /** Loading the rule just saved puts the same name, text and code back in the editor. */
  lemma SaveThenLoad(p: Page, now: nat)
    requires p.generated != "" && p.ruleName != ""
    ensures var q := Save(p, now);
      var r := Load(q, q.current.value.id);
      && r.current == q.current
      && r.ruleName == p.ruleName
      && r.naturalLanguage == p.naturalLanguage
      && r.generated == p.generated
  {
    var q := Save(p, now);
    SaveThenFind(p.store, SaveDraft(p), now);
    assert RuleById(q.store, q.current.value.id) == q.current;
  }

  /** Saving keeps the list in sync with the store and the ids unique. */
  lemma SaveKeepsStore(p: Page, now: nat)
    requires InSync(p) && UniqueIds(p.store)
    ensures InSync(Save(p, now)) && UniqueIds(Save(p, now).store)
  {
    if p.generated != "" && p.ruleName != "" {
      SaveKeepsUniqueIds(p.store, SaveDraft(p), now);
    }
  }

  /** Deleting keeps the list in sync with the store and the ids unique. */
  lemma DeleteKeepsStore(p: Page, id: string, confirmed: bool)
    requires InSync(p) && UniqueIds(p.store)
    ensures InSync(Delete(p, id, confirmed)) && UniqueIds(Delete(p, id, confirmed).store)
  {
    DeleteKeepsUniqueIds(p.store, id);
  }

  /** Reverting keeps the list in sync with the store and the ids unique. */
  lemma RevertKeepsStore(p: Page, vi: int, confirmed: bool, now: nat)
    requires InSync(p) && UniqueIds(p.store)
    ensures InSync(Revert(p, vi, confirmed, now)) && UniqueIds(Revert(p, vi, confirmed, now).store)
  {
    if p.current.Some? && RuleStorage.RevertToVersion(p.store, p.current.value.id, vi, now).Some? {
      RevertKeepsUniqueIds(p.store, p.current.value.id, vi, now);
    }
  }

  /** Deleting a rule that is not the current one leaves the editor as it was. */
  lemma DeleteOtherKeepsEditor(p: Page, id: string)
    requires !IsCurrent(p, id)
    ensures var q := Delete(p, id, true);
      && q.current == p.current && q.ruleName == p.ruleName
      && q.naturalLanguage == p.naturalLanguage && q.generated == p.generated
  {
  }

  /** A refused revert, for an index that names no entry, leaves the page as it was. */
  lemma RevertOutOfRange(p: Page, vi: int, now: nat)
    requires p.current.Some? && !Absent(p.store, p.current.value.id)
    requires vi < 0 || vi >= |p.store[FindIndex(p.store, p.current.value.id)].versions|
    ensures Revert(p, vi, true, now) == p
  {
  }

  /**
   * Fixing and then applying the proposed text leaves a rule with no unclosed
   * parenthesis and even quote counts; a fix that repaired nothing hands back
   * the rule unchanged. The text and the store are untouched.
   */
  lemma FixThenApply(p: Page)
    requires p.generated != "" && p.validation.Some?
    ensures var q := FixRule(p);
      && q.showFixModal && q.fix.Some?
      && var r := ApplyFix(q, q.fix.value.fixedRule);
      && Count(r.generated, '(') <= Count(r.generated, ')')
      && Count(r.generated, '"') % 2 == 0
      && Count(r.generated, '\'') % 2 == 0
      && (!q.fix.value.wasFixed ==> r.generated == p.generated)
      && !r.showFixModal
      && r.naturalLanguage == p.naturalLanguage && r.store == p.store
  {
  }

  /** Whenever the completion hint is drawn, Tab extends the text by exactly the completion. */
  lemma TabAccepts(p: Page, s: InlineSuggestions.Inline)
    requires InlineSuggestions.HintShown(s, p.naturalLanguage, true)
    ensures InlineSuggestions.OnKey(s, "Tab").Some?
    ensures var q := AcceptInline(p, InlineSuggestions.OnKey(s, "Tab").value);
      && |q.naturalLanguage| > |p.naturalLanguage|
      && q.naturalLanguage[..|p.naturalLanguage|] == p.naturalLanguage
      && q.naturalLanguage[|p.naturalLanguage|..] == s.suggestion
      && q.generated == p.generated && q.store == p.store
  {
    InlineSuggestions.HintMeansTabWorks(s, p.naturalLanguage, true);
  }

  /** A rule taken from the wizard and then saved is stored with the wizard's code and sentence. */
  lemma WizardThenSave(p: Page, code: string, sentence: string, now: nat)
    requires code != "" && p.ruleName != ""
    ensures var q := Save(WizardRuleGenerated(p, code, sentence), now);
      && q.current.Some?
      && q.current.value.ruleCode == code && q.current.value.naturalLanguage == sentence
      && q.current.value.name == p.ruleName
      && q.mode == Direct && !q.showWizard
  {
  }

  /** A rule taken from the visual builder and then saved is stored with the builder's code and sentence. */
  lemma VisualThenSave(p: Page, code: string, sentence: string, now: nat)
    requires code != "" && p.ruleName != ""
    ensures var q := Save(VisualRuleGenerated(p, code, sentence), now);
      && q.current.Some?
      && q.current.value.ruleCode == code && q.current.value.naturalLanguage == sentence
      && q.showVisual == p.showVisual && q.mode == p.mode
  {
  }

  /**
   * A freshly selected template whose variables are all numbers, taken as
   * it is, fills the editor with the template's own name, sentence and code.
   */
  lemma TemplateFillsEditor(p: Page, g: TemplatesGallery.Gallery, t: TemplatesGallery.Template)
    requires TemplatesGallery.NumbersOnly(t)
    ensures var q := SelectTemplate(p, TemplatesGallery.Apply(TemplatesGallery.Select(g, t)));
      && q.ruleName == t.name && q.naturalLanguage == t.naturalLanguage && q.generated == t.ruleCode
      && q.validation.None? && !q.showTemplates
      && q.store == p.store && q.current == p.current
  {
    TemplatesGallery.NumberTemplateUnchanged(g, t);
  }

  /**
   * After "new rule", a rule written and named afresh is saved under a new
   * id and appended: the rule loaded before is not overwritten.
   */
  lemma NewRuleThenSave(p: Page, code: string, name: string, now: nat)
    requires code != "" && name != ""
    requires Absent(p.store, MintedId(now))
    ensures var q := Save(NewRule(p).(generated := code, ruleName := name), now);
      && q.current.Some? && q.current.value.id == MintedId(now)
      && q.current.value.ruleCode == code && q.current.value.name == name
      && q.store == p.store + [q.current.value]
  {
  }
}
