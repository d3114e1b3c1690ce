/**
 * The suggestion list under the rule input (`components/ContextualSuggestions.js`):
 * when a request for suggestions is made, what its reply does to the list,
 * and the keyboard cursor that moves through the list and picks an entry.
 * The request itself and its debounce timer are outside the model; a reply
 * is an input.
 */
module ContextualSuggestions {
  import opened Strings
  import opened Optional

  /** One suggestion as the suggestion service returns it. */
  datatype Suggestion = Suggestion(text: string, category: string)

  /** The list, the highlighted position (-1 for none), and the request status. */
  datatype Panel = Panel(suggestions: seq<Suggestion>, index: int, loading: bool, error: Option<string>)

  const Empty := Panel([], -1, false, None)

  const FetchFailed := "Failed to get suggestions"

  /**
   * The cursor never points past the list and never below -1. (Clearing the
   * list leaves the index as it was; a new list always resets it to -1.)
   */
  predicate Valid(p: Panel) {
    p.index >= -1 && (|p.suggestions| > 0 ==> p.index < |p.suggestions|)
  }

  // ---------------------------------------------------------------------
  // requests

  /** The input change effect: a request is scheduled only for a non-trivial input. */
  predicate ShouldRequest(text: string, hasKey: bool, active: bool) {
    text != "" && |Trim(text)| > 2 && hasKey && active
  }

  /** The input change effect: schedule a request, or clear the list. */
  function OnInput(p: Panel, text: string, hasKey: bool, active: bool): (r: (Panel, bool))
    ensures r.1 <==> ShouldRequest(text, hasKey, active)
    ensures r.1 ==> r.0 == p
    ensures !r.1 ==> r.0 == p.(suggestions := [])
  {
    if ShouldRequest(text, hasKey, active) then (p, true) else (p.(suggestions := []), false)
  }

  /** What the suggestion service answered. */
  datatype Reply = Suggested(list: seq<Suggestion>) | NoList | Failed

  /**
   * `fetchSuggestions` once its reply is in: a blank text, a missing key or
   * an inactive panel clears the list without asking; a list replaces the
   * old one with nothing highlighted; a failure clears it and records the
   * error; an answer without a list changes nothing but the status.
   */
  function Fetch(p: Panel, text: string, hasKey: bool, active: bool, reply: Reply): (r: Panel)
    ensures Trim(text) == "" || !hasKey || !active ==> r == p.(suggestions := [])
    ensures Trim(text) != "" && hasKey && active && reply.Suggested? ==>
      r.suggestions == reply.list && r.index == -1 && r.error == None
    ensures Trim(text) != "" && hasKey && active && reply.Failed? ==>
      r.suggestions == [] && r.error == Some(FetchFailed)
  {
    if Trim(text) == "" || !hasKey || !active then p.(suggestions := [])
    else
      match reply
      case Suggested(list) => p.(suggestions := list, index := -1, loading := false, error := None)
      case NoList => p.(loading := false, error := None)
      case Failed => p.(suggestions := [], loading := false, error := Some(FetchFailed))
  }

  /** The panel is drawn while active and either holding suggestions or loading. */
  predicate Shown(p: Panel, active: bool) {
    active && (|p.suggestions| > 0 || p.loading)
  }

  // ---------------------------------------------------------------------
  // keyboard

  datatype Key = ArrowDown | ArrowUp | Enter | Escape | OtherKey(name: string)

  /** The panel after a key, and the suggestion reported to the editor, if any. */
  datatype Outcome = Outcome(panel: Panel, picked: Option<Suggestion>)

  /** `handleSuggestionClick`: report the suggestion and close the list. */
  function Pick(p: Panel, s: Suggestion): (o: Outcome)
    ensures o.picked == Some(s) && o.panel.suggestions == [] && o.panel.index == p.index
  {
    Outcome(p.(suggestions := []), Some(s))
  }

  /** `handleKeyDown`. */
  function KeyDown(p: Panel, key: Key): (o: Outcome)
    requires Valid(p)
    ensures Valid(o.panel)
    ensures o.picked.Some? ==> key == Enter && o.picked.value in p.suggestions && o.panel.suggestions == []
    ensures key != Escape && o.picked.None? ==> o.panel.suggestions == p.suggestions
  {
    var n := |p.suggestions|;
    if n == 0 then Outcome(p, None)
    else
      match key
      case ArrowDown => Outcome(p.(index := if p.index < n - 1 then p.index + 1 else p.index), None)
      case ArrowUp => Outcome(p.(index := if p.index > 0 then p.index - 1 else 0), None)
      case Enter => if p.index >= 0 then Pick(p, p.suggestions[p.index]) else Outcome(p, None)
      case Escape => Outcome(p.(suggestions := []), None)
      case OtherKey(_) => Outcome(p, None)
  }

  // ---------------------------------------------------------------------
  // properties

  /**
   * Every key keeps the cursor within [-1, |list| - 1] and moves it by at
   * most one place; only the arrows move it.
   */
  lemma KeyKeepsValid(p: Panel, key: Key)
    requires Valid(p)
    ensures Valid(KeyDown(p, key).panel)
    ensures -1 <= KeyDown(p, key).panel.index - p.index <= 1
    ensures key != ArrowDown && key != ArrowUp ==> KeyDown(p, key).panel.index == p.index
  {
  }

  lemma FetchKeepsValid(p: Panel, text: string, hasKey: bool, active: bool, reply: Reply)
    requires Valid(p)
    ensures Valid(Fetch(p, text, hasKey, active, reply))
  {
  }

  lemma InputKeepsValid(p: Panel, text: string, hasKey: bool, active: bool)
    requires Valid(p)
    ensures Valid(OnInput(p, text, hasKey, active).0)
  {
  }

  /** With no suggestions every key is ignored. */
  lemma EmptyIgnoresKeys(p: Panel, key: Key)
    requires Valid(p) && |p.suggestions| == 0
    ensures KeyDown(p, key) == Outcome(p, None)
  {
  }

  /**
   * ArrowDown moves one entry down but stops at the last; ArrowUp moves one
   * up but stops at the first, so from no highlight it highlights the first.
   */
  lemma ArrowsClamp(p: Panel)
    requires Valid(p) && |p.suggestions| > 0
    ensures KeyDown(p, ArrowDown).panel.index == if p.index + 1 < |p.suggestions| then p.index + 1 else |p.suggestions| - 1
    ensures KeyDown(p, ArrowUp).panel.index == if p.index >= 1 then p.index - 1 else 0
    ensures KeyDown(p, ArrowDown).panel.suggestions == p.suggestions
    ensures KeyDown(p, ArrowUp).panel.suggestions == p.suggestions
  {
  }

  /** Enter picks the highlighted suggestion and closes the list, and does nothing without a highlight. */
  lemma EnterPicks(p: Panel)
    requires Valid(p) && |p.suggestions| > 0
    ensures p.index >= 0 ==> KeyDown(p, Enter) == Outcome(p.(suggestions := []), Some(p.suggestions[p.index]))
    ensures p.index < 0 ==> KeyDown(p, Enter) == Outcome(p, None)
  {
  }

  /** Escape closes the list without picking. */
  lemma EscapeCloses(p: Panel)
    requires Valid(p) && |p.suggestions| > 0
    ensures KeyDown(p, Escape) == Outcome(p.(suggestions := []), None)
  {
  }

  /** Escape hides the panel unless a request is under way. */
  lemma EscapeHides(p: Panel, active: bool)
    requires Valid(p) && |p.suggestions| > 0 && !p.loading
    ensures Shown(p, active) <==> active
    ensures !Shown(KeyDown(p, Escape).panel, active)
  {
  }

  /** Up then Down from a highlighted entry below the first returns to it. */
  lemma UpThenDown(p: Panel)
    requires Valid(p) && 1 <= p.index
    ensures KeyDown(KeyDown(p, ArrowUp).panel, ArrowDown).panel == p
  {
  }

  /** A fresh list is highlighted nowhere; a first ArrowDown highlights its first entry. */
  lemma FreshListStartsUnselected(p: Panel, text: string, list: seq<Suggestion>)
    requires Trim(text) != "" && |list| > 0
    ensures var q := Fetch(p, text, true, true, Suggested(list));
      Valid(q) && q.index == -1 && KeyDown(q, ArrowDown).panel.index == 0
  {
  }

  /** A pick closes the list: the cursor stays valid, every later key is ignored, and the panel is hidden unless loading. */
  lemma PickThenKeys(p: Panel, s: Suggestion, key: Key, active: bool)
    requires Valid(p)
    ensures var q := Pick(p, s).panel;
      && Valid(q)
      && KeyDown(q, key) == Outcome(q, None)
      && (!p.loading ==> !Shown(q, active))
  {
  }
}
