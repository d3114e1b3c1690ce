/**
 * The language drop-down (`components/LanguageSelector.js`): which entry
 * is shown, the keyboard handling while closed and while open, and a click
 * on an entry. The selected code belongs to the page; the selector reports
 * a new one through `onLanguageChange`, which the page adopts (and also
 * persists, which is outside the model).
 */
module LanguageSelector {

  /** The codes of `SUPPORTED_LANGUAGES`, in menu order. */
  const Codes: seq<string> := ["en", "es", "fr", "de", "pt", "zh", "ja", "ko", "ar"]

  /** The selector: whether the menu is open, and the page's language code. */
  datatype Selector = Selector(open: bool, selected: string)

  datatype Key = Enter | Space | ArrowDown | ArrowUp | Escape | OtherKey(name: string)

  /** `findIndex` by code: the first position holding `code`, or -1. */
  function FindIndex(codes: seq<string>, code: string): (r: int)
    ensures -1 <= r < |codes|
    ensures r == -1 <==> code !in codes
    ensures r >= 0 ==> codes[r] == code && code !in codes[..r]
    decreases |codes|
  {
    if |codes| == 0 then -1
    else if codes[0] == code then 0
    else
      var k := FindIndex(codes[1..], code);
      assert k >= 0 ==> codes[..k + 1] == [codes[0]] + codes[1..][..k];
      if k == -1 then -1 else k + 1
  }

  predicate Distinct(codes: seq<string>) {
    forall i, j | 0 <= i < j < |codes| :: codes[i] != codes[j]
  }

  lemma CodesDistinct()
    ensures Distinct(Codes)
  {
  }

  /** In a list without repeats, an entry is found at its own position. */
  lemma FindOwnIndex(codes: seq<string>, i: int)
    requires Distinct(codes) && 0 <= i < |codes|
    ensures FindIndex(codes, codes[i]) == i
  {
  }

  /** `currentLanguage`: the entry shown on the button; an unknown code shows the first entry. */
  function ShownIn(codes: seq<string>, s: Selector): (i: nat)
    requires |codes| > 0
    ensures i < |codes|
    ensures s.selected in codes ==> codes[i] == s.selected
    ensures s.selected !in codes ==> i == 0
  {
    var k := FindIndex(codes, s.selected);
    if k == -1 then 0 else k
  }

  function Shown(s: Selector): nat {
    ShownIn(Codes, s)
  }

  /** The position an arrow key moves to in a list of `n` entries, cyclically. */
  function Neighbour(n: int, current: int, down: bool): (i: int)
    requires n > 0 && -1 <= current < n
    ensures 0 <= i < n
  {
    if down then (current + 1) % n else (current - 1 + n) % n
  }

  /** Arrows from a listed position: one step, wrapping around at both ends. */
  lemma NeighbourSteps(n: int, current: int)
    requires 0 <= current < n
    ensures Neighbour(n, current, true) == if current == n - 1 then 0 else current + 1
    ensures Neighbour(n, current, false) == if current == 0 then n - 1 else current - 1
  {
    if current == n - 1 {
      ModSelf(n);
    } else {
      ModSmall(current + 1, n);
    }
    if current == 0 {
      ModSmall(n - 1, n);
    } else {
      ModMinus(current - 1 + n, n);
    }
  }

  lemma ModSmall(a: int, n: int)
    requires 0 <= a < n
    ensures a % n == a
  {
  }

  lemma ModSelf(n: int)
    requires 0 < n
    ensures n % n == 0
  {
  }

  lemma ModMinus(a: int, n: int)
    requires n <= a < 2 * n
    ensures a % n == a - n
  {
  }

  /** The code an arrow key selects, starting from the code `selected`. */
  function Move(codes: seq<string>, selected: string, down: bool): string
    requires |codes| > 0
  {
    codes[Neighbour(|codes|, FindIndex(codes, selected), down)]
  }

  /** From a listed code the arrows step one entry, wrapping around at both ends. */
  lemma MoveSteps(codes: seq<string>, i: int)
    requires Distinct(codes) && 0 <= i < |codes|
    ensures Move(codes, codes[i], true) == codes[if i == |codes| - 1 then 0 else i + 1]
    ensures Move(codes, codes[i], false) == codes[if i == 0 then |codes| - 1 else i - 1]
  {
    FindOwnIndex(codes, i);
    NeighbourSteps(|codes|, i);
  }

  /** Down then up returns to a listed code. */
  lemma MoveRoundTrip(codes: seq<string>, c: string)
    requires Distinct(codes) && c in codes
    ensures Move(codes, Move(codes, c, true), false) == c
  {
    var i := FindIndex(codes, c);
    MoveSteps(codes, i);
    MoveSteps(codes, if i == |codes| - 1 then 0 else i + 1);
  }

  /** From an unlisted code, down selects the first entry and up the second to last. */
  lemma MoveFromUnknown(codes: seq<string>, c: string)
    requires |codes| >= 2 && c !in codes
    ensures Move(codes, c, true) == codes[0]
    ensures Move(codes, c, false) == codes[|codes| - 2]
  {
    var n := |codes|;
    ModSmall(0, n);
    ModSmall(n - 2, n);
  }

  /**
   * `handleKeyDown` over a list of codes; the selector uses `Codes`. While
   * closed, Enter, Space and ArrowDown open the menu; while open, Escape
   * closes it and the arrows select the neighbouring entry.
   */
  function KeyDownIn(codes: seq<string>, s: Selector, key: Key): (r: Selector)
    requires |codes| > 0
    ensures r.selected == s.selected || r.selected in codes
    ensures !s.open ==> r.selected == s.selected
    ensures s.open && key == Escape ==> !r.open && r.selected == s.selected
    ensures s.open && key != ArrowDown && key != ArrowUp ==> r.selected == s.selected
  {
    if !s.open then
      (if key == Enter || key == Space || key == ArrowDown then s.(open := true) else s)
    else if key == Escape then s.(open := false)
    else if key == ArrowDown || key == ArrowUp then s.(selected := Move(codes, s.selected, key == ArrowDown))
    else s
  }

  function KeyDown(s: Selector, key: Key): Selector {
    KeyDownIn(Codes, s, key)
  }

  /** An open menu stays open under every key but Escape, and an arrow always selects a listed code. */
  lemma OpenKeys(codes: seq<string>, s: Selector, key: Key)
    requires |codes| > 0 && s.open
    ensures KeyDownIn(codes, s, key).open <==> key != Escape
    ensures key == ArrowDown || key == ArrowUp ==> KeyDownIn(codes, s, key).selected in codes
  {
  }

  /** A click on an entry of the open menu reports it and closes the menu. */
  function Click(s: Selector, code: string): (r: Selector)
    requires s.open && code in Codes
    ensures !r.open && r.selected == code
  {
    Selector(false, code)
  }

  /** While closed, only Enter, Space and ArrowDown open the menu, and the language stays. */
  lemma ClosedKeys(codes: seq<string>, s: Selector, key: Key)
    requires |codes| > 0 && !s.open
    ensures KeyDownIn(codes, s, key).selected == s.selected
    ensures KeyDownIn(codes, s, key).open <==> key == Enter || key == Space || key == ArrowDown
  {
  }

  /** While open, Escape closes the menu without changing the language. */
  lemma EscapeCloses(codes: seq<string>, s: Selector)
    requires |codes| > 0 && s.open
    ensures KeyDownIn(codes, s, Escape) == Selector(false, s.selected)
  {
  }

  /** While open, the arrows move one entry down or up, wrapping around at both ends. */
  lemma ArrowsCycle(codes: seq<string>, s: Selector, i: int)
    requires Distinct(codes) && s.open && 0 <= i < |codes| && s.selected == codes[i]
    ensures KeyDownIn(codes, s, ArrowDown) == Selector(true, codes[if i == |codes| - 1 then 0 else i + 1])
    ensures KeyDownIn(codes, s, ArrowUp) == Selector(true, codes[if i == 0 then |codes| - 1 else i - 1])
  {
    MoveSteps(codes, i);
  }

  /** ArrowDown then ArrowUp comes back to a listed language. */
  lemma DownThenUp(codes: seq<string>, s: Selector)
    requires Distinct(codes) && s.open && s.selected in codes
    ensures KeyDownIn(codes, KeyDownIn(codes, s, ArrowDown), ArrowUp) == s
  {
    MoveRoundTrip(codes, s.selected);
  }

  /**
   * An unlisted code shows the first entry, and ArrowDown then selects
   * that entry, while ArrowUp selects the second to last one.
   */
  lemma UnknownCode(codes: seq<string>, s: Selector)
    requires |codes| >= 2 && s.open && s.selected !in codes
    ensures ShownIn(codes, s) == 0
    ensures KeyDownIn(codes, s, ArrowDown).selected == codes[0]
    ensures KeyDownIn(codes, s, ArrowUp).selected == codes[|codes| - 2]
  {
    MoveFromUnknown(codes, s.selected);
  }

  /** After a click the menu is closed, the button shows the clicked language, and Escape changes nothing. */
  lemma ClickShows(s: Selector, code: string)
    requires s.open && code in Codes
    ensures var r := Click(s, code);
      !r.open && Codes[Shown(r)] == code && KeyDown(r, Escape) == r
  {
  }
}
