/**
 * The visual rule builder (`VisualRuleBuilder.js`): a canvas of components
 * edited by adding values, dragging palette items in, reordering and
 * removing, and serialised into a sentence and a code string. The clock
 * (`Date.now()`, used for fresh ids) is `now`; the numeric test
 * `!isNaN(v) && !isNaN(parseFloat(v))` is the parameter `isNumeric`.
 */
module VisualBuilder {
  import opened Strings
  import opened Optional

  datatype Kind = Subject | Condition | Value | Connector

  /**
   * A canvas or palette component; `caption` is the source's `label`. Only
   * values carry a `value`; palette items have `""`.
   */
  datatype Component = Component(id: string, kind: Kind, caption: string, value: string)

  function Item(id: string, kind: Kind, caption: string): Component {
    Component(id, kind, caption, "")
  }

  /** The palette: subjects, then conditions, then connectors. */
  const Palette: seq<Component> := [
    Item("transaction.amount", Subject, "Transaction Amount"),
    Item("user.age", Subject, "User Age"),
    Item("user.country", Subject, "User Country"),
    Item("user.is_new", Subject, "Is New User"),
    Item("transaction.date", Subject, "Transaction Date"),
    Item("location.state", Subject, "Location State"),
    Item("weekly_revenue", Subject, "Weekly Revenue"),
    Item("monthly_revenue", Subject, "Monthly Revenue"),
    Item("greater_than", Condition, ">"),
    Item("less_than", Condition, "<"),
    Item("equal_to", Condition, "=="),
    Item("not_equal_to", Condition, "!="),
    Item("contains", Condition, "contains"),
    Item("not_contains", Condition, "does not contain"),
    Item("in", Condition, "in"),
    Item("not_in", Condition, "not in"),
    Item("and", Connector, "AND"),
    Item("or", Connector, "OR"),
    Item("not", Connector, "NOT")
  ]

  // ---------------------------------------------------------------------
  // canvas edits

  /** `items.findIndex(item => item.id === id)`. */
  function IndexOfId(items: seq<Component>, id: string): (i: int)
    ensures -1 <= i < |items|
    ensures i == -1 <==> forall k | 0 <= k < |items| :: items[k].id != id
    ensures i >= 0 ==> items[i].id == id && forall k | 0 <= k < i :: items[k].id != id
    decreases |items|
  {
    if |items| == 0 then -1
    else if items[0].id == id then 0
    else
      var j := IndexOfId(items[1..], id);
      assert forall k | 1 <= k < |items| :: items[k] == items[1..][k - 1];
      if j == -1 then -1 else j + 1
  }

  /** `items.find(item => item.id === id)`. */
  function FindId(items: seq<Component>, id: string): (r: Option<Component>)
    ensures r.None? <==> IndexOfId(items, id) == -1
    ensures r.Some? ==> r.value == items[IndexOfId(items, id)] && r.value.id == id
  {
    var i := IndexOfId(items, id);
    if i == -1 then None else Some(items[i])
  }

  /** Where `splice(start, …)` starts: a negative start counts from the end, and both ends are clamped. */
  function SpliceStart(len: nat, start: int): (k: nat)
    ensures k <= len
    ensures 0 <= start <= len ==> k == start
    ensures start < 0 ==> k == if len + start < 0 then 0 else len + start
  {
    if start < 0 then (if len + start < 0 then 0 else len + start)
    else if start > len then len
    else start
  }

  /** `s.splice(start, 0, x)`. */
  function InsertAt(s: seq<Component>, start: int, x: Component): (r: seq<Component>)
    ensures |r| == |s| + 1
    ensures var k := SpliceStart(|s|, start); r[..k] == s[..k] && r[k] == x && r[k + 1..] == s[k..]
  {
    var k := SpliceStart(|s|, start);
    s[..k] + [x] + s[k..]
  }

  /** `s.splice(i, 1)`: the sequence without its `i`-th element. */
  function RemoveAt(s: seq<Component>, i: nat): (r: seq<Component>)
    requires i < |s|
    ensures |r| == |s| - 1
    ensures r[..i] == s[..i] && r[i..] == s[i + 1..]
  {
    s[..i] + s[i + 1..]
  }

  /** The VALUE component `handleAddValue` creates. */
  function ValueComponent(input: string, now: nat): Component {
    Component("value_" + NatToString(now), Value, input, input)
  }

  /** The canvas and the value input field. */
  datatype Editing = Editing(canvas: seq<Component>, input: string)

  /**
   * `handleAddValue`: a blank input changes nothing; otherwise one VALUE
   * component holding the input is appended and the field is cleared.
   */
  function AddValue(e: Editing, now: nat): (r: Editing)
    ensures Trim(e.input) == "" ==> r == e
    ensures Trim(e.input) != "" ==>
      && r.canvas == e.canvas + [ValueComponent(e.input, now)]
      && r.input == ""
  {
    if Trim(e.input) == "" then e
    else Editing(e.canvas + [ValueComponent(e.input, now)], "")
  }

  /** The copy of a palette item dropped on the canvas, under a fresh id. */
  function Copy(item: Component, now: nat): (c: Component)
    ensures c.kind == item.kind && c.caption == item.caption && c.value == item.value
    ensures c.id == item.id + "_" + NatToString(now)
  {
    item.(id := item.id + "_" + NatToString(now))
  }

  /** Moving a canvas item: take it out, then insert it where the target was in the original canvas. */
  function Move(canvas: seq<Component>, from: nat, to: int): (r: seq<Component>)
    requires from < |canvas|
    ensures |r| == |canvas|
  {
    InsertAt(RemoveAt(canvas, from), to, canvas[from])
  }

  /**
   * `handleDragEnd` for the drag of `active` released over `over` (`None`
   * when released over no item), with the palette `palette`.
   */
  function DragEndWith(palette: seq<Component>, canvas: seq<Component>, active: string, over: Option<string>, now: nat): (r: seq<Component>)
    ensures over.Some? && over.value == active ==> r == canvas
    ensures over.Some? && over.value != active && IndexOfId(canvas, active) != -1 ==>
      r == Move(canvas, IndexOfId(canvas, active), IndexOfId(canvas, over.value))
    ensures over.Some? && over.value != active && IndexOfId(canvas, active) == -1 ==>
      match FindId(palette, active)
      case None => r == canvas
      case Some(item) => r == InsertAt(canvas, IndexOfId(canvas, over.value), Copy(item, now))
    ensures over.None? && IndexOfId(canvas, active) != -1 ==> r == canvas
    ensures over.None? && IndexOfId(canvas, active) == -1 ==>
      match FindId(palette, active)
      case None => r == canvas
      case Some(item) => r == canvas + [Copy(item, now)]
  {
    var from := IndexOfId(canvas, active);
    match over
    case Some(target) =>
      if target == active then canvas
      else if from != -1 then Move(canvas, from, IndexOfId(canvas, target))
      else
        (match FindId(palette, active)
         case None => canvas
         case Some(item) => InsertAt(canvas, IndexOfId(canvas, target), Copy(item, now)))
    case None =>
      if from != -1 then canvas
      else
        match FindId(palette, active)
        case None => canvas
        case Some(item) => canvas + [Copy(item, now)]
  }

  /** `handleDragEnd` with the builder's own palette. */
  function DragEnd(canvas: seq<Component>, active: string, over: Option<string>, now: nat): (r: seq<Component>)
    ensures r == DragEndWith(Palette, canvas, active, over, now)
  {
    DragEndWith(Palette, canvas, active, over, now)
  }

  /** `handleRemoveItem`: `canvas.filter(item => item.id !== id)`. */
  function RemoveItem(canvas: seq<Component>, id: string): (r: seq<Component>)
    ensures |r| <= |canvas|
    ensures forall x :: x in r <==> x in canvas && x.id != id
    decreases |canvas|
  {
    if |canvas| == 0 then []
    else (if canvas[0].id == id then [] else [canvas[0]]) + RemoveItem(canvas[1..], id)
  }

  /** `handleClearCanvas`: empties a non-empty canvas once confirmed. */
  function ClearCanvas(canvas: seq<Component>, confirmed: bool): (r: seq<Component>)
    ensures |canvas| > 0 && confirmed ==> r == []
    ensures |canvas| == 0 || !confirmed ==> r == canvas
  {
    if |canvas| > 0 && confirmed then [] else canvas
  }

  // ---------------------------------------------------------------------
  // serialisation

  /** The word a component contributes to the sentence. */
  function Word(c: Component): string {
    match c.kind
    case Subject => c.caption
    case Condition => "is " + c.caption
    case Value => c.value
    case Connector => c.caption
  }

  function Words(canvas: seq<Component>): (ws: seq<string>)
    ensures |ws| == |canvas|
    ensures forall i | 0 <= i < |canvas| :: ws[i] == Word(canvas[i])
  {
    seq(|canvas|, i requires 0 <= i < |canvas| => Word(canvas[i]))
  }

  /** `id.split('_')[0]`: the id up to its first underscore, which drops the time stamp and more. */
  function Key(id: string): string {
    FirstSegment(id, '_')
  }

  /** The code a condition emits, by key. */
  function ConditionCode(key: string): string {
    if key == "greater_than" then " > "
    else if key == "less_than" then " < "
    else if key == "equal_to" then " == "
    else if key == "not_equal_to" then " != "
    else if key == "contains" then ".includes("
    else if key == "not_contains" then ".indexOf("
    else if key == "in" then " in "
    else if key == "not_in" then " not in "
    else ""
  }

  /** The code a connector emits, by key. */
  function ConnectorCode(key: string): string {
    if key == "and" then " && "
    else if key == "or" then " || "
    else if key == "not" then "!"
    else ""
  }

  /** What follows a value that comes right after a condition. */
  function Closing(prev: Component): string {
    if prev.kind != Condition then ""
    else if Key(prev.id) == "contains" then ")"
    else if Key(prev.id) == "not_contains" then ") === -1"
    else ""
  }

  /** A number is emitted bare, anything else in double quotes. */
  function Literal(v: string, isNumeric: string -> bool): (r: string)
    ensures isNumeric(v) ==> r == v
    ensures !isNumeric(v) ==> r == "\"" + v + "\""
  {
    if isNumeric(v) then v else "\"" + v + "\""
  }

  /** The code the `i`-th component emits. */
  function Piece(canvas: seq<Component>, i: nat, isNumeric: string -> bool): (r: string)
    requires i < |canvas|
    ensures canvas[i].kind == Subject ==> '_' !in r
    ensures canvas[i].kind == Value ==> Literal(canvas[i].value, isNumeric) <= r
    ensures canvas[i].kind == Value && (i == 0 || canvas[i - 1].kind != Condition) ==> r == Literal(canvas[i].value, isNumeric)
    ensures canvas[i].kind == Connector ==> r in {" && ", " || ", "!", ""}
  {
    KeyHasNoUnderscore(canvas[i].id);
    var c := canvas[i];
    match c.kind
    case Subject => Key(c.id)
    case Condition => ConditionCode(Key(c.id))
    case Value => Literal(c.value, isNumeric) + (if i > 0 then Closing(canvas[i - 1]) else "")
    case Connector => ConnectorCode(Key(c.id))
  }

  /** The code of the first `n` components. */
  function CodeUpTo(canvas: seq<Component>, n: nat, isNumeric: string -> bool): string
    requires n <= |canvas|
  {
    if n == 0 then "" else CodeUpTo(canvas, n - 1, isNumeric) + Piece(canvas, n - 1, isNumeric)
  }

  /** The sentence loop: words separated by single spaces. */
  method Sentence(canvas: seq<Component>) returns (sentence: string)
    ensures sentence == Join(Words(canvas), " ")
  {
    var words := Words(canvas);
    sentence := "";
    var i := 0;
    while i < |canvas|
      invariant 0 <= i <= |canvas|
      invariant sentence == Join(words[..i], " ")
    {
      SentenceStep(words, i);
      if i > 0 {
        sentence := sentence + " ";
      }
      sentence := sentence + words[i];
      i := i + 1;
    }
    assert words[..i] == words;
  }

  lemma SentenceStep(words: seq<string>, i: nat)
    requires i < |words|
    ensures Join(words[..i + 1], " ") ==
      if i == 0 then words[i] else Join(words[..i], " ") + " " + words[i]
  {
    var pre := words[..i];
    assert words[..i + 1] == pre + [words[i]];
    JoinSnoc(pre, " ", words[i]);
  }

  /** The code loop: the pieces of the components, in order. */
  method Code(canvas: seq<Component>, isNumeric: string -> bool) returns (code: string)
    ensures code == CodeUpTo(canvas, |canvas|, isNumeric)
  {
    code := "";
    var j := 0;
    while j < |canvas|
      invariant 0 <= j <= |canvas|
      invariant code == CodeUpTo(canvas, j, isNumeric)
    {
      CodeStep(canvas, j, isNumeric);
      code := code + Piece(canvas, j, isNumeric);
      j := j + 1;
    }
  }

  lemma CodeStep(canvas: seq<Component>, j: nat, isNumeric: string -> bool)
    requires j < |canvas|
    ensures CodeUpTo(canvas, j + 1, isNumeric) == CodeUpTo(canvas, j, isNumeric) + Piece(canvas, j, isNumeric)
  {
  }

  /**
   * The serialiser the builder reruns on every canvas change: the sentence
   * is the components' words separated by single spaces, the code the
   * concatenation of their pieces; an empty canvas gives two empty strings.
   */
  method Generate(canvas: seq<Component>, isNumeric: string -> bool) returns (sentence: string, code: string)
    ensures sentence == Join(Words(canvas), " ")
    ensures code == CodeUpTo(canvas, |canvas|, isNumeric)
    ensures |canvas| == 0 ==> sentence == "" && code == ""
  {
    if |canvas| == 0 {
      return "", "";
    }
    sentence := Sentence(canvas);
    code := Code(canvas, isNumeric);
  }

  // ---------------------------------------------------------------------
  // properties

  /** Reordering only permutes the canvas. */
  lemma MovePermutes(canvas: seq<Component>, from: nat, to: int)
    requires from < |canvas|
    ensures multiset(Move(canvas, from, to)) == multiset(canvas)
  {
    var rest := RemoveAt(canvas, from);
    var k := SpliceStart(|rest|, to);
    assert canvas == canvas[..from] + [canvas[from]] + canvas[from + 1..];
    assert rest == canvas[..from] + canvas[from + 1..];
    assert rest == rest[..k] + rest[k..];
    var x := canvas[from];
    assert Move(canvas, from, to) == rest[..k] + [x] + rest[k..];
    calc {
      multiset(Move(canvas, from, to));
      multiset(rest[..k]) + multiset([x]) + multiset(rest[k..]);
      multiset(rest) + multiset([x]);
      multiset(canvas[..from]) + multiset(canvas[from + 1..]) + multiset([x]);
      multiset(canvas);
    }
  }

  /** A drag between two distinct canvas items keeps the same components. */
  lemma ReorderIsPermutation(palette: seq<Component>, canvas: seq<Component>, active: string, target: string, now: nat)
    requires target != active && IndexOfId(canvas, active) != -1
    ensures var r := DragEndWith(palette, canvas, active, Some(target), now);
      |r| == |canvas| && multiset(r) == multiset(canvas)
  {
    MovePermutes(canvas, IndexOfId(canvas, active), IndexOfId(canvas, target));
  }

  /**
   * Dropping a palette item adds exactly one fresh copy: taking it back out
   * at the position the drop chose gives the canvas before the drop.
   */
  lemma DropAddsOneCopy(palette: seq<Component>, canvas: seq<Component>, active: string, over: Option<string>, now: nat)
    requires over.None? || over.value != active
    requires IndexOfId(canvas, active) == -1 && FindId(palette, active).Some?
    ensures var r := DragEndWith(palette, canvas, active, over, now);
      var k := if over.None? then |canvas| else SpliceStart(|canvas|, IndexOfId(canvas, over.value));
      && |r| == |canvas| + 1
      && k < |r|
      && r[k] == Copy(FindId(palette, active).value, now)
      && RemoveAt(r, k) == canvas
  {
    var r := DragEndWith(palette, canvas, active, over, now);
    var k := if over.None? then |canvas| else SpliceStart(|canvas|, IndexOfId(canvas, over.value));
    assert r == canvas[..k] + [r[k]] + canvas[k..];
    assert RemoveAt(r, k) == canvas[..k] + canvas[k..];
    assert canvas == canvas[..k] + canvas[k..];
  }

  /** Removing distributes over concatenation, so the remaining items keep their order. */
  lemma {:induction false} RemoveItemAppend(a: seq<Component>, b: seq<Component>, id: string)
    ensures RemoveItem(a + b, id) == RemoveItem(a, id) + RemoveItem(b, id)
    decreases |a|
  {
    if |a| == 0 {
      assert a + b == b;
    } else {
      assert (a + b)[1..] == a[1..] + b;
      RemoveItemAppend(a[1..], b, id);
    }
  }

  /** Removing an id no item carries changes nothing. */
  lemma {:induction false} RemoveItemAbsent(canvas: seq<Component>, id: string)
    requires forall k | 0 <= k < |canvas| :: canvas[k].id != id
    ensures RemoveItem(canvas, id) == canvas
    decreases |canvas|
  {
    if |canvas| > 0 {
      RemoveItemAbsent(canvas[1..], id);
    }
  }

  /** Removing a value just added under a fresh id undoes the addition. */
  lemma AddThenRemove(e: Editing, now: nat)
    requires Trim(e.input) != ""
    requires forall k | 0 <= k < |e.canvas| :: e.canvas[k].id != ValueComponent(e.input, now).id
    ensures RemoveItem(AddValue(e, now).canvas, ValueComponent(e.input, now).id) == e.canvas
  {
    var v := ValueComponent(e.input, now);
    RemoveItemAppend(e.canvas, [v], v.id);
    RemoveItemAbsent(e.canvas, v.id);
    assert RemoveItem([v], v.id) == [];
  }

  /** A dropped copy has the key of the palette item, since its suffix starts with an underscore. */
  lemma KeyOfCopy(item: Component, now: nat)
    ensures Key(Copy(item, now).id) == Key(item.id)
  {
    var t := NatToString(now);
    if '_' in item.id {
      assert Copy(item, now).id == item.id + ("_" + t);
      FirstSegmentExtend(item.id, '_', "_" + t);
    } else {
      FirstSegmentOf(item.id, '_', t);
      FirstSegmentOf(item.id, '_', "");
      assert item.id + ['_'] + "" == item.id + "_";
      assert item.id + ['_'] + t == item.id + "_" + t;
      if |Key(item.id)| < |item.id| {
        assert false;
      }
    }
  }

  /** A key never holds an underscore. */
  lemma KeyHasNoUnderscore(id: string)
    ensures '_' !in Key(id)
  {
  }

  /**
   * Only the `contains` and `in` conditions produce code: the other
   * condition ids hold an underscore, which the key has cut off.
   */
  lemma SilentConditions(id: string)
    ensures ConditionCode(Key(id)) != "" ==> Key(id) == "contains" || Key(id) == "in"
  {
    var k := Key(id);
    assert "greater_than"[7] == '_' && "less_than"[4] == '_' && "equal_to"[5] == '_';
    assert "not_equal_to"[3] == '_' && "not_contains"[3] == '_' && "not_in"[3] == '_';
  }

  /** The underscore-bearing subjects are cut short: `weekly`, `monthly` and `user.is`. */
  lemma TruncatedSubjects(t: string)
    ensures Key("weekly_revenue" + t) == "weekly"
    ensures Key("monthly_revenue" + t) == "monthly"
    ensures Key("user.is_new" + t) == "user.is"
  {
    assert "weekly_revenue" + t == "weekly" + "_" + ("revenue" + t);
    KeyBeforeUnderscore("weekly", "revenue" + t);
    assert "monthly_revenue" + t == "monthly" + "_" + ("revenue" + t);
    KeyBeforeUnderscore("monthly", "revenue" + t);
    assert "user.is_new" + t == "user.is" + "_" + ("new" + t);
    KeyBeforeUnderscore("user.is", "new" + t);
  }

  /** An id's key is the text before its first underscore. */
  lemma KeyBeforeUnderscore(head: string, rest: string)
    requires '_' !in head
    ensures Key(head + "_" + rest) == head
  {
    assert head + "_" + rest == head + ['_'] + rest;
    FirstSegmentOf(head, '_', rest);
  }

  /** A value right after a `contains` condition closes the call it opened. */
  lemma ContainsValueCloses(canvas: seq<Component>, i: nat, isNumeric: string -> bool)
    requires 0 < i < |canvas| && canvas[i].kind == Value
    requires canvas[i - 1].kind == Condition && Key(canvas[i - 1].id) == "contains"
    ensures Piece(canvas, i, isNumeric) == Literal(canvas[i].value, isNumeric) + ")"
  {
  }

  /** A cleared canvas serialises to an empty sentence and empty code, and clearing it again changes nothing. */
  lemma ClearedIsEmpty(canvas: seq<Component>, confirmed: bool, isNumeric: string -> bool)
    requires |canvas| > 0
    ensures var r := ClearCanvas(canvas, true);
      && Join(Words(r), " ") == "" && CodeUpTo(r, |r|, isNumeric) == ""
      && ClearCanvas(r, confirmed) == r
    ensures ClearCanvas(canvas, false) == canvas
  {
  }
}
