/**
 * The translation lookup `t(lang, path, placeholders)` (`translations.js`):
 * a dotted path is resolved in the table of the requested language, then
 * in the English table, and finally echoed back; the string found has its
 * `{key}` placeholders replaced.
 */
module Translations {
  import opened Strings
  import opened Optional

  /** A node of the translation table: a string, or a section of named entries. */
  datatype Entry = Text(text: string) | Section(fields: seq<Field>)
  datatype Field = Field(key: string, entry: Entry)

  /**
   * `value[key]` on a table node: the entry under `key` in a section. On a
   * string it is `undefined`: property lookups on strings are not modelled.
   */
  function Child(e: Entry, key: string): (r: Option<Entry>)
    ensures r.Some? ==> e.Section? && exists k | 0 <= k < |e.fields| :: e.fields[k] == Field(key, r.value)
    ensures r.None? <==> e.Text? || forall k | 0 <= k < |e.fields| :: e.fields[k].key != key
  {
    match e
    case Text(_) => None
    case Section(fields) => Lookup(fields, key)
  }

  /**
   * The entry of the last field named `key`: in an object literal a
   * repeated key keeps the value written last.
   */
  function Lookup(fields: seq<Field>, key: string): (r: Option<Entry>)
    ensures r.Some? ==> exists k | 0 <= k < |fields| ::
      && fields[k] == Field(key, r.value)
      && forall j | k < j < |fields| :: fields[j].key != key
    ensures r.None? <==> forall k | 0 <= k < |fields| :: fields[k].key != key
    decreases |fields|
  {
    if |fields| == 0 then None
    else
      var n := |fields| - 1;
      if fields[n].key == key then Some(fields[n].entry)
      else
        var r := Lookup(fields[..n], key);
        assert forall k | 0 <= k < n :: fields[..n][k] == fields[k];
        r
  }

  /** Follows `keys` down from `e`; `None` as soon as a key is missing. */
  function Resolve(e: Entry, keys: seq<string>): Option<Entry>
    decreases |keys|
  {
    if |keys| == 0 then Some(e)
    else
      match Child(e, keys[0])
      case None => None
      case Some(c) => Resolve(c, keys[1..])
  }

  /** One more key: resolving a longer path is resolving the shorter one and taking one child. */
  lemma {:induction false} ResolveSnoc(e: Entry, keys: seq<string>, i: nat)
    requires i < |keys|
    ensures Resolve(e, keys[..i + 1]) ==
      (match Resolve(e, keys[..i]) case None => None case Some(v) => Child(v, keys[i]))
    decreases i
  {
    if i > 0 {
      match Child(e, keys[0])
      case None =>
      case Some(c) =>
        assert keys[..i + 1][1..] == keys[1..][..i];
        assert keys[..i][1..] == keys[1..][..i - 1];
        ResolveSnoc(c, keys[1..], i - 1);
    } else {
      assert keys[..1][1..] == [];
    }
  }

  /** JavaScript truthiness of a table node: only the empty string is falsy. */
  predicate Truthy(e: Entry) {
    e != Text("")
  }

  /** `translations[lang] || translations.en`. */
  function LanguageTable(root: Entry, lang: string): (t: Entry)
    requires Child(root, "en").Some?
    ensures Child(root, lang).Some? && Truthy(Child(root, lang).value) ==> t == Child(root, lang).value
    ensures Child(root, lang).None? ==> t == Child(root, "en").value
  {
    match Child(root, lang)
    case Some(t) => if Truthy(t) then t else Child(root, "en").value
    case None => Child(root, "en").value
  }

  /** `String(value)`: a string is itself, a section renders as `[object Object]`. */
  function Render(e: Entry): string {
    match e
    case Text(s) => s
    case Section(_) => "[object Object]"
  }

  /** The pattern `{key}` a placeholder named `key` stands for. */
  function Placeholder(key: string): (p: string)
    ensures |p| > 0 && p[0] == '{'
  {
    "{" + key + "}"
  }

  /** Replaces each `{key}` by its value, one placeholder after the other, in the order given. */
  function Substitute(s: string, placeholders: seq<(string, string)>): string
    decreases |placeholders|
  {
    if |placeholders| == 0 then s
    else Substitute(ReplaceAll(s, Placeholder(placeholders[0].0), placeholders[0].1), placeholders[1..])
  }

  /**
   * `t(lang, path, placeholders)`. The table must hold an English section:
   * the source reads it unconditionally.
   */
  function T(root: Entry, lang: string, path: string, placeholders: seq<(string, string)>): (r: string)
    requires Child(root, "en").Some?
    ensures var keys := Split(path, '.');
      Resolve(LanguageTable(root, lang), keys).Some? ==>
        r == Substitute(Render(Resolve(LanguageTable(root, lang), keys).value), placeholders)
    ensures var keys := Split(path, '.');
      Resolve(LanguageTable(root, lang), keys).None? && Resolve(Child(root, "en").value, keys).Some? ==>
        r == Substitute(Render(Resolve(Child(root, "en").value, keys).value), placeholders)
    ensures var keys := Split(path, '.');
      Resolve(LanguageTable(root, lang), keys).None? && Resolve(Child(root, "en").value, keys).None? ==> r == path
  {
    var keys := Split(path, '.');
    match Resolve(LanguageTable(root, lang), keys)
    case Some(v) => Substitute(Render(v), placeholders)
    case None =>
      match Resolve(Child(root, "en").value, keys)
      case Some(v) => Substitute(Render(v), placeholders)
      case None => path
  }

  /**
   * The loop the source runs: walk the keys in the chosen table; at the
   * first missing key restart from the English table, and give back the
   * path itself if English misses a key too.
   */
  method Translate(root: Entry, lang: string, path: string, placeholders: seq<(string, string)>)
    returns (r: string)
    requires Child(root, "en").Some?
    ensures r == T(root, lang, path, placeholders)
  {
    var table := LanguageTable(root, lang);
    var english := Child(root, "en").value;
    var keys := Split(path, '.');
    var value := table;
    var i := 0;
    while i < |keys|
      invariant 0 <= i <= |keys|
      invariant Resolve(table, keys[..i]) == Some(value)
    {
      ResolveSnoc(table, keys, i);
      var next := Child(value, keys[i]);
      if next.None? {
        // the chosen table misses a key: start over in English
        assert Resolve(table, keys) == None by {
          ResolveMissing(table, keys, i + 1);
        }
        value := english;
        var j := 0;
        while j < |keys|
          invariant 0 <= j <= |keys|
          invariant Resolve(english, keys[..j]) == Some(value)
        {
          ResolveSnoc(english, keys, j);
          var step := Child(value, keys[j]);
          if step.None? {
            ResolveMissing(english, keys, j + 1);
            return path;
          }
          value := step.value;
          j := j + 1;
        }
        assert keys[..j] == keys;
        break;
      }
      value := next.value;
      i := i + 1;
    }
    if i == |keys| {
      assert keys[..i] == keys;
    }
    r := Substitute(Render(value), placeholders);
  }

  /** Once a prefix of the path fails to resolve, the whole path fails. */
  lemma {:induction false} ResolveMissing(e: Entry, keys: seq<string>, i: nat)
    requires i <= |keys| && Resolve(e, keys[..i]) == None
    ensures Resolve(e, keys) == None
    decreases |keys| - i
  {
    if i < |keys| {
      ResolveSnoc(e, keys, i);
      ResolveMissing(e, keys, i + 1);
    } else {
      assert keys[..i] == keys;
    }
  }

  // ---------------------------------------------------------------------
  // properties

  /** A language the table does not know resolves exactly as English does. */
  lemma UnknownLanguageIsEnglish(root: Entry, lang: string, path: string, placeholders: seq<(string, string)>)
    requires Child(root, "en").Some? && Child(root, lang).None?
    ensures T(root, lang, path, placeholders) == T(root, "en", path, placeholders)
  {
  }

  /** A path found in the chosen table gives that string. */
  lemma FoundInChosen(root: Entry, lang: string, path: string, s: string)
    requires Child(root, "en").Some?
    requires Resolve(LanguageTable(root, lang), Split(path, '.')) == Some(Text(s))
    ensures T(root, lang, path, []) == s
  {
  }

  /** A path that stops at a section gives the section's string form instead of falling back. */
  lemma SectionIsRendered(root: Entry, lang: string, path: string, fields: seq<Field>)
    requires Child(root, "en").Some?
    requires Resolve(LanguageTable(root, lang), Split(path, '.')) == Some(Section(fields))
    ensures T(root, lang, path, []) == "[object Object]"
  {
  }

  /** A path missing from the chosen table is resolved from the root of the English table. */
  lemma MissingFallsBackToEnglish(root: Entry, lang: string, path: string, s: string)
    requires Child(root, "en").Some?
    requires Resolve(LanguageTable(root, lang), Split(path, '.')) == None
    requires Resolve(Child(root, "en").value, Split(path, '.')) == Some(Text(s))
    ensures T(root, lang, path, []) == s
  {
  }

  /** A path missing in English too comes back verbatim, placeholders and all. */
  lemma MissingEverywhereEchoesPath(root: Entry, lang: string, path: string, placeholders: seq<(string, string)>)
    requires Child(root, "en").Some?
    requires Resolve(LanguageTable(root, lang), Split(path, '.')) == None
    requires Resolve(Child(root, "en").value, Split(path, '.')) == None
    ensures T(root, lang, path, placeholders) == path
  {
  }

  /** A string without `{` is left alone by any placeholders. */
  lemma {:induction false} NoBraceUnchanged(s: string, placeholders: seq<(string, string)>)
    requires '{' !in s
    ensures Substitute(s, placeholders) == s
    decreases |placeholders|
  {
    if |placeholders| > 0 {
      NoFirstCharNoChange(s, Placeholder(placeholders[0].0), placeholders[0].1);
      NoBraceUnchanged(s, placeholders[1..]);
    }
  }

  /** A placeholder between brace-free texts is replaced by its value. */
  lemma PlaceholderReplaced(a: string, key: string, v: string, b: string)
    requires '{' !in a && '{' !in b
    ensures Substitute(a + Placeholder(key) + b, [(key, v)]) == a + v + b
  {
    ReplaceOne(a, b, Placeholder(key), v);
    assert Substitute(a + v + b, []) == a + v + b;
  }

  /**
   * Every occurrence of `{key}` is replaced, as the global regular
   * expression does: brace-free text cut by the placeholder comes back
   * joined by the value.
   */
  lemma PlaceholderEverywhere(ps: seq<string>, key: string, v: string)
    requires |ps| > 0 && forall k | 0 <= k < |ps| :: '{' !in ps[k]
    ensures Substitute(Join(ps, Placeholder(key)), [(key, v)]) == Join(ps, v)
  {
    ReplaceAllJoin(ps, Placeholder(key), v);
    assert Substitute(Join(ps, v), []) == Join(ps, v);
  }
}
