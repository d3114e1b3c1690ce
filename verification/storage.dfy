/**
 * The versioned rule store (`ruleStorage.js`). The browser's storage is the
 * sequence of rules `getAllRules` returns; every operation takes that
 * sequence and gives back the one it writes. The clock (`new Date()` and
 * `Date.now()`, read once per call) is the parameter `now`, in milliseconds.
 */
module RuleStorage {
  import opened Strings
  import opened Optional

  /**
   * One entry of a rule's history. `revertedFrom` is `Some(i)` exactly for
   * an entry written by reverting to version `i` (`isReversion` and
   * `revertedFromVersion` in the source).
   */
  datatype Version = Version(ruleCode: string, timestamp: nat, revertedFrom: Option<nat>)

  datatype Rule = Rule(
    id: string,
    name: string,
    naturalLanguage: string,
    ruleCode: string,
    createdAt: nat,
    updatedAt: nat,
    versions: seq<Version>)

  /**
   * What a caller hands to `saveRule`. An empty `id` is falsy in the source
   * and counts as absent; `createdAt` and `versions` are `None` when left
   * out. Any array, even an empty one, counts as present.
   */
  datatype Draft = Draft(
    id: string,
    name: string,
    naturalLanguage: string,
    ruleCode: string,
    createdAt: Option<nat>,
    versions: Option<seq<Version>>)

  /** Where `getAllRules` reads from: no browser window, or a window whose storage may hold the key. */
  datatype Backing = NoWindow | Window(stored: Option<seq<Rule>>)

  /** `getAllRules`: nothing without a window or without a stored value. */
  function AllRules(b: Backing): (rules: seq<Rule>)
    ensures b == NoWindow ==> rules == []
    ensures b == Window(None) ==> rules == []
    ensures b.Window? && b.stored.Some? ==> rules == b.stored.value
  {
    match b
    case NoWindow => []
    case Window(None) => []
    case Window(Some(rules)) => rules
  }

  /** No rule in `rules` carries `id`. */
  predicate Absent(rules: seq<Rule>, id: string) {
    forall k | 0 <= k < |rules| :: rules[k].id != id
  }

  /** `rules.findIndex(r => r.id === id)`. */
  function FindIndex(rules: seq<Rule>, id: string): (i: int)
    ensures -1 <= i < |rules|
    ensures i == -1 <==> Absent(rules, id)
    ensures i >= 0 ==> rules[i].id == id && Absent(rules[..i], id)
    decreases |rules|
  {
    if |rules| == 0 then -1
    else if rules[0].id == id then 0
    else
      var j := FindIndex(rules[1..], id);
      if j == -1 then -1
      else
        assert rules[..j + 1] == [rules[0]] + rules[1..][..j];
        j + 1
  }

  /** The first position holding `id` is the one `FindIndex` reports. */
  lemma {:induction false} FindIndexIs(rules: seq<Rule>, id: string, i: nat)
    requires i < |rules| && rules[i].id == id && Absent(rules[..i], id)
    ensures FindIndex(rules, id) == i
    decreases i
  {
    if i > 0 {
      assert rules[0] == rules[..i][0];
      assert rules[1..][..i - 1] == rules[..i][1..];
      FindIndexIs(rules[1..], id, i - 1);
    }
  }

  /** `getRuleById`: the first rule with the id, else `null`. */
  function RuleById(rules: seq<Rule>, id: string): (r: Option<Rule>)
    ensures r.None? <==> Absent(rules, id)
    ensures r.Some? ==> r.value.id == id && r.value in rules
    ensures r.Some? ==> exists i | 0 <= i < |rules| :: rules[i] == r.value && Absent(rules[..i], id)
  {
    var i := FindIndex(rules, id);
    if i == -1 then None else Some(rules[i])
  }

  /** The id `rule_${Date.now()}` minted for a rule saved without one. */
  function MintedId(now: nat): (id: string)
    ensures |id| > 5 && id[..5] == "rule_"
  {
    "rule_" + NatToString(now)
  }

  /** The first entry of a fresh history. */
  function FirstVersion(code: string, now: nat): Version {
    Version(code, now, None)
  }

  /** The record `saveRule` builds before it looks for a stored rule with the same id. */
  function Assemble(d: Draft, now: nat): (r: Rule)
    ensures r.id != ""
    ensures d.id != "" ==> r.id == d.id
    ensures d.id == "" ==> r.id == MintedId(now)
    ensures r.name == d.name && r.naturalLanguage == d.naturalLanguage && r.ruleCode == d.ruleCode
    ensures r.createdAt == (if d.createdAt.Some? then d.createdAt.value else now)
    ensures r.updatedAt == now
    ensures d.versions.Some? ==> r.versions == d.versions.value
    ensures d.versions.None? ==> r.versions == [FirstVersion(d.ruleCode, now)]
  {
    Rule(
      if d.id != "" then d.id else MintedId(now),
      d.name, d.naturalLanguage, d.ruleCode,
      if d.createdAt.Some? then d.createdAt.value else now,
      now,
      if d.versions.Some? then d.versions.value else [FirstVersion(d.ruleCode, now)])
  }

  /** The history an update keeps: a new entry only when the code changed. */
  function UpdatedVersions(stored: Rule, code: string, now: nat): (vs: seq<Version>)
    ensures stored.ruleCode == code ==> vs == stored.versions
    ensures stored.ruleCode != code ==>
      && |vs| == |stored.versions| + 1
      && vs[..|stored.versions|] == stored.versions
      && vs[|stored.versions|] == FirstVersion(code, now)
  {
    if stored.ruleCode != code then stored.versions + [FirstVersion(code, now)] else stored.versions
  }

  /** What a write gives back: the sequence to store and the rule it returns. */
  datatype Written = Written(rules: seq<Rule>, rule: Rule)

  /**
   * `saveRule`: replace the first rule with the same id in place, or append
   * a new one at the end. On a replacement the caller's `versions` are
   * discarded in favour of the stored history, and the stored `createdAt`
   * is not consulted.
   */
  function SaveRule(rules: seq<Rule>, d: Draft, now: nat): (w: Written)
    ensures w.rule.id != "" && w.rule.updatedAt == now
    ensures w.rule.id == (if d.id != "" then d.id else MintedId(now))
    ensures w.rule.name == d.name && w.rule.naturalLanguage == d.naturalLanguage
    ensures w.rule.ruleCode == d.ruleCode
    ensures w.rule.createdAt == (if d.createdAt.Some? then d.createdAt.value else now)
    ensures Absent(rules, w.rule.id) ==>
      && w.rules == rules + [w.rule]
      && w.rule.versions == (if d.versions.Some? then d.versions.value else [FirstVersion(d.ruleCode, now)])
    ensures !Absent(rules, w.rule.id) ==>
      var i := FindIndex(rules, w.rule.id);
      && |w.rules| == |rules|
      && w.rules[i] == w.rule
      && (forall k | 0 <= k < |rules| && k != i :: w.rules[k] == rules[k])
      && w.rule.versions == UpdatedVersions(rules[i], d.ruleCode, now)
  {
    var r := Assemble(d, now);
    var i := FindIndex(rules, r.id);
    if i == -1 then
      Written(rules + [r], r)
    else
      var r' := r.(versions := UpdatedVersions(rules[i], r.ruleCode, now));
      Written(rules[i := r'], r')
  }

  /** The result of `deleteRule`: the sequence written and the value returned. */
  datatype Deleted = Deleted(rules: seq<Rule>, result: bool)

  /** `rules.filter(rule => rule.id !== id)`. */
  function Without(rules: seq<Rule>, id: string): (r: seq<Rule>)
    ensures |r| <= |rules|
    ensures Absent(r, id)
    ensures forall x :: x in r <==> x in rules && x.id != id
    decreases |rules|
  {
    if |rules| == 0 then []
    else (if rules[0].id == id then [] else [rules[0]]) + Without(rules[1..], id)
  }

  /** `deleteRule`: drop every rule with the id; the call always reports success. */
  function DeleteRule(rules: seq<Rule>, id: string): (d: Deleted)
    ensures d.result
    ensures d.rules == Without(rules, id)
  {
    Deleted(Without(rules, id), true)
  }

  /**
   * `revertToVersion`: `null` for an unknown id or an index that names no
   * entry; otherwise the code of entry `vi` becomes the rule's code and a
   * new entry recording the revert is appended.
   */
  function RevertToVersion(rules: seq<Rule>, id: string, vi: int, now: nat): (w: Option<Written>)
    ensures w.None? <==>
      Absent(rules, id) || !(0 <= vi < |rules[FindIndex(rules, id)].versions|)
    ensures w.Some? ==>
      var i := FindIndex(rules, id);
      var stored := rules[i];
      var code := stored.versions[vi].ruleCode;
      && w.value.rule == stored.(ruleCode := code, updatedAt := now,
                              versions := stored.versions + [Version(code, now, Some(vi as nat))])
      && w.value.rules == rules[i := w.value.rule]
  {
    var i := FindIndex(rules, id);
    if i == -1 then None
    else
      var stored := rules[i];
      if !(0 <= vi < |stored.versions|) then None
      else
        var code := stored.versions[vi].ruleCode;
        var r := stored.(ruleCode := code, updatedAt := now,
                      versions := stored.versions + [Version(code, now, Some(vi))]);
        Some(Written(rules[i := r], r))
  }

  // ---------------------------------------------------------------------
  // properties

  /** No two stored rules share an id. */
  predicate UniqueIds(rules: seq<Rule>) {
    forall i, j | 0 <= i < j < |rules| :: rules[i].id != rules[j].id
  }

  /** A saved rule is what a later lookup of its id finds. */
  lemma SaveThenFind(rules: seq<Rule>, d: Draft, now: nat)
    ensures var w := SaveRule(rules, d, now);
      RuleById(w.rules, w.rule.id) == Some(w.rule)
  {
    var w := SaveRule(rules, d, now);
    var id := w.rule.id;
    if Absent(rules, id) {
      assert w.rules[..|rules|] == rules;
      FindIndexIs(w.rules, id, |rules|);
    } else {
      var i := FindIndex(rules, id);
      assert w.rules[..i] == rules[..i];
      FindIndexIs(w.rules, id, i);
    }
  }

  /** Saving keeps ids unique: an update keeps the id at its index, an insert brings a new one. */
  lemma SaveKeepsUniqueIds(rules: seq<Rule>, d: Draft, now: nat)
    requires UniqueIds(rules)
    ensures UniqueIds(SaveRule(rules, d, now).rules)
  {
    var w := SaveRule(rules, d, now);
    if !Absent(rules, w.rule.id) {
      var i := FindIndex(rules, w.rule.id);
      forall k | 0 <= k < |rules| ensures w.rules[k].id == rules[k].id {
        if k != i {
          assert w.rules[k] == rules[k];
        }
      }
    }
  }

  /** A rule saved under a new id with caller-supplied versions keeps them, even an empty list. */
  lemma NewRuleKeepsCallerVersions(rules: seq<Rule>, d: Draft, now: nat)
    requires d.versions.Some?
    requires Absent(rules, Assemble(d, now).id)
    ensures SaveRule(rules, d, now).rule.versions == d.versions.value
    ensures |SaveRule(rules, d, now).rules| == |rules| + 1
  {
  }

  /** Saving changed code under a known id grows the history by one entry holding the new code. */
  lemma ChangedCodeGrowsHistory(rules: seq<Rule>, d: Draft, now: nat)
    requires d.id != "" && !Absent(rules, d.id)
    requires rules[FindIndex(rules, d.id)].ruleCode != d.ruleCode
    ensures var stored := rules[FindIndex(rules, d.id)];
      var vs := SaveRule(rules, d, now).rule.versions;
      && |vs| == |stored.versions| + 1
      && vs[|vs| - 1].ruleCode == d.ruleCode
      && vs[..|stored.versions|] == stored.versions
  {
  }

  /** Saving unchanged code under a known id keeps the stored history and ignores the caller's. */
  lemma UnchangedCodeKeepsHistory(rules: seq<Rule>, d: Draft, now: nat)
    requires d.id != "" && !Absent(rules, d.id)
    requires rules[FindIndex(rules, d.id)].ruleCode == d.ruleCode
    ensures SaveRule(rules, d, now).rule.versions == rules[FindIndex(rules, d.id)].versions
  {
  }

  /** The creation time of a saved rule depends on the draft and the clock only. */
  lemma CreatedAtIgnoresStore(rules1: seq<Rule>, rules2: seq<Rule>, d: Draft, now: nat)
    ensures SaveRule(rules1, d, now).rule.createdAt == SaveRule(rules2, d, now).rule.createdAt
  {
  }

  /** Deleting distributes over concatenation: the survivors keep their relative order. */
  lemma {:induction false} WithoutAppend(a: seq<Rule>, b: seq<Rule>, id: string)
    ensures Without(a + b, id) == Without(a, id) + Without(b, id)
    decreases |a|
  {
    if |a| == 0 {
      assert a + b == b;
    } else {
      assert (a + b)[1..] == a[1..] + b;
      WithoutAppend(a[1..], b, id);
    }
  }

  /** Deleting an id nobody carries changes nothing. */
  lemma {:induction false} WithoutAbsent(rules: seq<Rule>, id: string)
    requires Absent(rules, id)
    ensures Without(rules, id) == rules
    decreases |rules|
  {
    if |rules| > 0 {
      WithoutAbsent(rules[1..], id);
    }
  }

  /** Deleting keeps ids unique. */
  lemma {:induction false} DeleteKeepsUniqueIds(rules: seq<Rule>, id: string)
    requires UniqueIds(rules)
    ensures UniqueIds(DeleteRule(rules, id).rules)
    decreases |rules|
  {
    if |rules| > 0 {
      var rest := Without(rules[1..], id);
      DeleteKeepsUniqueIds(rules[1..], id);
      if rules[0].id != id {
        forall j | 0 <= j < |rest| ensures rest[j].id != rules[0].id {
          assert rest[j] in rules[1..];
        }
      }
    }
  }

  /** After a delete the id is gone, and deleting again changes nothing. */
  lemma DeleteThenFind(rules: seq<Rule>, id: string)
    ensures RuleById(DeleteRule(rules, id).rules, id) == None
    ensures DeleteRule(DeleteRule(rules, id).rules, id).rules == DeleteRule(rules, id).rules
  {
    WithoutAbsent(Without(rules, id), id);
  }

  /** A revert that succeeds is what a later lookup of the id finds. */
  lemma RevertThenFind(rules: seq<Rule>, id: string, vi: int, now: nat)
    requires RevertToVersion(rules, id, vi, now).Some?
    ensures var w := RevertToVersion(rules, id, vi, now).value;
      RuleById(w.rules, id) == Some(w.rule)
  {
    var w := RevertToVersion(rules, id, vi, now).value;
    var i := FindIndex(rules, id);
    assert w.rules[..i] == rules[..i];
    FindIndexIs(w.rules, id, i);
  }

  /** A revert keeps ids unique: it rewrites one rule in place under the same id. */
  lemma RevertKeepsUniqueIds(rules: seq<Rule>, id: string, vi: int, now: nat)
    requires UniqueIds(rules)
    requires RevertToVersion(rules, id, vi, now).Some?
    ensures UniqueIds(RevertToVersion(rules, id, vi, now).value.rules)
  {
    var w := RevertToVersion(rules, id, vi, now).value;
    assert forall k | 0 <= k < |rules| :: w.rules[k].id == rules[k].id;
  }

  /**
   * Reverting to the entry a revert just appended leaves the code as it is
   * and appends another entry with the same code.
   */
  lemma RevertToRevert(rules: seq<Rule>, id: string, vi: int, now: nat, later: nat)
    requires RevertToVersion(rules, id, vi, now).Some?
    ensures var w := RevertToVersion(rules, id, vi, now).value;
      var n := |w.rule.versions| - 1;
      var w2 := RevertToVersion(w.rules, id, n, later);
      && w2.Some?
      && w2.value.rule.ruleCode == w.rule.ruleCode
      && |w2.value.rule.versions| == |w.rule.versions| + 1
  {
    RevertThenFind(rules, id, vi, now);
  }

  /**
   * What `saveRule` writes back is what the next `getAllRules` reads: the
   * saved rule is then found by its id, the store grows by at most one, and
   * every rule with another id reads back where it was. The first save into
   * a window with nothing stored leaves a store of that one rule.
   */
  lemma StorageRoundTrip(b: Backing, d: Draft, now: nat)
    ensures var before := AllRules(b);
      var w := SaveRule(before, d, now);
      var after := AllRules(Window(Some(w.rules)));
      && after == w.rules
      && RuleById(after, w.rule.id) == Some(w.rule)
      && |before| <= |after| <= |before| + 1
      && forall k | 0 <= k < |before| && before[k].id != w.rule.id :: after[k] == before[k]
    ensures b == Window(None) ==>
      var w := SaveRule(AllRules(b), d, now);
      w.rules == [w.rule]
  {
    SaveThenFind(AllRules(b), d, now);
  }
}
