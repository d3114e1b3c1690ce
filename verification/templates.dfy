/**
 * The template gallery (`components/TemplatesGallery.js`): the constant
 * table of pre-built rules, the search/category filter, the grouping of
 * the filtered templates by category, and the customisation step that
 * substitutes a template's variables into its rule code and sentence.
 *
 * A variable's pattern is used as a regular expression in the component;
 * every pattern the table produces is free of metacharacters, so the
 * replacement is modelled as the literal global replace `ReplaceAll`.
 */
module TemplatesGallery {
  import opened Strings
  import opened Optional

  /** The input a variable is edited with (`variable.type`). */
  datatype Kind = NumberInput | TextInput | ListInput

  /**
   * A variable's value. A number is kept as its JavaScript string form
   * (`String(n)`, e.g. "1000"), which is all the substitution ever uses.
   */
  datatype Value = NumberValue(text: string) | TextValue(s: string) | ListValue(items: seq<string>)

  datatype Variable = Variable(name: string, caption: string, kind: Kind, default: Value)

  datatype Template = Template(
    id: string,
    name: string,
    description: string,
    category: string,
    naturalLanguage: string,
    ruleCode: string,
    variables: seq<Variable>)

  /** What the gallery hands back to the editor (`onSelectTemplate`). */
  datatype Chosen = Chosen(name: string, naturalLanguage: string, ruleCode: string)

  /** The gallery's state: search box, category tab, selected template, customised values. */
  datatype Gallery = Gallery(
    query: string,
    category: string,
    selected: Option<Template>,
    values: map<string, Value>)

  // ---------------------------------------------------------------------
  // the table

  const Fraud := "Fraud Detection"
  const Security := "Security"
  const Monitoring := "Monitoring"
  const Compliance := "Compliance"
  const Performance := "Performance"
  const Other := "Other"

  const Categories: seq<string> := [Fraud, Security, Monitoring, Compliance, Performance, Other]

  const HighValue := Template(
    "high-value-transactions", "High Value Transaction Alert",
    "Flag transactions that exceed a specified threshold amount", Fraud,
    "Flag transactions where amount is greater than $1000",
    "if transaction.amount > 1000 then flag_transaction",
    [Variable("threshold", "Amount Threshold", NumberInput, NumberValue("1000"))])

  const NewCountry := Template(
    "new-country-transactions", "New Country Transaction",
    "Alert on transactions from countries not previously seen for this user", Fraud,
    "Flag transactions where user country is not in their previously seen countries",
    "if user.country not in user.previous_countries then flag_transaction",
    [])

  const Rapid := Template(
    "rapid-transactions", "Rapid Successive Transactions",
    "Detect multiple transactions in a short timeframe", Fraud,
    "Flag if more than 3 transactions occur within 5 minutes",
    "if transaction.count > 3 and transaction.timeframe < 5 then flag_transaction",
    [Variable("count", "Transaction Count", NumberInput, NumberValue("3")),
     Variable("minutes", "Time Window (minutes)", NumberInput, NumberValue("5"))])

  const CountryList: seq<string> := ["Country1", "Country2", "Country3"]
  /** The high-risk list as it appears in the rule code: `"Country1", "Country2", "Country3"`. */
  const CountryPattern := Quote("Country1") + ", " + Quote("Country2") + ", " + Quote("Country3")
  /** The rule code of the high-risk template, around its list. */
  const HighRiskBefore := "if user.country in ["
  const HighRiskAfter := "] then flag_transaction"

  const HighRisk := Template(
    "high-risk-country", "High Risk Country",
    "Flag transactions from countries designated as high risk", Compliance,
    "Flag transactions where user country is in the high risk country list",
    HighRiskBefore + CountryPattern + HighRiskAfter,
    [Variable("countries", "High Risk Countries", ListInput, ListValue(CountryList))])

  const Revenue := Template(
    "revenue-threshold", "Revenue Threshold Alert",
    "Monitor when weekly revenue exceeds a specified threshold", Monitoring,
    "Alert when weekly revenue exceeds $50,000",
    "if weekly_revenue > 50000 then send_alert",
    [Variable("threshold", "Revenue Threshold", NumberInput, NumberValue("50000"))])

  const Unusual := Template(
    "unusual-activity", "Unusual Activity Pattern",
    "Detect activity patterns that deviate from user's normal behavior", Security,
    "Flag if user activity level is greater than 200% of their average activity",
    "if user.activity_level > user.average_activity * 2 then flag_suspicious_activity",
    [Variable("multiplier", "Activity Multiplier", NumberInput, NumberValue("2"))])

  const Location := Template(
    "location-mismatch", "Location Mismatch",
    "Alert when user location doesn't match their registered address", Security,
    "Flag transactions where user location state is not equal to their registered state",
    "if location.state != user.registered_state then flag_transaction",
    [])

  const Degradation := Template(
    "performance-degradation", "Performance Degradation",
    "Monitor for system performance issues", Performance,
    "Alert when response time is greater than 500ms for more than 5 minutes",
    "if system.response_time > 500 and condition.duration > 5 then send_performance_alert",
    [Variable("responseTime", "Response Time (ms)", NumberInput, NumberValue("500")),
     Variable("duration", "Duration (minutes)", NumberInput, NumberValue("5"))])

  const Templates: seq<Template> :=
    [HighValue, NewCountry, Rapid, HighRisk, Revenue, Unusual, Location, Degradation]

  // ---------------------------------------------------------------------
  // filter

  /**
   * The search matches the name or the description, both lower-cased
   * (`lower` stands for `toLowerCase`); the tab is "all" or the category.
   */
  predicate Matches(t: Template, query: string, category: string, lower: string -> string) {
    (Contains(lower(t.name), lower(query)) || Contains(lower(t.description), lower(query)))
    && (category == "all" || t.category == category)
  }

  /** `filteredTemplates`: the matching templates, in table order. */
  function Filter(ts: seq<Template>, query: string, category: string, lower: string -> string): (r: seq<Template>)
    ensures |r| <= |ts|
    decreases |ts|
  {
    if |ts| == 0 then []
    else
      var rest := Filter(ts[1..], query, category, lower);
      if Matches(ts[0], query, category, lower) then [ts[0]] + rest else rest
  }

  /** A template is shown exactly when it is in the table and matches. */
  lemma {:induction false} FilterKeeps(ts: seq<Template>, query: string, category: string, lower: string -> string)
    ensures forall t :: t in Filter(ts, query, category, lower) <==> t in ts && Matches(t, query, category, lower)
    decreases |ts|
  {
    if |ts| > 0 {
      FilterKeeps(ts[1..], query, category, lower);
      assert ts == [ts[0]] + ts[1..];
    }
  }

  /** An empty search on the "all" tab shows the whole table. */
  lemma {:induction false} EmptySearchShowsAll(ts: seq<Template>, lower: string -> string)
    requires lower("") == ""
    ensures Filter(ts, "", "all", lower) == ts
    decreases |ts|
  {
    if |ts| > 0 {
      assert OccursAt(lower(ts[0].name), "", 0);
      ContainsAt(lower(ts[0].name), "", 0);
      EmptySearchShowsAll(ts[1..], lower);
      assert ts == [ts[0]] + ts[1..];
    }
  }

  // ---------------------------------------------------------------------
  // grouping

  /** One heading of the gallery with its templates (`templatesByCategory`). */
  datatype Group = Group(category: string, templates: seq<Template>)

  /** Every heading lists at least one template, and only templates of its own category. */
  predicate Headed(gs: seq<Group>) {
    forall k | 0 <= k < |gs| ::
      |gs[k].templates| > 0 && forall j | 0 <= j < |gs[k].templates| :: gs[k].templates[j].category == gs[k].category
  }

  /** One step of the `reduce`: join the template's group, or open a new one at the end. */
  function AddToGroups(gs: seq<Group>, t: Template): (r: seq<Group>)
    ensures |gs| <= |r| <= |gs| + 1
    ensures Headed(gs) ==> Headed(r)
    decreases |gs|
  {
    if |gs| == 0 then [Group(t.category, [t])]
    else if gs[0].category == t.category then [gs[0].(templates := gs[0].templates + [t])] + gs[1..]
    else [gs[0]] + AddToGroups(gs[1..], t)
  }

  /** The `reduce` over the filtered templates, left to right. */
  function Grouping(ts: seq<Template>): (r: seq<Group>)
    ensures Headed(r)
    ensures |r| <= |ts|
    ensures |ts| > 0 ==> |r| > 0
    decreases |ts|
  {
    if |ts| == 0 then [] else AddToGroups(Grouping(ts[..|ts| - 1]), ts[|ts| - 1])
  }

  /** The templates listed under heading `c` (none when there is no such heading). */
  function Members(gs: seq<Group>, c: string): seq<Template>
    decreases |gs|
  {
    if |gs| == 0 then []
    else if gs[0].category == c then gs[0].templates
    else Members(gs[1..], c)
  }

  /** The headings, in display order. */
  function Headings(gs: seq<Group>): seq<string>
    decreases |gs|
  {
    if |gs| == 0 then [] else [gs[0].category] + Headings(gs[1..])
  }

  /** Reference definition: the templates of category `c`, in their original order. */
  function OfCategory(ts: seq<Template>, c: string): seq<Template>
    decreases |ts|
  {
    if |ts| == 0 then []
    else OfCategory(ts[..|ts| - 1], c) + (if ts[|ts| - 1].category == c then [ts[|ts| - 1]] else [])
  }

  /** The categories of the templates, one entry per template. */
  function CategoryList(ts: seq<Template>): (r: seq<string>)
    ensures |r| == |ts|
    decreases |ts|
  {
    if |ts| == 0 then [] else CategoryList(ts[..|ts| - 1]) + [ts[|ts| - 1].category]
  }

  /** Reference definition: each element at its first appearance, in order. */
  function FirstAppearances(xs: seq<string>): seq<string>
    decreases |xs|
  {
    if |xs| == 0 then []
    else
      var d := FirstAppearances(xs[..|xs| - 1]);
      if xs[|xs| - 1] in d then d else d + [xs[|xs| - 1]]
  }

  lemma {:induction false} MembersAdd(gs: seq<Group>, t: Template, c: string)
    ensures Members(AddToGroups(gs, t), c) == Members(gs, c) + (if t.category == c then [t] else [])
    decreases |gs|
  {
    if |gs| > 0 && gs[0].category != t.category {
      MembersAdd(gs[1..], t, c);
    }
  }

  lemma {:induction false} HeadingsAdd(gs: seq<Group>, t: Template)
    ensures Headings(AddToGroups(gs, t)) ==
      if t.category in Headings(gs) then Headings(gs) else Headings(gs) + [t.category]
    decreases |gs|
  {
    if |gs| > 0 && gs[0].category != t.category {
      HeadingsAdd(gs[1..], t);
      assert Headings(gs) == [gs[0].category] + Headings(gs[1..]);
    }
  }

  /** Grouping partitions the templates by category, keeping their relative order. */
  lemma {:induction false} GroupingPartitions(ts: seq<Template>, c: string)
    ensures Members(Grouping(ts), c) == OfCategory(ts, c)
    decreases |ts|
  {
    if |ts| > 0 {
      GroupingPartitions(ts[..|ts| - 1], c);
      MembersAdd(Grouping(ts[..|ts| - 1]), ts[|ts| - 1], c);
    }
  }

  /** The headings are the categories in order of first appearance, each once. */
  lemma {:induction false} GroupingHeadings(ts: seq<Template>)
    ensures Headings(Grouping(ts)) == FirstAppearances(CategoryList(ts))
    decreases |ts|
  {
    if |ts| > 0 {
      var pre := ts[..|ts| - 1];
      GroupingHeadings(pre);
      HeadingsAdd(Grouping(pre), ts[|ts| - 1]);
      assert CategoryList(ts)[..|ts| - 1] == CategoryList(pre);
    }
  }

  // ---------------------------------------------------------------------
  // selection and customisation

  /** The `forEach` that initialises the values: later variables overwrite earlier ones. */
  function Defaults(vs: seq<Variable>): map<string, Value>
    decreases |vs|
  {
    if |vs| == 0 then map[] else Defaults(vs[..|vs| - 1])[vs[|vs| - 1].name := vs[|vs| - 1].default]
  }

  predicate DistinctNames(vs: seq<Variable>) {
    forall i, j | 0 <= i < j < |vs| :: vs[i].name != vs[j].name
  }

  /** `handleSelectTemplate`. */
  function Select(g: Gallery, t: Template): (r: Gallery)
    ensures r.selected == Some(t)
    ensures r.query == g.query && r.category == g.category
  {
    g.(selected := Some(t), values := Defaults(t.variables))
  }

  /** The initial values have one entry per variable name. */
  lemma {:induction false} DefaultsKeys(vs: seq<Variable>)
    ensures Defaults(vs).Keys == set v | v in vs :: v.name
    decreases |vs|
  {
    if |vs| > 0 {
      var pre := vs[..|vs| - 1];
      DefaultsKeys(pre);
      assert vs == pre + [vs[|vs| - 1]];
    }
  }

  /** With distinct names, each variable's entry holds its own default. */
  lemma {:induction false} DefaultsHold(vs: seq<Variable>)
    requires DistinctNames(vs)
    ensures forall i | 0 <= i < |vs| :: vs[i].name in Defaults(vs) && Defaults(vs)[vs[i].name] == vs[i].default
    decreases |vs|
  {
    if |vs| > 0 {
      var n := |vs| - 1;
      var pre := vs[..n];
      assert DistinctNames(pre) by {
        forall i, j | 0 <= i < j < |pre| ensures pre[i].name != pre[j].name {
          assert pre[i] == vs[i] && pre[j] == vs[j];
        }
      }
      DefaultsHold(pre);
      forall i | 0 <= i < |vs|
        ensures vs[i].name in Defaults(vs) && Defaults(vs)[vs[i].name] == vs[i].default
      {
        if i < n {
          assert vs[i] == pre[i];
          assert vs[i].name != vs[n].name;
        }
      }
    }
  }

  /** Selecting a template initialises each variable's value to its default. */
  lemma SelectInitialises(g: Gallery, t: Template)
    requires DistinctNames(t.variables)
    ensures forall i | 0 <= i < |t.variables| ::
      t.variables[i].name in Select(g, t).values &&
      Select(g, t).values[t.variables[i].name] == t.variables[i].default
  {
    DefaultsHold(t.variables);
  }

  /** `handleVariableChange`: one value replaced, every other kept. */
  function Change(g: Gallery, name: string, v: Value): (r: Gallery)
    ensures name in r.values && r.values[name] == v
    ensures forall k | k in g.values && k != name :: k in r.values && r.values[k] == g.values[k]
    ensures r.selected == g.selected
  {
    g.(values := g.values[name := v])
  }

  /** The list input: the text split at commas, each item trimmed. */
  function ListFromInput(text: string): (v: Value)
    ensures v.ListValue? && |v.items| >= 1
  {
    var parts := Split(text, ',');
    ListValue(seq(|parts|, i requires 0 <= i < |parts| => Trim(parts[i])))
  }

  // ---------------------------------------------------------------------
  // substitution

  function Quote(s: string): string {
    "\"" + s + "\""
  }

  function QuoteAll(items: seq<string>): (r: seq<string>)
    ensures |r| == |items|
  {
    seq(|items|, i requires 0 <= i < |items| => Quote(items[i]))
  }

  /** The rule-code pattern of a default: a list as its quoted items joined by ", ", without brackets. */
  function CodePattern(d: Value): string {
    match d
    case NumberValue(text) => text
    case TextValue(s) => s
    case ListValue(items) => Join(QuoteAll(items), ", ")
  }

  /** `String(v)`: a list's items joined by ",". */
  function Plain(v: Value): string {
    match v
    case NumberValue(text) => text
    case TextValue(s) => s
    case ListValue(items) => Join(items, ",")
  }

  /** `valueStr`: a list in brackets with quoted items, a string quoted; a missing value is `undefined`. */
  function CodeText(v: Option<Value>): string {
    match v
    case None => "undefined"
    case Some(NumberValue(text)) => text
    case Some(TextValue(s)) => Quote(s)
    case Some(ListValue(items)) => "[" + Join(QuoteAll(items), ", ") + "]"
  }

  function PlainText(v: Option<Value>): string {
    match v
    case None => "undefined"
    case Some(x) => Plain(x)
  }

  /** The two texts being customised. */
  datatype Texts = Texts(code: string, nl: string)

  function ValueOf(values: map<string, Value>, name: string): Option<Value> {
    if name in values then Some(values[name]) else None
  }

  /** One variable's replacement in both texts. */
  function Step(x: Texts, v: Variable, values: map<string, Value>): Texts {
    var cur := ValueOf(values, v.name);
    Texts(ReplaceAll(x.code, CodePattern(v.default), CodeText(cur)),
          ReplaceAll(x.nl, Plain(v.default), PlainText(cur)))
  }

  /**
   * The `forEach` over the variables, in declared order. Numbers whose value
   * is still the default are replaced by themselves.
   */
  function Substitute(vs: seq<Variable>, values: map<string, Value>, x: Texts): (r: Texts)
    ensures (forall i | 0 <= i < |vs| ::
      vs[i].default.NumberValue? && ValueOf(values, vs[i].name) == Some(vs[i].default)) ==> r == x
    decreases |vs|
  {
    if |vs| == 0 then x
    else
      ReplaceAllSelf(x.code, CodePattern(vs[0].default));
      ReplaceAllSelf(x.nl, Plain(vs[0].default));
      Substitute(vs[1..], values, Step(x, vs[0], values))
  }

  /** `applyCustomizedTemplate`: nothing without a selected template. */
  function Apply(g: Gallery): (r: Option<Chosen>)
    ensures r.None? <==> g.selected.None?
    ensures r.Some? ==> r.value.name == g.selected.value.name
  {
    match g.selected
    case None => None
    case Some(t) =>
      var x := Substitute(t.variables, g.values, Texts(t.ruleCode, t.naturalLanguage));
      Some(Chosen(t.name, x.nl, x.code))
  }

  /** The variables are applied one after another: the last one acts on the result of the others. */
  lemma {:induction false} SubstituteSnoc(vs: seq<Variable>, v: Variable, values: map<string, Value>, x: Texts)
    ensures Substitute(vs + [v], values, x) == Step(Substitute(vs, values, x), v, values)
    decreases |vs|
  {
    if |vs| > 0 {
      assert (vs + [v])[1..] == vs[1..] + [v];
      SubstituteSnoc(vs[1..], v, values, Step(x, vs[0], values));
    } else {
      assert [v][1..] == [];
    }
  }

  /** A template whose variables have distinct names and number defaults. */
  predicate NumbersOnly(t: Template) {
    DistinctNames(t.variables) &&
    forall i | 0 <= i < |t.variables| :: t.variables[i].default.NumberValue?
  }

  /** Applying a freshly selected template whose variables are all numbers gives back its texts. */
  lemma NumberTemplateUnchanged(g: Gallery, t: Template)
    requires NumbersOnly(t)
    ensures Apply(Select(g, t)) == Some(Chosen(t.name, t.naturalLanguage, t.ruleCode))
  {
    DefaultsHold(t.variables);
  }

  /** Every template in the table except the list one (index 3) has only number variables. */
  lemma TableNumbersOnly()
    ensures forall i | 0 <= i < |Templates| && i != 3 :: NumbersOnly(Templates[i])
    ensures !NumbersOnly(Templates[3])
  {
    assert Templates[3].variables[0].default.ListValue?;
  }

  /** A list's code pattern starts with the quote of its first item. */
  lemma ListPatternQuoted(items: seq<string>)
    requires |items| > 0
    ensures |CodePattern(ListValue(items))| > 0 && CodePattern(ListValue(items))[0] == '"'
  {
    var parts := QuoteAll(items);
    if |parts| == 1 {
      assert CodePattern(ListValue(items)) == parts[0];
    } else {
      assert CodePattern(ListValue(items)) == parts[0] + ", " + Join(parts[1..], ", ");
    }
  }

  /**
   * A list default is searched for without its brackets but replaced with
   * them, so applying a one-variable list template with its default wraps
   * the list in a second pair of brackets.
   */
  lemma ListTemplateDoubleBrackets(g: Gallery, t: Template, a: string, b: string)
    requires |t.variables| == 1 && t.variables[0].default.ListValue? && |t.variables[0].default.items| > 0
    requires t.ruleCode == a + CodePattern(t.variables[0].default) + b && '"' !in a && '"' !in b
    ensures Apply(Select(g, t)) == Some(Chosen(t.name, t.naturalLanguage,
      a + "[" + CodePattern(t.variables[0].default) + "]" + b))
  {
    var v := t.variables[0];
    var x := Texts(t.ruleCode, t.naturalLanguage);
    var values := Select(g, t).values;
    DefaultsHold(t.variables);
    assert ValueOf(values, v.name) == Some(v.default);
    ListStepBrackets(x, v, values, a, b);
    var y := Step(x, v, values);
    assert t.variables[1..] == [];
    assert Substitute(t.variables, values, x) == Substitute([], values, y) == y;
  }

  /** The replacement step for a list variable holding its default. */
  lemma ListStepBrackets(x: Texts, v: Variable, values: map<string, Value>, a: string, b: string)
    requires v.default.ListValue? && |v.default.items| > 0 && ValueOf(values, v.name) == Some(v.default)
    requires x.code == a + CodePattern(v.default) + b && '"' !in a && '"' !in b
    ensures Step(x, v, values) == Texts(a + "[" + CodePattern(v.default) + "]" + b, x.nl)
  {
    var d := v.default;
    ListPatternQuoted(d.items);
    ReplaceOne(a, b, CodePattern(d), CodeText(Some(d)));
    ReplaceAllSelf(x.nl, Plain(d));
    assert a + ("[" + CodePattern(d) + "]") + b == a + "[" + CodePattern(d) + "]" + b;
  }

  lemma QuoteThree(x: string, y: string, z: string)
    ensures CodePattern(ListValue([x, y, z])) == Quote(x) + ", " + Quote(y) + ", " + Quote(z)
  {
    var q := QuoteAll([x, y, z]);
    assert q == [Quote(x), Quote(y), Quote(z)];
    assert q[1..] == [Quote(y), Quote(z)];
    assert q[1..][1..] == [Quote(z)];
    assert Join(q[1..], ", ") == Quote(y) + ", " + Quote(z);
  }

  /** The high-risk template applied unchanged: its list now sits inside two pairs of brackets. */
  lemma HighRiskDoubleBrackets(g: Gallery)
    ensures Apply(Select(g, HighRisk)) == Some(Chosen(HighRisk.name, HighRisk.naturalLanguage,
      HighRiskBefore + "[" + CountryPattern + "]" + HighRiskAfter))
  {
    QuoteThree("Country1", "Country2", "Country3");
    assert '"' !in HighRiskBefore && '"' !in HighRiskAfter;
    ListTemplateDoubleBrackets(g, HighRisk, HighRiskBefore, HighRiskAfter);
  }

  /**
   * Variables are substituted one after another over the whole text, so a
   * later variable also rewrites the digits an earlier one left: with the
   * duration of the degradation template changed from 5 to 10, the text
   * "500" of its response-time threshold reads "1000".
   */
  lemma LaterVariableRewritesEarlier(g: Gallery)
    ensures var values := Change(Select(g, Degradation), "duration", NumberValue("10")).values;
      Substitute(Degradation.variables, values, Texts("500", "500")) == Texts("1000", "1000")
  {
    var values := Change(Select(g, Degradation), "duration", NumberValue("10")).values;
    DegradationValues(g);
    var x1 := Step(Texts("500", "500"), Degradation.variables[0], values);
    ReplaceAllSelf("500", "500");
    assert x1 == Texts("500", "500");
    FiveBecomesTen();
    assert Degradation.variables[1..][1..] == [];
  }

  lemma DegradationValues(g: Gallery)
    ensures var values := Change(Select(g, Degradation), "duration", NumberValue("10")).values;
      ValueOf(values, "responseTime") == Some(NumberValue("500")) &&
      ValueOf(values, "duration") == Some(NumberValue("10"))
  {
    DefaultsHold(Degradation.variables);
  }

  lemma FiveBecomesTen()
    ensures ReplaceAll("500", "5", "10") == "1000"
  {
    assert "500" == "5" + "00" && "1000" == "10" + "00";
    ReplaceAfter("", "5", "00", "10");
    NoFirstCharNoChange("00", "5", "10");
  }
}
