/** Label documents: budgets, parsing, and combining documents of several modules. */
module Labels {
  import opened Text
  import opened Diagnostics
  import opened Sorting

  const MAX_LABEL_RULES := 256
  const MAX_PATTERNS_PER_RULE := 1_024
  const MAX_TOTAL_PATTERNS := 4_096
  const MAX_REGEX_BYTES := 16 * 1024
  const MAX_TOTAL_REGEX_BYTES := 1024 * 1024
  const INDIVIDUAL_REGEX_THRESHOLD := 4
  const USIZE_MAX := 0xFFFF_FFFF_FFFF_FFFF

  datatype Pattern = Pattern(name: string, regex: string)

  datatype Target = Target(resourceType: string, attribute: string)

  datatype RawRule = RawRule(target: Target, field: string, patterns: seq<Pattern>)

  datatype Backend = Individual | RegexSet

  /** A validated rule and the kind of matcher compiled for it. */
  datatype Rule = Rule(target: Target, field: string, patterns: seq<Pattern>, backend: Backend)

  /** What the regex engine and the policy core decide. `target` is the form the core gives
      a valid target. */
  datatype LabelEnv = LabelEnv(
    target: Target -> Option<Target>,
    compiles: seq<Pattern> -> bool,
    configures: (Target, string, seq<Pattern>) -> bool)

  /** A target in the core's form is left as it is. */
  ghost predicate LawfulTargets(env: LabelEnv) {
    forall t :: env.target(t).Some? ==> env.target(env.target(t).value) == env.target(t)
  }

  function Destination(env: LabelEnv, t: Target): Target {
    match env.target(t) case None => t case Some(destination) => destination
  }

  // ---- Budgets ----

  function Sum(xs: seq<nat>): nat {
    if xs == [] then 0 else Sum(xs[..|xs| - 1]) + xs[|xs| - 1]
  }

  /** `try_fold` with `checked_add`: none once a partial sum leaves the machine range. */
  function CheckedSum(xs: seq<nat>): Option<nat> {
    if xs == [] then Some(0)
    else
      match CheckedSum(xs[..|xs| - 1])
      case None => None
      case Some(total) => if total + xs[|xs| - 1] <= USIZE_MAX then Some(total + xs[|xs| - 1]) else None
  }

  function SaturatedSum(xs: seq<nat>): nat {
    match CheckedSum(xs) case None => USIZE_MAX case Some(total) => total
  }

  lemma {:induction false} CheckedSumIsSum(xs: seq<nat>)
    ensures CheckedSum(xs) == if Sum(xs) <= USIZE_MAX then Some(Sum(xs)) else None
  {
    if xs != [] { CheckedSumIsSum(xs[..|xs| - 1]); }
  }

  /** The overflow-checked fold exceeds a limit exactly when the unbounded sum does. */
  lemma {:induction false} SaturatedSumExceedsIff(xs: seq<nat>, limit: nat)
    requires limit < USIZE_MAX
    ensures SaturatedSum(xs) > limit <==> Sum(xs) > limit
  {
    CheckedSumIsSum(xs);
  }

  function Counts(lists: seq<seq<Pattern>>): (r: seq<nat>)
    ensures |r| == |lists| && forall i :: 0 <= i < |r| ==> r[i] == |lists[i]|
  {
    seq(|lists|, i requires 0 <= i < |lists| => |lists[i]|)
  }

  function RegexLengths(patterns: seq<Pattern>): (r: seq<nat>)
    ensures |r| == |patterns| && forall i :: 0 <= i < |r| ==> r[i] == ByteLen(patterns[i].regex)
  {
    seq(|patterns|, i requires 0 <= i < |patterns| => ByteLen(patterns[i].regex))
  }

  /** `flat_map` over the rules' patterns. */
  function AllLengths(lists: seq<seq<Pattern>>): seq<nat> {
    if lists == [] then [] else AllLengths(lists[..|lists| - 1]) + RegexLengths(lists[|lists| - 1])
  }

  /** The regular expressions written one after the other. */
  function AllRegexes(patterns: seq<Pattern>): string {
    if patterns == [] then "" else AllRegexes(patterns[..|patterns| - 1]) + patterns[|patterns| - 1].regex
  }

  /** The counts of the lists sum to the number of patterns. */
  lemma {:induction false} CountsTotal(lists: seq<seq<Pattern>>)
    ensures Sum(Counts(lists)) == |Flatten(lists)|
  {
    if lists != [] {
      var front := lists[..|lists| - 1];
      CountsTotal(front);
      assert Counts(lists)[..|front|] == Counts(front);
    }
  }

  lemma {:induction false} RegexBytes(patterns: seq<Pattern>)
    ensures Sum(RegexLengths(patterns)) == ByteLen(AllRegexes(patterns))
  {
    if patterns != [] {
      var front := patterns[..|patterns| - 1];
      RegexBytes(front);
      assert RegexLengths(patterns)[..|front|] == RegexLengths(front);
      ByteLenConcat(AllRegexes(front), patterns[|front|].regex);
    }
  }

  lemma {:induction false} AllLengthsFlat(lists: seq<seq<Pattern>>)
    ensures AllLengths(lists) == RegexLengths(Flatten(lists))
  {
    if lists != [] { AllLengthsFlat(lists[..|lists| - 1]); }
  }

  /** The lengths sum to the bytes of all regular expressions together. */
  lemma {:induction false} LengthsTotal(lists: seq<seq<Pattern>>)
    ensures Sum(AllLengths(lists)) == ByteLen(AllRegexes(Flatten(lists)))
  {
    AllLengthsFlat(lists);
    RegexBytes(Flatten(lists));
  }

  /** The document budgets: 256 rules, 4096 patterns in all, a mebibyte of regular expressions. */
  predicate WithinLimits(lists: seq<seq<Pattern>>) {
    |lists| <= 256 && |Flatten(lists)| <= 4_096 && ByteLen(AllRegexes(Flatten(lists))) <= 1_048_576
  }

  /** The first budget a document exceeds, found the way the code adds up. */
  function LimitError(lists: seq<seq<Pattern>>): (r: Option<Code>)
    ensures r.None? <==> WithinLimits(lists)
  {
    SaturatedSumExceedsIff(Counts(lists), MAX_TOTAL_PATTERNS);
    SaturatedSumExceedsIff(AllLengths(lists), MAX_TOTAL_REGEX_BYTES);
    CountsTotal(lists);
    LengthsTotal(lists);
    if |lists| > MAX_LABEL_RULES then Some(LabelsTooManyRules)
    else if SaturatedSum(Counts(lists)) > MAX_TOTAL_PATTERNS then Some(LabelsTooManyPatterns)
    else if SaturatedSum(AllLengths(lists)) > MAX_TOTAL_REGEX_BYTES then Some(LabelsRegexBudget)
    else None
  }

  lemma {:induction false} AllRegexesConcat(a: seq<Pattern>, b: seq<Pattern>)
    ensures AllRegexes(a + b) == AllRegexes(a) + AllRegexes(b)
  {
    if b == [] {
      assert a + b == a;
    } else {
      var last := |b| - 1;
      assert (a + b)[..|a + b| - 1] == a + b[..last];
      AllRegexesConcat(a, b[..last]);
      SeqAssoc(AllRegexes(a), AllRegexes(b[..last]), b[last].regex);
    }
  }

  /** Parts of a document that is within its budgets are within them. */
  lemma PartsWithinLimits(a: seq<seq<Pattern>>, b: seq<seq<Pattern>>)
    requires WithinLimits(a + b)
    ensures WithinLimits(a) && WithinLimits(b)
  {
    FlattenConcat(a, b);
    AllRegexesConcat(Flatten(a), Flatten(b));
    ByteLenConcat(AllRegexes(Flatten(a)), AllRegexes(Flatten(b)));
  }

  // ---- Parsing ----

  function BackendFor(patterns: seq<Pattern>): Backend {
    if |patterns| <= INDIVIDUAL_REGEX_THRESHOLD then Individual else RegexSet
  }

  function RuleOf(env: LabelEnv, raw: RawRule): Rule {
    Rule(Destination(env, raw.target), raw.field, raw.patterns, BackendFor(raw.patterns))
  }

  /** The rule is what the document says, with the target in the core's form; up to four patterns
      are matched one by one. */
  predicate Finished(env: LabelEnv, raw: RawRule, rule: Rule) {
    && env.target(raw.target) == Some(rule.target)
    && rule.field == raw.field && rule.patterns == raw.patterns
    && (rule.backend.Individual? <==> |raw.patterns| <= 4)
  }

  function RawOf(rule: Rule): RawRule {
    RawRule(rule.target, rule.field, rule.patterns)
  }

  function RulesOf(env: LabelEnv, raw: seq<RawRule>): (r: seq<Rule>)
    ensures |r| == |raw| && forall i :: 0 <= i < |r| ==> r[i] == RuleOf(env, raw[i])
  {
    seq(|raw|, i requires 0 <= i < |raw| => RuleOf(env, raw[i]))
  }

  function RawsOf(rules: seq<Rule>): (r: seq<RawRule>)
    ensures |r| == |rules| && forall i :: 0 <= i < |r| ==> r[i] == RawOf(rules[i])
  {
    seq(|rules|, i requires 0 <= i < |rules| => RawOf(rules[i]))
  }

  function RawPatterns(raw: seq<RawRule>): (r: seq<seq<Pattern>>)
    ensures |r| == |raw| && forall i :: 0 <= i < |r| ==> r[i] == raw[i].patterns
  {
    seq(|raw|, i requires 0 <= i < |raw| => raw[i].patterns)
  }

  function RulePatterns(rules: seq<Rule>): (r: seq<seq<Pattern>>)
    ensures |r| == |rules| && forall i :: 0 <= i < |r| ==> r[i] == rules[i].patterns
  {
    seq(|rules|, i requires 0 <= i < |rules| => rules[i].patterns)
  }

  predicate RegexOk(p: Pattern) {
    p.regex != "" && ByteLen(p.regex) <= 16_384
  }

  predicate PatternsOk(patterns: seq<Pattern>) {
    && (forall i :: 0 <= i < |patterns| ==> !IsBlank(patterns[i].name) && RegexOk(patterns[i]))
    && (forall i, j :: 0 <= i < j < |patterns| ==> patterns[i].name != patterns[j].name)
  }

  /** What one rule has to satisfy by itself. */
  predicate RuleOk(env: LabelEnv, raw: RawRule) {
    && env.target(raw.target).Some?
    && !IsBlank(raw.field)
    && raw.field != Destination(env, raw.target).attribute
    && 1 <= |raw.patterns| <= 1_024
    && PatternsOk(raw.patterns)
    && Compiles(env, raw)
  }

  predicate DistinctTargets(env: LabelEnv, raw: seq<RawRule>) {
    forall i, j :: 0 <= i < j < |raw| ==> Destination(env, raw[i].target) != Destination(env, raw[j].target)
  }

  /** What an accepted document satisfies. */
  predicate DocumentOk(env: LabelEnv, raw: seq<RawRule>) {
    WithinLimits(RawPatterns(raw)) && ListOk(env, raw)
  }

  /** Checks one pattern; `repeated` says whether its name was used before. */
  method CheckPattern(p: Pattern, repeated: bool, diagnostics: Mut<seq<Diagnostic>>)
    modifies diagnostics
    ensures Reported(old(diagnostics.value), diagnostics.value, IsBlank(p.name) || repeated || !RegexOk(p))
  {
    ReportIf(IsBlank(p.name), LabelsEmptyPatternName, diagnostics);
    ReportIf(repeated, LabelsDuplicatePatternName, diagnostics);
    if p.regex == "" {
      ReportIf(true, LabelsEmptyRegex, diagnostics);
    } else {
      ReportIf(ByteLen(p.regex) > MAX_REGEX_BYTES, LabelsRegexTooLarge, diagnostics);
    }
  }

  /** Checks the patterns; `valid` says whether they may be compiled. */
  method CheckPatterns(patterns: seq<Pattern>, diagnostics: Mut<seq<Diagnostic>>) returns (valid: bool)
    modifies diagnostics
    ensures Reported(old(diagnostics.value), diagnostics.value, !PatternsOk(patterns))
    ensures valid <==> 1 <= |patterns| <= 1_024 && forall i :: 0 <= i < |patterns| ==> RegexOk(patterns[i])
  {
    valid := patterns != [] && |patterns| <= MAX_PATTERNS_PER_RULE;
    var names: set<string> := {};
    for i := 0 to |patterns|
      invariant forall name :: name in names <==> exists k :: 0 <= k < i && patterns[k].name == name
      invariant Reported(old(diagnostics.value), diagnostics.value, !PatternsOk(patterns[..i]))
      invariant valid <==> 1 <= |patterns| <= 1_024 && forall k :: 0 <= k < i ==> RegexOk(patterns[k])
    {
      CheckPattern(patterns[i], patterns[i].name in names, diagnostics);
      valid := valid && RegexOk(patterns[i]);
      names := names + {patterns[i].name};
      OneMorePattern(patterns, i);
    }
    assert patterns[..|patterns|] == patterns;
  }

  lemma OneMorePattern(patterns: seq<Pattern>, i: nat)
    requires i < |patterns|
    ensures PatternsOk(patterns[..i + 1]) <==>
            PatternsOk(patterns[..i]) && !IsBlank(patterns[i].name) && RegexOk(patterns[i])
            && forall k :: 0 <= k < i ==> patterns[k].name != patterns[i].name
  {
    var more := patterns[..i + 1];
    assert more[i] == patterns[i] && forall k :: 0 <= k < i ==> more[k] == patterns[k] == patterns[..i][k];
  }

  /** The checks on a rule's field, target and pattern count. */
  predicate ShapeOk(raw: RawRule, destination: Target, repeated: bool) {
    && !IsBlank(raw.field) && raw.field != destination.attribute
    && !repeated && 1 <= |raw.patterns| <= 1_024
  }

  method CheckShape(raw: RawRule, destination: Target, repeated: bool, diagnostics: Mut<seq<Diagnostic>>)
    modifies diagnostics
    ensures Reported(old(diagnostics.value), diagnostics.value, !ShapeOk(raw, destination, repeated))
  {
    ReportIf(IsBlank(raw.field), LabelsEmptyField, diagnostics);
    ReportIf(raw.field == destination.attribute, LabelsInputIsOutput, diagnostics);
    ReportIf(repeated, LabelsDuplicateDestination, diagnostics);
    ReportIf(raw.patterns == [], LabelsEmptyPatterns, diagnostics);
    ReportIf(|raw.patterns| > MAX_PATTERNS_PER_RULE, LabelsTooManyPatterns, diagnostics);
  }

  predicate Compiles(env: LabelEnv, raw: RawRule) {
    && env.compiles(raw.patterns)
    && (BackendFor(raw.patterns).Individual? ==> env.configures(Destination(env, raw.target), raw.field, raw.patterns))
  }

  /** Compiles the patterns and adds the finished rule. */
  method CompileRule(env: LabelEnv, raw: RawRule, rules: Mut<seq<Rule>>, diagnostics: Mut<seq<Diagnostic>>)
    modifies rules, diagnostics
    ensures Reported(old(diagnostics.value), diagnostics.value, !Compiles(env, raw))
    ensures Compiles(env, raw) ==> rules.value == old(rules.value) + [RuleOf(env, raw)]
  {
    if !env.compiles(raw.patterns) {
      ReportIf(true, LabelsInvalidRegex, diagnostics);
    } else if && BackendFor(raw.patterns).Individual?
              && !env.configures(Destination(env, raw.target), raw.field, raw.patterns)
    {
      ReportIf(true, LabelsInvalidConfiguration, diagnostics);
    } else {
      rules.value := rules.value + [RuleOf(env, raw)];
    }
  }

  /** One step of the parse loop. */
  method ParseRule(env: LabelEnv, raw: RawRule, destinations: Mut<set<Target>>, rules: Mut<seq<Rule>>,
                   diagnostics: Mut<seq<Diagnostic>>)
    modifies destinations, rules, diagnostics
    ensures destinations.value ==
            old(destinations.value) + if env.target(raw.target).Some? then {Destination(env, raw.target)} else {}
    ensures Reported(old(diagnostics.value), diagnostics.value,
                     !(RuleOk(env, raw) && Destination(env, raw.target) !in old(destinations.value)))
    ensures RuleOk(env, raw) ==> rules.value == old(rules.value) + [RuleOf(env, raw)]
  {
    var target := env.target(raw.target);
    if target.None? {
      ReportIf(true, LabelsInvalidTarget, diagnostics);
      return;
    }
    var repeated := target.value in destinations.value;
    destinations.value := destinations.value + {target.value};
    CheckShape(raw, target.value, repeated, diagnostics);
    var valid := CheckPatterns(raw.patterns, diagnostics);
    if valid {
      CompileRule(env, raw, rules, diagnostics);
    }
  }

  /** Parses a document: accepted exactly when every rule is in order and the budgets and
      targets are, and then nothing is dropped, added or reordered. */
  method FromRaw(env: LabelEnv, raw: seq<RawRule>) returns (r: Result<seq<Rule>>)
    ensures r.Ok? <==> DocumentOk(env, raw)
    ensures r.Ok? ==> r.value == RulesOf(env, raw)
    ensures r.Ok? ==> |r.value| == |raw| && forall i :: 0 <= i < |raw| ==> Finished(env, raw[i], r.value[i])
    ensures r.Err? ==> r.error.Validation? && HasError(r.error.diagnostics)
  {
    var limit := LimitError(RawPatterns(raw));
    if limit.Some? {
      r := Err(Validation([ErrorOf(limit.value)]));
      assert r.error.diagnostics[0].severity.Error?;
      return;
    }
    var diagnostics := new Mut<seq<Diagnostic>>([]);
    var destinations := new Mut<set<Target>>({});
    var rules := new Mut<seq<Rule>>([]);
    for i := 0 to |raw|
      invariant fresh(diagnostics) && fresh(destinations) && fresh(rules)
      invariant Reported([], diagnostics.value, !ListOk(env, raw[..i]))
      invariant ListOk(env, raw[..i]) ==>
                  rules.value == RulesOf(env, raw[..i]) && destinations.value == TargetsOf(env, raw[..i])
    {
      OneMoreRule(env, raw, i);
      ParseRule(env, raw[i], destinations, rules, diagnostics);
    }
    assert raw[..|raw|] == raw;
    if diagnostics.value == [] {
      r := Ok(rules.value);
    } else {
      assert diagnostics.value[0].severity.Error?;
      r := Err(Validation(diagnostics.value));
    }
  }

  function TargetsOf(env: LabelEnv, raw: seq<RawRule>): set<Target> {
    set k | 0 <= k < |raw| :: Destination(env, raw[k].target)
  }

  /** The rules are fine one by one and their targets differ. */
  predicate ListOk(env: LabelEnv, raw: seq<RawRule>) {
    (forall i :: 0 <= i < |raw| ==> RuleOk(env, raw[i])) && DistinctTargets(env, raw)
  }

  lemma OneMoreRule(env: LabelEnv, raw: seq<RawRule>, i: nat)
    requires i < |raw|
    ensures ListOk(env, raw[..i + 1]) <==>
            ListOk(env, raw[..i]) && RuleOk(env, raw[i])
            && Destination(env, raw[i].target) !in TargetsOf(env, raw[..i])
    ensures RulesOf(env, raw[..i + 1]) == RulesOf(env, raw[..i]) + [RuleOf(env, raw[i])]
    ensures TargetsOf(env, raw[..i + 1]) == TargetsOf(env, raw[..i]) + {Destination(env, raw[i].target)}
  {
    var more, front := raw[..i + 1], raw[..i];
    assert more == front + [raw[i]];
    assert forall k :: 0 <= k < i ==> more[k] == front[k];
  }

  // ---- Combining the documents of a bundle ----

  predicate DistinctRuleTargets(rules: seq<Rule>) {
    forall i, j :: 0 <= i < j < |rules| ==> rules[i].target != rules[j].target
  }

  predicate CombineOk(rules: seq<Rule>) {
    WithinLimits(RulePatterns(rules)) && DistinctRuleTargets(rules)
  }

  /** Joins the rules of all documents; budgets and targets are checked again. */
  method Combine(sets: seq<seq<Rule>>) returns (r: Result<seq<Rule>>)
    ensures r.Ok? <==> CombineOk(Flatten(sets))
    ensures r.Ok? ==> r.value == Flatten(sets)
    ensures r.Err? ==> r.error.Validation? && HasError(r.error.diagnostics)
  {
    r := CheckCombined(Flatten(sets));
  }

  /** Checks budgets and targets of the joined rules. */
  method CheckCombined(rules: seq<Rule>) returns (r: Result<seq<Rule>>)
    ensures r.Ok? <==> CombineOk(rules)
    ensures r.Ok? ==> r.value == rules
    ensures r.Err? ==> r.error.Validation? && HasError(r.error.diagnostics)
  {
    var limit := LimitError(RulePatterns(rules));
    if limit.Some? {
      r := Err(Validation([ErrorOf(limit.value)]));
      assert r.error.diagnostics[0].severity.Error?;
      return;
    }
    var diagnostics := new Mut<seq<Diagnostic>>([]);
    var destinations: set<Target> := {};
    for i := 0 to |rules|
      invariant fresh(diagnostics)
      invariant Reported([], diagnostics.value, !DistinctRuleTargets(rules[..i]))
      invariant forall t :: t in destinations <==> exists k :: 0 <= k < i && rules[k].target == t
    {
      ReportIf(rules[i].target in destinations, LabelsDuplicateDestination, diagnostics);
      destinations := destinations + {rules[i].target};
      OneMoreRuleTarget(rules, i);
    }
    assert rules[..|rules|] == rules;
    if diagnostics.value == [] {
      r := Ok(rules);
    } else {
      assert diagnostics.value[0].severity.Error?;
      r := Err(Validation(diagnostics.value));
    }
  }

  lemma OneMoreRuleTarget(rules: seq<Rule>, i: nat)
    requires i < |rules|
    ensures DistinctRuleTargets(rules[..i + 1]) <==>
            DistinctRuleTargets(rules[..i]) && forall k :: 0 <= k < i ==> rules[k].target != rules[i].target
  {
    var more := rules[..i + 1];
    assert more[i] == rules[i] && forall k :: 0 <= k < i ==> more[k] == rules[k] == rules[..i][k];
  }

  function ParsedAll(env: LabelEnv, docs: seq<seq<RawRule>>): (r: seq<seq<Rule>>)
    ensures |r| == |docs| && forall i :: 0 <= i < |r| ==> r[i] == RulesOf(env, docs[i])
  {
    seq(|docs|, i requires 0 <= i < |docs| => RulesOf(env, docs[i]))
  }

  lemma RulesConcat(env: LabelEnv, a: seq<RawRule>, b: seq<RawRule>)
    ensures RulesOf(env, a + b) == RulesOf(env, a) + RulesOf(env, b)
  {
  }

  lemma {:induction false} FlattenParsed(env: LabelEnv, docs: seq<seq<RawRule>>)
    ensures Flatten(ParsedAll(env, docs)) == RulesOf(env, Flatten(docs))
  {
    if docs != [] {
      var front, last := docs[..|docs| - 1], docs[|docs| - 1];
      FlattenParsed(env, front);
      assert ParsedAll(env, docs)[..|docs| - 1] == ParsedAll(env, front);
      RulesConcat(env, Flatten(front), last);
    }
  }

  ghost predicate AllDocumentsOk(env: LabelEnv, docs: seq<seq<RawRule>>) {
    forall i :: 0 <= i < |docs| ==> DocumentOk(env, docs[i])
  }

  ghost predicate RulesOk(env: LabelEnv, raw: seq<RawRule>) {
    forall i :: 0 <= i < |raw| ==> RuleOk(env, raw[i])
  }

  lemma {:induction false} FlattenRulesOk(env: LabelEnv, docs: seq<seq<RawRule>>)
    ensures RulesOk(env, Flatten(docs)) <==> forall i :: 0 <= i < |docs| ==> RulesOk(env, docs[i])
  {
    if docs != [] {
      var front, last := docs[..|docs| - 1], docs[|docs| - 1];
      FlattenRulesOk(env, front);
      var whole := Flatten(front) + last;
      assert RulesOk(env, whole) ==> RulesOk(env, last) by {
        assert forall i :: 0 <= i < |last| ==> last[i] == whole[|Flatten(front)| + i];
      }
      assert RulesOk(env, whole) ==> RulesOk(env, Flatten(front)) by {
        assert forall i :: 0 <= i < |Flatten(front)| ==> Flatten(front)[i] == whole[i];
      }
    }
  }

  lemma PartListOk(env: LabelEnv, a: seq<RawRule>, b: seq<RawRule>)
    requires ListOk(env, a + b)
    ensures ListOk(env, a) && ListOk(env, b)
  {
    var whole := a + b;
    assert forall i :: 0 <= i < |a| ==> a[i] == whole[i];
    assert forall i :: 0 <= i < |b| ==> b[i] == whole[|a| + i];
  }

  /** A document that is a part of an accepted one is accepted. */
  lemma PartIsOk(env: LabelEnv, a: seq<RawRule>, b: seq<RawRule>)
    requires DocumentOk(env, a + b)
    ensures DocumentOk(env, a) && DocumentOk(env, b)
  {
    assert RawPatterns(a + b) == RawPatterns(a) + RawPatterns(b);
    PartsWithinLimits(RawPatterns(a), RawPatterns(b));
    PartListOk(env, a, b);
  }

  lemma {:induction false} DocumentsOfFlatten(env: LabelEnv, docs: seq<seq<RawRule>>)
    requires DocumentOk(env, Flatten(docs))
    ensures AllDocumentsOk(env, docs)
  {
    if docs != [] {
      var front, last := docs[..|docs| - 1], docs[|docs| - 1];
      PartIsOk(env, Flatten(front), last);
      DocumentsOfFlatten(env, front);
      assert forall i :: 0 <= i < |front| ==> docs[i] == front[i];
    }
  }

  /** Parsing the documents one by one and combining accepts exactly what parsing the one
      concatenated document accepts, with the same rules in the same order. */
  lemma {:induction false} CombineAgreesWithParse(env: LabelEnv, docs: seq<seq<RawRule>>)
    ensures AllDocumentsOk(env, docs) && CombineOk(Flatten(ParsedAll(env, docs))) <==> DocumentOk(env, Flatten(docs))
    ensures Flatten(ParsedAll(env, docs)) == RulesOf(env, Flatten(docs))
  {
    FlattenParsed(env, docs);
    FlattenRulesOk(env, docs);
    var raw := Flatten(docs);
    assert RulePatterns(RulesOf(env, raw)) == RawPatterns(raw);
    DistinctIffDistinct(env, raw);
    if DocumentOk(env, raw) { DocumentsOfFlatten(env, docs); }
  }

  lemma DistinctIffDistinct(env: LabelEnv, raw: seq<RawRule>)
    ensures DistinctRuleTargets(RulesOf(env, raw)) <==> DistinctTargets(env, raw)
  {
    var rules := RulesOf(env, raw);
    assert forall i :: 0 <= i < |raw| ==> rules[i].target == Destination(env, raw[i].target);
    if DistinctRuleTargets(rules) {
      forall i, j | 0 <= i < j < |raw| ensures Destination(env, raw[i].target) != Destination(env, raw[j].target) {
        assert rules[i].target != rules[j].target;
      }
    }
  }

  /** A rule written out parses to itself: its target is in the core's form already. */
  lemma RuleReparses(env: LabelEnv, raw: RawRule)
    requires LawfulTargets(env) && RuleOk(env, raw)
    ensures var again := RawOf(RuleOf(env, raw)); RuleOk(env, again) && RuleOf(env, again) == RuleOf(env, raw)
  {
    assert env.target(raw.target).Some?;
  }

  /** Writing accepted rules out and parsing them again accepts, and gives the same rules,
      whatever form the targets of the document had. */
  lemma AcceptedRulesReparse(env: LabelEnv, raw: seq<RawRule>)
    requires LawfulTargets(env) && DocumentOk(env, raw)
    ensures var again := RawsOf(RulesOf(env, raw));
            DocumentOk(env, again) && RulesOf(env, again) == RulesOf(env, raw)
  {
    var rules := RulesOf(env, raw);
    var again := RawsOf(rules);
    forall i | 0 <= i < |raw| ensures RuleOk(env, again[i]) && RuleOf(env, again[i]) == rules[i] {
      RuleReparses(env, raw[i]);
    }
    assert RulesOf(env, again) == rules;
    DistinctIffDistinct(env, raw);
    DistinctIffDistinct(env, again);
    assert RawPatterns(again) == RawPatterns(raw);
  }

  // ---- Deriving labels ----

  /** The names of the matching patterns, in pattern order. */
  function Derive(patterns: seq<Pattern>, matches: (string, string) -> bool, value: string): seq<string> {
    if patterns == [] then []
    else
      var last := patterns[|patterns| - 1];
      Derive(patterns[..|patterns| - 1], matches, value) + if matches(last.regex, value) then [last.name] else []
  }

  lemma {:induction false} DerivedNames(patterns: seq<Pattern>, matches: (string, string) -> bool,
                                        value: string, name: string)
    ensures name in Derive(patterns, matches, value) <==>
            exists i :: 0 <= i < |patterns| && patterns[i].name == name && matches(patterns[i].regex, value)
  {
    if patterns != [] {
      var front := patterns[..|patterns| - 1];
      DerivedNames(front, matches, value, name);
      if i :| 0 <= i < |patterns| && patterns[i].name == name && matches(patterns[i].regex, value) {
        if i < |front| { assert front[i] == patterns[i]; }
      }
      if i :| 0 <= i < |front| && front[i].name == name && matches(front[i].regex, value) {
        assert patterns[i] == front[i];
      }
    }
  }

  /** An accepted rule never derives a label twice, and derives a name exactly when the
      one pattern of that name matches. */
  lemma {:induction false} DerivedOnce(patterns: seq<Pattern>, matches: (string, string) -> bool, value: string)
    requires PatternsOk(patterns)
    ensures var labels := Derive(patterns, matches, value);
            forall i, j :: 0 <= i < j < |labels| ==> labels[i] != labels[j]
    ensures forall i :: 0 <= i < |patterns| ==>
              (patterns[i].name in Derive(patterns, matches, value) <==> matches(patterns[i].regex, value))
  {
    if patterns != [] {
      var front, last := patterns[..|patterns| - 1], patterns[|patterns| - 1];
      OneMorePattern(patterns, |front|);
      assert patterns[..|front| + 1] == patterns;
      DerivedOnce(front, matches, value);
      DerivedNames(front, matches, value, last.name);
      assert last.name !in Derive(front, matches, value);
      forall i | 0 <= i < |patterns|
        ensures patterns[i].name in Derive(patterns, matches, value) <==> matches(patterns[i].regex, value)
      {
        DerivedNames(patterns, matches, value, patterns[i].name);
      }
    }
  }
}
