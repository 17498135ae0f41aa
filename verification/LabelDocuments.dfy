/** `labels.json`: how accepted label rules are written and read back. */
module LabelDocuments {
  import opened Text
  import opened Diagnostics
  import opened Json
  import opened Labels
  import opened Records
  import opened Sorting

  const TARGET := "target"
  const FIELD := "field"
  const PATTERNS := "patterns"
  const RESOURCE_TYPE := "resource_type"
  const ATTRIBUTE := "attribute"
  const REGEX := "regex"

  function PatternMembers(p: Pattern): seq<Member> {
    [Member(NAME, VText(p.name)), Member(REGEX, VText(p.regex))]
  }

  function PatternValue(p: Pattern): Value { VObject(PatternMembers(p)) }

  function TargetMembers(t: Target): seq<Member> {
    [Member(RESOURCE_TYPE, VText(t.resourceType)), Member(ATTRIBUTE, VText(t.attribute))]
  }

  function RuleMembers(r: RawRule): seq<Member> {
    [Member(TARGET, VObject(TargetMembers(r.target))), Member(FIELD, VText(r.field)),
     Member(PATTERNS, VArray(Mapped(r.patterns, PatternValue)))]
  }

  function RuleValue(r: RawRule): Value { VObject(RuleMembers(r)) }

  function DocumentValue(rules: seq<RawRule>): Value { VArray(Mapped(rules, RuleValue)) }

  // ---- Reading ----

  const PATTERN_KEYS := [NAME, REGEX]
  const TARGET_KEYS := [RESOURCE_TYPE, ATTRIBUTE]
  const RULE_KEYS := [TARGET, FIELD, PATTERNS]

  function ReadPattern(j: Json): Option<Pattern> {
    match Fields(j, PATTERN_KEYS)
    case None => None
    case Some(f) =>
      var name, regex := AsText(f[0]), AsText(f[1]);
      if name.Some? && regex.Some? then Some(Pattern(name.value, regex.value)) else None
  }

  function ReadTarget(j: Json): Option<Target> {
    match Fields(j, TARGET_KEYS)
    case None => None
    case Some(f) =>
      var resourceType, attribute := AsText(f[0]), AsText(f[1]);
      if resourceType.Some? && attribute.Some? then Some(Target(resourceType.value, attribute.value)) else None
  }

  function ReadRule(j: Json): Option<RawRule> {
    match Fields(j, RULE_KEYS)
    case None => None
    case Some(f) =>
      var target, field, patterns := ReadTarget(f[0]), AsText(f[1]), ReadList(f[2], ReadPattern);
      if target.Some? && field.Some? && patterns.Some?
      then Some(RawRule(target.value, field.value, patterns.value)) else None
  }

  function ReadDocument(j: Json): Option<seq<RawRule>> { ReadList(j, ReadRule) }

  // ---- Round trip ----

  lemma ReadPatternValue(p: Pattern)
    ensures ReadPattern(Meaning(PatternValue(p))) == Some(p)
  {
    DifferentHeads(PATTERN_KEYS);
    assert Keys(PatternMembers(p)) == PATTERN_KEYS;
    WrittenFields(PatternMembers(p), PATTERN_KEYS);
  }

  lemma ReadTargetValue(t: Target)
    ensures ReadTarget(Meaning(VObject(TargetMembers(t)))) == Some(t)
  {
    DifferentHeads(TARGET_KEYS);
    assert Keys(TargetMembers(t)) == TARGET_KEYS;
    WrittenFields(TargetMembers(t), TARGET_KEYS);
  }

  lemma ReadPatterns(patterns: seq<Pattern>)
    ensures ReadList(Meaning(VArray(Mapped(patterns, PatternValue))), ReadPattern) == Some(patterns)
  {
    forall i | 0 <= i < |patterns| ensures ReadPattern(Meaning(PatternValue(patterns[i]))) == Some(patterns[i]) {
      ReadPatternValue(patterns[i]);
    }
    ReadItemsOf(patterns, PatternValue, ReadPattern, patterns);
  }

  lemma RuleKeys(r: RawRule)
    ensures Keys(RuleMembers(r)) == RULE_KEYS && DistinctStrings(RULE_KEYS)
  {
    DifferentHeads(RULE_KEYS);
    assert Keys(RuleMembers(r)) == RULE_KEYS;
  }

  lemma ReadRuleValue(r: RawRule)
    ensures ReadRule(Meaning(RuleValue(r))) == Some(r)
  {
    RuleKeys(r);
    var members := RuleMembers(r);
    WrittenFields(members, RULE_KEYS);
    var f := Fields(Meaning(VObject(members)), RULE_KEYS).value;
    assert f[0] == Meaning(members[0].value) && f[1] == Meaning(members[1].value) && f[2] == Meaning(members[2].value);
    ReadTargetValue(r.target);
    ReadPatterns(r.patterns);
  }

  /** A label document reads back as the rules it was written from. */
  lemma DocumentRoundTrip(rules: seq<RawRule>)
    ensures ReadDocument(Meaning(DocumentValue(rules))) == Some(rules)
  {
    forall i | 0 <= i < |rules| ensures ReadRule(Meaning(RuleValue(rules[i]))) == Some(rules[i]) {
      ReadRuleValue(rules[i]);
    }
    ReadItemsOf(rules, RuleValue, ReadRule, rules);
  }

  /** The fields a written rule has, in order. */
  lemma FieldNames(r: RawRule, t: Target, p: Pattern)
    ensures Keys(RuleMembers(r)) == ["target", "field", "patterns"]
    ensures Keys(TargetMembers(t)) == ["resource_type", "attribute"]
    ensures Keys(PatternMembers(p)) == ["name", "regex"]
  {
  }

  // ---- Depth ----

  lemma {:induction false} PatternsAreShallow(patterns: seq<Pattern>, depth: nat)
    requires depth >= 2
    ensures Fits(VArray(Mapped(patterns, PatternValue)), depth)
  {
    forall i | 0 <= i < |patterns| ensures Fits(PatternValue(patterns[i]), depth - 1) {}
  }

  lemma {:induction false} RuleIsShallow(r: RawRule, depth: nat)
    requires depth >= 3
    ensures Fits(RuleValue(r), depth)
  {
    PatternsAreShallow(r.patterns, depth - 1);
    assert Fits(VObject(TargetMembers(r.target)), depth - 1);
  }

  /** A label document nests four deep at most: list, rule, patterns, pattern. */
  lemma {:induction false} DocumentIsShallow(rules: seq<RawRule>, depth: nat)
    requires depth >= 4
    ensures Fits(DocumentValue(rules), depth)
  {
    forall i | 0 <= i < |rules| ensures Fits(RuleValue(rules[i]), depth - 1) {
      RuleIsShallow(rules[i], depth - 1);
    }
  }
}
