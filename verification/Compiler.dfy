/** `compile_manifest`: one pass over the selected modules that fills every part of the
    bundle, and what an accepted pass has established. */
module Compiler {
  import opened Text
  import opened Diagnostics
  import opened Json
  import opened Labels
  import opened Manifests
  import opened Policies
  import opened Sorting
  import opened Sources
  import LabelSchema
  import Names
  import Schemas

  // ---- What Cedar and the JSON parser decide ----

  /** A parsed policy set: its template count and its policies in text order. */
  datatype Parsed = Parsed(templates: nat, policies: seq<Policy>)

  datatype ParsedSchema = ParsedSchema(fragment: Json, warnings: nat)

  datatype Finding = ValidationError | InvalidActionApplication | OtherWarning

  datatype Cedar = Cedar(
    parsePolicies: string -> Option<Parsed>,
    parseSchema: string -> Option<ParsedSchema>,
    schemaOk: Json -> bool,
    entityTypes: Json -> set<string>,
    strict: (seq<Policy>, Json) -> seq<Finding>,
    parseLabels: string -> Option<seq<RawRule>>,
    labels: LabelEnv)

  // ---- Policies of one file ----

  function IdOf(p: Policy): string {
    match p.id case None => "" case Some(id) => id
  }

  predicate AllStatic(parsed: Parsed) {
    parsed.templates == 0 && forall i :: 0 <= i < |parsed.policies| ==> parsed.policies[i].isStatic
  }

  ghost predicate PolicyOk(p: Policy, m: ModuleRecord) {
    IdOf(p) != "" && OwnershipHolds(p, m)
  }

  ghost predicate AllPoliciesOk(policies: seq<Policy>, m: ModuleRecord) {
    forall i :: 0 <= i < |policies| ==> PolicyOk(policies[i], m)
  }

  function Ids(policies: seq<Policy>): seq<string> {
    Mapped(policies, IdOf)
  }

  predicate NewIds(ids: seq<string>, existing: seq<string>) {
    DistinctStrings(ids) && forall i :: 0 <= i < |ids| ==> ids[i] !in existing
  }

  /** Adding strings to an ordered set one by one. */
  function InsertAll(existing: seq<string>, ids: seq<string>): seq<string> {
    if ids == [] then existing
    else
      var last := |ids| - 1;
      Insert(InsertAll(existing, ids[..last]), ids[last])
  }

  lemma {:induction false} InsertAllMembers(existing: seq<string>, ids: seq<string>)
    ensures forall x :: x in InsertAll(existing, ids) <==> x in existing || x in ids
    ensures StrictlySorted(existing) ==> StrictlySorted(InsertAll(existing, ids))
  {
    if ids != [] {
      var last := |ids| - 1;
      InsertAllMembers(existing, ids[..last]);
      assert ids == ids[..last] + [ids[last]];
    }
  }

  /** The policies satisfy module m's rules and their ids are new. */
  ghost predicate PoliciesFit(policies: seq<Policy>, m: ModuleRecord, existing: seq<string>) {
    AllPoliciesOk(policies, m) && NewIds(Ids(policies), existing)
  }

  lemma {:induction false} OneMorePolicy(policies: seq<Policy>, m: ModuleRecord, existing: seq<string>, i: nat)
    requires i < |policies|
    ensures PoliciesFit(policies[..i + 1], m, existing) <==>
            && PoliciesFit(policies[..i], m, existing) && PolicyOk(policies[i], m)
            && IdOf(policies[i]) !in InsertAll(existing, Ids(policies[..i]))
    ensures Ids(policies[..i + 1]) == Ids(policies[..i]) + [IdOf(policies[i])]
    ensures InsertAll(existing, Ids(policies[..i + 1]))
            == Insert(InsertAll(existing, Ids(policies[..i])), IdOf(policies[i]))
  {
    var more, front := policies[..i + 1], policies[..i];
    assert more == front + [policies[i]];
    var ids := Ids(more);
    assert ids == Ids(front) + [IdOf(policies[i])] && ids[..i] == Ids(front);
    assert AllPoliciesOk(more, m) <==> AllPoliciesOk(front, m) && PolicyOk(policies[i], m);
    OneMoreNewId(Ids(front), IdOf(policies[i]), existing);
    InsertAllMembers(existing, Ids(front));
  }

  lemma OneMoreNewId(ids: seq<string>, id: string, existing: seq<string>)
    ensures NewIds(ids + [id], existing) <==> NewIds(ids, existing) && id !in existing && id !in ids
  {
    var more := ids + [id];
    OneMoreString(more, |ids|);
    assert more[..|ids|] == ids && more[..|ids| + 1] == more;
    assert forall k :: 0 <= k < |ids| ==> more[k] == ids[k];
    assert more[|ids|] == id;
    assert id in ids <==> exists k :: 0 <= k < |ids| && more[k] == id;
  }

  function Prefix(name: string): string { name + "." }

  /** An id should begin with its module's name and a dot. */
  function PrefixWarning(p: Policy, name: string): seq<Diagnostic> {
    if name + "." <= IdOf(p) then [] else [WarningOf(PolicyIdPrefix)]
  }

  /** The warnings about the first n policies. */
  function PrefixWarnings(policies: seq<Policy>, name: string, n: nat): seq<Diagnostic>
    requires n <= |policies|
  {
    if n == 0 then [] else PrefixWarnings(policies, name, n - 1) + PrefixWarning(policies[n - 1], name)
  }

  method ValidateModulePolicy(p: Policy, m: ModuleRecord, moduleIds: Mut<seq<string>>,
                              allIds: Mut<seq<string>>, diagnostics: Mut<seq<Diagnostic>>)
    requires moduleIds != allIds
    modifies moduleIds, allIds, diagnostics
    ensures Appended(old(diagnostics.value), diagnostics.value,
                     !(PolicyOk(p, m) && IdOf(p) !in old(allIds.value)), PrefixWarning(p, m.name))
    ensures PolicyOk(p, m) ==>
              moduleIds.value == old(moduleIds.value) + [IdOf(p)] && allIds.value == Insert(old(allIds.value), IdOf(p))
  {
    if IdOf(p) == "" {
      ReportIf(true, PolicyMissingId, diagnostics);
      ReportedIsAppended(old(diagnostics.value), diagnostics.value, true);
      return;
    }
    var id := IdOf(p);
    var repeated := id in allIds.value;
    ReportIf(repeated, PolicyDuplicateId, diagnostics);
    ReportedIsAppended(old(diagnostics.value), diagnostics.value, repeated);
    allIds.value := Insert(allIds.value, id);
    moduleIds.value := moduleIds.value + [id];
    ghost var checked := diagnostics.value;
    WarnIf(!(Prefix(m.name) <= id), PolicyIdPrefix, diagnostics);
    ghost var warned := diagnostics.value;
    ValidatePolicyOwnership(p, m, diagnostics);
    ReportedIsAppended(warned, diagnostics.value, !OwnershipHolds(p, m));
    ThreeChecks(old(diagnostics.value), checked, warned, diagnostics.value, repeated, !OwnershipHolds(p, m),
                PrefixWarning(p, m.name));
  }

  /** An error check, a warning and an error check. */
  lemma ThreeChecks(a: seq<Diagnostic>, b: seq<Diagnostic>, c: seq<Diagnostic>, d: seq<Diagnostic>,
                    bad: bool, worse: bool, warnings: seq<Diagnostic>)
    requires Appended(a, b, bad, []) && Appended(b, c, false, warnings) && Appended(c, d, worse, [])
    ensures Appended(a, d, bad || worse, warnings)
  {
    AppendedTwice(a, b, c, bad, false, [], warnings);
    AppendedTwice(a, c, d, bad, worse, [] + warnings, []);
    assert ([] + warnings) + [] == warnings;
  }

  method ValidatePolicyList(policies: seq<Policy>, m: ModuleRecord, moduleIds: Mut<seq<string>>,
                            allIds: Mut<seq<string>>, diagnostics: Mut<seq<Diagnostic>>)
    requires moduleIds != allIds
    modifies moduleIds, allIds, diagnostics
    ensures Appended(old(diagnostics.value), diagnostics.value, !PoliciesFit(policies, m, old(allIds.value)),
                     PrefixWarnings(policies, m.name, |policies|))
    ensures PoliciesFit(policies, m, old(allIds.value)) ==>
              && moduleIds.value == old(moduleIds.value) + Ids(policies)
              && allIds.value == InsertAll(old(allIds.value), Ids(policies))
  {
    ghost var known := allIds.value;
    ghost var own := moduleIds.value;
    for i := 0 to |policies|
      invariant Appended(old(diagnostics.value), diagnostics.value, !PoliciesFit(policies[..i], m, known),
                         PrefixWarnings(policies, m.name, i))
      invariant PoliciesFit(policies[..i], m, known) ==>
                  moduleIds.value == own + Ids(policies[..i]) && allIds.value == InsertAll(known, Ids(policies[..i]))
    {
      OneMorePolicy(policies, m, known, i);
      ghost var before, fits := diagnostics.value, PolicyOk(policies[i], m) && IdOf(policies[i]) !in allIds.value;
      ValidateModulePolicy(policies[i], m, moduleIds, allIds, diagnostics);
      AppendedTwice(old(diagnostics.value), before, diagnostics.value, !PoliciesFit(policies[..i], m, known), !fits,
                    PrefixWarnings(policies, m.name, i), PrefixWarning(policies[i], m.name));
    }
    assert policies[..|policies|] == policies;
  }

  /** Checks and records the policies of one file. */
  method ValidateModulePolicies(parsed: Parsed, m: ModuleRecord, moduleIds: Mut<seq<string>>,
                                allIds: Mut<seq<string>>, diagnostics: Mut<seq<Diagnostic>>)
    requires moduleIds != allIds
    modifies moduleIds, allIds, diagnostics
    ensures Appended(old(diagnostics.value), diagnostics.value,
                     !(AllStatic(parsed) && PoliciesFit(parsed.policies, m, old(allIds.value))),
                     PrefixWarnings(parsed.policies, m.name, |parsed.policies|))
    ensures PoliciesFit(parsed.policies, m, old(allIds.value)) ==>
              && moduleIds.value == old(moduleIds.value) + Ids(parsed.policies)
              && allIds.value == InsertAll(old(allIds.value), Ids(parsed.policies))
  {
    ReportIf(!AllStatic(parsed), PolicyTemplates, diagnostics);
    ReportedIsAppended(old(diagnostics.value), diagnostics.value, !AllStatic(parsed));
    ghost var before, fits := diagnostics.value, PoliciesFit(parsed.policies, m, allIds.value);
    ghost var warnings := PrefixWarnings(parsed.policies, m.name, |parsed.policies|);
    ValidatePolicyList(parsed.policies, m, moduleIds, allIds, diagnostics);
    AppendedTwice(old(diagnostics.value), before, diagnostics.value, !AllStatic(parsed), !fits, [], warnings);
    assert [] + warnings == warnings;
  }

  // ---- The policy files of one module ----

  /** The text of a file; none where it cannot be read. */
  function Source(f: SourceFile): string { if f.contents.Some? then f.contents.value else "" }

  function FilePolicies(cedar: Cedar, f: SourceFile): seq<Policy> {
    match cedar.parsePolicies(Normalized(Source(f))) case None => [] case Some(parsed) => parsed.policies
  }

  function FileWarnings(cedar: Cedar, name: string, f: SourceFile): seq<Diagnostic> {
    PrefixWarnings(FilePolicies(cedar, f), name, |FilePolicies(cedar, f)|)
  }

  /** The warnings about the policies of the first n files. */
  function PolicyWarnings(cedar: Cedar, name: string, files: seq<SourceFile>, n: nat): seq<Diagnostic>
    requires n <= |files|
  {
    if n == 0 then [] else PolicyWarnings(cedar, name, files, n - 1) + FileWarnings(cedar, name, files[n - 1])
  }

  /** The file can be read and parsed, has no template, and each policy has an id and keeps to the
      module's rules. */
  ghost predicate PolicyFileOk(cedar: Cedar, m: ModuleRecord, f: SourceFile) {
    f.contents.Some? &&
    match cedar.parsePolicies(Normalized(f.contents.value))
    case None => false
    case Some(parsed) =>
      && parsed.templates == 0
      && forall i :: 0 <= i < |parsed.policies| ==>
           var p := parsed.policies[i];
           p.isStatic && p.id.Some? && p.id.value != "" && OwnershipHolds(p, m)
  }

  lemma PolicyFileOkIff(cedar: Cedar, m: ModuleRecord, f: SourceFile)
    requires f.contents.Some?
    ensures PolicyFileOk(cedar, m, f) <==>
            && cedar.parsePolicies(Normalized(f.contents.value)).Some?
            && AllStatic(cedar.parsePolicies(Normalized(f.contents.value)).value)
            && AllPoliciesOk(FilePolicies(cedar, f), m)
  {
    var parsed := cedar.parsePolicies(Normalized(f.contents.value));
    if parsed.Some? && AllStatic(parsed.value) && AllPoliciesOk(FilePolicies(cedar, f), m) {
      forall i | 0 <= i < |parsed.value.policies|
        ensures var p := parsed.value.policies[i];
                p.isStatic && p.id.Some? && p.id.value != "" && OwnershipHolds(p, m)
      {
        assert PolicyOk(FilePolicies(cedar, f)[i], m);
      }
    }
  }

  /** The first n files can be read. */
  predicate FirstReadable(files: seq<SourceFile>, n: nat)
    requires n <= |files|
  {
    n > 0 ==> FirstReadable(files, n - 1) && files[n - 1].contents.Some?
  }

  predicate Readable(files: seq<SourceFile>) { FirstReadable(files, |files|) }

  lemma {:induction false} UnreadableFile(files: seq<SourceFile>, n: nat, i: nat)
    requires i < n <= |files| && files[i].contents.None?
    ensures !FirstReadable(files, n)
  {
    if i < n - 1 { UnreadableFile(files, n - 1, i); }
  }

  function TextOf(m: ModuleRecord, f: SourceFile): PolicyText {
    PolicyText(m.name, f.path, Normalized(Source(f)))
  }

  /** The policy side of the compiler's state. `texts` lists the files behind the policy text. */
  datatype Gathered = Gathered(texts: seq<PolicyText>, moduleIds: seq<string>, allIds: seq<string>,
                               policies: seq<Policy>)

  function GatherFile(cedar: Cedar, m: ModuleRecord, f: SourceFile, start: Gathered): Gathered {
    var policies := FilePolicies(cedar, f);
    Gathered(start.texts + [TextOf(m, f)], start.moduleIds + Ids(policies),
             InsertAll(start.allIds, Ids(policies)), start.policies + policies)
  }

  /** The file passes its checks and none of its ids was seen before. */
  ghost predicate FileFits(cedar: Cedar, m: ModuleRecord, f: SourceFile, existing: seq<string>) {
    PolicyFileOk(cedar, m, f) && NewIds(Ids(FilePolicies(cedar, f)), existing)
  }

  /** The state after the first n files. */
  function Gather(cedar: Cedar, m: ModuleRecord, files: seq<SourceFile>, n: nat, start: Gathered): Gathered
    requires n <= |files|
  {
    if n == 0 then start else GatherFile(cedar, m, files[n - 1], Gather(cedar, m, files, n - 1, start))
  }

  /** The first n files fit, each one after those before it. */
  ghost predicate FilesFit(cedar: Cedar, m: ModuleRecord, files: seq<SourceFile>, n: nat, start: Gathered)
    requires n <= |files|
  {
    n > 0 ==>
      && FilesFit(cedar, m, files, n - 1, start)
      && FileFits(cedar, m, files[n - 1], Gather(cedar, m, files, n - 1, start).allIds)
  }

  function Statics(policies: seq<Policy>): (r: seq<Policy>)
    ensures (forall i :: 0 <= i < |policies| ==> policies[i].isStatic) ==> r == policies
  {
    if policies == [] then []
    else
      var last := policies[|policies| - 1];
      Statics(policies[..|policies| - 1]) + if last.isStatic then [last] else []
  }

  method CompilePolicyFile(cedar: Cedar, m: ModuleRecord, f: SourceFile, start: Gathered, text: Mut<string>,
                           diagnostics: Mut<seq<Diagnostic>>)
    returns (end: Gathered)
    requires f.contents.Some? && text.value == Aggregate(start.texts)
    modifies text, diagnostics
    ensures text.value == Aggregate(end.texts)
    ensures Appended(old(diagnostics.value), diagnostics.value, !FileFits(cedar, m, f, start.allIds),
                     FileWarnings(cedar, m.name, f))
    ensures FileFits(cedar, m, f, start.allIds) ==> end == GatherFile(cedar, m, f, start)
  {
    PolicyFileOkIff(cedar, m, f);
    var normalized := NormalizeText(f.contents.value);
    var parsed := cedar.parsePolicies(normalized);
    if parsed.None? {
      ReportIf(true, PolicySyntax, diagnostics);
      ReportedIsAppended(old(diagnostics.value), diagnostics.value, true);
      return start;
    }
    var moduleIds := new Mut<seq<string>>(start.moduleIds);
    var allIds := new Mut<seq<string>>(start.allIds);
    ValidateModulePolicies(parsed.value, m, moduleIds, allIds, diagnostics);
    text.value := text.value + Header(m.name, f.path) + normalized;
    end := Gathered(start.texts + [PolicyText(m.name, f.path, normalized)], moduleIds.value, allIds.value,
                    start.policies + Statics(parsed.value.policies));
    OneMoreText(start.texts, PolicyText(m.name, f.path, normalized));
    SeqAssoc(Aggregate(start.texts), Header(m.name, f.path), normalized);
  }

  method CompilePolicies(cedar: Cedar, m: ModuleRecord, files: seq<SourceFile>, start: Gathered,
                         text: Mut<string>, diagnostics: Mut<seq<Diagnostic>>)
    returns (readable: bool, end: Gathered)
    requires text.value == Aggregate(start.texts)
    modifies text, diagnostics
    ensures text.value == Aggregate(end.texts)
    ensures readable <==> Readable(files)
    ensures readable ==> Appended(old(diagnostics.value), diagnostics.value, !FilesFit(cedar, m, files, |files|, start),
                                  PolicyWarnings(cedar, m.name, files, |files|))
    ensures readable && FilesFit(cedar, m, files, |files|, start) ==> end == Gather(cedar, m, files, |files|, start)
  {
    end := start;
    for i := 0 to |files|
      invariant FirstReadable(files, i)
      invariant text.value == Aggregate(end.texts)
      invariant Appended(old(diagnostics.value), diagnostics.value, !FilesFit(cedar, m, files, i, start),
                         PolicyWarnings(cedar, m.name, files, i))
      invariant FilesFit(cedar, m, files, i, start) ==> end == Gather(cedar, m, files, i, start)
    {
      if files[i].contents.None? {
        UnreadableFile(files, |files|, i);
        return false, end;
      }
      ghost var before, fits := diagnostics.value, FileFits(cedar, m, files[i], end.allIds);
      end := CompilePolicyFile(cedar, m, files[i], end, text, diagnostics);
      AppendedTwice(old(diagnostics.value), before, diagnostics.value, !FilesFit(cedar, m, files, i, start), !fits,
                    PolicyWarnings(cedar, m.name, files, i), FileWarnings(cedar, m.name, files[i]));
    }
    readable := true;
  }

  // ---- The schema files of one module ----

  function FragmentOf(cedar: Cedar, f: SourceFile): Json {
    match cedar.parseSchema(Source(f)) case None => Schemas.EMPTY case Some(parsed) => parsed.fragment
  }

  function FragmentWarnings(cedar: Cedar, f: SourceFile): seq<Diagnostic> {
    match cedar.parseSchema(Source(f))
    case None => []
    case Some(parsed) => Repeated(WarningOf(SchemaWarning), parsed.warnings)
  }

  /** Cedar's warnings about the first n schema files. */
  function SchemaWarnings(cedar: Cedar, files: seq<SourceFile>, n: nat): seq<Diagnostic>
    requires n <= |files|
  {
    if n == 0 then [] else SchemaWarnings(cedar, files, n - 1) + FragmentWarnings(cedar, files[n - 1])
  }

  /** The fragment parses and stays in the module's namespace. */
  predicate SchemaFileOk(cedar: Cedar, space: string, f: SourceFile) {
    && f.contents.Some? && cedar.parseSchema(f.contents.value).Some?
    && Schemas.SpacesOwned(cedar.parseSchema(f.contents.value).value.fragment, space)
  }

  /** Besides it does not conflict with what was merged before. */
  ghost predicate SchemaFileFits(cedar: Cedar, space: string, f: SourceFile, schema: Json) {
    SchemaFileOk(cedar, space, f) && !Schemas.Conflict(schema, FragmentOf(cedar, f))
  }

  function SchemaAfter(cedar: Cedar, files: seq<SourceFile>, n: nat, start: Json): Json
    requires n <= |files|
  {
    if n == 0 then start else Schemas.Merged(SchemaAfter(cedar, files, n - 1, start), FragmentOf(cedar, files[n - 1]))
  }

  ghost predicate SchemasFit(cedar: Cedar, space: string, files: seq<SourceFile>, n: nat, start: Json)
    requires n <= |files|
  {
    n > 0 ==>
      && SchemasFit(cedar, space, files, n - 1, start)
      && SchemaFileFits(cedar, space, files[n - 1], SchemaAfter(cedar, files, n - 1, start))
  }

  method CompileSchemaFile(cedar: Cedar, space: string, f: SourceFile, schema: Mut<Json>,
                           diagnostics: Mut<seq<Diagnostic>>)
    requires f.contents.Some?
    modifies schema, diagnostics
    ensures Appended(old(diagnostics.value), diagnostics.value, !SchemaFileFits(cedar, space, f, old(schema.value)),
                     FragmentWarnings(cedar, f))
    ensures SchemaFileFits(cedar, space, f, old(schema.value))
            ==> schema.value == Schemas.Merged(old(schema.value), FragmentOf(cedar, f))
  {
    var parsed := cedar.parseSchema(f.contents.value);
    if parsed.None? {
      ReportIf(true, SchemaSyntax, diagnostics);
      ReportedIsAppended(old(diagnostics.value), diagnostics.value, true);
      return;
    }
    for i := 0 to parsed.value.warnings
      invariant schema.value == old(schema.value)
      invariant Appended(old(diagnostics.value), diagnostics.value, false, Repeated(WarningOf(SchemaWarning), i))
    {
      ghost var before := diagnostics.value;
      WarnIf(true, SchemaWarning, diagnostics);
      AppendedTwice(old(diagnostics.value), before, diagnostics.value, false, false,
                    Repeated(WarningOf(SchemaWarning), i), [WarningOf(SchemaWarning)]);
      assert Repeated(WarningOf(SchemaWarning), i) + [WarningOf(SchemaWarning)]
          == Repeated(WarningOf(SchemaWarning), i + 1);
    }
    ghost var warned := diagnostics.value;
    Schemas.ValidateSchemaOwnership(parsed.value.fragment, space, diagnostics);
    ghost var foreign := !Schemas.SpacesOwned(parsed.value.fragment, space);
    ReportedIsAppended(warned, diagnostics.value, foreign);
    ghost var owned := diagnostics.value;
    Schemas.MergeSchemaFragment(schema, parsed.value.fragment, diagnostics);
    ghost var conflict := Schemas.Conflict(old(schema.value), parsed.value.fragment);
    ReportedIsAppended(owned, diagnostics.value, conflict);
    TwoMoreChecks(old(diagnostics.value), warned, owned, diagnostics.value, foreign, conflict,
                  FragmentWarnings(cedar, f));
  }

  /** Warnings and two error checks. */
  lemma TwoMoreChecks(a: seq<Diagnostic>, b: seq<Diagnostic>, c: seq<Diagnostic>, d: seq<Diagnostic>,
                      bad: bool, worse: bool, warnings: seq<Diagnostic>)
    requires Appended(a, b, false, warnings) && Appended(b, c, bad, []) && Appended(c, d, worse, [])
    ensures Appended(a, d, bad || worse, warnings)
  {
    AppendedTwice(a, b, c, false, bad, warnings, []);
    AppendedTwice(a, c, d, bad, worse, warnings + [], []);
    assert (warnings + []) + [] == warnings;
  }

  method CompileSchemas(cedar: Cedar, space: string, files: seq<SourceFile>, schema: Mut<Json>,
                        diagnostics: Mut<seq<Diagnostic>>)
    returns (readable: bool)
    modifies schema, diagnostics
    ensures readable <==> Readable(files)
    ensures readable ==> Appended(old(diagnostics.value), diagnostics.value,
                                  !SchemasFit(cedar, space, files, |files|, old(schema.value)),
                                  SchemaWarnings(cedar, files, |files|))
    ensures readable && SchemasFit(cedar, space, files, |files|, old(schema.value)) ==>
              schema.value == SchemaAfter(cedar, files, |files|, old(schema.value))
  {
    ghost var start := schema.value;
    for i := 0 to |files|
      invariant FirstReadable(files, i)
      invariant Appended(old(diagnostics.value), diagnostics.value, !SchemasFit(cedar, space, files, i, start),
                         SchemaWarnings(cedar, files, i))
      invariant SchemasFit(cedar, space, files, i, start) ==> schema.value == SchemaAfter(cedar, files, i, start)
    {
      if files[i].contents.None? {
        UnreadableFile(files, |files|, i);
        return false;
      }
      ghost var before, fits := diagnostics.value, SchemaFileFits(cedar, space, files[i], schema.value);
      CompileSchemaFile(cedar, space, files[i], schema, diagnostics);
      AppendedTwice(old(diagnostics.value), before, diagnostics.value,
                    !SchemasFit(cedar, space, files, i, start), !fits,
                    SchemaWarnings(cedar, files, i), FragmentWarnings(cedar, files[i]));
    }
    readable := true;
  }

  // ---- The label files of one module ----

  function DocumentOf(cedar: Cedar, f: SourceFile): seq<RawRule> {
    match cedar.parseLabels(Source(f)) case None => [] case Some(raw) => raw
  }

  /** The rules of a label file, if its document is valid. */
  function RulesIn(cedar: Cedar, f: SourceFile): seq<Rule> { RulesOf(cedar.labels, DocumentOf(cedar, f)) }

  predicate TargetsOwned(rules: seq<Rule>, space: string) {
    forall i :: 0 <= i < |rules| ==> Names.Owns(space, rules[i].target.resourceType)
  }

  /** The document is valid and labels only types of the module's namespace. */
  predicate LabelFileFits(cedar: Cedar, space: string, f: SourceFile) {
    && f.contents.Some? && cedar.parseLabels(f.contents.value).Some?
    && DocumentOk(cedar.labels, cedar.parseLabels(f.contents.value).value)
    && TargetsOwned(RulesOf(cedar.labels, cedar.parseLabels(f.contents.value).value), space)
  }

  predicate LabelsFit(cedar: Cedar, space: string, files: seq<SourceFile>, n: nat)
    requires n <= |files|
  {
    n > 0 ==> LabelsFit(cedar, space, files, n - 1) && LabelFileFits(cedar, space, files[n - 1])
  }

  function FirstDocuments(cedar: Cedar, files: seq<SourceFile>, n: nat): seq<seq<RawRule>>
    requires n <= |files|
  {
    if n == 0 then [] else FirstDocuments(cedar, files, n - 1) + [DocumentOf(cedar, files[n - 1])]
  }

  lemma OneMoreTarget(rules: seq<Rule>, space: string, i: nat)
    requires i < |rules|
    ensures TargetsOwned(rules[..i + 1], space)
            <==> TargetsOwned(rules[..i], space) && Names.Owns(space, rules[i].target.resourceType)
  {
    var front, more := rules[..i], rules[..i + 1];
    assert more == front + [rules[i]];
    if TargetsOwned(more, space) { assert more[i] == rules[i] && forall k :: 0 <= k < i ==> more[k] == front[k]; }
  }

  method CompileLabelFile(cedar: Cedar, space: string, f: SourceFile, diagnostics: Mut<seq<Diagnostic>>)
    returns (rules: Option<seq<Rule>>)
    requires f.contents.Some?
    modifies diagnostics
    ensures Appended(old(diagnostics.value), diagnostics.value, !LabelFileFits(cedar, space, f), [])
    ensures LabelFileFits(cedar, space, f) ==> rules == Some(RulesIn(cedar, f))
  {
    var raw := cedar.parseLabels(f.contents.value);
    if raw.None? {
      ReportIf(true, LabelsInvalidJson, diagnostics);
      ReportedIsAppended(old(diagnostics.value), diagnostics.value, true);
      return None;
    }
    var parsed := FromRaw(cedar.labels, raw.value);
    if parsed.Err? {
      diagnostics.value := diagnostics.value + parsed.error.diagnostics;
      return None;
    }
    var start := diagnostics.value;
    for i := 0 to |parsed.value|
      invariant Reported(start, diagnostics.value, !TargetsOwned(parsed.value[..i], space))
    {
      OneMoreTarget(parsed.value, space, i);
      ReportIf(!Names.Owns(space, parsed.value[i].target.resourceType), LabelsNamespace, diagnostics);
    }
    assert parsed.value[..|parsed.value|] == parsed.value;
    ReportedIsAppended(start, diagnostics.value, !TargetsOwned(parsed.value, space));
    rules := Some(parsed.value);
  }

  lemma OneMoreDocument(cedar: Cedar, files: seq<SourceFile>, i: nat)
    requires i < |files|
    ensures ParsedAll(cedar.labels, FirstDocuments(cedar, files, i + 1))
            == ParsedAll(cedar.labels, FirstDocuments(cedar, files, i)) + [RulesIn(cedar, files[i])]
  {
    var front, last := FirstDocuments(cedar, files, i), DocumentOf(cedar, files[i]);
    assert FirstDocuments(cedar, files, i + 1) == front + [last];
  }

  method CompileLabels(cedar: Cedar, space: string, files: seq<SourceFile>, start: seq<seq<Rule>>,
                       diagnostics: Mut<seq<Diagnostic>>)
    returns (readable: bool, sets: seq<seq<Rule>>)
    modifies diagnostics
    ensures readable <==> Readable(files)
    ensures readable
            ==> Appended(old(diagnostics.value), diagnostics.value, !LabelsFit(cedar, space, files, |files|), [])
    ensures readable && LabelsFit(cedar, space, files, |files|)
            ==> sets == start + ParsedAll(cedar.labels, FirstDocuments(cedar, files, |files|))
  {
    sets := start;
    for i := 0 to |files|
      invariant FirstReadable(files, i)
      invariant Appended(old(diagnostics.value), diagnostics.value, !LabelsFit(cedar, space, files, i), [])
      invariant LabelsFit(cedar, space, files, i) ==>
                  sets == start + ParsedAll(cedar.labels, FirstDocuments(cedar, files, i))
    {
      if files[i].contents.None? {
        UnreadableFile(files, |files|, i);
        return false, sets;
      }
      var rules := CompileLabelFile(cedar, space, files[i], diagnostics);
      if rules.Some? {
        sets := sets + [rules.value];
        OneMoreDocument(cedar, files, i);
      }
    }
    readable := true;
  }

  // ---- One module, and all modules ----

  function RecordFor(s: ModuleSelection): ModuleRecord {
    ModuleRecord(s.manifest.name, s.manifest.space, s.manifest.imports, s.role, [])
  }

  /** Everything `compile_manifest` accumulates. */
  datatype State = State(gathered: Gathered, modules: seq<ModuleRecord>, schema: Json, hasSchema: bool,
                         labelSets: seq<seq<Rule>>)

  const INITIAL := State(Gathered([], [], [], []), [], Schemas.EMPTY, false, [])

  predicate ModuleReadable(s: ModuleSelection) {
    Readable(s.manifest.policies) && Readable(s.manifest.schemas) && Readable(s.manifest.labels)
  }

  function ModulePolicies(cedar: Cedar, s: ModuleSelection, start: State): Gathered {
    Gather(cedar, RecordFor(s), s.manifest.policies, |s.manifest.policies|, start.gathered.(moduleIds := []))
  }

  ghost predicate ModuleFits(cedar: Cedar, s: ModuleSelection, start: State) {
    var m := s.manifest;
    && FilesFit(cedar, RecordFor(s), m.policies, |m.policies|, start.gathered.(moduleIds := []))
    && SchemasFit(cedar, m.space, m.schemas, |m.schemas|, start.schema)
    && LabelsFit(cedar, m.space, m.labels, |m.labels|)
  }

  function AfterModule(cedar: Cedar, s: ModuleSelection, start: State): State {
    var m := s.manifest;
    var gathered := ModulePolicies(cedar, s, start);
    State(gathered,
          start.modules + [RecordFor(s).(policyIds := gathered.moduleIds)],
          SchemaAfter(cedar, m.schemas, |m.schemas|, start.schema),
          start.hasSchema || m.schemas != [],
          start.labelSets + ParsedAll(cedar.labels, FirstDocuments(cedar, m.labels, |m.labels|)))
  }

  /** The warnings about a module's files. */
  function ModuleWarnings(cedar: Cedar, m: ModuleManifest): seq<Diagnostic> {
    PolicyWarnings(cedar, m.name, m.policies, |m.policies|) + SchemaWarnings(cedar, m.schemas, |m.schemas|)
  }

  method CompileModule(cedar: Cedar, s: ModuleSelection, start: State, text: Mut<string>,
                       diagnostics: Mut<seq<Diagnostic>>)
    returns (readable: bool, end: State)
    requires text.value == Aggregate(start.gathered.texts)
    modifies text, diagnostics
    ensures readable ==> text.value == Aggregate(end.gathered.texts)
    ensures readable <==> ModuleReadable(s)
    ensures readable ==> Appended(old(diagnostics.value), diagnostics.value, !ModuleFits(cedar, s, start),
                                  ModuleWarnings(cedar, s.manifest))
    ensures readable && ModuleFits(cedar, s, start) ==> end == AfterModule(cedar, s, start)
  {
    var m := s.manifest;
    end := start;
    var ok, gathered :=
      CompilePolicies(cedar, RecordFor(s), m.policies, start.gathered.(moduleIds := []), text, diagnostics);
    if !ok { return false, end; }
    ghost var afterPolicies := diagnostics.value;
    var schema := new Mut<Json>(start.schema);
    ok := CompileSchemas(cedar, m.space, m.schemas, schema, diagnostics);
    if !ok { return false, end; }
    ghost var afterSchemas := diagnostics.value;
    var labelSets;
    ok, labelSets := CompileLabels(cedar, m.space, m.labels, start.labelSets, diagnostics);
    if !ok { return false, end; }
    ModuleDiagnostics(cedar, s, start, old(diagnostics.value), afterPolicies, afterSchemas, diagnostics.value);
    end := State(gathered, start.modules + [RecordFor(s).(policyIds := gathered.moduleIds)], schema.value,
                 start.hasSchema || m.schemas != [], labelSets);
    readable := true;
  }

  /** The diagnostics of a module's three kinds of files. */
  lemma {:induction false} ModuleDiagnostics(cedar: Cedar, s: ModuleSelection, start: State, a: seq<Diagnostic>,
                                             b: seq<Diagnostic>, c: seq<Diagnostic>, d: seq<Diagnostic>)
    requires var m, g := s.manifest, start.gathered.(moduleIds := []);
             && Appended(a, b, !FilesFit(cedar, RecordFor(s), m.policies, |m.policies|, g),
                         PolicyWarnings(cedar, m.name, m.policies, |m.policies|))
             && Appended(b, c, !SchemasFit(cedar, m.space, m.schemas, |m.schemas|, start.schema),
                         SchemaWarnings(cedar, m.schemas, |m.schemas|))
             && Appended(c, d, !LabelsFit(cedar, m.space, m.labels, |m.labels|), [])
    ensures Appended(a, d, !ModuleFits(cedar, s, start), ModuleWarnings(cedar, s.manifest))
  {
    var m, g := s.manifest, start.gathered.(moduleIds := []);
    var noPolicies := !FilesFit(cedar, RecordFor(s), m.policies, |m.policies|, g);
    var noSchemas := !SchemasFit(cedar, m.space, m.schemas, |m.schemas|, start.schema);
    var noLabels := !LabelsFit(cedar, m.space, m.labels, |m.labels|);
    AppendedTwice(a, b, c, noPolicies, noSchemas, PolicyWarnings(cedar, m.name, m.policies, |m.policies|),
                  SchemaWarnings(cedar, m.schemas, |m.schemas|));
    AppendedTwice(a, c, d, noPolicies || noSchemas, noLabels, ModuleWarnings(cedar, m), []);
    assert ModuleWarnings(cedar, m) + [] == ModuleWarnings(cedar, m);
  }

  /** The warnings about the files of the first n modules. */
  function AllModuleWarnings(cedar: Cedar, modules: seq<ModuleSelection>, n: nat): seq<Diagnostic>
    requires n <= |modules|
  {
    if n == 0 then [] else AllModuleWarnings(cedar, modules, n - 1) + ModuleWarnings(cedar, modules[n - 1].manifest)
  }

  /** The state after the first n modules. */
  function StateAfter(cedar: Cedar, modules: seq<ModuleSelection>, n: nat): State
    requires n <= |modules|
  {
    if n == 0 then INITIAL else AfterModule(cedar, modules[n - 1], StateAfter(cedar, modules, n - 1))
  }

  ghost predicate ModulesFit(cedar: Cedar, modules: seq<ModuleSelection>, n: nat)
    requires n <= |modules|
  {
    n > 0 ==>
      ModulesFit(cedar, modules, n - 1) && ModuleFits(cedar, modules[n - 1], StateAfter(cedar, modules, n - 1))
  }

  lemma OneMoreChecked(cedar: Cedar, modules: seq<ModuleSelection>, i: nat, start: State,
                       a: seq<Diagnostic>, b: seq<Diagnostic>, c: seq<Diagnostic>)
    requires i < |modules| && (ModulesFit(cedar, modules, i) ==> start == StateAfter(cedar, modules, i))
    requires Appended(a, b, !ModulesFit(cedar, modules, i), AllModuleWarnings(cedar, modules, i))
    requires Appended(b, c, !ModuleFits(cedar, modules[i], start), ModuleWarnings(cedar, modules[i].manifest))
    ensures Appended(a, c, !ModulesFit(cedar, modules, i + 1), AllModuleWarnings(cedar, modules, i + 1))
    ensures ModulesFit(cedar, modules, i + 1) ==> ModuleFits(cedar, modules[i], start)
    ensures ModulesFit(cedar, modules, i + 1) ==>
              AfterModule(cedar, modules[i], start) == StateAfter(cedar, modules, i + 1)
  {
    var unfit := !ModuleFits(cedar, modules[i], start);
    AppendedTwice(a, b, c, !ModulesFit(cedar, modules, i), unfit, AllModuleWarnings(cedar, modules, i),
                  ModuleWarnings(cedar, modules[i].manifest));
  }

  predicate FirstModulesReadable(modules: seq<ModuleSelection>, n: nat)
    requires n <= |modules|
  {
    n > 0 ==> FirstModulesReadable(modules, n - 1) && ModuleReadable(modules[n - 1])
  }

  predicate AllReadable(modules: seq<ModuleSelection>) { FirstModulesReadable(modules, |modules|) }

  lemma {:induction false} UnreadableModule(modules: seq<ModuleSelection>, n: nat, i: nat)
    requires i < n <= |modules| && !ModuleReadable(modules[i])
    ensures !FirstModulesReadable(modules, n)
  {
    if i < n - 1 { UnreadableModule(modules, n - 1, i); }
  }

  method CompileModules(cedar: Cedar, modules: seq<ModuleSelection>, text: Mut<string>,
                        diagnostics: Mut<seq<Diagnostic>>)
    returns (readable: bool, end: State)
    requires text.value == ""
    modifies text, diagnostics
    ensures readable ==> text.value == Aggregate(end.gathered.texts)
    ensures readable <==> AllReadable(modules)
    ensures readable ==> Appended(old(diagnostics.value), diagnostics.value, !ModulesFit(cedar, modules, |modules|),
                                  AllModuleWarnings(cedar, modules, |modules|))
    ensures readable && ModulesFit(cedar, modules, |modules|) ==> end == StateAfter(cedar, modules, |modules|)
  {
    end := INITIAL;
    for i := 0 to |modules|
      invariant FirstModulesReadable(modules, i)
      invariant text.value == Aggregate(end.gathered.texts)
      invariant Appended(old(diagnostics.value), diagnostics.value, !ModulesFit(cedar, modules, i),
                         AllModuleWarnings(cedar, modules, i))
      invariant ModulesFit(cedar, modules, i) ==> end == StateAfter(cedar, modules, i)
    {
      var ok;
      ghost var before, start := diagnostics.value, end;
      ok, end := CompileModule(cedar, modules[i], end, text, diagnostics);
      if !ok {
        UnreadableModule(modules, |modules|, i);
        return false, end;
      }
      OneMoreChecked(cedar, modules, i, start, old(diagnostics.value), before, diagnostics.value);
    }
    readable := true;
  }

  // ---- The checks on the whole ----

  datatype BundleParts = BundleParts(
    name: string, modules: seq<ModuleRecord>, policies: string, schema: Option<Json>,
    labels: seq<Rule>, policyIds: seq<string>, diagnostics: seq<Diagnostic>)

  predicate StrictOk(cedar: Cedar, policies: seq<Policy>, schema: Json) {
    forall f :: f in cedar.strict(policies, schema) ==> f.OtherWarning?
  }

  function StrictWarnings(cedar: Cedar, policies: seq<Policy>, schema: Json): seq<Diagnostic> {
    Repeated(WarningOf(PolicySchemaWarning), |cedar.strict(policies, schema)|)
  }

  /** Cedar's strict validation; an invalid action application stays an error. */
  method ValidatePolicySet(cedar: Cedar, policies: seq<Policy>, schema: Json, diagnostics: Mut<seq<Diagnostic>>)
    modifies diagnostics
    ensures Appended(old(diagnostics.value), diagnostics.value, !StrictOk(cedar, policies, schema),
                     StrictWarnings(cedar, policies, schema))
  {
    var findings := cedar.strict(policies, schema);
    for i := 0 to |findings|
      invariant Appended(old(diagnostics.value), diagnostics.value,
                         !forall k :: 0 <= k < i ==> findings[k].OtherWarning?,
                         Repeated(WarningOf(PolicySchemaWarning), i))
    {
      ghost var before := diagnostics.value;
      ghost var bad := !forall k :: 0 <= k < i ==> findings[k].OtherWarning?;
      if findings[i].OtherWarning? {
        WarnIf(true, PolicySchemaWarning, diagnostics);
        AppendedTwice(old(diagnostics.value), before, diagnostics.value, bad, false,
                      Repeated(WarningOf(PolicySchemaWarning), i), [WarningOf(PolicySchemaWarning)]);
        assert Repeated(WarningOf(PolicySchemaWarning), i) + [WarningOf(PolicySchemaWarning)]
            == Repeated(WarningOf(PolicySchemaWarning), i + 1);
      } else {
        ReportIf(true, PolicySchemaValidation, diagnostics);
        ReportedIsAppended(before, diagnostics.value, true);
      }
    }
  }

  /** The schema is valid, and policies and labels agree with it. */
  predicate SchemaAgrees(cedar: Cedar, schema: Json, policies: seq<Policy>, labels: seq<Rule>) {
    && cedar.schemaOk(schema)
    && StrictOk(cedar, policies, schema)
    && LabelSchema.AllFit(schema, cedar.entityTypes(schema), labels)
  }

  method CheckAgainstSchema(cedar: Cedar, schema: Json, policies: seq<Policy>, labels: seq<Rule>,
                            diagnostics: Mut<seq<Diagnostic>>)
    modifies diagnostics
    ensures Appended(old(diagnostics.value), diagnostics.value, !SchemaAgrees(cedar, schema, policies, labels),
                     StrictWarnings(cedar, policies, schema))
  {
    ghost var before := diagnostics.value;
    if !cedar.schemaOk(schema) {
      ReportIf(true, SchemaInvalid, diagnostics);
      ReportedIsAppended(before, diagnostics.value, true);
    } else {
      ValidatePolicySet(cedar, policies, schema, diagnostics);
      ghost var middle := diagnostics.value;
      LabelSchema.ValidateSchema(schema, cedar.entityTypes(schema), labels, diagnostics);
      ghost var misfit := !LabelSchema.AllFit(schema, cedar.entityTypes(schema), labels);
      ReportedIsAppended(middle, diagnostics.value, misfit);
      AppendedTwice(before, middle, diagnostics.value, !StrictOk(cedar, policies, schema), misfit,
                    StrictWarnings(cedar, policies, schema), []);
      assert StrictWarnings(cedar, policies, schema) + [] == StrictWarnings(cedar, policies, schema);
    }
  }
}
