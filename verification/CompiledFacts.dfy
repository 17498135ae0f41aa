/** What an accepted compilation establishes about its parts. */
module CompiledFacts {
  import opened Text
  import opened Diagnostics
  import opened Json
  import opened Manifests
  import opened Policies
  import opened Sorting
  import opened Sources
  import opened Compiler
  import opened Compilation
  import opened ManifestCheck
  import Labels
  import Names
  import Schemas

  /** The content of `whole`, that is its text outside comments, is that of `a` and then that of `b`. */
  ghost predicate Joins(whole: string, a: string, b: string) {
    Content(whole) == Content(a) + Content(b)
  }

  /** Policies are parsed from the content of a text, one after the other. */
  ghost predicate ParsesPiecewise(cedar: Cedar) {
    && cedar.parsePolicies("") == Some(Parsed(0, []))
    && (forall whole: string, a: string, b: string {:trigger Joins(whole, a, b)} ::
          Joins(whole, a, b) && cedar.parsePolicies(a).Some? && cedar.parsePolicies(b).Some? ==>
            cedar.parsePolicies(whole) ==
            Some(Parsed(cedar.parsePolicies(a).value.templates + cedar.parsePolicies(b).value.templates,
                        cedar.parsePolicies(a).value.policies + cedar.parsePolicies(b).value.policies)))
  }

  /** A text that ends inside a string literal does not parse. */
  ghost predicate RejectsOpenStrings(cedar: Cedar) {
    forall text: string {:trigger EndsOutsideString(text)} ::
      text != "" && text[|text| - 1] == '\n' && cedar.parsePolicies(text).Some? ==> EndsOutsideString(text)
  }

  ghost predicate LawfulParser(cedar: Cedar) { ParsesPiecewise(cedar) && RejectsOpenStrings(cedar) }

  // ---- The text ----

  ghost predicate AllStaticPolicies(policies: seq<Policy>) {
    forall i :: 0 <= i < |policies| ==> policies[i].isStatic
  }

  ghost predicate AllOutside(texts: seq<PolicyText>) {
    forall i :: 0 <= i < |texts| ==> EndsOutsideString(texts[i].text)
  }

  /** The files' aggregate parses to the policies, and no file ends inside a string literal. */
  ghost predicate ParsesTo(cedar: Cedar, texts: seq<PolicyText>, policies: seq<Policy>) {
    && AllOutside(texts)
    && cedar.parsePolicies(Aggregate(texts)) == Some(Parsed(0, policies))
    && AllStaticPolicies(policies)
  }

  lemma {:induction false} ContentConcat(a: seq<PolicyText>, b: seq<PolicyText>)
    ensures AllContent(a + b) == AllContent(a) + AllContent(b)
  {
    if b == [] {
      assert a + b == a;
    } else {
      var last := |b| - 1;
      assert (a + b)[..|a + b| - 1] == a + b[..last];
      ContentConcat(a, b[..last]);
      SeqAssoc(AllContent(a), AllContent(b[..last]), Content(b[last].text));
    }
  }

  lemma ParsedConcat(cedar: Cedar, whole: string, a: string, b: string, p: seq<Policy>, q: seq<Policy>)
    requires ParsesPiecewise(cedar) && Joins(whole, a, b)
    requires cedar.parsePolicies(a) == Some(Parsed(0, p)) && cedar.parsePolicies(b) == Some(Parsed(0, q))
    ensures cedar.parsePolicies(whole) == Some(Parsed(0, p + q))
  {
  }

  lemma OutsideConcat(a: seq<PolicyText>, b: seq<PolicyText>)
    requires AllOutside(a) && AllOutside(b)
    ensures AllOutside(a + b)
  {
    var all := a + b;
    forall i | 0 <= i < |all| ensures EndsOutsideString(all[i].text) {
      if i < |a| { assert all[i] == a[i]; } else { assert all[i] == b[i - |a|]; }
    }
  }

  lemma {:induction false} AggregatesJoin(a: seq<PolicyText>, b: seq<PolicyText>)
    requires AllOutside(a) && AllOutside(b)
    ensures Joins(Aggregate(a + b), Aggregate(a), Aggregate(b))
  {
    OutsideConcat(a, b);
    ContentConcat(a, b);
    assert OnlyLastMayBeOpen(a) && OnlyLastMayBeOpen(b) && OnlyLastMayBeOpen(a + b);
    ConcatenationKeepsContent(a);
    ConcatenationKeepsContent(b);
    ConcatenationKeepsContent(a + b);
  }

  lemma ParsesConcat(cedar: Cedar, a: seq<PolicyText>, b: seq<PolicyText>, p: seq<Policy>, q: seq<Policy>)
    requires ParsesPiecewise(cedar) && ParsesTo(cedar, a, p) && ParsesTo(cedar, b, q)
    ensures ParsesTo(cedar, a + b, p + q)
  {
    OutsideConcat(a, b);
    AggregatesJoin(a, b);
    ParsedConcat(cedar, Aggregate(a + b), Aggregate(a), Aggregate(b), p, q);
  }

  /** Texts that parse one by one parse together. */
  lemma {:induction false} TextsParse(cedar: Cedar, texts: seq<PolicyText>, lists: seq<seq<Policy>>, n: nat)
    requires ParsesPiecewise(cedar) && n <= |texts| == |lists|
    requires forall i :: 0 <= i < n ==> ParsesTo(cedar, [texts[i]], lists[i])
    ensures ParsesTo(cedar, texts[..n], Flatten(lists[..n]))
  {
    if n > 0 {
      TextsParse(cedar, texts, lists, n - 1);
      NextParses(cedar, texts, lists, n);
    }
  }

  lemma NextParses(cedar: Cedar, texts: seq<PolicyText>, lists: seq<seq<Policy>>, n: nat)
    requires ParsesPiecewise(cedar) && 0 < n <= |texts| == |lists|
    requires ParsesTo(cedar, texts[..n - 1], Flatten(lists[..n - 1])) && ParsesTo(cedar, [texts[n - 1]], lists[n - 1])
    ensures ParsesTo(cedar, texts[..n], Flatten(lists[..n]))
  {
    FlattenPrefix(lists, n - 1);
    assert texts[..n] == texts[..n - 1] + [texts[n - 1]];
    ParsesConcat(cedar, texts[..n - 1], [texts[n - 1]], Flatten(lists[..n - 1]), lists[n - 1]);
  }

  /** Lists of texts that parse one by one parse together. */
  lemma {:induction false} ListsParse(cedar: Cedar, texts: seq<seq<PolicyText>>, lists: seq<seq<Policy>>, n: nat)
    requires ParsesPiecewise(cedar) && n <= |texts| == |lists|
    requires forall i :: 0 <= i < n ==> ParsesTo(cedar, texts[i], lists[i])
    ensures ParsesTo(cedar, Flatten(texts[..n]), Flatten(lists[..n]))
  {
    if n > 0 {
      ListsParse(cedar, texts, lists, n - 1);
      FlattenPrefix(texts, n - 1);
      FlattenPrefix(lists, n - 1);
      ParsesConcat(cedar, Flatten(texts[..n - 1]), texts[n - 1], Flatten(lists[..n - 1]), lists[n - 1]);
    }
  }

  lemma {:induction false} FileParses(cedar: Cedar, m: ModuleRecord, f: SourceFile, text: PolicyText)
    requires LawfulParser(cedar) && PolicyFileOk(cedar, m, f) && text.text == Normalized(f.contents.value)
    ensures ParsesTo(cedar, [text], FilePolicies(cedar, f))
  {
    NormalizedShape(f.contents.value);
    assert EndsOutsideString(text.text);
    EntryJoins(text);
    ParsedConcat(cedar, Aggregate([text]), text.text, "", FilePolicies(cedar, f), []);
    assert FilePolicies(cedar, f) + [] == FilePolicies(cedar, f);
  }

  /** A header adds nothing to its file. */
  lemma {:induction false} EntryJoins(text: PolicyText)
    requires EndsOutsideString(text.text)
    ensures Joins(Aggregate([text]), text.text, "")
  {
    assert [text][..0] == [];
    ConcatenationKeepsContent([text]);
    assert Content("") == [];
  }

  lemma ModuleParses(cedar: Cedar, s: ModuleSelection)
    requires LawfulParser(cedar) && ModuleFilesOk(cedar, s)
    ensures ParsesTo(cedar, TextsOf(s), PoliciesOf(cedar, s))
  {
    var texts, lists := TextsOf(s), ParsedFiles(cedar, s.manifest.policies);
    forall i | 0 <= i < |texts| ensures ParsesTo(cedar, [texts[i]], lists[i]) {
      FileParses(cedar, RecordFor(s), s.manifest.policies[i], texts[i]);
    }
    TextsParse(cedar, texts, lists, |texts|);
    assert texts[..|texts|] == texts && lists[..|texts|] == lists;
  }

  lemma AllTextsParse(cedar: Cedar, modules: seq<ModuleSelection>)
    requires LawfulParser(cedar) && forall i :: 0 <= i < |modules| ==> ModuleFilesOk(cedar, modules[i])
    ensures ParsesTo(cedar, AllTexts(modules), AllPolicies(cedar, modules))
  {
    var texts, lists := Mapped(modules, TextsOf), PolicyLists(cedar, modules);
    forall i | 0 <= i < |modules| ensures ParsesTo(cedar, texts[i], lists[i]) { ModuleParses(cedar, modules[i]); }
    ListsParse(cedar, texts, lists, |modules|);
    assert texts[..|modules|] == texts && lists[..|modules|] == lists;
  }

  /** The aggregate text of an accepted compilation parses to exactly the policies of all files, in
      order, each as its own file parses. */
  lemma {:induction false} AggregateParses(cedar: Cedar, bundle: BundleManifest)
    requires LawfulParser(cedar) && CompileOk(cedar, bundle)
    ensures cedar.parsePolicies(Parts(cedar, bundle).policies) == Some(Parsed(0, AllPolicies(cedar, bundle.modules)))
    ensures AllStaticPolicies(AllPolicies(cedar, bundle.modules))
  {
    AllTextsParse(cedar, bundle.modules);
  }

  // ---- The ids ----

  lemma IdOfSome(policies: seq<Policy>, id: string)
    requires forall k :: 0 <= k < |policies| ==> policies[k].id.Some?
    ensures id in Ids(policies) <==> exists p :: p in policies && p.id == Some(id)
  {
    var ids := Ids(policies);
    if id in ids {
      var k :| 0 <= k < |ids| && ids[k] == id;
      assert policies[k] in policies;
    }
    if p :| p in policies && p.id == Some(id) {
      var k :| 0 <= k < |policies| && policies[k] == p;
      assert ids[k] == id;
    }
  }

  /** The declared ids are the policies' ids, in increasing order, each of one policy. */
  lemma {:induction false} CompiledIds(cedar: Cedar, bundle: BundleManifest)
    requires CompileOk(cedar, bundle)
    ensures StrictlySorted(Parts(cedar, bundle).policyIds)
    ensures forall id :: id in Parts(cedar, bundle).policyIds <==>
              exists p :: p in AllPolicies(cedar, bundle.modules) && p.id == Some(id)
    ensures |Parts(cedar, bundle).policyIds| == |AllPolicies(cedar, bundle.modules)|
  {
    var policies := AllPolicies(cedar, bundle.modules);
    var ids := Ids(policies);
    InsertAllMembers([], ids);
    forall k | 0 <= k < |policies| ensures policies[k].id.Some? {
      var i := PolicyPassed(cedar, bundle.modules, policies[k]);
    }
    forall id ensures id in ids <==> exists p :: p in policies && p.id == Some(id) { IdOfSome(policies, id); }
    SortedIsDistinct(InsertAll([], ids));
    SameMembersSameLength(InsertAll([], ids), ids);
  }

  // ---- Assignment of policies to modules ----

  /** Module i lists the policy's id and the policy satisfies that module's rules. */
  ghost predicate OwnedAt(p: Policy, modules: seq<ModuleRecord>, i: int) {
    0 <= i < |modules| && IdOf(p) in modules[i].policyIds && PolicyOk(p, modules[i])
  }

  ghost predicate Owned(p: Policy, modules: seq<ModuleRecord>) {
    exists i :: OwnedAt(p, modules, i)
  }

  ghost predicate AllOwned(policies: seq<Policy>, modules: seq<ModuleRecord>) {
    forall j :: 0 <= j < |policies| ==> Owned(policies[j], modules)
  }

  /** Ownership looks at a module's role, namespace and imports only. */
  lemma OwnershipIgnoresIds(p: Policy, m: ModuleRecord, ids: seq<string>)
    ensures PolicyOk(p, m.(policyIds := ids)) <==> PolicyOk(p, m)
  {
    var n := m.(policyIds := ids);
    assert forall ty :: Reachable(n, ty) <==> Reachable(m, ty);
  }

  /** A policy of a module in order has an id and keeps to the module's rules. */
  lemma {:induction false} PolicyOfModule(cedar: Cedar, s: ModuleSelection, p: Policy)
    requires ModuleFilesOk(cedar, s) && p in PoliciesOf(cedar, s)
    ensures p.id.Some? && PolicyOk(p, RecordFor(s))
  {
    var files := s.manifest.policies;
    FlattenMembers(ParsedFiles(cedar, files), p);
    var k :| 0 <= k < |files| && p in ParsedFiles(cedar, files)[k];
    assert PolicyFileOk(cedar, RecordFor(s), files[k]);
  }

  /** Every policy comes from a module and satisfies its rules. */
  lemma {:induction false} PolicyPassed(cedar: Cedar, modules: seq<ModuleSelection>, p: Policy) returns (i: nat)
    requires forall k :: 0 <= k < |modules| ==> ModuleFilesOk(cedar, modules[k])
    requires p in AllPolicies(cedar, modules)
    ensures i < |modules| && p in PoliciesOf(cedar, modules[i]) && p.id.Some? && PolicyOk(p, RecordFor(modules[i]))
  {
    var lists := PolicyLists(cedar, modules);
    FlattenMembers(lists, p);
    i :| 0 <= i < |lists| && p in lists[i];
    PolicyOfModule(cedar, modules[i], p);
  }

  /** Every policy is listed by a module whose rules it satisfies. */
  lemma {:induction false} CompiledPolicies(cedar: Cedar, bundle: BundleManifest)
    requires CompileOk(cedar, bundle)
    ensures AllOwned(AllPolicies(cedar, bundle.modules), Parts(cedar, bundle).modules)
  {
    var modules, policies := bundle.modules, AllPolicies(cedar, bundle.modules);
    forall j | 0 <= j < |policies| ensures Owned(policies[j], ModuleRecords(cedar, modules)) {
      var p := policies[j];
      var i := PolicyPassed(cedar, modules, p);
      var own := PoliciesOf(cedar, modules[i]);
      var k :| 0 <= k < |own| && own[k] == p;
      assert Ids(own)[k] == IdOf(p);
      OwnershipIgnoresIds(p, RecordFor(modules[i]), Ids(own));
      assert OwnedAt(p, ModuleRecords(cedar, modules), i);
    }
  }

  lemma {:induction false} AssignedLists(records: seq<ModuleRecord>, lists: seq<seq<Policy>>, n: nat)
    requires n <= |records| == |lists|
    requires forall i :: 0 <= i < n ==> records[i].policyIds == Ids(lists[i])
    ensures Assigned(records, n) == Ids(Flatten(lists[..n]))
  {
    if n > 0 {
      AssignedLists(records, lists, n - 1);
      FlattenPrefix(lists, n - 1);
      IdsConcat(Flatten(lists[..n - 1]), lists[n - 1]);
    }
  }

  lemma ListedIds(cedar: Cedar, modules: seq<ModuleSelection>, i: nat)
    requires i < |modules|
    ensures ModuleRecords(cedar, modules)[i].policyIds == Ids(PolicyLists(cedar, modules)[i])
  {
  }

  /** The records list the ids of all policies, in order. */
  lemma {:induction false} RecordsListIds(cedar: Cedar, modules: seq<ModuleSelection>)
    ensures Assigned(ModuleRecords(cedar, modules), |modules|) == Ids(AllPolicies(cedar, modules))
  {
    var records, lists := ModuleRecords(cedar, modules), PolicyLists(cedar, modules);
    forall i | 0 <= i < |modules| ensures records[i].policyIds == Ids(lists[i]) { ListedIds(cedar, modules, i); }
    AssignedLists(records, lists, |modules|);
    assert lists[..|modules|] == lists;
  }

  // ---- The schema ----

  lemma RecordColumns(cedar: Cedar, modules: seq<ModuleSelection>)
    ensures Mapped(ModuleRecords(cedar, modules), RecordName) == Mapped(modules, NameOf)
    ensures Spaces(ModuleRecords(cedar, modules)) == Mapped(modules, SpaceOf)
  {
  }

  /** Merging adds no namespace of its own. */
  lemma {:induction false} MergedOwned(fragments: seq<Json>, roots: seq<string>)
    requires forall i :: 0 <= i < |fragments| ==> Schemas.SpacesOwnedBySome(fragments[i], roots)
    ensures Schemas.MergeAll(fragments).Object? && Schemas.SpacesOwnedBySome(Schemas.MergeAll(fragments), roots)
  {
    if fragments != [] {
      var last := |fragments| - 1;
      assert forall i :: 0 <= i < last ==> fragments[..last][i] == fragments[i];
      MergedOwned(fragments[..last], roots);
      assert Schemas.SpacesOwnedBySome(fragments[last], roots);
    }
  }

  /** The namespaces of a schema file are owned by the module it belongs to. */
  lemma {:induction false} FragmentOwned(cedar: Cedar, modules: seq<ModuleSelection>, k: nat)
    requires forall n :: 0 <= n < |modules| ==> ModuleFilesOk(cedar, modules[n])
    requires k < |SchemaFiles(modules)|
    ensures Schemas.SpacesOwnedBySome(AllFragments(cedar, modules)[k], Mapped(modules, SpaceOf))
  {
    var f := SchemaFiles(modules)[k];
    FlattenMembers(Mapped(modules, SchemaFilesOf), f);
    var i :| 0 <= i < |modules| && f in modules[i].manifest.schemas;
    assert ModuleFilesOk(cedar, modules[i]);
    OwnedByOne(AllFragments(cedar, modules)[k], Mapped(modules, SpaceOf), i);
  }

  lemma OwnedByOne(schema: Json, roots: seq<string>, i: nat)
    requires i < |roots| && Schemas.SpacesOwned(schema, roots[i])
    ensures Schemas.SpacesOwnedBySome(schema, roots)
  {
  }

  /** Every namespace of the compiled schema is owned by a module. */
  lemma {:induction false} CompiledSchema(cedar: Cedar, bundle: BundleManifest)
    requires CompileOk(cedar, bundle)
    ensures var schema := Parts(cedar, bundle).schema;
            schema.Some? ==> Schemas.SpacesOwnedBySome(schema.value, Spaces(Parts(cedar, bundle).modules))
  {
    var fragments, roots := AllFragments(cedar, bundle.modules), Mapped(bundle.modules, SpaceOf);
    forall k | 0 <= k < |fragments| ensures Schemas.SpacesOwnedBySome(fragments[k], roots) {
      FragmentOwned(cedar, bundle.modules, k);
    }
    MergedOwned(fragments, roots);
    RecordColumns(cedar, bundle.modules);
  }

  /** The schema of an accepted compilation is the disjoint union of all its files' fragments. */
  lemma {:induction false} CompiledSchemaIsUnion(cedar: Cedar, bundle: BundleManifest, p: Schemas.Place)
    requires CompileOk(cedar, bundle)
    requires Schemas.AllWellFormed(AllFragments(cedar, bundle.modules))
    ensures !Schemas.SomeClash(AllFragments(cedar, bundle.modules))
    ensures var schema := Parts(cedar, bundle).schema;
            schema.Some? ==>
              && Schemas.WellFormed(schema.value)
              && forall v :: Schemas.Entry(schema.value, p) == Some(v)
                             <==> Schemas.HoldsEntry(AllFragments(cedar, bundle.modules), p, v)
  {
    Schemas.FoldConflictIff(AllFragments(cedar, bundle.modules));
    Schemas.FoldIsUnion(AllFragments(cedar, bundle.modules), p);
  }

  // ---- The labels ----

  /** The module a label document belongs to. */
  lemma {:induction false} LabelFileOwner(cedar: Cedar, modules: seq<ModuleSelection>, k: nat) returns (i: nat)
    requires forall n :: 0 <= n < |modules| ==> ModuleFilesOk(cedar, modules[n])
    requires k < |LabelFiles(modules)|
    ensures i < |modules| && LabelFileFits(cedar, modules[i].manifest.space, LabelFiles(modules)[k])
  {
    var f := LabelFiles(modules)[k];
    FlattenMembers(Mapped(modules, LabelFilesOf), f);
    i :| 0 <= i < |modules| && f in modules[i].manifest.labels;
    assert ModuleFilesOk(cedar, modules[i]);
  }

  /** Every label of an accepted compilation is owned by a module. */
  lemma {:induction false} CompiledLabels(cedar: Cedar, bundle: BundleManifest)
    requires CompileOk(cedar, bundle)
    ensures var parts := Parts(cedar, bundle);
            forall i :: 0 <= i < |parts.labels| ==>
              Schemas.OwnedBySome(parts.labels[i].target.resourceType, Spaces(parts.modules))
  {
    var modules, docs := bundle.modules, AllDocuments(cedar, bundle.modules);
    var labels := Labels.RulesOf(cedar.labels, Flatten(docs));
    RecordColumns(cedar, modules);
    forall r | 0 <= r < |labels|
      ensures Schemas.OwnedBySome(labels[r].target.resourceType, Mapped(modules, SpaceOf))
    {
      FlattenMembers(docs, Flatten(docs)[r]);
      var k :| 0 <= k < |docs| && Flatten(docs)[r] in docs[k];
      var i := LabelFileOwner(cedar, modules, k);
      var n :| 0 <= n < |docs[k]| && docs[k][n] == Flatten(docs)[r];
      assert Names.Owns(modules[i].manifest.space, Labels.RulesOf(cedar.labels, docs[k])[n].target.resourceType);
      assert Names.Owns(Mapped(modules, SpaceOf)[i], labels[r].target.resourceType);
    }
  }

  // ---- The warnings ----

  /** The policy's id does not begin with the name and a dot. */
  predicate Unprefixed(p: Policy, name: string) {
    match p.id case None => true case Some(id) => !(name + "." <= id)
  }

  predicate SomeUnprefixed(policies: seq<Policy>, name: string) {
    exists p :: p in policies && Unprefixed(p, name)
  }

  /** Cedar warned about the schema file. */
  predicate FileWarns(cedar: Cedar, f: SourceFile) {
    cedar.parseSchema(Source(f)).Some? && cedar.parseSchema(Source(f)).value.warnings > 0
  }

  predicate SomeFileWarns(cedar: Cedar, files: seq<SourceFile>) {
    exists f :: f in files && FileWarns(cedar, f)
  }

  lemma {:induction false} PrefixWarned(policies: seq<Policy>, name: string, n: nat, d: Diagnostic)
    requires n <= |policies|
    ensures d in PrefixWarnings(policies, name, n) <==>
            d == WarningOf(PolicyIdPrefix) && SomeUnprefixed(policies[..n], name)
  {
    if n > 0 {
      PrefixWarned(policies, name, n - 1, d);
      assert policies[..n] == policies[..n - 1] + [policies[n - 1]];
      assert SomeUnprefixed(policies[..n], name)
        <==> SomeUnprefixed(policies[..n - 1], name) || Unprefixed(policies[n - 1], name);
    }
  }

  lemma {:induction false} PoliciesWarned(cedar: Cedar, name: string, files: seq<SourceFile>, n: nat, d: Diagnostic)
    requires n <= |files|
    ensures d in PolicyWarnings(cedar, name, files, n) <==>
            d == WarningOf(PolicyIdPrefix) && SomeUnprefixed(Added(cedar, files, n), name)
  {
    if n > 0 {
      PoliciesWarned(cedar, name, files, n - 1, d);
      var before, added := Added(cedar, files, n - 1), FilePolicies(cedar, files[n - 1]);
      PrefixWarned(added, name, |added|, d);
      assert added[..|added|] == added;
      MoreUnprefixed(before, added, name);
    }
  }

  lemma MoreUnprefixed(a: seq<Policy>, b: seq<Policy>, name: string)
    ensures SomeUnprefixed(a + b, name) <==> SomeUnprefixed(a, name) || SomeUnprefixed(b, name)
  {
    if p :| p in a && Unprefixed(p, name) { assert p in a + b; }
    if p :| p in b && Unprefixed(p, name) { assert p in a + b; }
  }

  lemma {:induction false} SchemasWarned(cedar: Cedar, files: seq<SourceFile>, n: nat, d: Diagnostic)
    requires n <= |files|
    ensures d in SchemaWarnings(cedar, files, n) <==>
            d == WarningOf(SchemaWarning) && SomeFileWarns(cedar, files[..n])
  {
    if n > 0 {
      SchemasWarned(cedar, files, n - 1, d);
      assert files[..n] == files[..n - 1] + [files[n - 1]];
      OneFileWarns(cedar, files[n - 1], d);
    }
  }

  lemma OneFileWarns(cedar: Cedar, f: SourceFile, d: Diagnostic)
    ensures d in FragmentWarnings(cedar, f) <==> d == WarningOf(SchemaWarning) && FileWarns(cedar, f)
  {
    if FileWarns(cedar, f) { assert FragmentWarnings(cedar, f)[0] == WarningOf(SchemaWarning); }
  }

  /** Module i has a policy without the prefix, or a schema file Cedar warned about. */
  predicate ModuleWarned(cedar: Cedar, s: ModuleSelection, d: Diagnostic) {
    || (d == WarningOf(PolicyIdPrefix) && SomeUnprefixed(PoliciesOf(cedar, s), s.manifest.name))
    || (d == WarningOf(SchemaWarning) && SomeFileWarns(cedar, s.manifest.schemas))
  }

  lemma ModuleWarnedIff(cedar: Cedar, s: ModuleSelection, d: Diagnostic)
    ensures d in ModuleWarnings(cedar, s.manifest) <==> ModuleWarned(cedar, s, d)
  {
    var m := s.manifest;
    PoliciesWarned(cedar, m.name, m.policies, |m.policies|, d);
    AddedInAll(cedar, s);
    SchemasWarned(cedar, m.schemas, |m.schemas|, d);
    assert m.schemas[..|m.schemas|] == m.schemas;
  }

  /** The warnings module by module. */
  function WarningLists(cedar: Cedar, modules: seq<ModuleSelection>): (r: seq<seq<Diagnostic>>)
    ensures |r| == |modules| && forall i :: 0 <= i < |r| ==> r[i] == ModuleWarnings(cedar, modules[i].manifest)
  {
    seq(|modules|, i requires 0 <= i < |modules| => ModuleWarnings(cedar, modules[i].manifest))
  }

  lemma {:induction false} WarningsListed(cedar: Cedar, modules: seq<ModuleSelection>, n: nat)
    requires n <= |modules|
    ensures AllModuleWarnings(cedar, modules, n) == Flatten(WarningLists(cedar, modules)[..n])
  {
    if n > 0 {
      WarningsListed(cedar, modules, n - 1);
      FlattenPrefix(WarningLists(cedar, modules), n - 1);
    }
  }

  lemma {:induction false} ModulesWarned(cedar: Cedar, modules: seq<ModuleSelection>, d: Diagnostic)
    ensures d in AllModuleWarnings(cedar, modules, |modules|)
            <==> exists i :: 0 <= i < |modules| && ModuleWarned(cedar, modules[i], d)
  {
    var lists := WarningLists(cedar, modules);
    WarningsListed(cedar, modules, |modules|);
    assert lists[..|modules|] == lists;
    FlattenMembers(lists, d);
    if i :| 0 <= i < |modules| && d in lists[i] { ModuleWarnedIff(cedar, modules[i], d); }
    if i :| 0 <= i < |modules| && ModuleWarned(cedar, modules[i], d) {
      ModuleWarnedIff(cedar, modules[i], d);
      assert d in lists[i];
    }
  }

  /** What a compiled bundle warns of: an id without its module's prefix, a warning of Cedar's about a
      schema file, a finding about the policies, or that there was no schema; and nothing else. */
  lemma {:induction false} WarnedIff(cedar: Cedar, bundle: BundleManifest, d: Diagnostic)
    ensures d in Warnings(cedar, bundle) <==>
            || (exists i :: 0 <= i < |bundle.modules| && ModuleWarned(cedar, bundle.modules[i], d))
            || (d == WarningOf(SchemaSkipped) && SchemaFiles(bundle.modules) == [])
            || (&& d == WarningOf(PolicySchemaWarning) && SchemaFiles(bundle.modules) != []
                && cedar.strict(AllPolicies(cedar, bundle.modules),
                                Schemas.MergeAll(AllFragments(cedar, bundle.modules))) != [])
  {
    ModulesWarned(cedar, bundle.modules, d);
    var policies, schema := AllPolicies(cedar, bundle.modules), Schemas.MergeAll(AllFragments(cedar, bundle.modules));
    var strict := StrictWarnings(cedar, policies, schema);
    assert cedar.strict(policies, schema) != [] ==> strict[0] == WarningOf(PolicySchemaWarning);
  }
}
