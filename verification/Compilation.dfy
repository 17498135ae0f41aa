/** What a bundle compiles to, listed from the files of its modules, and `compile_manifest`
    proved to compute it. */
module Compilation {
  import opened Text
  import opened Diagnostics
  import opened Json
  import opened Labels
  import opened Manifests
  import opened Policies
  import opened Sorting
  import opened Sources
  import opened Compiler
  import Schemas

  // ---- The files of all modules, and what is in them ----

  /** The texts of a module's policy files. */
  function TextsOf(s: ModuleSelection): (r: seq<PolicyText>)
    ensures |r| == |s.manifest.policies|
    ensures forall i :: 0 <= i < |r| ==>
              var f := s.manifest.policies[i]; r[i] == PolicyText(s.manifest.name, f.path, Normalized(Source(f)))
  {
    var m := s.manifest;
    seq(|m.policies|, i requires 0 <= i < |m.policies| =>
      PolicyText(m.name, m.policies[i].path, Normalized(Source(m.policies[i]))))
  }

  function AllTexts(modules: seq<ModuleSelection>): seq<PolicyText> { Flatten(Mapped(modules, TextsOf)) }

  /** Each file's own policies. */
  function ParsedFiles(cedar: Cedar, files: seq<SourceFile>): (r: seq<seq<Policy>>)
    ensures |r| == |files|
    ensures forall i :: 0 <= i < |r| ==>
              var parsed := cedar.parsePolicies(Normalized(Source(files[i])));
              r[i] == if parsed.Some? then parsed.value.policies else []
  {
    seq(|files|, i requires 0 <= i < |files| => FilePolicies(cedar, files[i]))
  }

  function PoliciesOf(cedar: Cedar, s: ModuleSelection): seq<Policy> {
    Flatten(ParsedFiles(cedar, s.manifest.policies))
  }

  /** The policies module by module. */
  function PolicyLists(cedar: Cedar, modules: seq<ModuleSelection>): (r: seq<seq<Policy>>)
    ensures |r| == |modules| && forall i :: 0 <= i < |r| ==> r[i] == PoliciesOf(cedar, modules[i])
  {
    seq(|modules|, i requires 0 <= i < |modules| => PoliciesOf(cedar, modules[i]))
  }

  /** The policies of all files of all modules. */
  function AllPolicies(cedar: Cedar, modules: seq<ModuleSelection>): seq<Policy> {
    Flatten(PolicyLists(cedar, modules))
  }

  function RecordWith(s: ModuleSelection, policies: seq<Policy>): ModuleRecord {
    RecordFor(s).(policyIds := Ids(policies))
  }

  /** The record of each module: what was selected, and the ids of the policies in its files. */
  function ModuleRecords(cedar: Cedar, modules: seq<ModuleSelection>): (r: seq<ModuleRecord>)
    ensures |r| == |modules|
    ensures forall i :: 0 <= i < |r| ==>
              var s := modules[i];
              r[i] == ModuleRecord(s.manifest.name, s.manifest.space, s.manifest.imports, s.role,
                                   Ids(PoliciesOf(cedar, s)))
  {
    seq(|modules|, i requires 0 <= i < |modules| =>
      RecordWith(modules[i], PoliciesOf(cedar, modules[i])))
  }

  function SchemaFilesOf(s: ModuleSelection): seq<SourceFile> { s.manifest.schemas }

  function SchemaFiles(modules: seq<ModuleSelection>): seq<SourceFile> { Flatten(Mapped(modules, SchemaFilesOf)) }

  /** Each schema file's fragment. */
  function Fragments(cedar: Cedar, files: seq<SourceFile>): (r: seq<Json>)
    ensures |r| == |files|
    ensures forall i :: 0 <= i < |r| ==>
              var parsed := cedar.parseSchema(Source(files[i]));
              r[i] == if parsed.Some? then parsed.value.fragment else Object(map[])
  {
    seq(|files|, i requires 0 <= i < |files| => FragmentOf(cedar, files[i]))
  }

  function AllFragments(cedar: Cedar, modules: seq<ModuleSelection>): seq<Json> {
    Fragments(cedar, SchemaFiles(modules))
  }

  function LabelFilesOf(s: ModuleSelection): seq<SourceFile> { s.manifest.labels }

  function LabelFiles(modules: seq<ModuleSelection>): seq<SourceFile> { Flatten(Mapped(modules, LabelFilesOf)) }

  /** Each label file's document. */
  function Documents(cedar: Cedar, files: seq<SourceFile>): (r: seq<seq<RawRule>>)
    ensures |r| == |files|
    ensures forall i :: 0 <= i < |r| ==>
              var parsed := cedar.parseLabels(Source(files[i]));
              r[i] == if parsed.Some? then parsed.value else []
  {
    seq(|files|, i requires 0 <= i < |files| => DocumentOf(cedar, files[i]))
  }

  function AllDocuments(cedar: Cedar, modules: seq<ModuleSelection>): seq<seq<RawRule>> {
    Documents(cedar, LabelFiles(modules))
  }

  // ---- What makes a bundle compile, and to what ----

  /** Every file of the module is in order by itself. */
  ghost predicate ModuleFilesOk(cedar: Cedar, s: ModuleSelection) {
    var m := s.manifest;
    && (forall i :: 0 <= i < |m.policies| ==> PolicyFileOk(cedar, RecordFor(s), m.policies[i]))
    && (forall i :: 0 <= i < |m.schemas| ==> SchemaFileOk(cedar, m.space, m.schemas[i]))
    && (forall i :: 0 <= i < |m.labels| ==> LabelFileFits(cedar, m.space, m.labels[i]))
  }

  /** Every file is in order by itself, no two policies share an id, and no two schema files conflict. */
  ghost predicate FilesOk(cedar: Cedar, modules: seq<ModuleSelection>) {
    && (forall i :: 0 <= i < |modules| ==> ModuleFilesOk(cedar, modules[i]))
    && DistinctStrings(Ids(AllPolicies(cedar, modules)))
    && !Schemas.FoldConflict(AllFragments(cedar, modules))
  }

  /** The label documents make one valid document, and the schema, if any, agrees with policies and
      labels. */
  ghost predicate TogetherOk(cedar: Cedar, modules: seq<ModuleSelection>) {
    && DocumentOk(cedar.labels, Flatten(AllDocuments(cedar, modules)))
    && (SchemaFiles(modules) != [] ==>
          SchemaAgrees(cedar, Schemas.MergeAll(AllFragments(cedar, modules)), AllPolicies(cedar, modules),
                       RulesOf(cedar.labels, Flatten(AllDocuments(cedar, modules)))))
  }

  /** What makes a bundle compile. */
  ghost predicate CompileOk(cedar: Cedar, bundle: BundleManifest) {
    FilesOk(cedar, bundle.modules) && TogetherOk(cedar, bundle.modules)
  }

  /** The parts of a compiled bundle, without its warnings. */
  function Parts(cedar: Cedar, bundle: BundleManifest): BundleParts {
    var modules := bundle.modules;
    BundleParts(bundle.name, ModuleRecords(cedar, modules), Aggregate(AllTexts(modules)),
                if SchemaFiles(modules) == [] then None else Some(Schemas.MergeAll(AllFragments(cedar, modules))),
                RulesOf(cedar.labels, Flatten(AllDocuments(cedar, modules))),
                InsertAll([], Ids(AllPolicies(cedar, modules))), [])
  }

  /** The warnings of a compiled bundle: about ids and schema files, module by module, and then
      Cedar's about the policies, or that there was no schema to check them against. */
  function Warnings(cedar: Cedar, bundle: BundleManifest): seq<Diagnostic> {
    var modules := bundle.modules;
    AllModuleWarnings(cedar, modules, |modules|)
    + if SchemaFiles(modules) == [] then [WarningOf(SchemaSkipped)]
      else StrictWarnings(cedar, AllPolicies(cedar, modules), Schemas.MergeAll(AllFragments(cedar, modules)))
  }

  // ---- The fold over policy files is the listing ----

  lemma IdsConcat(a: seq<Policy>, b: seq<Policy>)
    ensures Ids(a + b) == Ids(a) + Ids(b)
  {
  }

  /** `more` holds the ids of `existing` and `ids`, in increasing order if `existing` does. */
  ghost predicate Extends(more: seq<string>, existing: seq<string>, ids: seq<string>) {
    && (forall x :: x in more <==> x in existing || x in ids)
    && (StrictlySorted(existing) ==> StrictlySorted(more))
  }

  lemma ExtendsTwice(a: seq<string>, b: seq<string>, c: seq<string>, x: seq<string>, y: seq<string>)
    requires Extends(b, a, x) && Extends(c, b, y)
    ensures Extends(c, a, x + y)
  {
  }

  lemma {:induction false} InsertAllExtends(existing: seq<string>, ids: seq<string>)
    ensures Extends(InsertAll(existing, ids), existing, ids)
  {
    InsertAllMembers(existing, ids);
  }

  lemma NewIdsConcat(a: seq<string>, b: seq<string>, existing: seq<string>, known: seq<string>)
    requires Extends(known, existing, a)
    ensures NewIds(a + b, existing) <==> NewIds(a, existing) && NewIds(b, known)
  {
    var all := a + b;
    assert forall i :: 0 <= i < |a| ==> all[i] == a[i];
    assert forall i :: 0 <= i < |b| ==> all[|a| + i] == b[i];
    if NewIds(a, existing) && NewIds(b, known) {
      forall i, j | 0 <= i < j < |all| ensures all[i] != all[j] {
        if i < |a| <= j { assert b[j - |a|] !in a; }
      }
    }
    if NewIds(all, existing) {
      forall i | 0 <= i < |b| ensures b[i] !in known {}
    }
  }

  function FirstTexts(m: ModuleRecord, files: seq<SourceFile>, n: nat): seq<PolicyText>
    requires n <= |files|
  {
    if n == 0 then [] else FirstTexts(m, files, n - 1) + [TextOf(m, files[n - 1])]
  }

  lemma {:induction false} FirstTextsListed(m: ModuleRecord, files: seq<SourceFile>, texts: seq<PolicyText>, n: nat)
    requires n <= |files| == |texts| && forall i :: 0 <= i < |files| ==> texts[i] == TextOf(m, files[i])
    ensures FirstTexts(m, files, n) == texts[..n]
  {
    if n > 0 { FirstTextsListed(m, files, texts, n - 1); }
  }

  lemma {:induction false} GatherTexts(cedar: Cedar, m: ModuleRecord, files: seq<SourceFile>, n: nat, start: Gathered)
    requires n <= |files|
    ensures Gather(cedar, m, files, n, start).texts == start.texts + FirstTexts(m, files, n)
  {
    if n > 0 {
      GatherTexts(cedar, m, files, n - 1, start);
      SeqAssoc(start.texts, FirstTexts(m, files, n - 1), [TextOf(m, files[n - 1])]);
    }
  }

  /** The policies of the first n files. */
  function Added(cedar: Cedar, files: seq<SourceFile>, n: nat): seq<Policy>
    requires n <= |files|
  {
    if n == 0 then [] else Added(cedar, files, n - 1) + FilePolicies(cedar, files[n - 1])
  }

  lemma {:induction false} AddedListed(cedar: Cedar, files: seq<SourceFile>, lists: seq<seq<Policy>>, n: nat)
    requires n <= |files| == |lists| && forall i :: 0 <= i < |files| ==> lists[i] == FilePolicies(cedar, files[i])
    ensures Added(cedar, files, n) == Flatten(lists[..n])
  {
    if n > 0 {
      AddedListed(cedar, files, lists, n - 1);
      FlattenPrefix(lists, n - 1);
    }
  }

  lemma {:induction false} AddedInAll(cedar: Cedar, s: ModuleSelection)
    ensures Added(cedar, s.manifest.policies, |s.manifest.policies|) == PoliciesOf(cedar, s)
  {
    var files := s.manifest.policies;
    var lists := ParsedFiles(cedar, files);
    AddedListed(cedar, files, lists, |files|);
    assert lists[..|files|] == lists;
  }

  lemma {:induction false} GatherAdds(cedar: Cedar, m: ModuleRecord, files: seq<SourceFile>, n: nat, start: Gathered)
    requires n <= |files|
    ensures Gather(cedar, m, files, n, start).policies == start.policies + Added(cedar, files, n)
  {
    if n > 0 {
      GatherAdds(cedar, m, files, n - 1, start);
      SeqAssoc(start.policies, Added(cedar, files, n - 1), FilePolicies(cedar, files[n - 1]));
    }
  }

  lemma {:induction false} GatherAddsIds(cedar: Cedar, m: ModuleRecord, files: seq<SourceFile>, n: nat, start: Gathered)
    requires n <= |files|
    ensures Gather(cedar, m, files, n, start).moduleIds == start.moduleIds + Ids(Added(cedar, files, n))
  {
    if n > 0 {
      GatherAddsIds(cedar, m, files, n - 1, start);
      var a, b := Added(cedar, files, n - 1), FilePolicies(cedar, files[n - 1]);
      IdsConcat(a, b);
      SeqAssoc(start.moduleIds, Ids(a), Ids(b));
    }
  }

  lemma {:induction false} GatherInserts(cedar: Cedar, m: ModuleRecord, files: seq<SourceFile>, n: nat, start: Gathered)
    requires n <= |files|
    ensures Extends(Gather(cedar, m, files, n, start).allIds, start.allIds, Ids(Added(cedar, files, n)))
  {
    if n > 0 {
      GatherInserts(cedar, m, files, n - 1, start);
      NextInserts(cedar, m, files[n - 1], Gather(cedar, m, files, n - 1, start), start.allIds,
                  Added(cedar, files, n - 1));
    }
  }

  lemma NextInserts(cedar: Cedar, m: ModuleRecord, f: SourceFile, before: Gathered, existing: seq<string>,
                    added: seq<Policy>)
    requires Extends(before.allIds, existing, Ids(added))
    ensures Extends(GatherFile(cedar, m, f, before).allIds, existing, Ids(added + FilePolicies(cedar, f)))
  {
    var ids := Ids(FilePolicies(cedar, f));
    IdsConcat(added, FilePolicies(cedar, f));
    InsertAllExtends(before.allIds, ids);
    ExtendsTwice(existing, before.allIds, InsertAll(before.allIds, ids), Ids(added), ids);
  }

  ghost predicate FirstFilesOk(cedar: Cedar, m: ModuleRecord, files: seq<SourceFile>, n: nat)
    requires n <= |files|
  {
    n > 0 ==> FirstFilesOk(cedar, m, files, n - 1) && PolicyFileOk(cedar, m, files[n - 1])
  }

  lemma {:induction false} EachFileOk(cedar: Cedar, m: ModuleRecord, files: seq<SourceFile>, n: nat)
    requires n <= |files|
    ensures FirstFilesOk(cedar, m, files, n) <==> forall i :: 0 <= i < n ==> PolicyFileOk(cedar, m, files[i])
  {
    if n > 0 { EachFileOk(cedar, m, files, n - 1); }
  }

  /** The first n files fit exactly when each is in order and their ids are new and differ. */
  lemma {:induction false} FilesFitIff(cedar: Cedar, m: ModuleRecord, files: seq<SourceFile>, n: nat, start: Gathered)
    requires n <= |files|
    ensures FilesFit(cedar, m, files, n, start) <==>
            FirstFilesOk(cedar, m, files, n) && NewIds(Ids(Added(cedar, files, n)), start.allIds)
  {
    if n > 0 {
      FilesFitIff(cedar, m, files, n - 1, start);
      GatherInserts(cedar, m, files, n - 1, start);
      IdsConcat(Added(cedar, files, n - 1), FilePolicies(cedar, files[n - 1]));
      NextFits(cedar, m, files[n - 1], Gather(cedar, m, files, n - 1, start).allIds, start.allIds,
               Ids(Added(cedar, files, n - 1)));
    }
  }

  lemma NextFits(cedar: Cedar, m: ModuleRecord, f: SourceFile, known: seq<string>, start: seq<string>, ids: seq<string>)
    requires Extends(known, start, ids)
    ensures NewIds(ids, start) && FileFits(cedar, m, f, known)
            <==> PolicyFileOk(cedar, m, f) && NewIds(ids + Ids(FilePolicies(cedar, f)), start)
  {
    NewIdsConcat(ids, Ids(FilePolicies(cedar, f)), start, known);
  }

  lemma ModuleTexts(cedar: Cedar, s: ModuleSelection, start: State)
    ensures AfterModule(cedar, s, start).gathered.texts == start.gathered.texts + TextsOf(s)
  {
    var files := s.manifest.policies;
    GatherTexts(cedar, RecordFor(s), files, |files|, start.gathered.(moduleIds := []));
    FirstTextsListed(RecordFor(s), files, TextsOf(s), |files|);
    assert TextsOf(s)[..|files|] == TextsOf(s);
  }

  /** The texts gathered after 0, 1, 2, … modules. */
  function TextTrace(cedar: Cedar, modules: seq<ModuleSelection>): (r: seq<seq<PolicyText>>)
    ensures |r| == |modules| + 1 && forall k :: 0 <= k < |r| ==> r[k] == StateAfter(cedar, modules, k).gathered.texts
  {
    seq(|modules| + 1, k requires 0 <= k <= |modules| => StateAfter(cedar, modules, k).gathered.texts)
  }

  lemma {:induction false} TextsGrow(trace: seq<seq<PolicyText>>, lists: seq<seq<PolicyText>>, n: nat)
    requires |trace| == |lists| + 1 && n <= |lists|
    requires trace[0] == [] && forall k :: 0 <= k < |lists| ==> trace[k + 1] == trace[k] + lists[k]
    ensures trace[n] == Flatten(lists[..n])
  {
    if n > 0 {
      TextsGrow(trace, lists, n - 1);
      assert trace[n - 1 + 1] == trace[n - 1] + lists[n - 1];
      FlattenPrefix(lists, n - 1);
    }
  }

  lemma NextTexts(cedar: Cedar, modules: seq<ModuleSelection>, k: nat)
    requires k < |modules|
    ensures TextTrace(cedar, modules)[k + 1] == TextTrace(cedar, modules)[k] + TextsOf(modules[k])
  {
    ModuleTexts(cedar, modules[k], StateAfter(cedar, modules, k));
  }

  /** What one module adds to the state. */
  lemma ModuleGathers(cedar: Cedar, s: ModuleSelection, start: State)
    ensures var after, added := AfterModule(cedar, s, start), PoliciesOf(cedar, s);
            && after.gathered.policies == start.gathered.policies + added
            && Extends(after.gathered.allIds, start.gathered.allIds, Ids(added))
            && after.modules == start.modules + [RecordWith(s, added)]
  {
    var files := s.manifest.policies;
    var first := start.gathered.(moduleIds := []);
    GatherAdds(cedar, RecordFor(s), files, |files|, first);
    GatherAddsIds(cedar, RecordFor(s), files, |files|, first);
    GatherInserts(cedar, RecordFor(s), files, |files|, first);
    AddedInAll(cedar, s);
    assert [] + Ids(PoliciesOf(cedar, s)) == Ids(PoliciesOf(cedar, s));
  }

  lemma {:induction false} PoliciesAfter(cedar: Cedar, modules: seq<ModuleSelection>, n: nat)
    requires n <= |modules|
    ensures var g, added := StateAfter(cedar, modules, n).gathered, Flatten(PolicyLists(cedar, modules)[..n]);
            g.policies == added && Extends(g.allIds, [], Ids(added))
  {
    if n > 0 {
      PoliciesAfter(cedar, modules, n - 1);
      ModuleGathers(cedar, modules[n - 1], StateAfter(cedar, modules, n - 1));
      NextIds(PolicyLists(cedar, modules), n, StateAfter(cedar, modules, n - 1).gathered.allIds,
              StateAfter(cedar, modules, n).gathered.allIds);
    }
  }

  lemma NextIds(lists: seq<seq<Policy>>, n: nat, before: seq<string>, after: seq<string>)
    requires 0 < n <= |lists|
    requires Extends(before, [], Ids(Flatten(lists[..n - 1]))) && Extends(after, before, Ids(lists[n - 1]))
    ensures Flatten(lists[..n]) == Flatten(lists[..n - 1]) + lists[n - 1]
    ensures Extends(after, [], Ids(Flatten(lists[..n])))
  {
    FlattenPrefix(lists, n - 1);
    IdsConcat(Flatten(lists[..n - 1]), lists[n - 1]);
    ExtendsTwice([], before, after, Ids(Flatten(lists[..n - 1])), Ids(lists[n - 1]));
  }

  /** What the state's records are after 0, 1, 2, … modules. */
  function RecordTrace(cedar: Cedar, modules: seq<ModuleSelection>): (r: seq<seq<ModuleRecord>>)
    ensures |r| == |modules| + 1 && forall k :: 0 <= k < |r| ==> r[k] == StateAfter(cedar, modules, k).modules
  {
    seq(|modules| + 1, k requires 0 <= k <= |modules| => StateAfter(cedar, modules, k).modules)
  }

  lemma {:induction false} RecordsGrow(trace: seq<seq<ModuleRecord>>, records: seq<ModuleRecord>, n: nat)
    requires |trace| == |records| + 1 && n <= |records|
    requires trace[0] == [] && forall k :: 0 <= k < |records| ==> trace[k + 1] == trace[k] + [records[k]]
    ensures trace[n] == records[..n]
  {
    if n > 0 {
      RecordsGrow(trace, records, n - 1);
      assert trace[n - 1 + 1] == trace[n - 1] + [records[n - 1]];
    }
  }

  lemma NextRecord(cedar: Cedar, modules: seq<ModuleSelection>, k: nat)
    requires k < |modules|
    ensures RecordTrace(cedar, modules)[k + 1]
            == RecordTrace(cedar, modules)[k] + [RecordWith(modules[k], PoliciesOf(cedar, modules[k]))]
  {
    ModuleGathers(cedar, modules[k], StateAfter(cedar, modules, k));
  }

  // ---- The fold over schema files is the merge of all fragments ----

  lemma FragmentsConcat(cedar: Cedar, a: seq<SourceFile>, b: seq<SourceFile>)
    ensures Fragments(cedar, a + b) == Fragments(cedar, a) + Fragments(cedar, b)
  {
  }

  ghost predicate FirstSchemasOk(cedar: Cedar, space: string, files: seq<SourceFile>, n: nat)
    requires n <= |files|
  {
    n > 0 ==> FirstSchemasOk(cedar, space, files, n - 1) && SchemaFileOk(cedar, space, files[n - 1])
  }

  lemma {:induction false} EachSchemaOk(cedar: Cedar, space: string, files: seq<SourceFile>, n: nat)
    requires n <= |files|
    ensures FirstSchemasOk(cedar, space, files, n) <==> forall i :: 0 <= i < n ==> SchemaFileOk(cedar, space, files[i])
  {
    if n > 0 { EachSchemaOk(cedar, space, files, n - 1); }
  }

  lemma {:induction false} FilesMerge(cedar: Cedar, space: string, files: seq<SourceFile>, n: nat, start: Json)
    requires n <= |files|
    ensures SchemaAfter(cedar, files, n, start) == Schemas.MergeInto(start, Fragments(cedar, files)[..n])
    ensures SchemasFit(cedar, space, files, n, start) <==>
            FirstSchemasOk(cedar, space, files, n) && !Schemas.ConflictInto(start, Fragments(cedar, files)[..n])
  {
    if n > 0 {
      FilesMerge(cedar, space, files, n - 1, start);
      var fragments := Fragments(cedar, files);
      assert fragments[..n][..n - 1] == fragments[..n - 1] && fragments[..n][n - 1] == fragments[n - 1];
    }
  }

  lemma {:induction false} SchemaFilesAfter(cedar: Cedar, modules: seq<ModuleSelection>, n: nat)
    requires n <= |modules|
    ensures var st, files := StateAfter(cedar, modules, n), Flatten(Mapped(modules, SchemaFilesOf)[..n]);
            && st.schema == Schemas.MergeAll(Fragments(cedar, files))
            && (st.hasSchema <==> files != [])
  {
    if n > 0 {
      SchemaFilesAfter(cedar, modules, n - 1);
      ModuleMerges(cedar, modules, n, StateAfter(cedar, modules, n - 1));
    }
  }

  /** What module n adds to the schema merged so far. */
  lemma {:induction false} ModuleMerges(cedar: Cedar, modules: seq<ModuleSelection>, n: nat, before: State)
    requires 0 < n <= |modules|
    requires before.schema == Schemas.MergeAll(Fragments(cedar, Flatten(Mapped(modules, SchemaFilesOf)[..n - 1])))
    ensures var files := modules[n - 1].manifest.schemas;
            && Flatten(Mapped(modules, SchemaFilesOf)[..n]) == Flatten(Mapped(modules, SchemaFilesOf)[..n - 1]) + files
            && SchemaAfter(cedar, files, |files|, before.schema)
               == Schemas.MergeAll(Fragments(cedar, Flatten(Mapped(modules, SchemaFilesOf)[..n])))
            && (Schemas.FoldConflict(Fragments(cedar, Flatten(Mapped(modules, SchemaFilesOf)[..n]))) <==>
                Schemas.FoldConflict(Fragments(cedar, Flatten(Mapped(modules, SchemaFilesOf)[..n - 1])))
                || Schemas.ConflictInto(before.schema, Fragments(cedar, files)))
  {
    var lists := Mapped(modules, SchemaFilesOf);
    var a, files := Flatten(lists[..n - 1]), lists[n - 1];
    FlattenPrefix(lists, n - 1);
    FragmentsConcat(cedar, a, files);
    FilesMerge(cedar, "", files, |files|, before.schema);
    assert Fragments(cedar, files)[..|files|] == Fragments(cedar, files);
    Schemas.MergeIntoConcat(Schemas.EMPTY, Fragments(cedar, a), Fragments(cedar, files));
  }

  // ---- The fold over label files ----

  lemma {:induction false} FirstDocumentsListed(cedar: Cedar, files: seq<SourceFile>, n: nat)
    requires n <= |files|
    ensures FirstDocuments(cedar, files, n) == Documents(cedar, files)[..n]
  {
    if n > 0 { FirstDocumentsListed(cedar, files, n - 1); }
  }

  lemma DocumentsConcat(cedar: Cedar, a: seq<SourceFile>, b: seq<SourceFile>)
    ensures Documents(cedar, a + b) == Documents(cedar, a) + Documents(cedar, b)
  {
  }

  lemma ParsedConcat(env: LabelEnv, a: seq<seq<RawRule>>, b: seq<seq<RawRule>>)
    ensures ParsedAll(env, a + b) == ParsedAll(env, a) + ParsedAll(env, b)
  {
  }

  lemma {:induction false} EachLabelFits(cedar: Cedar, space: string, files: seq<SourceFile>, n: nat)
    requires n <= |files|
    ensures LabelsFit(cedar, space, files, n) <==> forall i :: 0 <= i < n ==> LabelFileFits(cedar, space, files[i])
  {
    if n > 0 { EachLabelFits(cedar, space, files, n - 1); }
  }

  lemma {:induction false} LabelsAfter(cedar: Cedar, modules: seq<ModuleSelection>, n: nat)
    requires n <= |modules|
    ensures StateAfter(cedar, modules, n).labelSets
            == ParsedAll(cedar.labels, Documents(cedar, Flatten(Mapped(modules, LabelFilesOf)[..n])))
  {
    if n > 0 {
      LabelsAfter(cedar, modules, n - 1);
      var files := modules[n - 1].manifest.labels;
      FirstDocumentsListed(cedar, files, |files|);
      assert Documents(cedar, files)[..|files|] == Documents(cedar, files);
      NextDocuments(cedar, modules, n);
    }
  }

  lemma {:induction false} NextDocuments(cedar: Cedar, modules: seq<ModuleSelection>, n: nat)
    requires 0 < n <= |modules|
    ensures ParsedAll(cedar.labels, Documents(cedar, Flatten(Mapped(modules, LabelFilesOf)[..n])))
            == ParsedAll(cedar.labels, Documents(cedar, Flatten(Mapped(modules, LabelFilesOf)[..n - 1])))
               + ParsedAll(cedar.labels, Documents(cedar, modules[n - 1].manifest.labels))
  {
    var lists := Mapped(modules, LabelFilesOf);
    var a, files := Flatten(lists[..n - 1]), lists[n - 1];
    FlattenPrefix(lists, n - 1);
    DocumentsConcat(cedar, a, files);
    ParsedConcat(cedar.labels, Documents(cedar, a), Documents(cedar, files));
  }

  // ---- Fitting one after the other is being in order together ----

  ghost predicate FirstModulesOk(cedar: Cedar, modules: seq<ModuleSelection>, n: nat)
    requires n <= |modules|
  {
    n > 0 ==> FirstModulesOk(cedar, modules, n - 1) && ModuleFilesOk(cedar, modules[n - 1])
  }

  lemma {:induction false} EachModuleOk(cedar: Cedar, modules: seq<ModuleSelection>, n: nat)
    requires n <= |modules|
    ensures FirstModulesOk(cedar, modules, n) <==> forall i :: 0 <= i < n ==> ModuleFilesOk(cedar, modules[i])
  {
    if n > 0 { EachModuleOk(cedar, modules, n - 1); }
  }

  lemma {:induction false} PoliciesFitIff(cedar: Cedar, s: ModuleSelection, start: Gathered)
    ensures var files := s.manifest.policies;
            FilesFit(cedar, RecordFor(s), files, |files|, start) <==>
            && (forall i :: 0 <= i < |files| ==> PolicyFileOk(cedar, RecordFor(s), files[i]))
            && NewIds(Ids(PoliciesOf(cedar, s)), start.allIds)
  {
    var files := s.manifest.policies;
    FilesFitIff(cedar, RecordFor(s), files, |files|, start);
    EachFileOk(cedar, RecordFor(s), files, |files|);
    AddedInAll(cedar, s);
  }

  lemma {:induction false} SchemasFitIff(cedar: Cedar, m: ModuleManifest, schema: Json)
    ensures SchemasFit(cedar, m.space, m.schemas, |m.schemas|, schema) <==>
            && (forall i :: 0 <= i < |m.schemas| ==> SchemaFileOk(cedar, m.space, m.schemas[i]))
            && !Schemas.ConflictInto(schema, Fragments(cedar, m.schemas))
  {
    FilesMerge(cedar, m.space, m.schemas, |m.schemas|, schema);
    EachSchemaOk(cedar, m.space, m.schemas, |m.schemas|);
    assert Fragments(cedar, m.schemas)[..|m.schemas|] == Fragments(cedar, m.schemas);
  }

  lemma {:induction false} ModuleFitsIff(cedar: Cedar, s: ModuleSelection, start: State)
    ensures ModuleFits(cedar, s, start) <==>
            && ModuleFilesOk(cedar, s)
            && NewIds(Ids(PoliciesOf(cedar, s)), start.gathered.allIds)
            && !Schemas.ConflictInto(start.schema, Fragments(cedar, s.manifest.schemas))
  {
    PoliciesFitIff(cedar, s, start.gathered.(moduleIds := []));
    SchemasFitIff(cedar, s.manifest, start.schema);
    EachLabelFits(cedar, s.manifest.space, s.manifest.labels, |s.manifest.labels|);
  }

  /** No id is repeated, and no fragment conflicts with those before it, in the first n modules. */
  ghost predicate FirstAgree(cedar: Cedar, modules: seq<ModuleSelection>, n: nat)
    requires n <= |modules|
  {
    && DistinctStrings(Ids(Flatten(PolicyLists(cedar, modules)[..n])))
    && !Schemas.FoldConflict(Fragments(cedar, Flatten(Mapped(modules, SchemaFilesOf)[..n])))
  }

  lemma {:induction false} ModulesFitIff(cedar: Cedar, modules: seq<ModuleSelection>, n: nat)
    requires n <= |modules|
    ensures ModulesFit(cedar, modules, n) <==> FirstModulesOk(cedar, modules, n) && FirstAgree(cedar, modules, n)
  {
    if n > 0 {
      ModulesFitIff(cedar, modules, n - 1);
      ModuleFitsIff(cedar, modules[n - 1], StateAfter(cedar, modules, n - 1));
      PoliciesAfter(cedar, modules, n - 1);
      SchemaFilesAfter(cedar, modules, n - 1);
      NextAgrees(cedar, modules, n, StateAfter(cedar, modules, n - 1));
    }
  }

  lemma {:induction false} NextAgrees(cedar: Cedar, modules: seq<ModuleSelection>, n: nat, before: State)
    requires 0 < n <= |modules|
    requires Extends(before.gathered.allIds, [], Ids(Flatten(PolicyLists(cedar, modules)[..n - 1])))
    requires before.schema == Schemas.MergeAll(Fragments(cedar, Flatten(Mapped(modules, SchemaFilesOf)[..n - 1])))
    ensures FirstAgree(cedar, modules, n) <==>
            && FirstAgree(cedar, modules, n - 1)
            && NewIds(Ids(PoliciesOf(cedar, modules[n - 1])), before.gathered.allIds)
            && !Schemas.ConflictInto(before.schema, Fragments(cedar, modules[n - 1].manifest.schemas))
  {
    ModuleMerges(cedar, modules, n, before);
    NextIdsDiffer(PolicyLists(cedar, modules), n, before.gathered.allIds);
  }

  lemma NextIdsDiffer(lists: seq<seq<Policy>>, n: nat, known: seq<string>)
    requires 0 < n <= |lists| && Extends(known, [], Ids(Flatten(lists[..n - 1])))
    ensures DistinctStrings(Ids(Flatten(lists[..n]))) <==>
            && DistinctStrings(Ids(Flatten(lists[..n - 1])))
            && NewIds(Ids(lists[n - 1]), known)
  {
    FlattenPrefix(lists, n - 1);
    IdsConcat(Flatten(lists[..n - 1]), lists[n - 1]);
    NewIdsConcat(Ids(Flatten(lists[..n - 1])), Ids(lists[n - 1]), [], known);
  }

  // ---- Readable files ----

  lemma {:induction false} EachReadable(files: seq<SourceFile>, n: nat)
    requires n <= |files|
    ensures FirstReadable(files, n) <==> forall i :: 0 <= i < n ==> files[i].contents.Some?
  {
    if n > 0 { EachReadable(files, n - 1); }
  }

  lemma ModuleOkIsReadable(cedar: Cedar, s: ModuleSelection)
    requires ModuleFilesOk(cedar, s)
    ensures ModuleReadable(s)
  {
    var m := s.manifest;
    EachReadable(m.policies, |m.policies|);
    EachReadable(m.schemas, |m.schemas|);
    EachReadable(m.labels, |m.labels|);
  }

  lemma {:induction false} ModulesOkAreReadable(cedar: Cedar, modules: seq<ModuleSelection>, n: nat)
    requires n <= |modules| && FirstModulesOk(cedar, modules, n)
    ensures FirstModulesReadable(modules, n)
  {
    if n > 0 {
      ModulesOkAreReadable(cedar, modules, n - 1);
      ModuleOkIsReadable(cedar, modules[n - 1]);
    }
  }

  // ---- The compiler ----

  /** The state after all modules is what the listings say. */
  ghost predicate Listed(cedar: Cedar, modules: seq<ModuleSelection>, end: State) {
    && end.gathered.texts == AllTexts(modules)
    && end.gathered.policies == AllPolicies(cedar, modules)
    && end.gathered.allIds == InsertAll([], Ids(AllPolicies(cedar, modules)))
    && end.modules == ModuleRecords(cedar, modules)
    && end.schema == Schemas.MergeAll(AllFragments(cedar, modules))
    && (end.hasSchema <==> SchemaFiles(modules) != [])
    && end.labelSets == ParsedAll(cedar.labels, AllDocuments(cedar, modules))
  }

  lemma {:induction false} WholeTexts(cedar: Cedar, modules: seq<ModuleSelection>)
    ensures StateAfter(cedar, modules, |modules|).gathered.texts == AllTexts(modules)
  {
    var trace, lists := TextTrace(cedar, modules), Mapped(modules, TextsOf);
    forall k | 0 <= k < |modules| ensures trace[k + 1] == trace[k] + lists[k] { NextTexts(cedar, modules, k); }
    TextsGrow(trace, lists, |modules|);
    assert lists[..|modules|] == lists;
  }

  lemma {:induction false} WholePolicies(cedar: Cedar, modules: seq<ModuleSelection>)
    ensures var g := StateAfter(cedar, modules, |modules|).gathered;
            g.policies == AllPolicies(cedar, modules) && g.allIds == InsertAll([], Ids(AllPolicies(cedar, modules)))
  {
    PoliciesAfter(cedar, modules, |modules|);
    assert PolicyLists(cedar, modules)[..|modules|] == PolicyLists(cedar, modules);
    OneEnumeration(StateAfter(cedar, modules, |modules|).gathered.allIds, Ids(AllPolicies(cedar, modules)));
  }

  lemma {:induction false} OneEnumeration(known: seq<string>, ids: seq<string>)
    requires Extends(known, [], ids)
    ensures known == InsertAll([], ids)
  {
    InsertAllExtends([], ids);
    SortedSetsAgree(known, InsertAll([], ids));
  }

  lemma {:induction false} WholeRecords(cedar: Cedar, modules: seq<ModuleSelection>)
    ensures StateAfter(cedar, modules, |modules|).modules == ModuleRecords(cedar, modules)
  {
    var trace, records := RecordTrace(cedar, modules), ModuleRecords(cedar, modules);
    forall k | 0 <= k < |modules| ensures trace[k + 1] == trace[k] + [records[k]] { NextRecord(cedar, modules, k); }
    RecordsGrow(trace, records, |modules|);
    assert records[..|modules|] == records;
  }

  lemma {:induction false} WholeSchema(cedar: Cedar, modules: seq<ModuleSelection>)
    ensures var end := StateAfter(cedar, modules, |modules|);
            && end.schema == Schemas.MergeAll(AllFragments(cedar, modules))
            && (end.hasSchema <==> SchemaFiles(modules) != [])
  {
    SchemaFilesAfter(cedar, modules, |modules|);
    assert Mapped(modules, SchemaFilesOf)[..|modules|] == Mapped(modules, SchemaFilesOf);
  }

  lemma {:induction false} WholeLabels(cedar: Cedar, modules: seq<ModuleSelection>)
    ensures StateAfter(cedar, modules, |modules|).labelSets == ParsedAll(cedar.labels, AllDocuments(cedar, modules))
  {
    LabelsAfter(cedar, modules, |modules|);
    assert Mapped(modules, LabelFilesOf)[..|modules|] == Mapped(modules, LabelFilesOf);
  }

  lemma {:induction false} FoldIsListed(cedar: Cedar, modules: seq<ModuleSelection>)
    ensures Listed(cedar, modules, StateAfter(cedar, modules, |modules|))
  {
    WholeTexts(cedar, modules);
    WholePolicies(cedar, modules);
    WholeRecords(cedar, modules);
    WholeSchema(cedar, modules);
    WholeLabels(cedar, modules);
  }

  lemma {:induction false} FoldFitsIff(cedar: Cedar, modules: seq<ModuleSelection>)
    ensures AllReadable(modules) && ModulesFit(cedar, modules, |modules|) <==>
            FilesOk(cedar, modules)
  {
    var n := |modules|;
    ModulesFitIff(cedar, modules, n);
    EachModuleOk(cedar, modules, n);
    if FirstModulesOk(cedar, modules, n) { ModulesOkAreReadable(cedar, modules, n); }
    assert PolicyLists(cedar, modules)[..n] == PolicyLists(cedar, modules);
    assert Mapped(modules, SchemaFilesOf)[..n] == Mapped(modules, SchemaFilesOf);
  }

  /** Each label document of modules in order is valid. */
  lemma {:induction false} LabelDocumentsOk(cedar: Cedar, modules: seq<ModuleSelection>)
    requires forall i :: 0 <= i < |modules| ==> ModuleFilesOk(cedar, modules[i])
    ensures AllDocumentsOk(cedar.labels, AllDocuments(cedar, modules))
  {
    var files := LabelFiles(modules);
    forall k | 0 <= k < |files| ensures DocumentOk(cedar.labels, Documents(cedar, files)[k]) {
      assert files[k] in files;
      FlattenMembers(Mapped(modules, LabelFilesOf), files[k]);
      var i :| 0 <= i < |modules| && files[k] in modules[i].manifest.labels;
      assert ModuleFilesOk(cedar, modules[i]);
    }
  }

  /** What is left to check after the fold. */
  ghost predicate WholeOk(cedar: Cedar, end: State) {
    && CombineOk(Flatten(end.labelSets))
    && (end.hasSchema ==> SchemaAgrees(cedar, end.schema, end.gathered.policies, Flatten(end.labelSets)))
  }

  lemma {:induction false} WholeOkIff(cedar: Cedar, modules: seq<ModuleSelection>, end: State)
    requires FilesOk(cedar, modules) && Listed(cedar, modules, end)
    ensures WholeOk(cedar, end) <==> TogetherOk(cedar, modules)
    ensures Flatten(end.labelSets) == RulesOf(cedar.labels, Flatten(AllDocuments(cedar, modules)))
  {
    CombineAgreesWithParse(cedar.labels, AllDocuments(cedar, modules));
    LabelDocumentsOk(cedar, modules);
  }

  /** Compiles the files of all modules. */
  method CompileFiles(cedar: Cedar, modules: seq<ModuleSelection>, text: Mut<string>, diagnostics: Mut<seq<Diagnostic>>)
    returns (readable: bool, end: State)
    requires text.value == ""
    modifies text, diagnostics
    ensures !readable ==> !FilesOk(cedar, modules)
    ensures readable ==> Appended(old(diagnostics.value), diagnostics.value, !FilesOk(cedar, modules),
                                  AllModuleWarnings(cedar, modules, |modules|))
    ensures readable && FilesOk(cedar, modules)
            ==> Listed(cedar, modules, end) && text.value == Aggregate(AllTexts(modules))
  {
    readable, end := CompileModules(cedar, modules, text, diagnostics);
    FoldFitsIff(cedar, modules);
    FoldIsListed(cedar, modules);
  }

  /** Combines the labels and makes the checks on the whole. */
  method CheckWhole(cedar: Cedar, end: State, diagnostics: Mut<seq<Diagnostic>>) returns (labels: seq<Rule>)
    modifies diagnostics
    ensures Appended(old(diagnostics.value), diagnostics.value, !WholeOk(cedar, end),
                     WholeWarnings(cedar, end))
    ensures WholeOk(cedar, end) ==> labels == Flatten(end.labelSets)
  {
    var combined := Combine(end.labelSets);
    labels := [];
    if combined.Ok? {
      labels := combined.value;
    } else {
      diagnostics.value := diagnostics.value + combined.error.diagnostics;
    }
    if end.hasSchema {
      CheckAgainstSchema(cedar, end.schema, end.gathered.policies, labels, diagnostics);
    } else {
      WarnIf(true, SchemaSkipped, diagnostics);
    }
  }

  ghost function WholeWarnings(cedar: Cedar, end: State): seq<Diagnostic> {
    if end.hasSchema then StrictWarnings(cedar, end.gathered.policies, end.schema) else [WarningOf(SchemaSkipped)]
  }

  /** The diagnostics of the modules and of the whole. */
  lemma BothChecked(compiled: seq<Diagnostic>, checked: seq<Diagnostic>, fit: bool, whole: bool,
                    first: seq<Diagnostic>, second: seq<Diagnostic>)
    requires Appended([], compiled, !fit, first) && Appended(compiled, checked, !whole, second)
    ensures HasError(checked) <==> !(fit && whole)
    ensures !HasError(checked) ==> checked == first + second
  {
    AppendedTwice([], compiled, checked, !fit, !whole, first, second);
  }

  /** Compiles a loaded bundle. */
  method CompileManifest(cedar: Cedar, bundle: BundleManifest) returns (r: Result<BundleParts>)
    ensures r.Ok? <==> CompileOk(cedar, bundle)
    ensures r.Ok? ==> r.value == Parts(cedar, bundle).(diagnostics := Warnings(cedar, bundle))
  {
    var diagnostics := new Mut<seq<Diagnostic>>([]);
    var text := new Mut<string>("");
    var readable, end := CompileFiles(cedar, bundle.modules, text, diagnostics);
    if !readable {
      return Err(Io);
    }
    ghost var compiled := diagnostics.value;
    var labels := CheckWhole(cedar, end, diagnostics);
    BothChecked(compiled, diagnostics.value, FilesOk(cedar, bundle.modules), WholeOk(cedar, end),
                AllModuleWarnings(cedar, bundle.modules, |bundle.modules|), WholeWarnings(cedar, end));
    if FilesOk(cedar, bundle.modules) { WholeOkIff(cedar, bundle.modules, end); }
    if HasError(diagnostics.value) {
      return Err(Validation(diagnostics.value));
    }
    r := Ok(BundleParts(bundle.name, end.modules, text.value, if end.hasSchema then Some(end.schema) else None,
                        labels, end.gathered.allIds, diagnostics.value));
  }
}
