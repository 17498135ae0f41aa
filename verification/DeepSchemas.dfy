/** A bundle that compiles and is built, and whose archive the verifier refuses: its schema
    declares a record type that nests deeper than the archive's reader goes. */
module DeepSchemas {
  import opened Diagnostics
  import opened Json
  import opened Manifests
  import opened Policies
  import opened Sorting
  import opened Codecs
  import opened Compiler
  import opened Compilation
  import opened Signing
  import opened Verifier
  import opened BuildThenValidate
  import NeighbourCheck
  import Paths
  import Schemas
  import Text

  function EmptyObject(): Json { Object(map[]) }

  /** A record type with one attribute that is such a type, and so on. */
  function RecordType(levels: nat): Json {
    Object(map["type" := Str("Record"),
               "attributes" := if levels == 0 then EmptyObject() else Object(map["a" := RecordType(levels - 1)])])
  }

  function DeepSpace(levels: nat): Json {
    Object(map["commonTypes" := Object(map["T" := RecordType(levels)]),
               "entityTypes" := EmptyObject(), "actions" := EmptyObject()])
  }

  function DeepSchema(levels: nat): Json { Object(map["A" := DeepSpace(levels)]) }

  /** A bundle of one module with that schema. */
  function DeepBundle(source: string): BundleManifest {
    var file := SourceFile("s", Inside, Some(source));
    BundleManifest(FORMAT_VERSION, "b",
                   [ModuleSelection(ModuleManifest(FORMAT_VERSION, "m", "A", [], [], [file], []), Ordinary)])
  }

  // ---- Depth ----

  lemma {:induction false} RecordTypeFits(levels: nat, depth: nat)
    ensures MeaningFits(RecordType(levels), depth) <==> depth >= 2 * levels + 2
  {
    var fields := RecordType(levels).fields;
    var attributes := fields["attributes"];
    assert fields.Keys == {"type", "attributes"};
    assert MeaningFits(RecordType(levels), depth) <==> depth > 0 && MeaningFits(attributes, depth - 1);
    if levels > 0 && depth >= 2 {
      RecordTypeFits(levels - 1, depth - 2);
      assert attributes.fields["a"] == RecordType(levels - 1);
    }
  }

  lemma {:induction false} DeepSpaceFits(levels: nat, depth: nat)
    ensures MeaningFits(DeepSpace(levels), depth) <==> depth >= 2 * levels + 4
  {
    var fields := DeepSpace(levels).fields;
    var types := Object(map["T" := RecordType(levels)]);
    assert fields["commonTypes"] == types;
    assert fields.Keys == {"commonTypes", "entityTypes", "actions"};
    if depth >= 2 {
      RecordTypeFits(levels, depth - 2);
      assert types.fields["T"] == RecordType(levels);
      assert MeaningFits(types, depth - 1) <==> MeaningFits(RecordType(levels), depth - 2);
    }
  }

  lemma {:induction false} DeepSchemaFits(levels: nat, depth: nat)
    ensures MeaningFits(DeepSchema(levels), depth) <==> depth >= 2 * levels + 5
  {
    var fields := DeepSchema(levels).fields;
    assert fields["A"] == DeepSpace(levels);
    if depth >= 1 { DeepSpaceFits(levels, depth - 1); }
  }

  // ---- The bundle compiles ----

  lemma NotBlank(s: string)
    requires s != "" && 'A' <= s[0] <= 'z'
    ensures !Text.IsBlank(s)
  {
    assert s[0] in s;
  }

  lemma DeepModuleOk(source: string)
    ensures ModuleOk(DeepBundle(source).modules[0].manifest)
  {
    NotBlank("m");
    NotBlank("A");
    NeighbourCheck.ShortIdentifier("A");
    Paths.SplitPlain("s");
    assert Paths.Components(["s"], true) == ["s"] + Paths.Components([], false);
  }

  lemma DeepBundleOk(source: string)
    ensures BundleOk(DeepBundle(source)) && Loaded(DeepBundle(source)) == DeepBundle(source)
  {
    NotBlank("b");
    DeepModuleOk(source);
    var raw := DeepBundle(source);
    assert raw.modules[..0] == [];
    assert Mapped(raw.modules, SpaceOf) == ["A"] && Mapped(raw.modules, NameOf) == ["m"];
  }

  lemma DeepSchemaMerges(levels: nat)
    ensures Schemas.Merged(Schemas.EMPTY, DeepSchema(levels)) == DeepSchema(levels)
    ensures !Schemas.Conflict(Schemas.EMPTY, DeepSchema(levels))
  {
    var schema := DeepSchema(levels);
    Schemas.MergeIntoNothing(schema);
  }

  /** What Cedar decides about the source and its schema. */
  ghost predicate Declares(cedar: Cedar, source: string, levels: nat) {
    && cedar.parseSchema(source) == Some(ParsedSchema(DeepSchema(levels), 0))
    && cedar.schemaOk(DeepSchema(levels))
    && cedar.strict([], DeepSchema(levels)) == []
  }

  lemma DeepBundleCompiles(cedar: Cedar, source: string, levels: nat)
    requires Declares(cedar, source, levels)
    ensures CompileOk(cedar, DeepBundle(source))
    ensures Parts(cedar, DeepBundle(source)).schema == Some(DeepSchema(levels))
  {
    var modules, schema := DeepBundle(source).modules, DeepSchema(levels);
    var files := modules[0].manifest.schemas;
    DeepSchemaMerges(levels);
    FlattenOne(files);
    assert Mapped(modules, SchemaFilesOf) == [files];
    assert AllFragments(cedar, modules) == [schema];
    FlattenOne(PoliciesOf(cedar, modules[0]));
    assert PolicyLists(cedar, modules) == [PoliciesOf(cedar, modules[0])];
    assert AllPolicies(cedar, modules) == [];
    assert Mapped(modules, LabelFilesOf) == [[]];
    FlattenOne<SourceFile>([]);
    assert AllDocuments(cedar, modules) == [];
    OneFragment(schema);
  }

  /** One fragment conflicts with nothing, and is the merge. */
  lemma {:induction false} OneFragment(schema: Json)
    requires Schemas.Merged(Schemas.EMPTY, schema) == schema && !Schemas.Conflict(Schemas.EMPTY, schema)
    ensures Schemas.MergeAll([schema]) == schema && !Schemas.FoldConflict([schema])
  {
    var fragments := [schema];
    assert fragments[..|fragments| - 1] == [];
    assert Schemas.MergeInto(Schemas.EMPTY, []) == Schemas.EMPTY;
    assert !Schemas.ConflictInto(Schemas.EMPTY, []);
  }

  // ---- and its archive is refused ----

  /** Whatever the number of levels the bundle compiles; its archive validates exactly up to 61. */
  lemma DeepSchemaIsRefused(w: World, source: string, levels: nat, key: Option<Bytes>, policy: SignaturePolicy,
                            keys: map<string, TrustedKey>, verify: bool)
    requires Lawful(w) && Declares(w.cedar, source, levels) && SignatureExpected(w, key, policy, keys, verify)
    requires InMemory(w, Parts(w.cedar, DeepBundle(source)))
    ensures var parts := Parts(w.cedar, DeepBundle(source));
            && CompilesTo(w, DeepBundle(source), parts)
            && (DecodedOk(w, Built(w, parts, key), policy, keys, verify) <==> levels <= 61)
  {
    DeepBundleOk(source);
    DeepBundleCompiles(w.cedar, source, levels);
    var parts := Parts(w.cedar, DeepBundle(source));
    CompiledArchiveIsAcceptedIff(w, DeepBundle(source), parts, key, policy, keys, verify);
    DeepSchemaFits(levels, w.codec.maxDepth);
  }
}
