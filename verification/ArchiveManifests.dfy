/** The archive manifest: its records, their JSON form, and the bundle id. */
module ArchiveManifests {
  import opened Text
  import opened Diagnostics
  import opened Json
  import opened Policies
  import opened Sorting
  import opened Codecs
  import opened Records

  // ---- Records ----

  datatype Generator = Generator(bundle: string, core: string, cedar: string)

  datatype Artifact = Artifact(path: string, size: USize, sha256: string)

  datatype ArchiveManifest = ArchiveManifest(
    formatVersion: U32, bundleId: string, name: string, generator: Generator,
    modules: seq<ModuleRecord>, policyIds: seq<string>, artifacts: seq<Artifact>)

  // ---- Writing a manifest as JSON ----

  function RoleName(role: Role): string { if role.Ordinary? then "ordinary" else "global" }

  const NAMESPACE := "namespace"
  const IMPORTS := "imports"
  const ROLE := "role"
  const POLICY_IDS := "policy_ids"
  const BUNDLE_ID := "bundle_id"
  const GENERATOR := "generator"
  const MODULES := "modules"
  const ARTIFACTS := "artifacts"
  const TREETOP_BUNDLE := "treetop_bundle"
  const TREETOP_CORE := "treetop_core"
  const CEDAR := "cedar"
  const PATH := "path"
  const SIZE := "size"
  const SHA256 := "sha256"

  function ModuleMembers(m: ModuleRecord): seq<Member> {
    [Member(NAME, VText(m.name)), Member(NAMESPACE, VText(m.space)), Member(IMPORTS, TextsValue(m.imports)),
     Member(ROLE, VText(RoleName(m.role))), Member(POLICY_IDS, TextsValue(m.policyIds))]
  }

  function ModuleValue(m: ModuleRecord): Value { VObject(ModuleMembers(m)) }

  function GeneratorMembers(g: Generator): seq<Member> {
    [Member(TREETOP_BUNDLE, VText(g.bundle)), Member(TREETOP_CORE, VText(g.core)), Member(CEDAR, VText(g.cedar))]
  }

  function ArtifactMembers(a: Artifact): seq<Member> {
    [Member(PATH, VText(a.path)), Member(SIZE, VNumber(a.size)), Member(SHA256, VText(a.sha256))]
  }

  function ArtifactValue(a: Artifact): Value { VObject(ArtifactMembers(a)) }

  function ManifestMembers(m: ArchiveManifest): seq<Member> {
    [Member(FORMAT, VNumber(m.formatVersion)), Member(BUNDLE_ID, VText(m.bundleId)), Member(NAME, VText(m.name)),
     Member(GENERATOR, VObject(GeneratorMembers(m.generator))), Member(MODULES, VArray(Mapped(m.modules, ModuleValue))),
     Member(POLICY_IDS, TextsValue(m.policyIds)), Member(ARTIFACTS, VArray(Mapped(m.artifacts, ArtifactValue)))]
  }

  function ManifestValue(m: ArchiveManifest): Value { VObject(ManifestMembers(m)) }

  // ---- Reading it back ----

  const MODULE_KEYS := [NAME, NAMESPACE, IMPORTS, ROLE, POLICY_IDS]
  const GENERATOR_KEYS := [TREETOP_BUNDLE, TREETOP_CORE, CEDAR]
  const ARTIFACT_KEYS := [PATH, SIZE, SHA256]
  const MANIFEST_KEYS := [FORMAT, BUNDLE_ID, NAME, GENERATOR, MODULES, POLICY_IDS, ARTIFACTS]

  /** A variant by its name, also as the one key of an object that holds null. */
  function ReadRole(j: Json): Option<Role> {
    if j == Str("ordinary") || j == Object(map["ordinary" := Null]) then Some(Ordinary)
    else if j == Str("global") || j == Object(map["global" := Null]) then Some(Global)
    else None
  }

  function ReadModule(j: Json): Option<ModuleRecord> {
    match Fields(j, MODULE_KEYS)
    case None => None
    case Some(f) =>
      var name, space, role := AsText(f[0]), AsText(f[1]), ReadRole(f[3]);
      var imports, ids := ReadTexts(f[2]), ReadTexts(f[4]);
      if name.Some? && space.Some? && imports.Some? && role.Some? && ids.Some?
      then Some(ModuleRecord(name.value, space.value, imports.value, role.value, ids.value))
      else None
  }

  function ReadGenerator(j: Json): Option<Generator> {
    match Fields(j, GENERATOR_KEYS)
    case None => None
    case Some(f) =>
      var bundle, core, cedar := AsText(f[0]), AsText(f[1]), AsText(f[2]);
      if bundle.Some? && core.Some? && cedar.Some?
      then Some(Generator(bundle.value, core.value, cedar.value))
      else None
  }

  function ReadArtifact(j: Json): Option<Artifact> {
    match Fields(j, ARTIFACT_KEYS)
    case None => None
    case Some(f) =>
      var path, size, sha := AsText(f[0]), AsNumber(f[1], 0x1_0000_0000_0000_0000), AsText(f[2]);
      if path.Some? && size.Some? && sha.Some? then Some(Artifact(path.value, size.value, sha.value)) else None
  }

  function ReadManifest(j: Json): Option<ArchiveManifest> {
    match Fields(j, MANIFEST_KEYS)
    case None => None
    case Some(f) =>
      var version, id, name := AsNumber(f[0], 0x1_0000_0000), AsText(f[1]), AsText(f[2]);
      var generator, modules := ReadGenerator(f[3]), ReadList(f[4], ReadModule);
      var ids, artifacts := ReadTexts(f[5]), ReadList(f[6], ReadArtifact);
      if && version.Some? && id.Some? && name.Some? && generator.Some? && modules.Some? && ids.Some?
         && artifacts.Some?
      then Some(ArchiveManifest(version.value, id.value, name.value, generator.value, modules.value, ids.value,
                                artifacts.value))
      else None
  }

  // ---- Round trip ----

  lemma KeysAreDistinct()
    ensures DistinctStrings(MODULE_KEYS) && DistinctStrings(GENERATOR_KEYS)
    ensures DistinctStrings(ARTIFACT_KEYS) && DistinctStrings(MANIFEST_KEYS)
  {
    DifferentHeads(MODULE_KEYS);
    DifferentHeads(GENERATOR_KEYS);
    DifferentHeads(ARTIFACT_KEYS);
    DifferentHeads(MANIFEST_KEYS);
  }

  lemma ModuleKeys(m: ModuleRecord)
    ensures Keys(ModuleMembers(m)) == MODULE_KEYS && DistinctStrings(MODULE_KEYS)
  {
    KeysAreDistinct();
    assert Keys(ModuleMembers(m)) == MODULE_KEYS;
  }

  lemma ModuleFound(m: ModuleRecord)
    ensures Fields(Meaning(ModuleValue(m)), MODULE_KEYS).Some?
    ensures var f := Fields(Meaning(ModuleValue(m)), MODULE_KEYS).value;
            && f[0] == Str(m.name) && f[1] == Str(m.space) && f[2] == Meaning(TextsValue(m.imports))
            && f[3] == Str(RoleName(m.role)) && f[4] == Meaning(TextsValue(m.policyIds))
  {
    ModuleKeys(m);
    var members := ModuleMembers(m);
    WrittenFields(members, MODULE_KEYS);
    var f := Fields(Meaning(VObject(members)), MODULE_KEYS).value;
    assert f[0] == Meaning(members[0].value) && f[1] == Meaning(members[1].value) && f[2] == Meaning(members[2].value);
    assert f[3] == Meaning(members[3].value) && f[4] == Meaning(members[4].value);
  }

  lemma ReadModuleValue(m: ModuleRecord)
    ensures ReadModule(Meaning(ModuleValue(m))) == Some(m)
  {
    ModuleFound(m);
    ReadRoleName(m.role);
    ReadTextsValue(m.imports);
    ReadTextsValue(m.policyIds);
    ReadFields(Meaning(ModuleValue(m)), Fields(Meaning(ModuleValue(m)), MODULE_KEYS).value, m);
  }

  lemma ReadRoleName(role: Role)
    ensures ReadRole(Str(RoleName(role))) == Some(role)
  {
    assert |"ordinary"| != |"global"|;
  }

  lemma ReadFields(j: Json, f: seq<Json>, m: ModuleRecord)
    requires Fields(j, MODULE_KEYS) == Some(f) && f[0] == Str(m.name) && f[1] == Str(m.space)
    requires ReadTexts(f[2]) == Some(m.imports) && ReadRole(f[3]) == Some(m.role)
    requires ReadTexts(f[4]) == Some(m.policyIds)
    ensures ReadModule(j) == Some(m)
  {
  }

  lemma ReadGeneratorValue(g: Generator)
    ensures ReadGenerator(Meaning(VObject(GeneratorMembers(g)))) == Some(g)
  {
    KeysAreDistinct();
    assert Keys(GeneratorMembers(g)) == GENERATOR_KEYS;
    WrittenFields(GeneratorMembers(g), GENERATOR_KEYS);
  }

  lemma ReadArtifactValue(a: Artifact)
    ensures ReadArtifact(Meaning(ArtifactValue(a))) == Some(a)
  {
    KeysAreDistinct();
    assert Keys(ArtifactMembers(a)) == ARTIFACT_KEYS;
    WrittenFields(ArtifactMembers(a), ARTIFACT_KEYS);
  }

  lemma ReadModules(modules: seq<ModuleRecord>)
    ensures ReadList(Meaning(VArray(Mapped(modules, ModuleValue))), ReadModule) == Some(modules)
  {
    forall i | 0 <= i < |modules| ensures ReadModule(Meaning(ModuleValue(modules[i]))) == Some(modules[i]) {
      ReadModuleValue(modules[i]);
    }
    ReadItemsOf(modules, ModuleValue, ReadModule, modules);
  }

  lemma ReadArtifacts(artifacts: seq<Artifact>)
    ensures ReadList(Meaning(VArray(Mapped(artifacts, ArtifactValue))), ReadArtifact) == Some(artifacts)
  {
    forall i | 0 <= i < |artifacts| ensures ReadArtifact(Meaning(ArtifactValue(artifacts[i]))) == Some(artifacts[i]) {
      ReadArtifactValue(artifacts[i]);
    }
    ReadItemsOf(artifacts, ArtifactValue, ReadArtifact, artifacts);
  }

  lemma ManifestKeys(m: ArchiveManifest)
    ensures Keys(ManifestMembers(m)) == MANIFEST_KEYS && DistinctStrings(MANIFEST_KEYS)
    ensures (set k | k in MANIFEST_KEYS) == {FORMAT, BUNDLE_ID, NAME, GENERATOR, MODULES, POLICY_IDS, ARTIFACTS}
  {
    KeysAreDistinct();
    assert Keys(ManifestMembers(m)) == MANIFEST_KEYS;
  }

  lemma ManifestFound(m: ArchiveManifest)
    ensures Fields(Meaning(ManifestValue(m)), MANIFEST_KEYS).Some?
    ensures var f := Fields(Meaning(ManifestValue(m)), MANIFEST_KEYS).value;
            && f[0] == Number(m.formatVersion) && f[1] == Str(m.bundleId) && f[2] == Str(m.name)
            && f[3] == Meaning(VObject(GeneratorMembers(m.generator)))
            && f[4] == Meaning(VArray(Mapped(m.modules, ModuleValue)))
            && f[5] == Meaning(TextsValue(m.policyIds))
            && f[6] == Meaning(VArray(Mapped(m.artifacts, ArtifactValue)))
  {
    ManifestKeys(m);
    var members := ManifestMembers(m);
    WrittenFields(members, MANIFEST_KEYS);
    var f := Fields(Meaning(VObject(members)), MANIFEST_KEYS).value;
    assert f[0] == Meaning(members[0].value) && f[1] == Meaning(members[1].value) && f[2] == Meaning(members[2].value);
    assert f[3] == Meaning(members[3].value) && f[4] == Meaning(members[4].value);
    assert f[5] == Meaning(members[5].value) && f[6] == Meaning(members[6].value);
  }

  /** A manifest written as JSON reads back as itself, whatever the key order. */
  lemma ManifestRoundTrip(m: ArchiveManifest)
    ensures ReadManifest(Meaning(ManifestValue(m))) == Some(m)
  {
    ManifestFound(m);
    ReadGeneratorValue(m.generator);
    ReadModules(m.modules);
    ReadTextsValue(m.policyIds);
    ReadArtifacts(m.artifacts);
  }

  // ---- Nothing is ignored ----

  /** The fields a written record has, in order. */
  lemma FieldNames(m: ArchiveManifest, r: ModuleRecord, g: Generator, a: Artifact)
    ensures Keys(ManifestMembers(m)) ==
            ["format_version", "bundle_id", "name", "generator", "modules", "policy_ids", "artifacts"]
    ensures Keys(ModuleMembers(r)) == ["name", "namespace", "imports", "role", "policy_ids"]
    ensures Keys(GeneratorMembers(g)) == ["treetop_bundle", "treetop_core", "cedar"]
    ensures Keys(ArtifactMembers(a)) == ["path", "size", "sha256"]
    ensures ModuleMembers(r)[3].value == VText(if r.role.Ordinary? then "ordinary" else "global")
  {
  }

  /** The record is an object and its role is a text. */
  predicate PlainModule(j: Json) { j.Object? && "role" in j.fields && j.fields["role"].Str? }

  /** No record in the manifest is written as an array, and roles are texts. */
  predicate PlainManifest(j: Json) {
    && j.Object? && "generator" in j.fields && "modules" in j.fields && "artifacts" in j.fields
    && j.fields["generator"].Object? && j.fields["modules"].Array? && j.fields["artifacts"].Array?
    && (forall i :: 0 <= i < |j.fields["modules"].items| ==> PlainModule(j.fields["modules"].items[i]))
    && (forall i :: 0 <= i < |j.fields["artifacts"].items| ==> j.fields["artifacts"].items[i].Object?)
  }

  lemma ReadModuleExactly(j: Json, m: ModuleRecord)
    requires PlainModule(j) && ReadModule(j) == Some(m)
    ensures j == Meaning(ModuleValue(m))
  {
    ModuleKeys(m);
    var f, members := Fields(j, MODULE_KEYS).value, ModuleMembers(m);
    assert f[3] == j.fields[ROLE];
    TextsAreAll(f[2], m.imports);
    TextsAreAll(f[4], m.policyIds);
    assert f[0] == Meaning(members[0].value) && f[1] == Meaning(members[1].value) && f[2] == Meaning(members[2].value);
    assert f[3] == Meaning(members[3].value) && f[4] == Meaning(members[4].value);
    WrittenIsAll(j, members, MODULE_KEYS);
  }

  lemma ReadGeneratorExactly(j: Json, g: Generator)
    requires j.Object? && ReadGenerator(j) == Some(g)
    ensures j == Meaning(VObject(GeneratorMembers(g)))
  {
    KeysAreDistinct();
    assert Keys(GeneratorMembers(g)) == GENERATOR_KEYS;
    WrittenIsAll(j, GeneratorMembers(g), GENERATOR_KEYS);
  }

  lemma ReadArtifactExactly(j: Json, a: Artifact)
    requires j.Object? && ReadArtifact(j) == Some(a)
    ensures j == Meaning(ArtifactValue(a))
  {
    KeysAreDistinct();
    assert Keys(ArtifactMembers(a)) == ARTIFACT_KEYS;
    WrittenIsAll(j, ArtifactMembers(a), ARTIFACT_KEYS);
  }

  lemma ReadModulesExactly(j: Json, modules: seq<ModuleRecord>)
    requires j.Array? && forall i :: 0 <= i < |j.items| ==> PlainModule(j.items[i])
    requires ReadList(j, ReadModule) == Some(modules)
    ensures j == Meaning(VArray(Mapped(modules, ModuleValue)))
  {
    var written := MeaningOfItems(Mapped(modules, ModuleValue));
    forall i | 0 <= i < |modules| ensures j.items[i] == written[i] { ReadItemExactly(j.items[i], modules, i); }
    assert j.items == written;
  }

  lemma ReadItemExactly(item: Json, modules: seq<ModuleRecord>, i: nat)
    requires i < |modules| && PlainModule(item) && ReadModule(item) == Some(modules[i])
    ensures MeaningOfItems(Mapped(modules, ModuleValue))[i] == item
  {
    ReadModuleExactly(item, modules[i]);
    MeaningOfItem(Mapped(modules, ModuleValue), i);
  }

  lemma ReadArtifactsExactly(j: Json, artifacts: seq<Artifact>)
    requires j.Array? && forall i :: 0 <= i < |j.items| ==> j.items[i].Object?
    requires ReadList(j, ReadArtifact) == Some(artifacts)
    ensures j == Meaning(VArray(Mapped(artifacts, ArtifactValue)))
  {
    var values := Mapped(artifacts, ArtifactValue);
    forall i | 0 <= i < |artifacts| ensures j.items[i] == MeaningOfItems(values)[i] {
      ReadArtifactExactly(j.items[i], artifacts[i]);
      MeaningOfItem(values, i);
    }
    assert j.items == MeaningOfItems(values);
  }

  lemma ManifestFieldsRead(j: Json, m: ArchiveManifest) returns (f: seq<Json>)
    requires PlainManifest(j) && ReadManifest(j) == Some(m)
    ensures Fields(j, MANIFEST_KEYS) == Some(f)
    ensures f[0] == Number(m.formatVersion) && f[1] == Str(m.bundleId) && f[2] == Str(m.name)
    ensures f[3].Object? && ReadGenerator(f[3]) == Some(m.generator)
    ensures f[4] == j.fields["modules"] && ReadList(f[4], ReadModule) == Some(m.modules)
    ensures ReadTexts(f[5]) == Some(m.policyIds)
    ensures f[6] == j.fields["artifacts"] && ReadList(f[6], ReadArtifact) == Some(m.artifacts)
  {
    f := Fields(j, MANIFEST_KEYS).value;
    assert f[3] == j.fields[GENERATOR] && f[4] == j.fields[MODULES] && f[6] == j.fields[ARTIFACTS];
  }

  /** Written with objects, a manifest is read from its own JSON only: no field is ignored,
      defaulted or changed. */
  lemma ManifestReadExactly(j: Json, m: ArchiveManifest)
    requires PlainManifest(j)
    ensures ReadManifest(j) == Some(m) <==> j == Meaning(ManifestValue(m))
  {
    ManifestRoundTrip(m);
    if ReadManifest(j) == Some(m) {
      var f := ManifestFieldsRead(j, m);
      ReadGeneratorExactly(f[3], m.generator);
      ReadModulesExactly(f[4], m.modules);
      TextsAreAll(f[5], m.policyIds);
      ReadArtifactsExactly(f[6], m.artifacts);
      ManifestIsAll(j, m, f);
    }
  }

  lemma ManifestIsAll(j: Json, m: ArchiveManifest, f: seq<Json>)
    requires j.Object? && Fields(j, MANIFEST_KEYS) == Some(f)
    requires f[0] == Number(m.formatVersion) && f[1] == Str(m.bundleId) && f[2] == Str(m.name)
    requires f[3] == Meaning(VObject(GeneratorMembers(m.generator)))
    requires f[4] == Meaning(VArray(Mapped(m.modules, ModuleValue)))
    requires f[5] == Meaning(TextsValue(m.policyIds))
    requires f[6] == Meaning(VArray(Mapped(m.artifacts, ArtifactValue)))
    ensures j == Meaning(ManifestValue(m))
  {
    ManifestKeys(m);
    var members := ManifestMembers(m);
    assert f[0] == Meaning(members[0].value) && f[1] == Meaning(members[1].value) && f[2] == Meaning(members[2].value);
    assert f[3] == Meaning(members[3].value) && f[4] == Meaning(members[4].value);
    assert f[5] == Meaning(members[5].value) && f[6] == Meaning(members[6].value);
    WrittenIsAll(j, members, MANIFEST_KEYS);
  }

  // ---- Depth ----

  lemma {:induction false} ModuleIsShallow(m: ModuleRecord, depth: nat)
    requires depth >= 2
    ensures Fits(ModuleValue(m), depth)
  {
    TextsAreShallow(m.imports, depth - 1);
    TextsAreShallow(m.policyIds, depth - 1);
  }

  lemma {:induction false} ModulesAreShallow(modules: seq<ModuleRecord>, depth: nat)
    requires depth >= 3
    ensures Fits(VArray(Mapped(modules, ModuleValue)), depth)
  {
    forall i | 0 <= i < |modules| ensures Fits(ModuleValue(modules[i]), depth - 1) {
      ModuleIsShallow(modules[i], depth - 1);
    }
  }

  lemma {:induction false} ArtifactsAreShallow(artifacts: seq<Artifact>, depth: nat)
    requires depth >= 2
    ensures Fits(VArray(Mapped(artifacts, ArtifactValue)), depth)
  {
    forall i | 0 <= i < |artifacts| ensures Fits(ArtifactValue(artifacts[i]), depth - 1) {}
  }

  /** A manifest nests four deep at most: manifest, list, record, list. */
  lemma {:induction false} ManifestIsShallow(m: ArchiveManifest, depth: nat)
    requires depth >= 4
    ensures Fits(ManifestValue(m), depth)
  {
    ModulesAreShallow(m.modules, depth - 1);
    TextsAreShallow(m.policyIds, depth - 1);
    ArtifactsAreShallow(m.artifacts, depth - 1);
    assert Fits(VObject(GeneratorMembers(m.generator)), depth - 1);
  }

  // ---- The bundle id ----

  /** `Map::remove` on an order-keeping map: the last member moves into the gap. */
  function SwapRemove(members: seq<Member>, key: string): seq<Member> {
    var k := IndexOf(members, key);
    var last := |members| - 1;
    if k == |members| then members
    else if k == last then members[..last]
    else members[..last][k := members[last]]
  }

  /** The position of a key; the length when it is absent. */
  function IndexOf(members: seq<Member>, key: string): (k: nat)
    ensures k <= |members| && (k < |members| ==> members[k].key == key)
    ensures forall i :: 0 <= i < k ==> members[i].key != key
  {
    if members == [] || members[0].key == key then 0 else 1 + IndexOf(members[1..], key)
  }

  function Payload(m: ArchiveManifest): Value { VObject(SwapRemove(ManifestMembers(m), BUNDLE_ID)) }

  /** The id of a manifest: the digest of its canonical JSON without the id itself. */
  function BundleId(codec: Codec, m: ArchiveManifest): string {
    codec.hash(CanonicalBytes(codec, Payload(m)))
  }

  /** The members left once the id is taken out. */
  function PayloadMembers(m: ArchiveManifest): seq<Member> {
    [Member(FORMAT, VNumber(m.formatVersion)), Member(ARTIFACTS, VArray(Mapped(m.artifacts, ArtifactValue))),
     Member(NAME, VText(m.name)), Member(GENERATOR, VObject(GeneratorMembers(m.generator))),
     Member(MODULES, VArray(Mapped(m.modules, ModuleValue))), Member(POLICY_IDS, TextsValue(m.policyIds))]
  }

  const PAYLOAD_KEYS := [FORMAT, ARTIFACTS, NAME, GENERATOR, MODULES, POLICY_IDS]

  lemma PayloadIsExplicit(m: ArchiveManifest)
    ensures SwapRemove(ManifestMembers(m), BUNDLE_ID) == PayloadMembers(m)
  {
    var members := ManifestMembers(m);
    assert members[0].key != BUNDLE_ID by { assert |FORMAT| != |BUNDLE_ID|; }
    assert members[1].key == BUNDLE_ID;
    assert IndexOf(members, BUNDLE_ID) == 1;
    assert |members| == 7;
  }

  lemma PayloadKeys(m: ArchiveManifest)
    ensures Keys(PayloadMembers(m)) == PAYLOAD_KEYS && DistinctStrings(PAYLOAD_KEYS)
    ensures (set k | k in PAYLOAD_KEYS) == {FORMAT, NAME, GENERATOR, MODULES, POLICY_IDS, ARTIFACTS}
  {
    DifferentHeads(PAYLOAD_KEYS);
    assert Keys(PayloadMembers(m)) == PAYLOAD_KEYS;
  }

  lemma ManifestFields(m: ArchiveManifest)
    ensures var j := Meaning(ManifestValue(m));
            && HasExactly(j, {FORMAT, BUNDLE_ID, NAME, GENERATOR, MODULES, POLICY_IDS, ARTIFACTS})
            && Lookup(j, FORMAT) == Some(Number(m.formatVersion))
            && Lookup(j, BUNDLE_ID) == Some(Str(m.bundleId))
            && Lookup(j, NAME) == Some(Str(m.name))
            && Lookup(j, GENERATOR) == Some(Meaning(VObject(GeneratorMembers(m.generator))))
            && Lookup(j, MODULES) == Some(Meaning(VArray(Mapped(m.modules, ModuleValue))))
            && Lookup(j, POLICY_IDS) == Some(Meaning(TextsValue(m.policyIds)))
            && Lookup(j, ARTIFACTS) == Some(Meaning(VArray(Mapped(m.artifacts, ArtifactValue))))
  {
    ManifestKeys(m);
    var members := ManifestMembers(m);
    ObjectKeys(members, MANIFEST_KEYS);
    LookupMember(members, 0);
    LookupMember(members, 1);
    LookupMember(members, 2);
    LookupMember(members, 3);
    LookupMember(members, 4);
    LookupMember(members, 5);
    LookupMember(members, 6);
  }

  lemma PayloadFields(m: ArchiveManifest)
    ensures var j := Meaning(Payload(m));
            && HasExactly(j, {FORMAT, NAME, GENERATOR, MODULES, POLICY_IDS, ARTIFACTS})
            && Lookup(j, FORMAT) == Some(Number(m.formatVersion))
            && Lookup(j, NAME) == Some(Str(m.name))
            && Lookup(j, GENERATOR) == Some(Meaning(VObject(GeneratorMembers(m.generator))))
            && Lookup(j, MODULES) == Some(Meaning(VArray(Mapped(m.modules, ModuleValue))))
            && Lookup(j, POLICY_IDS) == Some(Meaning(TextsValue(m.policyIds)))
            && Lookup(j, ARTIFACTS) == Some(Meaning(VArray(Mapped(m.artifacts, ArtifactValue))))
  {
    PayloadIsExplicit(m);
    PayloadKeys(m);
    var members := PayloadMembers(m);
    ObjectKeys(members, PAYLOAD_KEYS);
    LookupMember(members, 0);
    LookupMember(members, 1);
    LookupMember(members, 2);
    LookupMember(members, 3);
    LookupMember(members, 4);
    LookupMember(members, 5);
  }

  /** The payload means the manifest without the key `bundle_id`. */
  lemma PayloadMeaning(m: ArchiveManifest)
    ensures Meaning(Payload(m)) == Object(Meaning(ManifestValue(m)).fields - {BUNDLE_ID})
  {
    ManifestFields(m);
    PayloadFields(m);
    SameObject(Meaning(Payload(m)), Object(Meaning(ManifestValue(m)).fields - {BUNDLE_ID}),
               {FORMAT, NAME, GENERATOR, MODULES, POLICY_IDS, ARTIFACTS});
  }

  lemma SameObject(a: Json, b: Json, keys: set<string>)
    requires HasExactly(a, keys) && HasExactly(b, keys)
    requires forall k :: k in keys ==> Lookup(a, k) == Lookup(b, k)
    ensures a == b
  {
    forall k | k in keys ensures a.fields[k] == b.fields[k] { assert Lookup(a, k) == Lookup(b, k); }
    assert a.fields == b.fields;
  }

  function WithoutId(m: ArchiveManifest): ArchiveManifest { m.(bundleId := "") }

  lemma SamePayload(a: ArchiveManifest, b: ArchiveManifest)
    ensures Meaning(Payload(a)) == Meaning(Payload(b)) <==> WithoutId(a) == WithoutId(b)
  {
    if WithoutId(a) == WithoutId(b) {
      PayloadIsExplicit(a);
      PayloadIsExplicit(b);
    }
    if Meaning(Payload(a)) == Meaning(Payload(b)) {
      RestoreId(a);
      RestoreId(b);
      ManifestRoundTrip(WithoutId(a));
      ManifestRoundTrip(WithoutId(b));
    }
  }

  /** The payload is the manifest with its id left out: the id itself has no influence, and
      every other field has. */
  lemma PayloadDeterminesRest(codec: Codec, a: ArchiveManifest, b: ArchiveManifest)
    requires WritesInjectively(codec)
    ensures CanonicalBytes(codec, Payload(a)) == CanonicalBytes(codec, Payload(b)) <==> WithoutId(a) == WithoutId(b)
  {
    CanonicalBytesIff(codec, Payload(a), Payload(b));
    SamePayload(a, b);
  }

  /** Putting an empty id into a payload gives the manifest with an empty id. */
  lemma RestoreId(m: ArchiveManifest)
    ensures Meaning(Payload(m)).Object?
    ensures Meaning(ManifestValue(WithoutId(m))) == Object(Meaning(Payload(m)).fields[BUNDLE_ID := Str("")])
  {
    ManifestFields(WithoutId(m));
    PayloadFields(m);
    SameObject(Meaning(ManifestValue(WithoutId(m))), Object(Meaning(Payload(m)).fields[BUNDLE_ID := Str("")]),
               {FORMAT, BUNDLE_ID, NAME, GENERATOR, MODULES, POLICY_IDS, ARTIFACTS});
  }

  /** The bundle id does not depend on the id stored, nor on key order, and equals that of
      another manifest whose digest does not collide exactly when all other fields agree. */
  lemma BundleIdIdentifies(codec: Codec, a: ArchiveManifest, b: ArchiveManifest)
    requires WritesInjectively(codec)
    ensures BundleId(codec, a) == BundleId(codec, WithoutId(a))
    ensures WithoutId(a) == WithoutId(b) ==> BundleId(codec, a) == BundleId(codec, b)
    ensures (codec.hash(CanonicalBytes(codec, Payload(a))) == codec.hash(CanonicalBytes(codec, Payload(b)))
             ==> CanonicalBytes(codec, Payload(a)) == CanonicalBytes(codec, Payload(b)))
            ==> (BundleId(codec, a) == BundleId(codec, b) <==> WithoutId(a) == WithoutId(b))
  {
    PayloadDeterminesRest(codec, a, b);
    PayloadDeterminesRest(codec, a, WithoutId(a));
  }

  /** Any value that means the payload, in whatever key order, has the same digest. */
  lemma {:induction false} BundleIdIgnoresKeyOrder(codec: Codec, m: ArchiveManifest, v: Value)
    requires Meaning(v) == Object(Meaning(ManifestValue(m)).fields - {BUNDLE_ID})
    ensures codec.hash(CanonicalBytes(codec, v)) == BundleId(codec, m)
  {
    PayloadMeaning(m);
    SortEqualIff(v, Payload(m));
  }
}
