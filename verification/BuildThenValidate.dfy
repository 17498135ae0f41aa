/** Building an archive from compiled parts, and the theorem that the verifier accepts
    every archive the compiler emits, with the same content. */
module BuildThenValidate {
  import opened Text
  import opened Diagnostics
  import opened Json
  import opened Manifests
  import opened Policies
  import opened Sorting
  import opened Codecs
  import opened ArchiveManifests
  import opened Archives
  import opened Compiler
  import opened Compilation
  import opened CompiledFacts
  import opened ManifestCheck
  import opened Signing
  import opened Verifier
  import Labels
  import LabelDocuments

  const BYTES_MAX := 0x1_0000_0000_0000_0000

  // ---- Building ----

  predicate AllSmall(entries: seq<Entry>) {
    forall i :: 0 <= i < |entries| ==> |entries[i].contents| < BYTES_MAX
  }

  /** The record of each artifact: path, size, digest. */
  function RecordsOf(codec: Codec, entries: seq<Entry>): (r: seq<Artifact>)
    requires AllSmall(entries)
    ensures ArtifactsMatch(codec, r, entries)
  {
    seq(|entries|, i requires 0 <= i < |entries| && AllSmall(entries) =>
      Artifact(entries[i].name, |entries[i].contents|, codec.hash(entries[i].contents)))
  }

  function PolicyBytes(w: World, parts: BundleParts): Bytes { w.codec.utf8(parts.policies) }

  function SchemaBytes(w: World, parts: BundleParts): Option<Bytes> {
    match parts.schema case None => None case Some(j) => Some(CanonicalBytes(w.codec, ToValue(j)))
  }

  function LabelBytes(w: World, parts: BundleParts): Bytes {
    CanonicalBytes(w.codec, LabelDocuments.DocumentValue(Labels.RawsOf(parts.labels)))
  }

  function BuiltArtifacts(w: World, parts: BundleParts): seq<Entry> {
    ArtifactEntries(PolicyBytes(w, parts), SchemaBytes(w, parts), LabelBytes(w, parts))
  }

  /** Every artifact fits a byte vector. */
  predicate InMemory(w: World, parts: BundleParts) { AllSmall(BuiltArtifacts(w, parts)) }

  /** The manifest of built parts, first without and then with its id. */
  function Unidentified(w: World, parts: BundleParts): ArchiveManifest
    requires InMemory(w, parts)
  {
    ArchiveManifest(FORMAT_VERSION, "", parts.name, SUPPORTED, parts.modules, parts.policyIds,
                    RecordsOf(w.codec, BuiltArtifacts(w, parts)))
  }

  function BuiltManifest(w: World, parts: BundleParts): ArchiveManifest
    requires InMemory(w, parts)
  {
    Unidentified(w, parts).(bundleId := BundleId(w.codec, Unidentified(w, parts)))
  }

  function ManifestBytes(w: World, parts: BundleParts): Bytes
    requires InMemory(w, parts)
  {
    CanonicalBytes(w.codec, ManifestValue(BuiltManifest(w, parts)))
  }

  function SignatureBytes(w: World, key: Bytes, manifest: Bytes): Bytes {
    CanonicalBytes(w.codec, SignatureValue(SignManifest(w.crypto, key, manifest)))
  }

  /** What the built archive holds. */
  function Built(w: World, parts: BundleParts, key: Option<Bytes>): Decoded
    requires InMemory(w, parts)
  {
    var manifest := ManifestBytes(w, parts);
    Decoded(manifest, if key.Some? then Some(SignatureBytes(w, key.value, manifest)) else None,
            PolicyBytes(w, parts), SchemaBytes(w, parts), LabelBytes(w, parts))
  }

  method Build(w: World, parts: BundleParts, key: Option<Bytes>) returns (bytes: Bytes)
    requires InMemory(w, parts)
    ensures bytes == w.container.pack(EntriesOf(Built(w, parts, key)))
  {
    var artifacts := [Entry(POLICIES_PATH, PolicyBytes(w, parts))];
    var schema := SchemaBytes(w, parts);
    if schema.Some? {
      artifacts := artifacts + [Entry(SCHEMA_PATH, schema.value)];
    }
    artifacts := artifacts + [Entry(LABELS_PATH, LabelBytes(w, parts))];
    assert artifacts == BuiltArtifacts(w, parts);
    var manifest := ArchiveManifest(FORMAT_VERSION, "", parts.name, SUPPORTED, parts.modules, parts.policyIds,
                                    RecordsOf(w.codec, artifacts));
    manifest := manifest.(bundleId := BundleId(w.codec, manifest));
    var manifestBytes := CanonicalBytes(w.codec, ManifestValue(manifest));
    var signature := if key.Some? then Some(SignatureBytes(w, key.value, manifestBytes)) else None;
    var entries := EncodeEntries(manifestBytes, signature, artifacts);
    bytes := w.container.pack(entries);
  }

  // ---- Laws of the outside world ----

  /** The canonical text of a label document parses as that document. */
  ghost predicate LawfulLabels(w: World) {
    forall v: Value {:trigger w.codec.write(v)} :: Canonical(v) ==>
      forall text :: w.codec.fromUtf8(w.codec.write(v) + [10]) == Some(text) ==>
        var document := LabelDocuments.ReadDocument(Meaning(v));
        document.Some? ==> w.cedar.parseLabels(text) == document
  }

  ghost predicate Lawful(w: World) {
    && LawfulParser(w.cedar) && LawfulCodec(w.codec) && LawfulCrypto(w.crypto)
    && LawfulContainer(w.container) && LawfulLabels(w) && Labels.LawfulTargets(w.cedar.labels)
  }

  // ---- The manifest the compiler leads to passes the manifest checks ----

  lemma LoadedRecordsOk(cedar: Cedar, modules: seq<ModuleSelection>)
    requires AllModulesOk(modules) && ImportsResolved(modules, Mapped(modules, SpaceOf))
    ensures RecordsOk(ModuleRecords(cedar, modules))
  {
    RecordColumns(cedar, modules);
    forall i | 0 <= i < |modules| ensures RecordOk(ModuleRecords(cedar, modules)[i], Mapped(modules, SpaceOf)) {
      assert ModuleOk(modules[i].manifest);
    }
  }

  lemma CompiledManifestOk(cedar: Cedar, raw: BundleManifest, m: ArchiveManifest)
    requires BundleOk(raw) && CompileOk(cedar, Loaded(raw))
    requires var parts := Parts(cedar, Loaded(raw));
             m.name == parts.name && m.modules == parts.modules && m.policyIds == parts.policyIds
    requires m.formatVersion == FORMAT_VERSION && m.generator == SUPPORTED
    ensures ManifestOk(m)
  {
    var modules := Loaded(raw).modules;
    LoadedKeepsChecks(raw);
    RecordColumns(cedar, modules);
    LoadedRecordsOk(cedar, modules);
    RecordsListIds(cedar, modules);
    InsertAllMembers([], Ids(AllPolicies(cedar, modules)));
  }

  // ---- The parts pass the archive checks ----

  lemma {:induction false} AssigneeIsOwner(modules: seq<ModuleRecord>, n: nat, id: string, i: int)
    requires n <= |modules| && DistinctStrings(Assigned(modules, |modules|))
    requires 0 <= i < n && id in modules[i].policyIds
    ensures ModuleFor(modules, n, id) == Some(modules[i])
  {
    if id in modules[n - 1].policyIds {
      var k :| 0 <= k < |modules[i].policyIds| && modules[i].policyIds[k] == id;
      var l :| 0 <= l < |modules[n - 1].policyIds| && modules[n - 1].policyIds[l] == id;
      ListedOnce(modules, |modules|, id, i, k, n - 1, l);
    } else {
      AssigneeIsOwner(modules, n - 1, id, i);
    }
  }

  lemma {:induction false} OwnedPolicyOk(p: Policy, modules: seq<ModuleRecord>)
    requires DistinctStrings(Assigned(modules, |modules|)) && Owned(p, modules)
    ensures ArchivePolicyOk(p, modules)
  {
    var i :| OwnedAt(p, modules, i);
    AssigneeIsOwner(modules, |modules|, IdOf(p), i);
  }

  lemma {:induction false} OwnedPoliciesOk(policies: seq<Policy>, modules: seq<ModuleRecord>, n: nat)
    requires n <= |policies| && AllOwned(policies, modules)
    requires DistinctStrings(Ids(policies)) && DistinctStrings(Assigned(modules, |modules|))
    ensures ArchivePoliciesOk(policies, modules, n)
  {
    if n > 0 {
      OwnedPoliciesOk(policies, modules, n - 1);
      OwnedPolicyOk(policies[n - 1], modules);
      IdIsNew(policies, n - 1);
    }
  }

  lemma {:induction false} IdIsNew(policies: seq<Policy>, n: nat)
    requires n < |policies| && DistinctStrings(Ids(policies))
    ensures IdOf(policies[n]) !in ActualIds(policies, n)
  {
    ActualIdsSorted(policies, n);
    forall k | 0 <= k < n ensures IdOf(policies[k]) != IdOf(policies[n]) {
      assert Ids(policies)[k] != Ids(policies)[n];
    }
  }

  lemma {:induction false} SameIdSet(policies: seq<Policy>, ids: seq<string>)
    requires StrictlySorted(ids) && forall x :: x in ids <==> x in Ids(policies)
    ensures ActualIds(policies, |policies|) == InsertAll([], ids) == ids
  {
    ActualIdsSorted(policies, |policies|);
    InsertAllMembers([], ids);
    SortedSetsAgree(InsertAll([], ids), ids);
    forall x ensures x in ActualIds(policies, |policies|) <==> x in ids {
      if x in Ids(policies) {
        var k :| 0 <= k < |policies| && Ids(policies)[k] == x;
        assert IdOf(policies[k]) == x;
      }
      if k :| 0 <= k < |policies| && IdOf(policies[k]) == x { assert Ids(policies)[k] == x; }
    }
    SortedSetsAgree(ActualIds(policies, |policies|), ids);
  }

  /** The labels of a compiled bundle come from one valid document, and are owned. */
  lemma CompiledLabelsOk(cedar: Cedar, bundle: BundleManifest) returns (raw: seq<Labels.RawRule>)
    requires CompileOk(cedar, bundle)
    ensures Labels.DocumentOk(cedar.labels, raw) && Parts(cedar, bundle).labels == Labels.RulesOf(cedar.labels, raw)
    ensures TargetsOwnedBySome(Parts(cedar, bundle).labels, Spaces(Parts(cedar, bundle).modules))
  {
    raw := Flatten(AllDocuments(cedar, bundle.modules));
    CompiledLabels(cedar, bundle);
  }

  lemma CompiledPartsOk(cedar: Cedar, bundle: BundleManifest)
    requires LawfulParser(cedar) && CompileOk(cedar, bundle)
    ensures var p := Parts(cedar, bundle);
            && ArchivePartsOk(cedar, p.modules, p.policies, p.schema, p.labels, p.policyIds)
            && InsertAll([], p.policyIds) == p.policyIds
  {
    var policies, p := AllPolicies(cedar, bundle.modules), Parts(cedar, bundle);
    AggregateParses(cedar, bundle);
    CompiledPolicies(cedar, bundle);
    RecordsListIds(cedar, bundle.modules);
    OwnedPoliciesOk(policies, p.modules, |policies|);
    InsertAllMembers([], Ids(policies));
    SameIdSet(policies, p.policyIds);
    CompiledSchema(cedar, bundle);
    var raw := CompiledLabelsOk(cedar, bundle);
  }

  // ---- Reading the built archive back ----

  lemma BuiltManifestReads(w: World, parts: BundleParts)
    requires LawfulCodec(w.codec) && InMemory(w, parts)
    ensures ParseManifest(w.codec, ManifestBytes(w, parts)) == Some(BuiltManifest(w, parts))
    ensures BuiltManifest(w, parts).bundleId == BundleId(w.codec, BuiltManifest(w, parts))
  {
    var m := BuiltManifest(w, parts);
    ManifestIsShallow(m, 4);
    ShallowBytesRead(w.codec, ManifestValue(m), 4);
    ManifestRoundTrip(m);
    BundleIdIdentifies(w.codec, m, Unidentified(w, parts));
  }

  /** What the archive's reader can take: a schema that does not nest too deep. */
  predicate SchemaReadable(codec: Codec, schema: Option<Json>) {
    schema.Some? ==> MeaningFits(schema.value, codec.maxDepth)
  }

  lemma BuiltSchemaReads(w: World, parts: BundleParts, key: Option<Bytes>)
    requires LawfulCodec(w.codec) && InMemory(w, parts)
    ensures SchemaReadable(w.codec, parts.schema) ==> SchemaOf(w, Built(w, parts, key)) == parts.schema
    ensures !SchemaReadable(w.codec, parts.schema) ==> SchemaOf(w, Built(w, parts, key)).None?
  {
    if parts.schema.Some? {
      ToValueIsCanonical(parts.schema.value);
      CanonicalBytesRead(w.codec, ToValue(parts.schema.value));
    }
  }

  /** The written labels parse as a valid document that gives the same rules. */
  lemma BuiltLabelsRead(w: World, parts: BundleParts, raw: seq<Labels.RawRule>)
    requires LawfulCodec(w.codec) && LawfulLabels(w) && Labels.LawfulTargets(w.cedar.labels)
    requires Labels.DocumentOk(w.cedar.labels, raw) && parts.labels == Labels.RulesOf(w.cedar.labels, raw)
    ensures ParseLabels(w, LabelBytes(w, parts)).Some?
    ensures var again := ParseLabels(w, LabelBytes(w, parts)).value;
            Labels.DocumentOk(w.cedar.labels, again) && Labels.RulesOf(w.cedar.labels, again) == parts.labels
  {
    Labels.AcceptedRulesReparse(w.cedar.labels, raw);
    var again := Labels.RawsOf(parts.labels);
    LabelTextParses(w, again);
  }

  lemma LabelTextParses(w: World, raw: seq<Labels.RawRule>)
    requires LawfulCodec(w.codec) && LawfulLabels(w)
    ensures ParseLabels(w, CanonicalBytes(w.codec, LabelDocuments.DocumentValue(raw))) == Some(raw)
  {
    var v := LabelDocuments.DocumentValue(raw);
    LabelDocuments.DocumentIsShallow(raw, 4);
    ShallowBytesRead(w.codec, v, 4);
    SortIsCanonical(v);
    LabelDocuments.DocumentRoundTrip(raw);
    assert LabelDocuments.ReadDocument(Meaning(SortJson(v))) == Some(raw);
    var text := w.codec.fromUtf8(w.codec.write(SortJson(v)) + [NEWLINE]).value;
  }

  /** The caller's signature requirement can be met: an unsigned archive only where that is
      allowed, a signed one under a store that trusts the key. */
  ghost predicate SignatureExpected(w: World, key: Option<Bytes>, policy: SignaturePolicy,
                                    keys: map<string, TrustedKey>, verify: bool)
  {
    match key
    case None => policy.AllowUnsigned?
    case Some(secret) =>
      verify ==>
        var trusted := TrustedKeyOf(w.crypto, w.crypto.publicOf(secret));
        trusted.keyId in keys && keys[trusted.keyId] == trusted
  }

  lemma SignatureReads(w: World, key: Bytes, manifest: Bytes)
    requires LawfulCodec(w.codec)
    ensures ParseSignature(w.codec, SignatureBytes(w, key, manifest)) == Some(SignManifest(w.crypto, key, manifest))
  {
    var s := SignManifest(w.crypto, key, manifest);
    SignatureIsShallow(s, 1);
    ShallowBytesRead(w.codec, SignatureValue(s), 1);
    SignatureRoundTrip(s);
  }

  lemma BuiltSignatureOk(w: World, d: Decoded, key: Option<Bytes>, policy: SignaturePolicy,
                         keys: map<string, TrustedKey>, verify: bool)
    requires LawfulCodec(w.codec) && LawfulCrypto(w.crypto) && SignatureExpected(w, key, policy, keys, verify)
    requires d.signature == if key.Some? then Some(SignatureBytes(w, key.value, d.manifest)) else None
    ensures SignatureOk(w, d, policy, keys, verify)
    ensures SignatureKey(w, d) == if key.Some? then Some(w.crypto.keyId(w.crypto.publicOf(key.value))) else None
  {
    if key.Some? {
      SignatureReads(w, key.value, d.manifest);
      var bytes := w.crypto.sign(key.value, SIGNATURE_DOMAIN + d.manifest);
      assert w.crypto.decode(w.crypto.encode(bytes)) == Some(bytes);
      if verify { SignedVerifies(w.crypto, key.value, keys, d.manifest); }
    }
  }

  /** The bundle manifest is accepted and compiles to these parts, which fit in memory. */
  ghost predicate CompilesTo(w: World, raw: BundleManifest, parts: BundleParts) {
    && BundleOk(raw) && CompileOk(w.cedar, Loaded(raw))
    && parts == Parts(w.cedar, Loaded(raw)) && InMemory(w, parts)
  }

  /** The artifacts of a compiled bundle are in order, and hold its parts, if its schema can be read. */
  lemma BuiltArtifactsOk(w: World, raw: BundleManifest, parts: BundleParts, key: Option<Bytes>)
    requires Lawful(w) && CompilesTo(w, raw, parts) && SchemaReadable(w.codec, parts.schema)
    ensures var d, m := Built(w, parts, key), BuiltManifest(w, parts);
            ArtifactsOk(w, d, m) && PartsOf(w, d, m) == parts
  {
    BuiltSchemaReads(w, parts, key);
    CompiledPartsOk(w.cedar, Loaded(raw));
    var rules := CompiledLabelsOk(w.cedar, Loaded(raw));
    BuiltLabelsRead(w, parts, rules);
    assert w.codec.fromUtf8(w.codec.utf8(parts.policies)) == Some(parts.policies);
  }

  /** The artifacts of a built archive are in order exactly when its schema can be read. */
  lemma BuiltArtifactsOkIff(w: World, raw: BundleManifest, parts: BundleParts, key: Option<Bytes>)
    requires Lawful(w) && CompilesTo(w, raw, parts)
    ensures var d, m := Built(w, parts, key), BuiltManifest(w, parts);
            && (ArtifactsOk(w, d, m) <==> SchemaReadable(w.codec, parts.schema))
            && (ArtifactsOk(w, d, m) ==> PartsOf(w, d, m) == parts)
  {
    if SchemaReadable(w.codec, parts.schema) {
      BuiltArtifactsOk(w, raw, parts, key);
    } else {
      BuiltSchemaReads(w, parts, key);
    }
  }

  lemma BuiltContentOkIff(w: World, raw: BundleManifest, parts: BundleParts, key: Option<Bytes>)
    requires Lawful(w) && CompilesTo(w, raw, parts)
    ensures var d, m := Built(w, parts, key), BuiltManifest(w, parts);
            && ParseManifest(w.codec, d.manifest) == Some(m)
            && (ContentOk(w, d) <==> SchemaReadable(w.codec, parts.schema))
            && (ContentOk(w, d) ==> PartsOf(w, d, m) == parts)
  {
    BuiltManifestReads(w, parts);
    CompiledManifestOk(w.cedar, raw, BuiltManifest(w, parts));
    BuiltArtifactsOkIff(w, raw, parts, key);
    ContentOkIff(w, Built(w, parts, key), BuiltManifest(w, parts));
  }

  lemma ContentOkIff(w: World, d: Decoded, m: ArchiveManifest)
    requires ParseManifest(w.codec, d.manifest) == Some(m) && ManifestOk(m)
    requires ArtifactsMatch(w.codec, m.artifacts, DecodedArtifacts(d)) && m.bundleId == BundleId(w.codec, m)
    ensures ContentOk(w, d) <==> ArtifactsOk(w, d, m)
  {
  }

  /** The verifier accepts what the compiler emits exactly when there is no schema or one that
      its reader can take; and then with the same manifest and the very parts compiled. */
  lemma CompiledArchiveIsAcceptedIff(w: World, raw: BundleManifest, parts: BundleParts, key: Option<Bytes>,
                                     policy: SignaturePolicy, keys: map<string, TrustedKey>, verify: bool)
    requires Lawful(w) && CompilesTo(w, raw, parts) && SignatureExpected(w, key, policy, keys, verify)
    ensures var d := Built(w, parts, key);
            && ParseManifest(w.codec, d.manifest) == Some(BuiltManifest(w, parts))
            && (DecodedOk(w, d, policy, keys, verify) <==> SchemaReadable(w.codec, parts.schema))
            && (DecodedOk(w, d, policy, keys, verify) ==> PartsOf(w, d, BuiltManifest(w, parts)) == parts)
  {
    BuiltContentOkIff(w, raw, parts, key);
    BuiltSignatureOk(w, Built(w, parts, key), key, policy, keys, verify);
  }

  lemma PackedUnpacks(w: World, d: Decoded)
    requires LawfulContainer(w.container)
    ensures Unpacked(w, w.container.pack(EntriesOf(d))) == Some(d)
  {
    EntriesRoundTrip(d);
    assert w.container.unpack(w.container.pack(EntriesOf(d))).value.tar == Regular(EntriesOf(d));
  }

  /** The bytes of a packed archive are within the limits. */
  predicate WithinArchiveLimits(c: Container, limits: Limits, d: Decoded) {
    |c.pack(EntriesOf(d))| <= limits.maxCompressed && c.size(EntriesOf(d)) <= limits.maxUncompressed
  }

  /** Packed bytes validate exactly when they are within the limits and what was packed is in order. */
  lemma PackedArchiveOk(w: World, limits: Limits, d: Decoded, policy: SignaturePolicy,
                        keys: map<string, TrustedKey>, verify: bool)
    requires LawfulContainer(w.container) && LimitsOk(limits)
    ensures ArchiveOk(w, limits, w.container.pack(EntriesOf(d)), policy, keys, verify)
            <==> WithinArchiveLimits(w.container, limits, d) && DecodedOk(w, d, policy, keys, verify)
  {
    PackedDecodesIff(w.container, limits, d);
    PackedUnpacks(w, d);
    ArchiveOkIff(w, limits, w.container.pack(EntriesOf(d)), d, policy, keys, verify);
  }

  lemma ArchiveOkIff(w: World, limits: Limits, bytes: Bytes, d: Decoded, policy: SignaturePolicy,
                     keys: map<string, TrustedKey>, verify: bool)
    requires Unpacked(w, bytes) == Some(d)
    ensures ArchiveOk(w, limits, bytes, policy, keys, verify)
            <==> DecodeOk(w.container, limits, bytes) && DecodedOk(w, d, policy, keys, verify)
  {
  }

  /** The bytes built from a compiled bundle validate exactly when they are within the limits
      and the schema can be read. */
  lemma BuiltArchiveValidatesIff(w: World, limits: Limits, raw: BundleManifest, parts: BundleParts,
                                 key: Option<Bytes>, policy: SignaturePolicy, keys: map<string, TrustedKey>,
                                 verify: bool)
    requires Lawful(w) && CompilesTo(w, raw, parts) && LimitsOk(limits)
    requires SignatureExpected(w, key, policy, keys, verify)
    ensures var d := Built(w, parts, key);
            ArchiveOk(w, limits, w.container.pack(EntriesOf(d)), policy, keys, verify)
            <==> WithinArchiveLimits(w.container, limits, d) && SchemaReadable(w.codec, parts.schema)
  {
    PackedArchiveOk(w, limits, Built(w, parts, key), policy, keys, verify);
    CompiledArchiveIsAcceptedIff(w, raw, parts, key, policy, keys, verify);
  }

  // ---- Signing again ----

  function Resigned(w: World, d: Decoded, key: Bytes): Decoded {
    d.(signature := Some(SignatureBytes(w, key, d.manifest)))
  }

  /** Replaces the signature of an archive that is otherwise in order. */
  method Resign(w: World, limits: Limits, bytes: Bytes, key: Bytes) returns (r: Result<Bytes>)
    ensures r.Ok? <==> ArchiveOk(w, limits, bytes, AllowUnsigned, map[], false)
    ensures r.Ok? ==> r.value == w.container.pack(EntriesOf(Resigned(w, Unpacked(w, bytes).value, key)))
  {
    var decoded := DecodeArchive(w.container, limits, bytes);
    if decoded.Err? { return Err(decoded.error); }
    var d := decoded.value;
    DecodeGivesUnpacked(w, limits, bytes, d);
    var validated := ValidateDecoded(w, d, AllowUnsigned, map[], false);
    if validated.Err? { return Err(validated.error); }
    var artifacts := ListArtifacts(d);
    var entries := EncodeEntries(d.manifest, Some(SignatureBytes(w, key, d.manifest)), artifacts);
    r := Ok(w.container.pack(entries));
  }

  /** `after` is what a successful re-sign of `before` returns. */
  ghost predicate ResignStep(w: World, limits: Limits, key: Bytes, before: Bytes, after: Bytes) {
    && ArchiveOk(w, limits, before, AllowUnsigned, map[], false)
    && after == w.container.pack(EntriesOf(Resigned(w, Unpacked(w, before).value, key)))
  }

  /** A run of successful re-signs: archives[i + 1] is archives[i] signed with keys[i]. */
  ghost predicate ResignChain(w: World, limits: Limits, archives: seq<Bytes>, keys: seq<Bytes>) {
    && |archives| == |keys| + 1
    && forall i :: 0 <= i < |keys| ==> ResignStep(w, limits, keys[i], archives[i], archives[i + 1])
  }

  /** After any run the archive holds what it held at the start, except for the signature,
      which is the last key's. */
  lemma {:induction false} ChainKeepsContent(w: World, limits: Limits, archives: seq<Bytes>, keys: seq<Bytes>, n: nat)
    requires LawfulContainer(w.container) && ResignChain(w, limits, archives, keys) && 0 < n <= |keys|
    ensures Unpacked(w, archives[0]).Some?
    ensures Unpacked(w, archives[n]) == Some(Resigned(w, Unpacked(w, archives[0]).value, keys[n - 1]))
  {
    assert ResignStep(w, limits, keys[n - 1], archives[n - 1], archives[n - 1 + 1]);
    PackedUnpacks(w, Resigned(w, Unpacked(w, archives[n - 1]).value, keys[n - 1]));
    if n > 1 { ChainKeepsContent(w, limits, archives, keys, n - 1); }
  }

  /** Checks other than the signature's do not look at the signature. */
  lemma ContentIgnoresSignature(w: World, d: Decoded, signature: Option<Bytes>)
    requires ContentOk(w, d)
    ensures ContentOk(w, d.(signature := signature))
  {
    var e := d.(signature := signature);
    assert DecodedArtifacts(e) == DecodedArtifacts(d);
    ArtifactsIgnoreSignature(w, d, ParseManifest(w.codec, d.manifest).value, signature);
  }

  lemma ArtifactsIgnoreSignature(w: World, d: Decoded, m: ArchiveManifest, signature: Option<Bytes>)
    requires ArtifactsOk(w, d, m)
    ensures ArtifactsOk(w, d.(signature := signature), m)
  {
    var e := d.(signature := signature);
    assert SchemaOf(w, e) == SchemaOf(w, d) && ArtifactsReadable(w, e);
  }

  /** Signing an archive in order again leaves it in order. */
  lemma ResignedIsOk(w: World, d: Decoded, key: Bytes, trusted: map<string, TrustedKey>)
    requires LawfulCodec(w.codec) && LawfulCrypto(w.crypto)
    requires DecodedOk(w, d, AllowUnsigned, map[], false)
    requires SignatureExpected(w, Some(key), Required, trusted, true)
    ensures DecodedOk(w, Resigned(w, d, key), Required, trusted, true)
    ensures ParseManifest(w.codec, Resigned(w, d, key).manifest) == ParseManifest(w.codec, d.manifest)
  {
    var r := Resigned(w, d, key);
    BuiltSignatureOk(w, r, Some(key), Required, trusted, true);
    ContentIgnoresSignature(w, d, r.signature);
  }

  /** Any run of successful re-signs keeps every byte but the signature and so the bundle
      id, and its last archive is accepted, signature required, by every store that trusts the last key. */
  lemma ChainVerifiesUnderLastKey(w: World, limits: Limits, archives: seq<Bytes>, keys: seq<Bytes>,
                                  trusted: map<string, TrustedKey>, final: Limits)
    requires LawfulContainer(w.container) && LawfulCodec(w.codec) && LawfulCrypto(w.crypto)
    requires ResignChain(w, limits, archives, keys) && keys != []
    requires SignatureExpected(w, Some(keys[|keys| - 1]), Required, trusted, true) && LimitsOk(final)
    ensures Unpacked(w, archives[0]).Some? && Unpacked(w, archives[|keys|]).Some?
    ensures var first, last := Unpacked(w, archives[0]).value, Unpacked(w, archives[|keys|]).value;
            && last == first.(signature := last.signature)
            && ParseManifest(w.codec, first.manifest).Some?
            && ParseManifest(w.codec, last.manifest) == ParseManifest(w.codec, first.manifest)
            && DecodedOk(w, last, Required, trusted, true)
            && (ArchiveOk(w, final, archives[|keys|], Required, trusted, true)
                <==> WithinArchiveLimits(w.container, final, last))
  {
    ChainKeepsContent(w, limits, archives, keys, |keys|);
    assert ResignStep(w, limits, keys[0], archives[0], archives[0 + 1]);
    var first, key := Unpacked(w, archives[0]).value, keys[|keys| - 1];
    ResignedIsOk(w, first, key, trusted);
    LastArchive(w, limits, archives, keys);
    PackedArchiveOk(w, final, Resigned(w, first, key), Required, trusted, true);
  }

  /** The last archive of a run is the packed form of what it holds. */
  lemma LastArchive(w: World, limits: Limits, archives: seq<Bytes>, keys: seq<Bytes>)
    requires LawfulContainer(w.container) && ResignChain(w, limits, archives, keys) && keys != []
    ensures Unpacked(w, archives[0]).Some?
    ensures var last := Resigned(w, Unpacked(w, archives[0]).value, keys[|keys| - 1]);
            Unpacked(w, archives[|keys|]) == Some(last) && archives[|keys|] == w.container.pack(EntriesOf(last))
  {
    var n := |keys|;
    ChainKeepsContent(w, limits, archives, keys, n);
    assert ResignStep(w, limits, keys[n - 1], archives[n - 1], archives[n - 1 + 1]);
    if n > 1 { ChainKeepsContent(w, limits, archives, keys, n - 1); }
  }
}
