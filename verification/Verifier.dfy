/** `validate_archive_parts` and `validate_decoded`: the ownership, partition and schema
    checks, made again from an archive alone. */
module Verifier {
  import opened Text
  import opened Diagnostics
  import opened Json
  import opened Manifests
  import opened Policies
  import opened Codecs
  import opened ArchiveManifests
  import opened Archives
  import opened Compiler
  import opened ManifestCheck
  import opened Signing
  import Labels
  import Names
  import Schemas

  // ---- Policies against the module assignment ----

  /** The module a policy id is assigned to: the last one listing it. */
  function ModuleFor(modules: seq<ModuleRecord>, n: nat, id: string): Option<ModuleRecord>
    requires n <= |modules|
  {
    if n == 0 then None
    else if id in modules[n - 1].policyIds then Some(modules[n - 1])
    else ModuleFor(modules, n - 1, id)
  }

  function Assignee(modules: seq<ModuleRecord>, id: string): Option<ModuleRecord> {
    ModuleFor(modules, |modules|, id)
  }

  /** The policy has an id, is assigned, and satisfies its module's ownership rules. */
  ghost predicate ArchivePolicyOk(p: Policy, modules: seq<ModuleRecord>) {
    && IdOf(p) != ""
    && Assignee(modules, IdOf(p)).Some?
    && OwnershipHolds(p, Assignee(modules, IdOf(p)).value)
  }

  /** The ordered set of the first n policies' ids. */
  function ActualIds(policies: seq<Policy>, n: nat): seq<string>
    requires n <= |policies|
  {
    if n == 0 then [] else Insert(ActualIds(policies, n - 1), IdOf(policies[n - 1]))
  }

  ghost predicate ArchivePoliciesOk(policies: seq<Policy>, modules: seq<ModuleRecord>, n: nat)
    requires n <= |policies|
  {
    n > 0 ==>
      && ArchivePoliciesOk(policies, modules, n - 1)
      && ArchivePolicyOk(policies[n - 1], modules)
      && IdOf(policies[n - 1]) !in ActualIds(policies, n - 1)
  }

  /** An id should begin with the name of the module it is assigned to. */
  function ArchiveWarning(p: Policy, modules: seq<ModuleRecord>): seq<Diagnostic> {
    match Assignee(modules, IdOf(p)) case None => [] case Some(m) => PrefixWarning(p, m.name)
  }

  /** The warnings about the first n policies. */
  function ArchiveWarnings(policies: seq<Policy>, modules: seq<ModuleRecord>, n: nat): seq<Diagnostic>
    requires n <= |policies|
  {
    if n == 0 then [] else ArchiveWarnings(policies, modules, n - 1) + ArchiveWarning(policies[n - 1], modules)
  }

  method CheckArchivePolicy(p: Policy, modules: seq<ModuleRecord>, actualIds: Mut<seq<string>>,
                            diagnostics: Mut<seq<Diagnostic>>)
    modifies actualIds, diagnostics
    ensures Appended(old(diagnostics.value), diagnostics.value,
                     !(ArchivePolicyOk(p, modules) && IdOf(p) !in old(actualIds.value)), ArchiveWarning(p, modules))
    ensures IdOf(p) != "" ==> actualIds.value == Insert(old(actualIds.value), IdOf(p))
  {
    if IdOf(p) == "" {
      ReportIf(true, PolicyMissingId, diagnostics);
      ReportedIsAppended(old(diagnostics.value), diagnostics.value, true);
      return;
    }
    var repeated := IdOf(p) in actualIds.value;
    ReportIf(repeated, PolicyDuplicateId, diagnostics);
    actualIds.value := Insert(actualIds.value, IdOf(p));
    var assignee := Assignee(modules, IdOf(p));
    ReportIf(assignee.None?, ArchivePolicyModuleMissing, diagnostics);
    ReportedIsAppended(old(diagnostics.value), diagnostics.value, repeated || assignee.None?);
    if assignee.None? { return; }
    ghost var known := diagnostics.value;
    WarnIf(!(Prefix(assignee.value.name) <= IdOf(p)), PolicyIdPrefix, diagnostics);
    ghost var warned := diagnostics.value;
    ValidatePolicyOwnership(p, assignee.value, diagnostics);
    ghost var foreign := !OwnershipHolds(p, assignee.value);
    ReportedIsAppended(warned, diagnostics.value, foreign);
    ThreeChecks(old(diagnostics.value), known, warned, diagnostics.value, repeated, foreign,
                ArchiveWarning(p, modules));
  }

  method CheckArchivePolicies(policies: seq<Policy>, modules: seq<ModuleRecord>, diagnostics: Mut<seq<Diagnostic>>)
    returns (ids: seq<string>)
    modifies diagnostics
    ensures Appended(old(diagnostics.value), diagnostics.value, !ArchivePoliciesOk(policies, modules, |policies|),
                     ArchiveWarnings(policies, modules, |policies|))
    ensures ArchivePoliciesOk(policies, modules, |policies|) ==> ids == ActualIds(policies, |policies|)
  {
    var actualIds := new Mut<seq<string>>([]);
    for i := 0 to |policies|
      invariant fresh(actualIds)
      invariant Appended(old(diagnostics.value), diagnostics.value, !ArchivePoliciesOk(policies, modules, i),
                         ArchiveWarnings(policies, modules, i))
      invariant ArchivePoliciesOk(policies, modules, i) ==> actualIds.value == ActualIds(policies, i)
    {
      ghost var before := diagnostics.value;
      ghost var fits := ArchivePolicyOk(policies[i], modules) && IdOf(policies[i]) !in actualIds.value;
      CheckArchivePolicy(policies[i], modules, actualIds, diagnostics);
      AppendedTwice(old(diagnostics.value), before, diagnostics.value, !ArchivePoliciesOk(policies, modules, i), !fits,
                    ArchiveWarnings(policies, modules, i), ArchiveWarning(policies[i], modules));
    }
    ids := actualIds.value;
  }

  // ---- All parts ----

  predicate TargetsOwnedBySome(rules: seq<Labels.Rule>, roots: seq<string>) {
    forall i :: 0 <= i < |rules| ==>
      exists k :: 0 <= k < |roots| && Names.Owns(roots[k], rules[i].target.resourceType)
  }

  lemma TargetsOwnedIff(rules: seq<Labels.Rule>, roots: seq<string>)
    ensures TargetsOwnedBySome(rules, roots)
            <==> forall i :: 0 <= i < |rules| ==> Schemas.OwnedBySome(rules[i].target.resourceType, roots)
  {
    if TargetsOwnedBySome(rules, roots) {
      forall i | 0 <= i < |rules| ensures Schemas.OwnedBySome(rules[i].target.resourceType, roots) {
        var k :| 0 <= k < |roots| && Names.Owns(roots[k], rules[i].target.resourceType);
      }
    }
    if forall i :: 0 <= i < |rules| ==> Schemas.OwnedBySome(rules[i].target.resourceType, roots) {
      forall i | 0 <= i < |rules|
        ensures exists k :: 0 <= k < |roots| && Names.Owns(roots[k], rules[i].target.resourceType)
      {
        assert Schemas.OwnedBySome(rules[i].target.resourceType, roots);
      }
    }
  }

  method CheckLabelTargets(rules: seq<Labels.Rule>, roots: seq<string>, diagnostics: Mut<seq<Diagnostic>>)
    modifies diagnostics
    ensures Reported(old(diagnostics.value), diagnostics.value, !TargetsOwnedBySome(rules, roots))
  {
    for i := 0 to |rules|
      invariant Reported(old(diagnostics.value), diagnostics.value,
                         exists k :: 0 <= k < i && !Schemas.OwnedBySome(rules[k].target.resourceType, roots))
    {
      ReportIf(!Schemas.OwnedBySome(rules[i].target.resourceType, roots), LabelsNamespace, diagnostics);
    }
    TargetsOwnedIff(rules, roots);
  }

  /** Schema ownership and agreement, when there is a schema. */
  predicate ArchiveSchemaOk(cedar: Cedar, schema: Option<Json>, policies: seq<Policy>,
                            labels: seq<Labels.Rule>, roots: seq<string>)
  {
    schema.Some? ==>
      Schemas.SpacesOwnedBySome(schema.value, roots) && SchemaAgrees(cedar, schema.value, policies, labels)
  }

  /** What the parts of an accepted archive satisfy. */
  ghost predicate ArchivePartsOk(cedar: Cedar, modules: seq<ModuleRecord>, policies: string, schema: Option<Json>,
                                 labels: seq<Labels.Rule>, declared: seq<string>)
  {
    && cedar.parsePolicies(policies).Some?
    && var parsed := cedar.parsePolicies(policies).value;
       && parsed.templates == 0 && (forall i :: 0 <= i < |parsed.policies| ==> parsed.policies[i].isStatic)
       && ArchivePoliciesOk(parsed.policies, modules, |parsed.policies|)
       && ActualIds(parsed.policies, |parsed.policies|) == InsertAll([], declared)
       && ArchiveSchemaOk(cedar, schema, parsed.policies, labels, Spaces(modules))
       && TargetsOwnedBySome(labels, Spaces(modules))
  }

  /** Cedar's warnings about the policies, or that there was no schema to check them against. */
  function AgreementWarnings(cedar: Cedar, schema: Option<Json>, policies: seq<Policy>): seq<Diagnostic> {
    match schema case None => [WarningOf(SchemaSkipped)] case Some(j) => StrictWarnings(cedar, policies, j)
  }

  /** The warnings about the parts of an archive whose text parses to the policies. */
  function ArchivePartsWarnings(cedar: Cedar, modules: seq<ModuleRecord>, policies: seq<Policy>,
                                schema: Option<Json>): seq<Diagnostic>
  {
    ArchiveWarnings(policies, modules, |policies|) + AgreementWarnings(cedar, schema, policies)
  }

  method CheckArchiveSchema(cedar: Cedar, schema: Option<Json>, policies: seq<Policy>, labels: seq<Labels.Rule>,
                            roots: seq<string>, diagnostics: Mut<seq<Diagnostic>>)
    modifies diagnostics
    ensures Appended(old(diagnostics.value), diagnostics.value,
                     !ArchiveSchemaOk(cedar, schema, policies, labels, roots),
                     AgreementWarnings(cedar, schema, policies))
  {
    if schema.None? {
      WarnIf(true, SchemaSkipped, diagnostics);
      return;
    }
    var foreign := !Schemas.SpacesOwnedBySome(schema.value, roots);
    Schemas.ValidateAggregateSchemaOwnership(schema.value, roots, diagnostics);
    ReportedIsAppended(old(diagnostics.value), diagnostics.value, foreign);
    ghost var owned := diagnostics.value;
    CheckAgainstSchema(cedar, schema.value, policies, labels, diagnostics);
    ghost var warnings := StrictWarnings(cedar, policies, schema.value);
    AppendedTwice(old(diagnostics.value), owned, diagnostics.value, foreign,
                  !SchemaAgrees(cedar, schema.value, policies, labels), [], warnings);
    assert [] + warnings == warnings;
  }

  method ValidateArchiveParts(cedar: Cedar, name: string, modules: seq<ModuleRecord>, policies: string,
                              schema: Option<Json>, labels: seq<Labels.Rule>, declared: seq<string>)
    returns (r: Result<BundleParts>)
    ensures r.Ok? <==> ArchivePartsOk(cedar, modules, policies, schema, labels, declared)
    ensures r.Ok? ==> r.value
                      == BundleParts(name, modules, policies, schema, labels, InsertAll([], declared),
                                     ArchivePartsWarnings(cedar, modules, cedar.parsePolicies(policies).value.policies,
                                                          schema))
  {
    var diagnostics := new Mut<seq<Diagnostic>>([]);
    var parsed := cedar.parsePolicies(policies);
    if parsed.None? {
      return Err(Validation([ErrorOf(PolicySyntax)]));
    }
    var p := parsed.value.policies;
    ReportIf(!AllStatic(parsed.value), PolicyTemplates, diagnostics);
    ghost var a := diagnostics.value;
    ReportedIsAppended([], a, !AllStatic(parsed.value));
    var ids := CheckArchivePolicies(p, modules, diagnostics);
    ghost var b := diagnostics.value;
    var mismatch := ids != InsertAll([], declared);
    ReportIf(mismatch, ArchivePolicyIdsMismatch, diagnostics);
    ghost var c := diagnostics.value;
    ReportedIsAppended(b, c, mismatch);
    CheckArchiveSchema(cedar, schema, p, labels, Spaces(modules), diagnostics);
    ghost var d := diagnostics.value;
    CheckLabelTargets(labels, Spaces(modules), diagnostics);
    ReportedIsAppended(d, diagnostics.value, !TargetsOwnedBySome(labels, Spaces(modules)));
    FiveChecks(a, b, c, d, diagnostics.value, !AllStatic(parsed.value), !ArchivePoliciesOk(p, modules, |p|), mismatch,
               !ArchiveSchemaOk(cedar, schema, p, labels, Spaces(modules)),
               !TargetsOwnedBySome(labels, Spaces(modules)),
               ArchiveWarnings(p, modules, |p|), AgreementWarnings(cedar, schema, p));
    if HasError(diagnostics.value) {
      return Err(Validation(diagnostics.value));
    }
    r := Ok(BundleParts(name, modules, policies, schema, labels, ids, diagnostics.value));
  }

  /** Five checks on an empty list, of which the second and the fourth may warn. */
  lemma FiveChecks(a: seq<Diagnostic>, b: seq<Diagnostic>, c: seq<Diagnostic>, d: seq<Diagnostic>, e: seq<Diagnostic>,
                   templates: bool, policies: bool, ids: bool, schema: bool, labels: bool,
                   first: seq<Diagnostic>, second: seq<Diagnostic>)
    requires Appended([], a, templates, []) && Appended(a, b, policies, first) && Appended(b, c, ids, [])
    requires Appended(c, d, schema, second) && Appended(d, e, labels, [])
    ensures HasError(e) <==> templates || policies || ids || schema || labels
    ensures !HasError(e) ==> e == first + second
  {
    AppendedTwice([], a, b, templates, policies, [], first);
    AppendedTwice([], b, c, templates || policies, ids, [] + first, []);
    AppendedTwice([], c, d, templates || policies || ids, schema, ([] + first) + [], second);
    assert ([] + first) + [] == first;
  }

  // ---- What acceptance establishes ----

  lemma {:induction false} ActualIdsSorted(policies: seq<Policy>, n: nat)
    requires n <= |policies|
    ensures StrictlySorted(ActualIds(policies, n))
    ensures forall x :: x in ActualIds(policies, n) <==> exists k :: 0 <= k < n && IdOf(policies[k]) == x
  {
    if n > 0 {
      ActualIdsSorted(policies, n - 1);
      forall x ensures x in ActualIds(policies, n) <==> exists k :: 0 <= k < n && IdOf(policies[k]) == x {
        assert x in ActualIds(policies, n) <==> x in ActualIds(policies, n - 1) || x == IdOf(policies[n - 1]);
      }
    }
  }

  lemma {:induction false} AssigneeAt(modules: seq<ModuleRecord>, n: nat, id: string) returns (j: nat)
    requires n <= |modules| && ModuleFor(modules, n, id).Some?
    ensures j < n && modules[j] == ModuleFor(modules, n, id).value && id in modules[j].policyIds
  {
    if id in modules[n - 1].policyIds { j := n - 1; } else { j := AssigneeAt(modules, n - 1, id); }
  }

  lemma {:induction false} PolicyOkAt(policies: seq<Policy>, modules: seq<ModuleRecord>, n: nat, k: nat)
    requires k < n <= |policies| && ArchivePoliciesOk(policies, modules, n)
    ensures ArchivePolicyOk(policies[k], modules)
  {
    if k < n - 1 { PolicyOkAt(policies, modules, n - 1, k); }
  }

  lemma {:induction false} PolicyIdsDiffer(policies: seq<Policy>, modules: seq<ModuleRecord>, n: nat)
    requires n <= |policies| && ArchivePoliciesOk(policies, modules, n)
    ensures DistinctStrings(Ids(policies[..n]))
  {
    if n > 0 {
      PolicyIdsDiffer(policies, modules, n - 1);
      ActualIdsSorted(policies, n - 1);
      var ids := Ids(policies[..n]);
      assert ids[..n - 1] == Ids(policies[..n - 1]);
      OneMoreString(ids, n - 1);
      assert ids[..n] == ids;
    }
  }

  /** Place l of module i names the policy, and the policy satisfies that module's rules. */
  ghost predicate PassedAt(modules: seq<ModuleRecord>, p: Policy, i: int, l: int) {
    ListedAt(modules, IdOf(p), i, l) && OwnershipHolds(p, modules[i])
  }

  lemma {:induction false} DeclaredIffActual(policies: seq<Policy>, declared: seq<string>, id: string)
    requires ActualIds(policies, |policies|) == InsertAll([], declared)
    ensures id in declared <==> id in Ids(policies)
  {
    ActualIdsSorted(policies, |policies|);
    InsertAllMembers([], declared);
    var ids := Ids(policies);
    assert id in declared <==> id in ActualIds(policies, |policies|);
    if k :| 0 <= k < |policies| && IdOf(policies[k]) == id { assert ids[k] == id; }
    if k :| 0 <= k < |ids| && ids[k] == id { assert IdOf(policies[k]) == id; }
  }

  lemma {:induction false} PolicyPassed(policies: seq<Policy>, modules: seq<ModuleRecord>, k: nat)
    requires ArchivePoliciesOk(policies, modules, |policies|) && k < |policies|
    ensures exists i, l :: PassedAt(modules, policies[k], i, l)
  {
    PolicyOkAt(policies, modules, |policies|, k);
    var i := AssigneeAt(modules, |modules|, IdOf(policies[k]));
    var l :| 0 <= l < |modules[i].policyIds| && modules[i].policyIds[l] == IdOf(policies[k]);
    assert PassedAt(modules, policies[k], i, l);
  }

  /** The policies in the text of an accepted archive are in bijection with the declared ids. */
  lemma {:induction false} AcceptedPoliciesAreTheDeclared(m: ArchiveManifest, policies: seq<Policy>)
    requires ManifestOk(m) && ArchivePoliciesOk(policies, m.modules, |policies|)
    requires ActualIds(policies, |policies|) == InsertAll([], m.policyIds)
    ensures DistinctStrings(Ids(policies)) && |Ids(policies)| == |m.policyIds|
    ensures forall id :: id in m.policyIds <==> id in Ids(policies)
  {
    PolicyIdsDiffer(policies, m.modules, |policies|);
    assert policies[..|policies|] == policies;
    forall id ensures id in m.policyIds <==> id in Ids(policies) { DeclaredIffActual(policies, m.policyIds, id); }
    SortedIsDistinct(m.policyIds);
    SameMembersSameLength(Ids(policies), m.policyIds);
  }

  /** Each of them passed the ownership check of the one module that lists it. */
  lemma {:induction false} AcceptedPoliciesPassed(m: ArchiveManifest, policies: seq<Policy>, k: nat)
    requires ManifestOk(m) && ArchivePoliciesOk(policies, m.modules, |policies|) && k < |policies|
    ensures exists i, l :: PassedAt(m.modules, policies[k], i, l)
    ensures forall i, l :: ListedAt(m.modules, IdOf(policies[k]), i, l) ==> PassedAt(m.modules, policies[k], i, l)
  {
    PolicyPassed(policies, m.modules, k);
    var i, l :| PassedAt(m.modules, policies[k], i, l);
    AcceptedPartitions(m);
  }

  // ---- A decoded archive ----

  /** Everything outside this repository that a bundle passes through. */
  datatype World = World(cedar: Cedar, codec: Codec, crypto: Crypto, container: Container)

  datatype SignaturePolicy = AllowUnsigned | Required

  datatype VerifiedSignature = VerifiedSignature(signed: bool, keyId: Option<string>)

  /** The manifest a JSON text without repeated keys holds. */
  function ParseManifest(codec: Codec, bytes: Bytes): (r: Option<ArchiveManifest>)
    ensures r.Some? ==> codec.readRecord(bytes).Some?
                        && ReadManifest(Meaning(codec.readRecord(bytes).value)) == r
  {
    match codec.readRecord(bytes) case None => None case Some(v) => ReadManifest(Meaning(v))
  }

  function ParseSignature(codec: Codec, bytes: Bytes): (r: Option<Signature>)
    ensures r.Some? ==> codec.readRecord(bytes).Some?
                        && ReadSignature(Meaning(codec.readRecord(bytes).value)) == r
  {
    match codec.readRecord(bytes) case None => None case Some(v) => ReadSignature(Meaning(v))
  }

  function ParseSchema(codec: Codec, bytes: Bytes): (r: Option<Json>)
    ensures r.Some? ==> codec.read(bytes).Some? && Meaning(codec.read(bytes).value) == r.value
  {
    match codec.read(bytes) case None => None case Some(v) => Some(Meaning(v))
  }

  /** The rules a label document lists, if its text is a document. */
  function ParseLabels(w: World, bytes: Bytes): (r: Option<seq<Labels.RawRule>>)
    ensures r.Some? ==> w.codec.fromUtf8(bytes).Some? && w.cedar.parseLabels(w.codec.fromUtf8(bytes).value) == r
  {
    match w.codec.fromUtf8(bytes) case None => None case Some(text) => w.cedar.parseLabels(text)
  }

  /** The signature has the supported version and algorithm, and as many bytes as a signature has. */
  predicate SignatureFormed(crypto: Crypto, s: Signature) {
    && s.formatVersion == 2 && s.algorithm == "ed25519"
    && match crypto.decode(s.signature) case None => false case Some(bytes) => crypto.wellFormed(bytes)
  }

  /** A signature is present where one is required; a present one is well-formed, and where it is
      checked it is authentic: a trusted key verifies it over the manifest's bytes. */
  predicate SignatureOk(w: World, d: Decoded, policy: SignaturePolicy, keys: map<string, TrustedKey>, verify: bool) {
    && (policy.Required? ==> d.signature.Some?)
    && (d.signature.Some? ==>
          match ParseSignature(w.codec, d.signature.value)
          case None => false
          case Some(s) => SignatureFormed(w.crypto, s) && (verify ==> Authentic(w.crypto, keys, d.manifest, s)))
  }

  /** The archive carries a signature that names the trusted key `id`, and that key verifies its
      bytes over the signature domain and the manifest. */
  ghost predicate SignedUnder(w: World, d: Decoded, keys: map<string, TrustedKey>, id: string) {
    id in keys && keys[id].keyId == id &&
    exists s, bytes ::
      && d.signature.Some? && ParseSignature(w.codec, d.signature.value) == Some(s) && s.keyId == id
      && w.crypto.decode(s.signature) == Some(bytes)
      && w.crypto.verify(keys[id].raw, SIGNATURE_DOMAIN + d.manifest, bytes)
  }

  /** What is reported of an archive's signature is true of the archive. */
  ghost predicate ReportHolds(w: World, d: Decoded, policy: SignaturePolicy, keys: map<string, TrustedKey>,
                              report: VerifiedSignature)
  {
    && (policy.Required? ==> report.signed)
    && (report.signed <==> d.signature.Some?) && (report.signed <==> report.keyId.Some?)
    && (report.signed ==> SignedUnder(w, d, keys, report.keyId.value))
  }

  /** The id reported for an archive's signature. */
  function SignatureKey(w: World, d: Decoded): Option<string> {
    if d.signature.None? then None
    else match ParseSignature(w.codec, d.signature.value) case None => None case Some(s) => Some(s.keyId)
  }

  predicate ArtifactsMatch(codec: Codec, records: seq<Artifact>, entries: seq<Entry>) {
    && |records| == |entries|
    && forall i :: 0 <= i < |records| ==>
         && records[i].path == entries[i].name
         && records[i].size == |entries[i].contents|
         && records[i].sha256 == codec.hash(entries[i].contents)
  }

  function DecodedArtifacts(d: Decoded): seq<Entry> { ArtifactEntries(d.policies, d.schema, d.labels) }

  /** The text, schema and label rules of an archive can be read. */
  predicate ArtifactsReadable(w: World, d: Decoded) {
    && w.codec.fromUtf8(d.policies).Some?
    && (d.schema.Some? ==> ParseSchema(w.codec, d.schema.value).Some?)
    && ParseLabels(w, d.labels).Some?
    && Labels.DocumentOk(w.cedar.labels, ParseLabels(w, d.labels).value)
  }

  function SchemaOf(w: World, d: Decoded): Option<Json> {
    if d.schema.None? then None else ParseSchema(w.codec, d.schema.value)
  }

  /** What the artifacts of an archive with manifest m have to satisfy. */
  ghost predicate ArtifactsOk(w: World, d: Decoded, m: ArchiveManifest) {
    && ArtifactsReadable(w, d)
    && ArchivePartsOk(w.cedar, m.modules, w.codec.fromUtf8(d.policies).value, SchemaOf(w, d),
                      Labels.RulesOf(w.cedar.labels, ParseLabels(w, d.labels).value), m.policyIds)
  }

  /** The parts the artifacts hold, without warnings. */
  function PartsOf(w: World, d: Decoded, m: ArchiveManifest): BundleParts
    requires ArtifactsReadable(w, d)
  {
    BundleParts(m.name, m.modules, w.codec.fromUtf8(d.policies).value, SchemaOf(w, d),
                Labels.RulesOf(w.cedar.labels, ParseLabels(w, d.labels).value), InsertAll([], m.policyIds), [])
  }

  /** The warnings about them. */
  function WarningsIn(w: World, d: Decoded, m: ArchiveManifest): seq<Diagnostic>
    requires ArtifactsReadable(w, d)
  {
    match w.cedar.parsePolicies(w.codec.fromUtf8(d.policies).value)
    case None => []
    case Some(parsed) => ArchivePartsWarnings(w.cedar, m.modules, parsed.policies, SchemaOf(w, d))
  }

  /** What everything but the signature has to satisfy. */
  ghost predicate ContentOk(w: World, d: Decoded) {
    && ParseManifest(w.codec, d.manifest).Some?
    && var m := ParseManifest(w.codec, d.manifest).value;
       && ManifestOk(m)
       && ArtifactsMatch(w.codec, m.artifacts, DecodedArtifacts(d))
       && m.bundleId == BundleId(w.codec, m)
       && ArtifactsOk(w, d, m)
  }

  /** What a decoded archive has to satisfy. */
  ghost predicate DecodedOk(w: World, d: Decoded, policy: SignaturePolicy, keys: map<string, TrustedKey>,
                            verify: bool)
  {
    SignatureOk(w, d, policy, keys, verify) && ContentOk(w, d)
  }

  method CheckArtifacts(codec: Codec, records: seq<Artifact>, entries: seq<Entry>) returns (ok: bool)
    ensures ok <==> ArtifactsMatch(codec, records, entries)
  {
    if |records| != |entries| { return false; }
    for i := 0 to |records|
      invariant forall k :: 0 <= k < i ==>
        records[k].path == entries[k].name && records[k].size == |entries[k].contents|
        && records[k].sha256 == codec.hash(entries[k].contents)
    {
      if records[i].path != entries[i].name || records[i].size != |entries[i].contents|
         || records[i].sha256 != codec.hash(entries[i].contents)
      {
        return false;
      }
    }
    ok := true;
  }

  method CheckSignature(w: World, d: Decoded, policy: SignaturePolicy, keys: map<string, TrustedKey>, verify: bool)
    returns (r: Option<VerifiedSignature>)
    requires forall id :: id in keys ==> keys[id].keyId == id
    ensures r.Some? <==> SignatureOk(w, d, policy, keys, verify)
    ensures r.Some? ==> r.value == VerifiedSignature(d.signature.Some?, SignatureKey(w, d))
    ensures r.Some? && verify ==> ReportHolds(w, d, policy, keys, r.value)
  {
    if d.signature.None? {
      return if policy.Required? then None else Some(VerifiedSignature(false, None));
    }
    var signature := ParseSignature(w.codec, d.signature.value);
    if signature.None? || !FormatOk(w.crypto, signature.value) { return None; }
    if verify {
      var id := Verify(w.crypto, keys, d.manifest, signature.value);
      if id.None? { return None; }
      return Some(VerifiedSignature(true, id));
    }
    r := Some(VerifiedSignature(true, Some(signature.value.keyId)));
  }

  method ValidateArtifacts(w: World, d: Decoded, m: ArchiveManifest) returns (r: Result<BundleParts>)
    ensures r.Ok? <==> ArtifactsOk(w, d, m)
    ensures r.Ok? ==> r.value == PartsOf(w, d, m).(diagnostics := WarningsIn(w, d, m))
  {
    var policies := w.codec.fromUtf8(d.policies);
    if policies.None? { return Err(Archive); }
    var schema := SchemaOf(w, d);
    if d.schema.Some? && schema.None? { return Err(Archive); }
    var raw := ParseLabels(w, d.labels);
    if raw.None? { return Err(Archive); }
    var labels := Labels.FromRaw(w.cedar.labels, raw.value);
    if labels.Err? { return Err(labels.error); }
    r := ValidateArchiveParts(w.cedar, m.name, m.modules, policies.value, schema, labels.value, m.policyIds);
  }

  /** Accepts exactly the archives that are in order, and returns what they hold. */
  method ValidateDecoded(w: World, d: Decoded, policy: SignaturePolicy, keys: map<string, TrustedKey>, verify: bool)
    returns (r: Result<(ArchiveManifest, VerifiedSignature, BundleParts)>)
    requires forall id :: id in keys ==> keys[id].keyId == id
    ensures r.Ok? <==> DecodedOk(w, d, policy, keys, verify)
    ensures r.Ok? ==>
              && Some(r.value.0) == ParseManifest(w.codec, d.manifest)
              && r.value.1 == VerifiedSignature(d.signature.Some?, SignatureKey(w, d))
              && (verify ==> ReportHolds(w, d, policy, keys, r.value.1))
              && r.value.2 == PartsOf(w, d, r.value.0).(diagnostics := WarningsIn(w, d, r.value.0))
  {
    var manifest := ParseManifest(w.codec, d.manifest);
    if manifest.None? { return Err(Archive); }
    var m := manifest.value;
    var signature := CheckSignature(w, d, policy, keys, verify);
    if signature.None? { return Err(Archive); }
    var manifestOk := ValidateManifest(m);
    if !manifestOk { return Err(Archive); }
    var expected := ListArtifacts(d);
    var match_ := CheckArtifacts(w.codec, m.artifacts, expected);
    if !match_ { return Err(Archive); }
    if m.bundleId != BundleId(w.codec, m) { return Err(Archive); }
    var parts := ValidateArtifacts(w, d, m);
    if parts.Err? { return Err(parts.error); }
    r := Ok((m, signature.value, parts.value));
  }

  // ---- A packed archive ----

  /** The contents of an archive's entries. */
  function Unpacked(w: World, bytes: Bytes): Option<Decoded> {
    match w.container.unpack(bytes) case None => None case Some(stream) => DecodedOf(Contents(stream.tar))
  }

  /** The archive decodes within the limits and what it holds is in order. */
  ghost predicate ArchiveOk(w: World, limits: Limits, bytes: Bytes, policy: SignaturePolicy,
                            keys: map<string, TrustedKey>, verify: bool)
  {
    && DecodeOk(w.container, limits, bytes)
    && Unpacked(w, bytes).Some?
    && DecodedOk(w, Unpacked(w, bytes).value, policy, keys, verify)
  }

  lemma DecodeGivesUnpacked(w: World, limits: Limits, bytes: Bytes, d: Decoded)
    requires DecodeOk(w.container, limits, bytes)
    requires EntriesOf(d) == Contents(w.container.unpack(bytes).value.tar)
    ensures Unpacked(w, bytes) == Some(d)
  {
    EntriesRoundTrip(d);
  }

  method Validate(w: World, limits: Limits, bytes: Bytes, policy: SignaturePolicy, store: TrustStore)
    returns (r: Result<(ArchiveManifest, VerifiedSignature, BundleParts)>)
    requires store.Valid()
    ensures r.Ok? <==> ArchiveOk(w, limits, bytes, policy, store.keys, true)
    ensures r.Ok? ==>
              var d := Unpacked(w, bytes).value;
              && Some(r.value.0) == ParseManifest(w.codec, d.manifest)
              && r.value.1 == VerifiedSignature(d.signature.Some?, SignatureKey(w, d))
              && ReportHolds(w, d, policy, store.keys, r.value.1)
              && r.value.2 == PartsOf(w, d, r.value.0).(diagnostics := WarningsIn(w, d, r.value.0))
  {
    var decoded := DecodeArchive(w.container, limits, bytes);
    if decoded.Err? { return Err(decoded.error); }
    DecodeGivesUnpacked(w, limits, bytes, decoded.value);
    r := ValidateDecoded(w, decoded.value, policy, store.keys, true);
  }
}
