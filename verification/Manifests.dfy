/** Module and bundle manifests: the checks on load, and the order of the modules. */
module Manifests {
  import opened Text
  import opened Diagnostics
  import opened Sorting
  import opened Paths
  import Names
  import NeighbourCheck
  import Policies

  const FORMAT_VERSION := 2

  /** Where an input path leads: to a file of the module's directory, elsewhere, or nowhere. */
  datatype Place = Inside | Outside | Unresolved

  /** An input file of a module; no contents when it cannot be read as UTF-8 text. */
  datatype SourceFile = SourceFile(path: string, place: Place, contents: Option<string>)

  datatype ModuleManifest = ModuleManifest(
    formatVersion: nat, name: string, space: string, imports: seq<string>,
    policies: seq<SourceFile>, schemas: seq<SourceFile>, labels: seq<SourceFile>)

  datatype ModuleSelection = ModuleSelection(manifest: ModuleManifest, role: Policies.Role)

  datatype BundleManifest = BundleManifest(formatVersion: nat, name: string, modules: seq<ModuleSelection>)

  // ---- One module ----

  predicate NamespaceOk(value: string) {
    !IsBlank(value) && Names.ValidName(value)
  }

  predicate AllNamespacesOk(values: seq<string>) {
    forall i :: 0 <= i < |values| ==> NamespaceOk(values[i])
  }

  predicate ModuleOk(m: ModuleManifest) {
    && m.formatVersion == 2
    && !IsBlank(m.name)
    && NamespaceOk(m.space)
    && AllNamespacesOk(m.imports) && DistinctStrings(m.imports)
    && m.space !in m.imports
    && InputsOk(m.policies) && InputsOk(m.schemas) && InputsOk(m.labels)
  }

  predicate HasWildcard(path: string) {
    '*' in path || '?' in path || '[' in path || ']' in path
  }

  /** An explicit relative path that does not lead upwards, to a file of the module's directory. */
  predicate InputOk(f: SourceFile) {
    && f.path != "" && f.path[0] != '/'
    && (forall c :: c in f.path ==> c !in {'*', '?', '[', ']'})
    && ".." !in Split(f.path)
    && f.place.Inside?
  }

  predicate InputsOk(files: seq<SourceFile>) {
    forall i :: 0 <= i < |files| ==> InputOk(files[i])
  }

  method ValidateInputPath(f: SourceFile, diagnostics: Mut<seq<Diagnostic>>)
    modifies diagnostics
    ensures Reported(old(diagnostics.value), diagnostics.value, !InputOk(f))
  {
    ComponentsMembers(Split(f.path), true, "..");
    if f.path == "" || IsAbsolute(f.path) || ".." in Components(Split(f.path), true) || HasWildcard(f.path) {
      ReportIf(true, ManifestInvalidInputPath, diagnostics);
      return;
    }
    match f.place {
      case Inside =>
      case Outside => ReportIf(true, ManifestInputEscape, diagnostics);
      case Unresolved => ReportIf(true, ManifestInputUnreadable, diagnostics);
    }
  }

  method ValidateInputs(files: seq<SourceFile>, diagnostics: Mut<seq<Diagnostic>>)
    modifies diagnostics
    ensures Reported(old(diagnostics.value), diagnostics.value, !InputsOk(files))
  {
    for i := 0 to |files|
      invariant Reported(old(diagnostics.value), diagnostics.value, exists k :: 0 <= k < i && !InputOk(files[k]))
    {
      ValidateInputPath(files[i], diagnostics);
    }
  }

  method ValidateNamespace(value: string, diagnostics: Mut<seq<Diagnostic>>)
    modifies diagnostics
    ensures Reported(old(diagnostics.value), diagnostics.value, !NamespaceOk(value))
  {
    if IsBlank(value) {
      ReportIf(true, ManifestEmptyNamespace, diagnostics);
    } else {
      ReportIf(!Names.ValidName(value), ManifestInvalidNamespace, diagnostics);
    }
  }

  method ValidateImports(imports: seq<string>, diagnostics: Mut<seq<Diagnostic>>)
    modifies diagnostics
    ensures Reported(old(diagnostics.value), diagnostics.value, !(AllNamespacesOk(imports) && DistinctStrings(imports)))
  {
    var seen: set<string> := {};
    for i := 0 to |imports|
      invariant forall x :: x in seen <==> exists k :: 0 <= k < i && imports[k] == x
      invariant Reported(old(diagnostics.value), diagnostics.value,
                         !(AllNamespacesOk(imports[..i]) && DistinctStrings(imports[..i])))
    {
      OneMoreString(imports, i);
      assert AllNamespacesOk(imports[..i + 1]) <==> AllNamespacesOk(imports[..i]) && NamespaceOk(imports[i]);
      ValidateNamespace(imports[i], diagnostics);
      ReportIf(imports[i] in seen, ManifestDuplicateImport, diagnostics);
      seen := seen + {imports[i]};
    }
    assert imports[..|imports|] == imports;
  }

  lemma OneMoreString(s: seq<string>, i: nat)
    requires i < |s|
    ensures DistinctStrings(s[..i + 1]) <==> DistinctStrings(s[..i]) && forall k :: 0 <= k < i ==> s[k] != s[i]
  {
    assert s[..i + 1][i] == s[i] && forall k :: 0 <= k < i ==> s[..i + 1][k] == s[k] == s[..i][k];
  }

  /** The content checks made while a module manifest is loaded. */
  method ValidateModule(m: ModuleManifest, diagnostics: Mut<seq<Diagnostic>>)
    modifies diagnostics
    ensures Reported(old(diagnostics.value), diagnostics.value, !ModuleOk(m))
  {
    ReportIf(m.formatVersion != FORMAT_VERSION, ManifestVersion, diagnostics);
    ReportIf(IsBlank(m.name), ManifestEmptyName, diagnostics);
    ValidateNamespace(m.space, diagnostics);
    ValidateImports(m.imports, diagnostics);
    ReportIf(m.space in m.imports, ManifestSelfImport, diagnostics);
    ValidateInputs(m.policies, diagnostics);
    ValidateInputs(m.schemas, diagnostics);
    ValidateInputs(m.labels, diagnostics);
  }

  // ---- The selected modules together ----

  function NameOf(s: ModuleSelection): string { s.manifest.name }

  function SpaceOf(s: ModuleSelection): string { s.manifest.space }

  predicate DistinctNames(modules: seq<ModuleSelection>) {
    DistinctStrings(Mapped(modules, NameOf))
  }

  predicate ImportsResolved(modules: seq<ModuleSelection>, spaces: seq<string>) {
    forall i :: 0 <= i < |modules| ==> forall k :: k in modules[i].manifest.imports ==> k in spaces
  }

  /** Distinct names, no neighbour hit among the sorted namespaces, every import selected. */
  predicate ModuleSetOk(modules: seq<ModuleSelection>) {
    && DistinctNames(modules)
    && !NeighbourCheck.Check(Mapped(modules, SpaceOf))
    && ImportsResolved(modules, Mapped(modules, SpaceOf))
  }

  method ReportDuplicates(names: seq<string>, diagnostics: Mut<seq<Diagnostic>>)
    modifies diagnostics
    ensures Reported(old(diagnostics.value), diagnostics.value, !DistinctStrings(names))
  {
    var seen: set<string> := {};
    for i := 0 to |names|
      invariant forall x :: x in seen <==> exists k :: 0 <= k < i && names[k] == x
      invariant Reported(old(diagnostics.value), diagnostics.value, !DistinctStrings(names[..i]))
    {
      OneMoreString(names, i);
      ReportIf(names[i] in seen, ManifestDuplicateModule, diagnostics);
      seen := seen + {names[i]};
    }
    assert names[..|names|] == names;
  }

  method ReportNeighbours(ordered: seq<string>, diagnostics: Mut<seq<Diagnostic>>)
    modifies diagnostics
    ensures Reported(old(diagnostics.value), diagnostics.value, NeighbourCheck.NeighbourHit(ordered))
  {
    var i := 0;
    while i + 1 < |ordered|
      invariant 0 <= i <= |ordered|
      invariant Reported(old(diagnostics.value), diagnostics.value, NeighbourCheck.HitBefore(ordered, i))
    {
      ReportIf(Names.Overlap(ordered[i], ordered[i + 1]), ManifestOverlap, diagnostics);
      i := i + 1;
    }
  }

  method ReportUnresolved(modules: seq<ModuleSelection>, spaces: seq<string>, diagnostics: Mut<seq<Diagnostic>>)
    modifies diagnostics
    ensures Reported(old(diagnostics.value), diagnostics.value, !ImportsResolved(modules, spaces))
  {
    for i := 0 to |modules|
      invariant Reported(old(diagnostics.value), diagnostics.value, !ImportsResolved(modules[..i], spaces))
    {
      var imports := modules[i].manifest.imports;
      ghost var before := diagnostics.value;
      for k := 0 to |imports|
        invariant Reported(before, diagnostics.value, exists n :: 0 <= n < k && imports[n] !in spaces)
      {
        ReportIf(imports[k] !in spaces, ManifestUnresolvedImport, diagnostics);
      }
      assert ImportsResolved(modules[..i + 1], spaces)
             <==> ImportsResolved(modules[..i], spaces) && forall x :: x in imports ==> x in spaces;
    }
    assert modules[..|modules|] == modules;
  }

  method ValidateModuleSet(modules: seq<ModuleSelection>, diagnostics: Mut<seq<Diagnostic>>)
    modifies diagnostics
    ensures Reported(old(diagnostics.value), diagnostics.value, !ModuleSetOk(modules))
  {
    ReportDuplicates(Mapped(modules, NameOf), diagnostics);
    ReportNeighbours(Sort(Mapped(modules, SpaceOf), Itself), diagnostics);
    ReportUnresolved(modules, Mapped(modules, SpaceOf), diagnostics);
  }

  // ---- Loading a bundle manifest ----

  predicate AllModulesOk(modules: seq<ModuleSelection>) {
    forall i :: 0 <= i < |modules| ==> ModuleOk(modules[i].manifest)
  }

  lemma OneMoreModuleOk(modules: seq<ModuleSelection>, i: nat)
    requires i < |modules|
    ensures AllModulesOk(modules[..i + 1]) <==> AllModulesOk(modules[..i]) && ModuleOk(modules[i].manifest)
  {
    var front, more := modules[..i], modules[..i + 1];
    assert more == front + [modules[i]];
    if AllModulesOk(more) {
      assert more[i] == modules[i] && forall k :: 0 <= k < i ==> more[k] == front[k];
    }
  }

  predicate BundleOk(raw: BundleManifest) {
    && raw.formatVersion == 2
    && !IsBlank(raw.name)
    && raw.modules != []
    && AllModulesOk(raw.modules)
    && ModuleSetOk(raw.modules)
  }

  function Loaded(raw: BundleManifest): BundleManifest {
    raw.(modules := Sort(raw.modules, NameOf))
  }

  /** Each module's name is below the name of every later one. */
  predicate IncreasingNames(modules: seq<ModuleSelection>) {
    forall i, j :: 0 <= i < j < |modules| ==> Less(modules[i].manifest.name, modules[j].manifest.name)
  }

  /** Loads a bundle whose files were all readable. A module that fails its own checks is
      left out of the checks on the set. */
  method LoadBundle(raw: BundleManifest) returns (r: Result<BundleManifest>)
    ensures r.Ok? <==> BundleOk(raw)
    ensures r.Ok? ==> r.value == Loaded(raw)
    ensures r.Ok? ==> r.value.formatVersion == raw.formatVersion && r.value.name == raw.name
    ensures r.Ok? ==> multiset(r.value.modules) == multiset(raw.modules) && IncreasingNames(r.value.modules)
  {
    var diagnostics := new Mut<seq<Diagnostic>>([]);
    ReportIf(raw.formatVersion != FORMAT_VERSION, ManifestVersion, diagnostics);
    ReportIf(IsBlank(raw.name), ManifestEmptyName, diagnostics);
    ReportIf(raw.modules == [], ManifestEmptyModules, diagnostics);
    ghost var start := diagnostics.value;
    var modules: seq<ModuleSelection> := [];
    for i := 0 to |raw.modules|
      invariant fresh(diagnostics)
      invariant Reported(start, diagnostics.value, !AllModulesOk(raw.modules[..i]))
      invariant AllModulesOk(raw.modules[..i]) ==> modules == raw.modules[..i]
    {
      OneMoreModuleOk(raw.modules, i);
      var before := |diagnostics.value|;
      ValidateModule(raw.modules[i].manifest, diagnostics);
      if |diagnostics.value| == before {
        modules := modules + [raw.modules[i]];
      }
    }
    assert raw.modules[..|raw.modules|] == raw.modules;
    ValidateModuleSet(modules, diagnostics);
    if diagnostics.value == [] {
      r := Ok(raw.(modules := Sort(modules, NameOf)));
      LoadedKeepsChecks(raw);
    } else {
      r := Err(Validation(diagnostics.value));
    }
  }

  // ---- Order of the selection ----

  lemma NamesDetermine(modules: seq<ModuleSelection>)
    requires DistinctNames(modules)
    ensures KeyDetermines(multiset(modules), NameOf)
  {
    forall x, y | x in multiset(modules) && y in multiset(modules) && NameOf(x) == NameOf(y) ensures x == y {
      assert x in modules && y in modules;
      var i :| 0 <= i < |modules| && modules[i] == x;
      var j :| 0 <= j < |modules| && modules[j] == y;
      var names := Mapped(modules, NameOf);
      assert names[i] == names[j];
    }
  }

  lemma DistinctReordered(a: seq<string>, b: seq<string>)
    requires multiset(a) == multiset(b) && DistinctStrings(a)
    ensures DistinctStrings(b)
  {
    forall i, j | 0 <= i < j < |b| ensures b[i] != b[j] {
      var k, l := TwoPositions(b, a, i, j);
      assert a[k] != a[l];
    }
  }

  lemma CheckIgnoresOrder(a: seq<string>, b: seq<string>)
    requires multiset(a) == multiset(b)
    ensures NeighbourCheck.Check(a) == NeighbourCheck.Check(b)
  {
    SortIgnoresOrder(a, b, Itself);
  }

  lemma ReorderedSetOk(a: seq<ModuleSelection>, b: seq<ModuleSelection>)
    requires multiset(a) == multiset(b)
    ensures AllModulesOk(a) ==> AllModulesOk(b)
    ensures ModuleSetOk(a) ==> ModuleSetOk(b)
  {
    MappedReordered(a, b, NameOf);
    MappedReordered(a, b, SpaceOf);
    CheckIgnoresOrder(Mapped(a, SpaceOf), Mapped(b, SpaceOf));
    if DistinctNames(a) { DistinctReordered(Mapped(a, NameOf), Mapped(b, NameOf)); }
    forall i | 0 <= i < |b| ensures b[i] in a { assert b[i] in multiset(a); }
    if ImportsResolved(a, Mapped(a, SpaceOf)) {
      forall i, x | 0 <= i < |b| && x in b[i].manifest.imports ensures x in Mapped(b, SpaceOf) {
        assert x in multiset(Mapped(a, SpaceOf));
        assert x in multiset(Mapped(b, SpaceOf));
      }
    }
  }

  /** Selecting the same modules in another order is accepted or rejected alike, and when
      accepted gives the same ordered module list. */
  lemma ModuleOrderIsIrrelevant(a: BundleManifest, b: BundleManifest)
    requires a.formatVersion == b.formatVersion && a.name == b.name
    requires multiset(a.modules) == multiset(b.modules)
    ensures BundleOk(a) <==> BundleOk(b)
    ensures BundleOk(a) ==> Loaded(a) == Loaded(b)
  {
    ReorderedSetOk(a.modules, b.modules);
    ReorderedSetOk(b.modules, a.modules);
    assert a.modules == [] <==> |multiset(a.modules)| == 0;
    assert b.modules == [] <==> |multiset(b.modules)| == 0;
    if BundleOk(a) {
      NamesDetermine(a.modules);
      SortIgnoresOrder(a.modules, b.modules, NameOf);
    }
  }

  /** A loaded bundle lists its modules by strictly increasing name and keeps every check. */
  lemma LoadedKeepsChecks(raw: BundleManifest)
    requires BundleOk(raw)
    ensures BundleOk(Loaded(raw))
    ensures multiset(Loaded(raw).modules) == multiset(raw.modules) && Loaded(raw).(modules := raw.modules) == raw
    ensures IncreasingNames(Loaded(raw).modules) && StrictlySorted(Mapped(Loaded(raw).modules, NameOf))
  {
    var modules := Loaded(raw).modules;
    ReorderedSetOk(raw.modules, modules);
    var names := Mapped(modules, NameOf);
    forall i, j | 0 <= i < j < |names| ensures Less(names[i], names[j]) {
      assert AtMost(NameOf(modules[i]), NameOf(modules[j]));
      assert names[i] != names[j];
    }
    forall i, j | 0 <= i < j < |modules| ensures Less(modules[i].manifest.name, modules[j].manifest.name) {
      assert Less(names[i], names[j]);
    }
  }
}
