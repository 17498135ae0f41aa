/** `validate_manifest`: one pass over an archive's modules, and the partition of the
    policy ids that acceptance establishes. */
module ManifestCheck {
  import opened Text
  import opened Diagnostics
  import opened Manifests
  import opened Policies
  import opened Sorting
  import opened ArchiveManifests
  import NeighbourCheck

  const SUPPORTED := Generator("0.3.0", "0.3.0", "4.13.0")

  function RecordName(m: ModuleRecord): string { m.name }

  function RecordSpace(m: ModuleRecord): string { m.space }

  function Spaces(modules: seq<ModuleRecord>): seq<string> { Mapped(modules, RecordSpace) }

  /** The ids the first n modules list, in order. */
  function Assigned(modules: seq<ModuleRecord>, n: nat): seq<string>
    requires n <= |modules|
  {
    if n == 0 then [] else Assigned(modules, n - 1) + modules[n - 1].policyIds
  }

  predicate ImportsOk(m: ModuleRecord, spaces: seq<string>) {
    && (forall k :: 0 <= k < |m.imports| ==> m.imports[k] in spaces && m.imports[k] != m.space)
    && DistinctStrings(m.imports)
  }

  predicate RecordOk(m: ModuleRecord, spaces: seq<string>) {
    !IsBlank(m.name) && NamespaceOk(m.space) && ImportsOk(m, spaces)
  }

  predicate RecordsOk(modules: seq<ModuleRecord>) {
    forall i :: 0 <= i < |modules| ==> RecordOk(modules[i], Spaces(modules))
  }

  /** What an accepted archive manifest satisfies. */
  ghost predicate ManifestOk(m: ArchiveManifest) {
    && m.formatVersion == 2
    && !IsBlank(m.name)
    && m.generator == Generator("0.3.0", "0.3.0", "4.13.0")
    && m.modules != []
    && StrictlySorted(Mapped(m.modules, RecordName))
    && StrictlySorted(m.policyIds)
    && RecordsOk(m.modules)
    && DistinctStrings(Assigned(m.modules, |m.modules|))
    && !NeighbourCheck.Check(Spaces(m.modules))
    && forall id :: id in m.policyIds <==> id in Assigned(m.modules, |m.modules|)
  }

  // ---- The pass ----

  method CheckImports(m: ModuleRecord, spaces: seq<string>) returns (ok: bool)
    ensures ok <==> ImportsOk(m, spaces)
  {
    var seen: set<string> := {};
    for i := 0 to |m.imports|
      invariant forall x :: x in seen <==> exists k :: 0 <= k < i && m.imports[k] == x
      invariant forall k :: 0 <= k < i ==> m.imports[k] in spaces && m.imports[k] != m.space
      invariant forall k, l :: 0 <= k < l < i ==> m.imports[k] != m.imports[l]
    {
      if m.imports[i] !in spaces || m.imports[i] == m.space || m.imports[i] in seen {
        return false;
      }
      seen := seen + {m.imports[i]};
    }
    ok := true;
  }

  /** Inserts a module's ids; stops at the first one inserted before. */
  method AssignIds(ids: seq<string>, taken: Mut<set<string>>, ghost before: seq<string>) returns (ok: bool)
    requires forall x :: x in taken.value <==> x in before
    requires DistinctStrings(before)
    modifies taken
    ensures ok <==> DistinctStrings(before + ids)
    ensures ok ==> forall x :: x in taken.value <==> x in before + ids
  {
    for i := 0 to |ids|
      invariant DistinctStrings(before + ids[..i])
      invariant forall x :: x in taken.value <==> x in before + ids[..i]
    {
      ghost var all := before + ids;
      assert before + ids[..i] == all[..|before| + i] && before + ids[..i + 1] == all[..|before| + i + 1];
      OneMoreString(all, |before| + i);
      if ids[i] in taken.value {
        ghost var k :| 0 <= k < |before| + i && all[..|before| + i][k] == ids[i];
        assert all[k] == all[|before| + i];
        return false;
      }
      taken.value := taken.value + {ids[i]};
    }
    assert ids[..|ids|] == ids;
    ok := true;
  }

  predicate FirstOk(modules: seq<ModuleRecord>, spaces: seq<string>, n: nat)
    requires n <= |modules|
  {
    n > 0 ==> FirstOk(modules, spaces, n - 1) && RecordOk(modules[n - 1], spaces)
  }

  lemma {:induction false} AllRecordsOk(modules: seq<ModuleRecord>, n: nat)
    requires n <= |modules| && FirstOk(modules, Spaces(modules), n)
    ensures forall k :: 0 <= k < n ==> RecordOk(modules[k], Spaces(modules))
  {
    if n > 0 { AllRecordsOk(modules, n - 1); }
  }

  /** The first i names differ and are the ones seen. */
  ghost predicate NamesSeen(names: seq<string>, i: nat, seen: set<string>)
    requires i <= |names|
  {
    DistinctStrings(names[..i]) && forall x :: x in seen <==> x in names[..i]
  }

  lemma OneMoreName(names: seq<string>, i: nat, seen: set<string>)
    requires i < |names| && NamesSeen(names, i, seen)
    ensures names[i] in seen ==> !DistinctStrings(names)
    ensures names[i] !in seen ==> NamesSeen(names, i + 1, seen + {names[i]})
  {
    OneMoreString(names, i);
    assert names[..i + 1] == names[..i] + [names[i]];
    if names[i] in seen {
      var k :| 0 <= k < i && names[..i][k] == names[i];
      assert names[k] == names[i];
    }
  }

  method CheckModules(modules: seq<ModuleRecord>) returns (ok: bool, taken: set<string>)
    ensures ok <==>
            && RecordsOk(modules) && DistinctStrings(Mapped(modules, RecordName))
            && DistinctStrings(Assigned(modules, |modules|))
    ensures ok ==> forall x :: x in taken <==> x in Assigned(modules, |modules|)
  {
    var spaces := Spaces(modules);
    var names := Mapped(modules, RecordName);
    var seen: set<string> := {};
    var ids := new Mut<set<string>>({});
    taken := {};
    for i := 0 to |modules|
      invariant FirstOk(modules, spaces, i)
      invariant NamesSeen(names, i, seen)
      invariant DistinctStrings(Assigned(modules, i))
      invariant forall x :: x in ids.value <==> x in Assigned(modules, i)
    {
      var m := modules[i];
      if IsBlank(m.name) || !NamespaceOk(m.space) { return false, taken; }
      OneMoreName(names, i, seen);
      if m.name in seen { return false, taken; }
      seen := seen + {m.name};
      var importsOk := CheckImports(m, spaces);
      if !importsOk { return false, taken; }
      var distinct := AssignIds(m.policyIds, ids, Assigned(modules, i));
      if !distinct {
        AssignedPrefix(modules, i + 1);
        return false, taken;
      }
    }
    assert names[..|modules|] == names;
    AllRecordsOk(modules, |modules|);
    return true, ids.value;
  }

  /** What n modules list begins what all modules list. */
  lemma {:induction false} AssignedPrefix(modules: seq<ModuleRecord>, n: nat)
    requires n <= |modules|
    ensures Assigned(modules, n) <= Assigned(modules, |modules|)
    ensures DistinctStrings(Assigned(modules, |modules|)) ==> DistinctStrings(Assigned(modules, n))
    decreases |modules| - n
  {
    if n < |modules| { AssignedPrefix(modules, n + 1); }
    var a, b := Assigned(modules, n), Assigned(modules, |modules|);
    assert forall i :: 0 <= i < |a| ==> a[i] == b[i];
  }

  /** Accepts exactly the manifests in order. */
  method ValidateManifest(m: ArchiveManifest) returns (ok: bool)
    ensures ok <==> ManifestOk(m)
  {
    NeighboursIncreaseIffSorted(Mapped(m.modules, RecordName));
    NeighboursIncreaseIffSorted(m.policyIds);
    if m.formatVersion != FORMAT_VERSION || IsBlank(m.name) || m.generator != SUPPORTED || m.modules == [] {
      return false;
    }
    if !NeighboursIncrease(Mapped(m.modules, RecordName)) || !NeighboursIncrease(m.policyIds) {
      return false;
    }
    SortedIsDistinct(Mapped(m.modules, RecordName));
    var modulesOk, taken := CheckModules(m.modules);
    if !modulesOk || NeighbourCheck.Check(Spaces(m.modules)) {
      return false;
    }
    ok := taken == set id | id in m.policyIds;
    assert ok <==> forall id :: id in m.policyIds <==> id in Assigned(m.modules, |m.modules|);
  }

  // ---- The partition ----

  /** The id is the k-th one that module i lists. */
  predicate ListedAt(modules: seq<ModuleRecord>, id: string, i: int, k: int) {
    0 <= i < |modules| && 0 <= k < |modules[i].policyIds| && modules[i].policyIds[k] == id
  }

  lemma {:induction false} AssignedIffListed(modules: seq<ModuleRecord>, n: nat, id: string)
    requires n <= |modules|
    ensures id in Assigned(modules, n) <==> exists i, k :: i < n && ListedAt(modules, id, i, k)
  {
    if n > 0 {
      AssignedIffListed(modules, n - 1, id);
      if id in modules[n - 1].policyIds {
        var k :| 0 <= k < |modules[n - 1].policyIds| && modules[n - 1].policyIds[k] == id;
        assert ListedAt(modules, id, n - 1, k);
      }
      if i, k :| i < n && ListedAt(modules, id, i, k) {
        if i < n - 1 { assert id in Assigned(modules, n - 1); } else { assert id in modules[n - 1].policyIds; }
      }
    }
  }

  /** An id stands in one place only. */
  lemma {:induction false} ListedOnce(modules: seq<ModuleRecord>, n: nat, id: string, i: int, k: int, j: int, l: int)
    requires n <= |modules| && DistinctStrings(Assigned(modules, n))
    requires i <= j < n && ListedAt(modules, id, i, k) && ListedAt(modules, id, j, l)
    ensures i == j && k == l
  {
    DistinctParts(Assigned(modules, n - 1), modules[n - 1].policyIds);
    if j < n - 1 {
      ListedOnce(modules, n - 1, id, i, k, j, l);
    } else if i < j {
      AssignedIffListed(modules, n - 1, id);
    }
  }

  lemma DistinctParts(a: seq<string>, b: seq<string>)
    requires DistinctStrings(a + b)
    ensures DistinctStrings(a) && DistinctStrings(b) && forall k :: 0 <= k < |b| ==> b[k] !in a
  {
    var all := a + b;
    assert forall i :: 0 <= i < |a| ==> all[i] == a[i];
    assert forall k :: 0 <= k < |b| ==> all[|a| + k] == b[k];
  }

  function TotalListed(modules: seq<ModuleRecord>, n: nat): nat
    requires n <= |modules|
  {
    if n == 0 then 0 else TotalListed(modules, n - 1) + |modules[n - 1].policyIds|
  }

  lemma {:induction false} TotalIsAssigned(modules: seq<ModuleRecord>, n: nat)
    requires n <= |modules|
    ensures TotalListed(modules, n) == |Assigned(modules, n)|
  {
    if n > 0 { TotalIsAssigned(modules, n - 1); }
  }

  function ElementsOf(s: seq<string>): set<string> { set x | x in s }

  lemma {:induction false} DistinctLength(s: seq<string>)
    requires DistinctStrings(s)
    ensures |ElementsOf(s)| == |s|
  {
    if s != [] {
      var front, last := s[..|s| - 1], s[|s| - 1];
      DistinctLength(front);
      assert s == front + [last];
      assert last !in front;
      assert ElementsOf(s) == ElementsOf(front) + {last};
    }
  }

  lemma SameMembersSameLength(a: seq<string>, b: seq<string>)
    requires DistinctStrings(a) && DistinctStrings(b)
    requires forall x :: x in a <==> x in b
    ensures |a| == |b|
  {
    DistinctLength(a);
    DistinctLength(b);
    assert ElementsOf(a) == ElementsOf(b);
  }

  /** An accepted manifest partitions its declared ids among its modules. */
  lemma AcceptedPartitions(m: ArchiveManifest)
    requires ManifestOk(m)
    ensures forall id :: id in m.policyIds <==> exists i, k :: ListedAt(m.modules, id, i, k)
    ensures forall id, i, k, j, l :: ListedAt(m.modules, id, i, k) && ListedAt(m.modules, id, j, l) ==> i == j && k == l
    ensures TotalListed(m.modules, |m.modules|) == |m.policyIds|
  {
    var all := Assigned(m.modules, |m.modules|);
    forall id ensures id in m.policyIds <==> exists i, k :: ListedAt(m.modules, id, i, k) {
      AssignedIffListed(m.modules, |m.modules|, id);
    }
    forall id, i, k, j, l | ListedAt(m.modules, id, i, k) && ListedAt(m.modules, id, j, l) ensures i == j && k == l {
      if i <= j {
        ListedOnce(m.modules, |m.modules|, id, i, k, j, l);
      } else {
        ListedOnce(m.modules, |m.modules|, id, j, l, i, k);
      }
    }
    TotalIsAssigned(m.modules, |m.modules|);
    SortedIsDistinct(m.policyIds);
    SameMembersSameLength(m.policyIds, all);
  }
}
