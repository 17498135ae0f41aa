/** An accepted archive and a request that show why the action's ancestors have to be within the
    store too: a policy of another module matches by an ancestor, and the store misses it. */
module ForeignAncestor {
  import opened Names
  import opened Diagnostics
  import opened Text
  import opened Sorting
  import opened Policies
  import opened ArchiveManifests
  import opened ManifestCheck
  import opened Verifier
  import opened Partition
  import Manifests
  import NeighbourCheck

  const ID := "b.1"

  function Modules(): seq<ModuleRecord> {
    [ModuleRecord("a", "A", [], Ordinary, []), ModuleRecord("b", "B", [], Ordinary, [ID])]
  }

  function Manifest(): ArchiveManifest {
    ArchiveManifest(Manifests.FORMAT_VERSION, "", "x", SUPPORTED, Modules(), [ID], [])
  }

  function Group(): EntityUid { EntityUid("B" + "::" + "Action", "all") }

  /** permit (principal, action in [B::Action::"all"], resource); */
  function PermitGroup(): Policy {
    Policy(Some(ID), true, Permit, Some(Body(AnyEntity, InActions([Group()]), AnyEntity, [])))
  }

  /** An action of A that is a member of the group in B. */
  function Ask(): Request { Request(EntityUid("A" + "::" + "Action", "view"), {Group()}) }

  lemma NamesOfModules()
    ensures ValidName("A") && ValidName("B") && !Owns("A", "B") && !Owns("B", "A")
    ensures ValidName("A" + "::" + "Action") && ValidName("B" + "::" + "Action")
    ensures Owns("A", "A" + "::" + "Action") && Owns("B", "B" + "::" + "Action")
    ensures !Owns("A", "B" + "::" + "Action")
  {
    NeighbourCheck.ShortIdentifier("A");
    NeighbourCheck.ShortIdentifier("B");
    OneSegment("Action");
    assert IsIdentifier("Action");
    NeighbourCheck.NameOf("A", "Action");
    NeighbourCheck.NameOf("B", "Action");
    OwnsExtension("A", "Action");
    OwnsExtension("B", "Action");
    assert ("B" + "::" + "Action")[0] == 'B';
  }

  /** Two ordinary modules whose roots do not own each other. */
  ghost predicate Apart(a: ModuleRecord, b: ModuleRecord) {
    && a.role.Ordinary? && b.role.Ordinary?
    && ValidName(a.space) && ValidName(b.space) && !Owns(a.space, b.space) && !Owns(b.space, a.space)
  }

  lemma ApartModules(modules: seq<ModuleRecord>)
    requires |modules| == 2 && Apart(modules[0], modules[1])
    ensures !NeighbourCheck.Check(Spaces(modules))
  {
    var spaces := Spaces(modules);
    assert |spaces| == 2 && spaces[0] == modules[0].space && spaces[1] == modules[1].space;
    NeighbourCheck.CheckDecides(spaces);
  }

  lemma ApartStores(modules: seq<ModuleRecord>)
    requires |modules| == 2 && Apart(modules[0], modules[1])
    ensures LayoutOf(modules) ==
            Layout([Store(modules[0].name, modules[0].space), Store(modules[1].name, modules[1].space)], [])
    ensures Disjoint(Roots(LayoutOf(modules).stores))
  {
    assert Stores(modules, 1) == [Store(modules[0].name, modules[0].space)];
    assert GlobalIds(modules, 1) == [];
  }

  lemma ApartManifestOk(m: ArchiveManifest)
    requires |m.modules| == 2 && Apart(m.modules[0], m.modules[1])
    requires m.formatVersion == Manifests.FORMAT_VERSION && m.generator == SUPPORTED && !IsBlank(m.name)
    requires Less(m.modules[0].name, m.modules[1].name)
    requires forall k :: 0 <= k < 2 ==> !IsBlank(m.modules[k].name) && !IsBlank(m.modules[k].space)
    requires forall k :: 0 <= k < 2 ==> m.modules[k].imports == []
    requires m.modules[0].policyIds == [] && m.modules[1].policyIds == m.policyIds && |m.policyIds| == 1
    ensures ManifestOk(m)
  {
    ApartModules(m.modules);
    assert Assigned(m.modules, 1) == [];
    assert Assigned(m.modules, 2) == m.policyIds;
    var names := Mapped(m.modules, RecordName);
    assert StrictlySorted(names);
  }

  lemma ManifestIsOk()
    ensures ManifestOk(Manifest())
  {
    NamesOfModules();
    var m := Manifest();
    assert "x"[0] in "x" && "a"[0] in "a" && "b"[0] in "b" && "A"[0] in "A" && "B"[0] in "B";
    ApartManifestOk(m);
  }

  lemma PolicyIsOk()
    ensures ArchivePoliciesOk([PermitGroup()], Modules(), 1)
  {
    NamesOfModules();
    var p, m := PermitGroup(), Modules()[1];
    assert ModuleFor(Modules(), 2, ID) == Some(m);
    assert ActionTypes(p.pst.value.action) == [Group().ty];
    forall ty | MentionsType(p.pst.value, ty) ensures Reachable(m, ty) {}
  }

  lemma OnePermit(p: Policy, kept: Policy -> bool, r: Request, rest: Policy -> Outcome)
    requires p.effect.Permit? && OutcomeOf(p, r, rest) == Satisfied && !kept(p)
    ensures Authorize([p], r, rest).decision == Allow
    ensures Authorize(Select([p], kept), r, rest).decision == Deny
  {
    SelectOne(p, kept);
    SelectOne(p, WithOutcome(r, rest, Forbid, Satisfied));
    SelectOne(p, WithOutcome(r, rest, Permit, Satisfied));
  }

  /** The archive is accepted, its stores are disjoint and A owns the action; the whole policy
      set allows the request, and the store of A denies it. */
  lemma StoreMissesForeignGroup() returns (rest: Policy -> Outcome)
    ensures ManifestOk(Manifest()) && ArchivePoliciesOk([PermitGroup()], Manifest().modules, 1)
    ensures Disjoint(Roots(LayoutOf(Manifest().modules).stores)) && Within("A", Ask().action)
    ensures |LayoutOf(Manifest().modules).stores| == 2 && LayoutOf(Manifest().modules).stores[0].root == "A"
    ensures Authorize([PermitGroup()], Ask(), rest).decision == Allow
    ensures Authorize(StorePolicies([PermitGroup()], Modules(), 0), Ask(), rest).decision == Deny
    ensures Authorize(LayoutStorePolicies([PermitGroup()], LayoutOf(Modules()), 0), Ask(), rest).decision == Deny
  {
    rest := (p: Policy) => Satisfied;
    ManifestIsOk();
    PolicyIsOk();
    NamesOfModules();
    var p, modules := PermitGroup(), Modules();
    ApartStores(modules);
    assert ActionTypesOf(p)[0] == Group().ty;
    assert !InStore(modules, 0, p) && !InLayoutStore(LayoutOf(modules), 0, p);
    assert ActionMatches(p.pst.value.action, Ask());
    OnePermit(p, (q: Policy) => InStore(modules, 0, q), Ask(), rest);
    OnePermit(p, (q: Policy) => InLayoutStore(LayoutOf(modules), 0, q), Ask(), rest);
  }
}
