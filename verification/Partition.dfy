/** The store layout built from module boundaries, and why answering a request from the
    store that owns its action gives the answer of the whole policy set. */
module Partition {
  import opened Names
  import opened Diagnostics
  import opened Policies
  import opened ArchiveManifests
  import opened Archives
  import opened Compiler
  import opened ManifestCheck
  import opened Verifier
  import NeighbourCheck

  // ---- The layout ----

  datatype Store = Store(name: string, root: string)

  /** One store for each ordinary module; ids of the policies every store gets. */
  datatype Layout = Layout(stores: seq<Store>, globalIds: seq<string>)

  function Stores(modules: seq<ModuleRecord>, n: nat): seq<Store>
    requires n <= |modules|
  {
    if n == 0 then []
    else
      var m := modules[n - 1];
      Stores(modules, n - 1) + if m.role.Ordinary? then [Store(m.name, m.space)] else []
  }

  function GlobalIds(modules: seq<ModuleRecord>, n: nat): seq<string>
    requires n <= |modules|
  {
    if n == 0 then []
    else
      var m := modules[n - 1];
      GlobalIds(modules, n - 1) + if m.role.Global? then m.policyIds else []
  }

  function LayoutOf(modules: seq<ModuleRecord>): Layout {
    Layout(Stores(modules, |modules|), GlobalIds(modules, |modules|))
  }

  function Roots(stores: seq<Store>): (r: seq<string>)
    ensures |r| == |stores| && forall i :: 0 <= i < |r| ==> r[i] == stores[i].root
  {
    seq(|stores|, i requires 0 <= i < |stores| => stores[i].root)
  }

  /** The policies of the store of module i: its own and the global ones. */
  predicate InStore(modules: seq<ModuleRecord>, i: nat, p: Policy)
    requires i < |modules|
  {
    IdOf(p) in modules[i].policyIds || IdOf(p) in LayoutOf(modules).globalIds
  }

  function ActionTypesOf(p: Policy): seq<string> {
    if p.pst.Some? then ActionTypes(p.pst.value.action) else []
  }

  /** The root owns every action type of the policy, and there is one. */
  predicate OwnsActions(root: string, p: Policy) {
    ActionTypesOf(p) != [] && forall ty :: ty in ActionTypesOf(p) ==> Owns(root, ty)
  }

  /** The same store as far as the layout tells: by the store's root, and the global ids. */
  predicate InLayoutStore(layout: Layout, s: nat, p: Policy)
    requires s < |layout.stores|
  {
    IdOf(p) in layout.globalIds || OwnsActions(layout.stores[s].root, p)
  }

  // ---- Authorization ----

  /** A request, as far as action scopes look at it. */
  datatype Request = Request(action: EntityUid, ancestors: set<EntityUid>)

  datatype Outcome = Satisfied | Unsatisfied | Errored

  datatype Decision = Allow | Deny

  datatype Response = Response(decision: Decision, reasons: seq<Policy>, errors: seq<Policy>)

  predicate ActionMatches(c: ActionConstraint, r: Request) {
    match c
    case AnyAction => true
    case EqAction(uid) => r.action == uid
    case InActions(uids) => exists i :: 0 <= i < |uids| && (uids[i] == r.action || uids[i] in r.ancestors)
  }

  /** A policy whose action scope fails is not satisfied; otherwise `rest`, the evaluation
      of everything else in the policy, decides. */
  function OutcomeOf(p: Policy, r: Request, rest: Policy -> Outcome): Outcome {
    if p.pst.Some? && !ActionMatches(p.pst.value.action, r) then Unsatisfied else rest(p)
  }

  function Select(policies: seq<Policy>, wanted: Policy -> bool): seq<Policy> {
    if policies == [] then []
    else
      var n := |policies| - 1;
      Select(policies[..n], wanted) + if wanted(policies[n]) then [policies[n]] else []
  }

  function WithOutcome(r: Request, rest: Policy -> Outcome, effect: Effect, outcome: Outcome): Policy -> bool {
    (p: Policy) => p.effect == effect && OutcomeOf(p, r, rest) == outcome
  }

  function Failing(r: Request, rest: Policy -> Outcome): Policy -> bool {
    (p: Policy) => OutcomeOf(p, r, rest) == Errored
  }

  /** A satisfied forbid denies; else a satisfied permit allows; else the request is denied. */
  function Authorize(policies: seq<Policy>, r: Request, rest: Policy -> Outcome): Response {
    var forbids := Select(policies, WithOutcome(r, rest, Forbid, Satisfied));
    var permits := Select(policies, WithOutcome(r, rest, Permit, Satisfied));
    var errors := Select(policies, Failing(r, rest));
    if forbids != [] then Response(Deny, forbids, errors)
    else if permits != [] then Response(Allow, permits, errors)
    else Response(Deny, [], errors)
  }

  /** What the engine prepared for module i holds. */
  function StorePolicies(policies: seq<Policy>, modules: seq<ModuleRecord>, i: nat): seq<Policy>
    requires i < |modules|
  {
    Select(policies, (p: Policy) => InStore(modules, i, p))
  }

  function LayoutStorePolicies(policies: seq<Policy>, layout: Layout, s: nat): seq<Policy>
    requires s < |layout.stores|
  {
    Select(policies, (p: Policy) => InLayoutStore(layout, s, p))
  }

  /** What a response says: allowed iff some permit and no forbid is satisfied; the reasons are the
      satisfied policies of the deciding effect, the errors those that fail to evaluate. */
  lemma {:induction false} AuthorizeDecides(policies: seq<Policy>, r: Request, rest: Policy -> Outcome)
    ensures var response := Authorize(policies, r, rest);
            && (response.decision.Allow? <==>
                  && (exists p :: p in policies && p.effect.Permit? && OutcomeOf(p, r, rest).Satisfied?)
                  && !(exists p :: p in policies && p.effect.Forbid? && OutcomeOf(p, r, rest).Satisfied?))
            && (forall p :: p in response.reasons <==>
                  p in policies && OutcomeOf(p, r, rest).Satisfied?
                  && p.effect == if response.decision.Allow? then Permit else Forbid)
            && (forall p :: p in response.errors <==> p in policies && OutcomeOf(p, r, rest).Errored?)
  {
    var forbids, permits := WithOutcome(r, rest, Forbid, Satisfied), WithOutcome(r, rest, Permit, Satisfied);
    forall p ensures p in Select(policies, forbids) <==> p in policies && forbids(p) {
      SelectMembers(policies, forbids, p);
    }
    forall p ensures p in Select(policies, permits) <==> p in policies && permits(p) {
      SelectMembers(policies, permits, p);
    }
    forall p ensures p in Select(policies, Failing(r, rest)) <==> p in policies && Failing(r, rest)(p) {
      SelectMembers(policies, Failing(r, rest), p);
    }
    NonEmptyHasMember(Select(policies, forbids));
    NonEmptyHasMember(Select(policies, permits));
  }

  lemma NonEmptyHasMember(policies: seq<Policy>)
    ensures policies != [] <==> exists p :: p in policies
  {
    if policies != [] { assert policies[0] in policies; }
  }

  /** Selecting keeps the order: it goes part by part. */
  lemma {:induction false} SelectConcat(a: seq<Policy>, b: seq<Policy>, wanted: Policy -> bool)
    ensures Select(a + b, wanted) == Select(a, wanted) + Select(b, wanted)
  {
    if b == [] {
      assert a + b == a;
    } else {
      var last := |b| - 1;
      assert (a + b)[..|a + b| - 1] == a + b[..last];
      SelectConcat(a, b[..last], wanted);
    }
  }

  lemma SelectOne(p: Policy, wanted: Policy -> bool)
    ensures Select([p], wanted) == if wanted(p) then [p] else []
  {
    assert [p][..0] == [];
  }

  // ---- Dropping what cannot match ----

  lemma {:induction false} SelectTwice(policies: seq<Policy>, kept: Policy -> bool, wanted: Policy -> bool)
    requires forall p :: p in policies && wanted(p) ==> kept(p)
    ensures Select(Select(policies, kept), wanted) == Select(policies, wanted)
  {
    if policies != [] {
      var n := |policies| - 1;
      var front, last := Select(policies[..n], kept), policies[n];
      SelectTwice(policies[..n], kept, wanted);
      if kept(last) {
        assert (front + [last])[..|front|] == front;
      } else {
        assert last in policies;
        assert front + [] == front;
      }
    }
  }

  lemma {:induction false} SelectMembers(policies: seq<Policy>, wanted: Policy -> bool, p: Policy)
    ensures p in Select(policies, wanted) <==> p in policies && wanted(p)
  {
    if policies != [] {
      var n := |policies| - 1;
      SelectMembers(policies[..n], wanted, p);
      assert policies == policies[..n] + [policies[n]];
    }
  }

  /** Every policy that can apply to the request is kept. */
  predicate KeepsMatching(policies: seq<Policy>, kept: Policy -> bool, r: Request) {
    forall p :: p in policies && (p.pst.Some? ==> ActionMatches(p.pst.value.action, r)) ==> kept(p)
  }

  lemma {:induction false} KeepingMatchesIsEnough(policies: seq<Policy>, kept: Policy -> bool, r: Request,
                                                  rest: Policy -> Outcome)
    requires KeepsMatching(policies, kept, r)
    ensures Authorize(Select(policies, kept), r, rest) == Authorize(policies, r, rest)
  {
    SelectTwice(policies, kept, WithOutcome(r, rest, Forbid, Satisfied));
    SelectTwice(policies, kept, WithOutcome(r, rest, Permit, Satisfied));
    SelectTwice(policies, kept, Failing(r, rest));
  }

  /** Every policy whose action scope matches is needed: drop one, and some evaluation of
      the other conditions tells the difference. */
  lemma DroppingAMatchShows(policies: seq<Policy>, kept: Policy -> bool, r: Request) returns (rest: Policy -> Outcome)
    requires !KeepsMatching(policies, kept, r)
    ensures Authorize(Select(policies, kept), r, rest) != Authorize(policies, r, rest)
  {
    var p :| p in policies && (p.pst.Some? ==> ActionMatches(p.pst.value.action, r)) && !kept(p);
    rest := (q: Policy) => if q == p then Errored else Unsatisfied;
    SelectMembers(policies, Failing(r, rest), p);
    SelectMembers(Select(policies, kept), Failing(r, rest), p);
    SelectMembers(policies, kept, p);
  }

  /** A selection of policies answers a request as all of them do, whatever the other
      conditions evaluate to, exactly when it keeps each policy whose action scope matches. */
  lemma {:induction false} SelectionIsFaithfulIff(policies: seq<Policy>, kept: Policy -> bool, r: Request)
    ensures KeepsMatching(policies, kept, r) <==>
            forall rest: Policy -> Outcome :: Authorize(Select(policies, kept), r, rest) == Authorize(policies, r, rest)
  {
    if KeepsMatching(policies, kept, r) {
      forall rest: Policy -> Outcome
        ensures Authorize(Select(policies, kept), r, rest) == Authorize(policies, r, rest)
      {
        KeepingMatchesIsEnough(policies, kept, r, rest);
      }
    } else {
      var rest := DroppingAMatchShows(policies, kept, r);
    }
  }

  // ---- Stores own disjoint action types ----

  lemma {:induction false} StoreOfModule(modules: seq<ModuleRecord>, n: nat, i: nat) returns (s: nat)
    requires i < n <= |modules| && modules[i].role.Ordinary?
    ensures s < |Stores(modules, n)| && Stores(modules, n)[s] == Store(modules[i].name, modules[i].space)
    ensures s == |Stores(modules, i)|
  {
    if i == n - 1 {
      s := |Stores(modules, i)|;
    } else {
      s := StoreOfModule(modules, n - 1, i);
    }
  }

  lemma {:induction false} MoreStores(modules: seq<ModuleRecord>, i: nat, j: nat)
    requires i <= j <= |modules|
    ensures |Stores(modules, i)| <= |Stores(modules, j)|
    ensures i < j && modules[i].role.Ordinary? ==> |Stores(modules, i)| < |Stores(modules, j)|
  {
    if i < j { MoreStores(modules, i, j - 1); }
  }

  predicate AllNamesValid(modules: seq<ModuleRecord>) {
    forall i :: 0 <= i < |modules| ==> ValidName(modules[i].space)
  }

  lemma {:induction false} RootsAreSpaces(modules: seq<ModuleRecord>, n: nat)
    requires n <= |modules| && AllNamesValid(modules)
    ensures forall root :: root in Roots(Stores(modules, n)) ==> ValidName(root)
  {
    if n > 0 { RootsAreSpaces(modules, n - 1); }
  }

  /** Two ordinary modules that own one valid name are the same module. */
  lemma OneStoreOwns(modules: seq<ModuleRecord>, i: nat, j: nat, name: string)
    requires AllNamesValid(modules) && Disjoint(Roots(LayoutOf(modules).stores))
    requires i < |modules| && j < |modules| && modules[i].role.Ordinary? && modules[j].role.Ordinary?
    requires ValidName(name) && Owns(modules[i].space, name) && Owns(modules[j].space, name)
    ensures i == j
  {
    var s := StoreOfModule(modules, |modules|, i);
    var t := StoreOfModule(modules, |modules|, j);
    RootsAreSpaces(modules, |modules|);
    UniqueOwner(Roots(Stores(modules, |modules|)), name, s, t);
    if i < j { MoreStores(modules, i, j); }
    if j < i { MoreStores(modules, j, i); }
  }

  /** The module behind a store. */
  lemma {:induction false} ModuleOfStore(modules: seq<ModuleRecord>, n: nat, s: nat) returns (i: nat)
    requires n <= |modules| && s < |Stores(modules, n)|
    ensures i < n && |Stores(modules, i)| == s && Stores(modules, n)[s] == Store(modules[i].name, modules[i].space)
    ensures modules[i].role.Ordinary?
  {
    if s < |Stores(modules, n - 1)| {
      i := ModuleOfStore(modules, n - 1, s);
    } else {
      i := n - 1;
    }
  }

  /** Acceptance makes the stores disjoint when no namespace continues another with a digit;
      only such a name can hide an overlap from the neighbour check. */
  lemma AcceptedStoresAreDisjoint(modules: seq<ModuleRecord>)
    requires AllNamesValid(modules) && !NeighbourCheck.Check(Spaces(modules))
    requires forall root :: root in Spaces(modules) ==> !NeighbourCheck.Shadowed(root, Spaces(modules))
    ensures Disjoint(Roots(LayoutOf(modules).stores))
  {
    var spaces, stores := Spaces(modules), LayoutOf(modules).stores;
    assert NeighbourCheck.AllValid(spaces);
    NeighbourCheck.CheckExactIff(spaces);
    forall s, t | 0 <= s < |stores| && 0 <= t < |stores| && s != t
      ensures !Owns(Roots(stores)[s], Roots(stores)[t])
    {
      var i := ModuleOfStore(modules, |modules|, s);
      var j := ModuleOfStore(modules, |modules|, t);
      assert spaces[i] == modules[i].space && spaces[j] == modules[j].space;
    }
  }

  /** The global ids are those that global modules list. */
  lemma {:induction false} GlobalIff(modules: seq<ModuleRecord>, n: nat, id: string)
    requires n <= |modules|
    ensures id in GlobalIds(modules, n)
            <==> exists j :: 0 <= j < n && modules[j].role.Global? && id in modules[j].policyIds
  {
    if n > 0 { GlobalIff(modules, n - 1, id); }
  }

  // ---- The theorem ----

  predicate Within(root: string, uid: EntityUid) { ValidName(uid.ty) && Owns(root, uid.ty) }

  /** The action and everything it is a member of have types the root owns. */
  predicate RequestWithin(r: Request, root: string) {
    Within(root, r.action) && forall a :: a in r.ancestors ==> Within(root, a)
  }

  /** An owned policy can only match requests that touch its module's namespace. */
  lemma MatchTouchesOwner(p: Policy, m: ModuleRecord, r: Request, root: string) returns (uid: EntityUid)
    requires OwnershipHolds(p, m) && m.role.Ordinary? && RequestWithin(r, root)
    requires ActionMatches(p.pst.value.action, r)
    ensures ValidName(uid.ty) && Owns(m.space, uid.ty) && Owns(root, uid.ty)
  {
    match p.pst.value.action {
      case AnyAction =>
      case EqAction(u) =>
        uid := u;
        assert ActionTypes(p.pst.value.action)[0] == u.ty;
      case InActions(uids) =>
        var i :| 0 <= i < |uids| && (uids[i] == r.action || uids[i] in r.ancestors);
        uid := uids[i];
        assert ActionTypes(p.pst.value.action)[i] == uid.ty;
    }
  }

  /** A policy that can match such a request is in the module's store, by either account of it. */
  lemma StoreKeepsMatch(p: Policy, modules: seq<ModuleRecord>, i: nat, r: Request)
    requires AllNamesValid(modules) && Disjoint(Roots(LayoutOf(modules).stores))
    requires i < |modules| && modules[i].role.Ordinary? && RequestWithin(r, modules[i].space)
    requires ArchivePolicyOk(p, modules) && ActionMatches(p.pst.value.action, r)
    ensures InStore(modules, i, p)
    ensures IdOf(p) in LayoutOf(modules).globalIds || OwnsActions(modules[i].space, p)
  {
    var j := AssigneeAt(modules, |modules|, IdOf(p));
    if modules[j].role.Global? {
      GlobalIff(modules, |modules|, IdOf(p));
    } else {
      var uid := MatchTouchesOwner(p, modules[j], r, modules[i].space);
      OneStoreOwns(modules, i, j, uid.ty);
    }
  }

  lemma AcceptedNamesValid(m: ArchiveManifest)
    requires ManifestOk(m)
    ensures AllNamesValid(m.modules)
  {
    forall k | 0 <= k < |m.modules| ensures ValidName(m.modules[k].space) {
      assert RecordOk(m.modules[k], Spaces(m.modules));
    }
  }

  lemma {:induction false} PolicyAt(policies: seq<Policy>, modules: seq<ModuleRecord>, p: Policy)
    requires ArchivePoliciesOk(policies, modules, |policies|) && p in policies
    ensures ArchivePolicyOk(p, modules)
  {
    var k :| 0 <= k < |policies| && policies[k] == p;
    PolicyOkAt(policies, modules, |policies|, k);
  }

  /** In an accepted archive with disjoint stores, a request whose action types one ordinary
      module owns gets from that module's store the very response of the whole policy set:
      the same decision, the same determining policies, the same errors. */
  lemma {:induction false} PartitionPreservesResponses(m: ArchiveManifest, policies: seq<Policy>, i: nat, r: Request,
                                                       rest: Policy -> Outcome)
    requires ManifestOk(m) && ArchivePoliciesOk(policies, m.modules, |policies|)
    requires Disjoint(Roots(LayoutOf(m.modules).stores))
    requires i < |m.modules| && m.modules[i].role.Ordinary? && RequestWithin(r, m.modules[i].space)
    ensures Authorize(StorePolicies(policies, m.modules, i), r, rest) == Authorize(policies, r, rest)
  {
    AcceptedNamesValid(m);
    forall p | p in policies && (p.pst.Some? ==> ActionMatches(p.pst.value.action, r))
      ensures InStore(m.modules, i, p)
    {
      PolicyAt(policies, m.modules, p);
      StoreKeepsMatch(p, m.modules, i, r);
    }
    KeepingMatchesIsEnough(policies, (p: Policy) => InStore(m.modules, i, p), r, rest);
  }

  /** The same of the stores as the layout alone describes them, by their roots. */
  lemma {:induction false} LayoutPreservesResponses(m: ArchiveManifest, policies: seq<Policy>, s: nat, r: Request,
                                                    rest: Policy -> Outcome)
    requires ManifestOk(m) && ArchivePoliciesOk(policies, m.modules, |policies|)
    requires Disjoint(Roots(LayoutOf(m.modules).stores))
    requires s < |LayoutOf(m.modules).stores| && RequestWithin(r, LayoutOf(m.modules).stores[s].root)
    ensures Authorize(LayoutStorePolicies(policies, LayoutOf(m.modules), s), r, rest) == Authorize(policies, r, rest)
  {
    AcceptedNamesValid(m);
    var i := ModuleOfStore(m.modules, |m.modules|, s);
    forall p | p in policies && (p.pst.Some? ==> ActionMatches(p.pst.value.action, r))
      ensures InLayoutStore(LayoutOf(m.modules), s, p)
    {
      PolicyAt(policies, m.modules, p);
      StoreKeepsMatch(p, m.modules, i, r);
    }
    KeepingMatchesIsEnough(policies, (p: Policy) => InLayoutStore(LayoutOf(m.modules), s, p), r, rest);
  }

  /** The two accounts agree: with disjoint stores, an ordinary module lists a policy that is not
      global exactly when its root owns the policy's action types. */
  lemma ListedIffRootOwns(m: ArchiveManifest, p: Policy, i: nat)
    requires ManifestOk(m) && Disjoint(Roots(LayoutOf(m.modules).stores)) && ArchivePolicyOk(p, m.modules)
    requires i < |m.modules| && m.modules[i].role.Ordinary?
    requires IdOf(p) !in LayoutOf(m.modules).globalIds
    requires ActionTypesOf(p) != [] && forall ty :: ty in ActionTypesOf(p) ==> ValidName(ty)
    ensures IdOf(p) in m.modules[i].policyIds <==> OwnsActions(m.modules[i].space, p)
  {
    AcceptedNamesValid(m);
    var id := IdOf(p);
    var j := AssigneeAt(m.modules, |m.modules|, id);
    GlobalIff(m.modules, |m.modules|, id);
    if id in m.modules[i].policyIds {
      ListedInOne(m, id, i, j);
    }
    if OwnsActions(m.modules[i].space, p) {
      OneStoreOwns(m.modules, i, j, ActionTypesOf(p)[0]);
    }
  }

  lemma ListedInOne(m: ArchiveManifest, id: string, i: nat, j: nat)
    requires ManifestOk(m) && i < |m.modules| && j < |m.modules|
    requires id in m.modules[i].policyIds && id in m.modules[j].policyIds
    ensures i == j
  {
    var k :| 0 <= k < |m.modules[i].policyIds| && m.modules[i].policyIds[k] == id;
    var l :| 0 <= l < |m.modules[j].policyIds| && m.modules[j].policyIds[l] == id;
    AcceptedPartitions(m);
    assert ListedAt(m.modules, id, i, k) && ListedAt(m.modules, id, j, l);
  }

  /** The same of a validated archive: the monolithic engine and the engine with stores answer alike. */
  lemma ValidatedArchivePartitions(w: World, d: Decoded, m: ArchiveManifest, policies: seq<Policy>,
                                   s: nat, r: Request, rest: Policy -> Outcome)
    requires ContentOk(w, d) && ParseManifest(w.codec, d.manifest) == Some(m)
    requires w.codec.fromUtf8(d.policies).Some?
    requires var parsed := w.cedar.parsePolicies(w.codec.fromUtf8(d.policies).value);
             parsed.Some? && parsed.value.policies == policies
    requires Disjoint(Roots(LayoutOf(m.modules).stores))
    requires s < |LayoutOf(m.modules).stores| && RequestWithin(r, LayoutOf(m.modules).stores[s].root)
    ensures Authorize(LayoutStorePolicies(policies, LayoutOf(m.modules), s), r, rest) == Authorize(policies, r, rest)
  {
    LayoutPreservesResponses(m, policies, s, r, rest);
  }

  /** A policy the store lacks that matches by an ancestor of the action is missed, whatever else
      the store holds. */
  lemma ForeignAncestorBreaksPartition(modules: seq<ModuleRecord>, policies: seq<Policy>, i: nat, p: Policy, r: Request)
      returns (rest: Policy -> Outcome)
    requires i < |modules| && p in policies && !InStore(modules, i, p)
    requires p.pst.Some? && p.pst.value.action.InActions?
    requires exists a :: a in p.pst.value.action.uids && a in r.ancestors
    ensures Authorize(StorePolicies(policies, modules, i), r, rest) != Authorize(policies, r, rest)
  {
    var kept := (q: Policy) => InStore(modules, i, q);
    var uids := p.pst.value.action.uids;
    var a :| a in uids && a in r.ancestors;
    var k :| 0 <= k < |uids| && uids[k] == a;
    assert !KeepsMatching(policies, kept, r);
    rest := DroppingAMatchShows(policies, kept, r);
  }
}
