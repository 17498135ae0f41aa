/** Cedar policies in structured form, the entity types they mention, and the
    ownership check every policy of a module has to pass. */
module Policies {
  import opened Names
  import opened Diagnostics

  datatype EntityUid = EntityUid(ty: string, id: string)

  datatype EntityOrSlot = Entity(uid: EntityUid) | Slot

  /** Constraint on the principal or on the resource. */
  datatype ScopeConstraint =
    | AnyEntity
    | EqEntity(value: EntityOrSlot)
    | InEntity(value: EntityOrSlot)
    | IsType(ty: string)
    | IsTypeIn(ty: string, value: EntityOrSlot)

  datatype ActionConstraint = AnyAction | EqAction(uid: EntityUid) | InActions(uids: seq<EntityUid>)

  /** The expression forms the reference collector handles; `Leaf` stands for all others. */
  datatype Expr =
    | EntityLiteral(uid: EntityUid)
    | UnaryOp(arg: Expr)
    | GetAttr(arg: Expr)
    | HasAttr(arg: Expr)
    | Like(arg: Expr)
    | BinaryOp(left: Expr, right: Expr)
    | Is(arg: Expr, ty: string, inExpr: Option<Expr>)
    | IfThenElse(cond: Expr, thenExpr: Expr, elseExpr: Expr)
    | SetOf(items: seq<Expr>)
    | RecordOf(items: seq<Expr>)
    | Leaf

  datatype Clause = When(expr: Expr) | Unless(expr: Expr)

  datatype Effect = Permit | Forbid

  datatype Body = Body(principal: ScopeConstraint, action: ActionConstraint, resource: ScopeConstraint,
                       clauses: seq<Clause>)

  /** A parsed policy: its `@id`, and its structured form if it has one. */
  datatype Policy = Policy(id: Option<string>, isStatic: bool, effect: Effect, pst: Option<Body>)

  datatype Role = Ordinary | Global

  datatype ModuleRecord = ModuleRecord(
    name: string, space: string, imports: seq<string>, role: Role, policyIds: seq<string>)

  // ---- Collecting entity types ----

  function SlotTypes(value: EntityOrSlot): seq<string> {
    if value.Entity? then [value.uid.ty] else []
  }

  function ScopeTypes(c: ScopeConstraint): seq<string> {
    match c
    case AnyEntity => []
    case EqEntity(value) => SlotTypes(value)
    case InEntity(value) => SlotTypes(value)
    case IsType(ty) => [ty]
    case IsTypeIn(ty, value) => [ty] + SlotTypes(value)
  }

  function UidTypes(uids: seq<EntityUid>): (r: seq<string>)
    ensures |r| == |uids| && forall i :: 0 <= i < |r| ==> r[i] == uids[i].ty
  {
    seq(|uids|, i requires 0 <= i < |uids| => uids[i].ty)
  }

  function ActionTypes(c: ActionConstraint): seq<string> {
    match c
    case AnyAction => []
    case EqAction(uid) => [uid.ty]
    case InActions(uids) => UidTypes(uids)
  }

  /** Types in the order the collector meets them. */
  function ExprTypes(e: Expr): seq<string> {
    match e
    case EntityLiteral(uid) => [uid.ty]
    case UnaryOp(arg) => ExprTypes(arg)
    case GetAttr(arg) => ExprTypes(arg)
    case HasAttr(arg) => ExprTypes(arg)
    case Like(arg) => ExprTypes(arg)
    case BinaryOp(left, right) => ExprTypes(left) + ExprTypes(right)
    case Is(arg, ty, inExpr) =>
      [ty] + ExprTypes(arg) + (match inExpr case None => [] case Some(e2) => ExprTypes(e2))
    case IfThenElse(cond, t, f) => ExprTypes(cond) + ExprTypes(t) + ExprTypes(f)
    case SetOf(items) => ItemTypes(items)
    case RecordOf(items) => ItemTypes(items)
    case Leaf => []
  }

  function ItemTypes(items: seq<Expr>): seq<string> {
    if items == [] then []
    else
      var last := |items| - 1;
      ItemTypes(items[..last]) + ExprTypes(items[last])
  }

  function ClauseTypes(clauses: seq<Clause>): seq<string> {
    if clauses == [] then []
    else
      var last := |clauses| - 1;
      ClauseTypes(clauses[..last]) + ExprTypes(clauses[last].expr)
  }

  method CollectEntityOrSlot(value: EntityOrSlot, references: Mut<seq<string>>)
    modifies references
    ensures references.value == old(references.value) + SlotTypes(value)
  {
    if value.Entity? {
      references.value := references.value + [value.uid.ty];
    }
  }

  method CollectExprReferences(expression: Expr, references: Mut<seq<string>>)
    modifies references
    ensures references.value == old(references.value) + ExprTypes(expression)
    decreases expression, 1
  {
    match expression {
      case EntityLiteral(uid) => references.value := references.value + [uid.ty];
      case UnaryOp(arg) => CollectExprReferences(arg, references);
      case GetAttr(arg) => CollectExprReferences(arg, references);
      case HasAttr(arg) => CollectExprReferences(arg, references);
      case Like(arg) => CollectExprReferences(arg, references);
      case BinaryOp(left, right) =>
        CollectExprReferences(left, references);
        CollectExprReferences(right, references);
      case Is(arg, ty, inExpr) =>
        references.value := references.value + [ty];
        CollectExprReferences(arg, references);
        if inExpr.Some? {
          CollectExprReferences(inExpr.value, references);
        }
      case IfThenElse(cond, thenExpr, elseExpr) =>
        CollectExprReferences(cond, references);
        CollectExprReferences(thenExpr, references);
        CollectExprReferences(elseExpr, references);
      case SetOf(items) => CollectItemReferences(expression, items, references);
      case RecordOf(items) => CollectItemReferences(expression, items, references);
      case Leaf =>
    }
  }

  method CollectItemReferences(ghost parent: Expr, items: seq<Expr>, references: Mut<seq<string>>)
    requires forall item :: item in items ==> item < parent
    modifies references
    ensures references.value == old(references.value) + ItemTypes(items)
    decreases parent, 0
  {
    for i := 0 to |items|
      invariant references.value == old(references.value) + ItemTypes(items[..i])
    {
      assert items[i] in items;
      CollectExprReferences(items[i], references);
      assert items[..i + 1][..i] == items[..i];
    }
    assert items[..|items|] == items;
  }

  // ---- Occurrence, by position in the tree ----

  function Children(e: Expr): seq<Expr> {
    match e
    case UnaryOp(arg) => [arg]
    case GetAttr(arg) => [arg]
    case HasAttr(arg) => [arg]
    case Like(arg) => [arg]
    case BinaryOp(left, right) => [left, right]
    case Is(arg, _, inExpr) => [arg] + (match inExpr case None => [] case Some(e2) => [e2])
    case IfThenElse(cond, t, f) => [cond, t, f]
    case SetOf(items) => items
    case RecordOf(items) => items
    case _ => []
  }

  /** The subexpression reached by a path of child positions. */
  function At(e: Expr, path: seq<nat>): Option<Expr>
    decreases |path|
  {
    if path == [] then Some(e)
    else if path[0] < |Children(e)| then At(Children(e)[path[0]], path[1..])
    else None
  }

  /** `e` itself, not its children, names the type. */
  predicate NamesType(e: Expr, ty: string) {
    (e.EntityLiteral? && e.uid.ty == ty) || (e.Is? && e.ty == ty)
  }

  ghost predicate OccursAt(ty: string, e: Expr, path: seq<nat>) {
    At(e, path).Some? && NamesType(At(e, path).value, ty)
  }

  /** The type is named somewhere in the expression, at any depth. */
  ghost predicate OccursIn(ty: string, e: Expr) {
    exists path :: OccursAt(ty, e, path)
  }

  lemma OccursInChild(ty: string, e: Expr, k: nat)
    requires k < |Children(e)| && OccursIn(ty, Children(e)[k])
    ensures OccursIn(ty, e)
  {
    var path :| OccursAt(ty, Children(e)[k], path);
    assert ([k] + path)[1..] == path;
    assert OccursAt(ty, e, [k] + path);
  }

  lemma OccursHereOrBelow(ty: string, e: Expr)
    ensures OccursIn(ty, e) <==> NamesType(e, ty) || exists k :: 0 <= k < |Children(e)| && OccursIn(ty, Children(e)[k])
  {
    if OccursIn(ty, e) && !NamesType(e, ty) {
      var path :| OccursAt(ty, e, path);
      assert OccursAt(ty, Children(e)[path[0]], path[1..]);
    }
    if NamesType(e, ty) { assert OccursAt(ty, e, []); }
    if k :| 0 <= k < |Children(e)| && OccursIn(ty, Children(e)[k]) { OccursInChild(ty, e, k); }
  }

  ghost predicate OccursInSome(ty: string, items: seq<Expr>) {
    exists k :: 0 <= k < |items| && OccursIn(ty, items[k])
  }

  /** Where a type occurs, form by form. */
  lemma OccursByForm(ty: string, e: Expr)
    ensures OccursIn(ty, e) <==>
            match e
            case EntityLiteral(uid) => uid.ty == ty
            case UnaryOp(arg) => OccursIn(ty, arg)
            case GetAttr(arg) => OccursIn(ty, arg)
            case HasAttr(arg) => OccursIn(ty, arg)
            case Like(arg) => OccursIn(ty, arg)
            case BinaryOp(left, right) => OccursIn(ty, left) || OccursIn(ty, right)
            case Is(arg, named, inExpr) =>
              named == ty || OccursIn(ty, arg) || (inExpr.Some? && OccursIn(ty, inExpr.value))
            case IfThenElse(cond, yes, no) => OccursIn(ty, cond) || OccursIn(ty, yes) || OccursIn(ty, no)
            case SetOf(items) => OccursInSome(ty, items)
            case RecordOf(items) => OccursInSome(ty, items)
            case Leaf => false
  {
    OccursHereOrBelow(ty, e);
    var c := Children(e);
    match e {
      case BinaryOp(left, right) => assert c[0] == left && c[1] == right;
      case Is(arg, _, inExpr) => assert c[0] == arg && (inExpr.Some? ==> c[1] == inExpr.value);
      case IfThenElse(cond, yes, no) => assert c[0] == cond && c[1] == yes && c[2] == no;
      case UnaryOp(arg) => assert c[0] == arg;
      case GetAttr(arg) => assert c[0] == arg;
      case HasAttr(arg) => assert c[0] == arg;
      case Like(arg) => assert c[0] == arg;
      case _ =>
    }
  }

  lemma {:induction false} ItemTypesMembers(items: seq<Expr>, ty: string)
    ensures ty in ItemTypes(items) <==> exists k :: 0 <= k < |items| && ty in ExprTypes(items[k])
  {
    if items != [] {
      var last := |items| - 1;
      ItemTypesMembers(items[..last], ty);
      if k :| 0 <= k < |items| && ty in ExprTypes(items[k]) {
        if k < last { assert items[..last][k] == items[k]; }
      }
      if ty in ItemTypes(items[..last]) {
        var k :| 0 <= k < last && ty in ExprTypes(items[..last][k]);
        assert ty in ExprTypes(items[k]);
      }
    }
  }

  /** The collector finds exactly the types named in the expression, at any depth. */
  lemma {:induction false} CollectedIffOccurs(e: Expr, ty: string)
    ensures ty in ExprTypes(e) <==> OccursIn(ty, e)
  {
    forall k | 0 <= k < |Children(e)| ensures ty in ExprTypes(Children(e)[k]) <==> OccursIn(ty, Children(e)[k]) {
      ChildIsSmaller(e, k);
      CollectedIffOccurs(Children(e)[k], ty);
    }
    OccursHereOrBelow(ty, e);
    CollectedHereOrBelow(e, ty);
  }

  lemma ChildIsSmaller(e: Expr, k: nat)
    requires k < |Children(e)|
    ensures Children(e)[k] < e
  {
  }

  lemma {:induction false} CollectedHereOrBelow(e: Expr, ty: string)
    ensures ty in ExprTypes(e)
            <==> NamesType(e, ty) || exists k :: 0 <= k < |Children(e)| && ty in ExprTypes(Children(e)[k])
  {
    var c := Children(e);
    match e {
      case SetOf(items) => ItemTypesMembers(items, ty);
      case RecordOf(items) => ItemTypesMembers(items, ty);
      case BinaryOp(left, right) => assert c[0] == left && c[1] == right;
      case Is(arg, _, inExpr) =>
        assert c[0] == arg && (inExpr.Some? ==> c[1] == inExpr.value);
      case IfThenElse(cond, t, f) => assert c[0] == cond && c[1] == t && c[2] == f;
      case EntityLiteral(_) =>
      case Leaf =>
      case UnaryOp(arg) => assert c[0] == arg;
      case GetAttr(arg) => assert c[0] == arg;
      case HasAttr(arg) => assert c[0] == arg;
      case Like(arg) => assert c[0] == arg;
    }
  }

  // ---- Ownership of a policy ----

  /** The scope constraint names the type: tests for it, or holds an entity of it. */
  predicate ScopeMentions(c: ScopeConstraint, ty: string) {
    || ((c.IsType? || c.IsTypeIn?) && c.ty == ty)
    || ((c.EqEntity? || c.InEntity? || c.IsTypeIn?) && c.value.Entity? && c.value.uid.ty == ty)
  }

  /** The action scope names an action of the type. */
  predicate ActionMentions(c: ActionConstraint, ty: string) {
    (c.EqAction? && c.uid.ty == ty) || (c.InActions? && exists i :: 0 <= i < |c.uids| && c.uids[i].ty == ty)
  }

  /** The policy's scope or one of its clauses names the type. */
  ghost predicate MentionsType(body: Body, ty: string) {
    || ScopeMentions(body.principal, ty) || ScopeMentions(body.resource, ty) || ActionMentions(body.action, ty)
    || exists i :: 0 <= i < |body.clauses| && OccursIn(ty, body.clauses[i].expr)
  }

  lemma ScopeTypesMembers(c: ScopeConstraint, ty: string)
    ensures ty in ScopeTypes(c) <==> ScopeMentions(c, ty)
  {
  }

  lemma ActionTypesMembers(c: ActionConstraint, ty: string)
    ensures ty in ActionTypes(c) <==> ActionMentions(c, ty)
  {
    if c.InActions? {
      assert forall i :: 0 <= i < |c.uids| ==> UidTypes(c.uids)[i] == c.uids[i].ty;
    }
  }

  /** The module's own namespace or one of its imports owns the type. */
  predicate Reachable(m: ModuleRecord, ty: string) {
    Owns(m.space, ty) || exists k :: 0 <= k < |m.imports| && Owns(m.imports[k], ty)
  }

  /** What a policy of module `m` has to satisfy. */
  ghost predicate OwnershipHolds(policy: Policy, m: ModuleRecord) {
    policy.pst.Some? &&
    (m.role.Ordinary? ==>
      var body := policy.pst.value;
      && !body.action.AnyAction?
      && (forall ty :: ActionMentions(body.action, ty) ==> Owns(m.space, ty))
      && (forall ty :: MentionsType(body, ty) ==> Reachable(m, ty)))
  }

  function CollectedTypes(body: Body): seq<string> {
    ScopeTypes(body.principal) + ScopeTypes(body.resource) + ActionTypes(body.action) + ClauseTypes(body.clauses)
  }

  lemma {:induction false} ClauseTypesMembers(clauses: seq<Clause>, ty: string)
    ensures ty in ClauseTypes(clauses) <==> exists i :: 0 <= i < |clauses| && OccursIn(ty, clauses[i].expr)
  {
    if clauses != [] {
      var last := |clauses| - 1;
      ClauseTypesMembers(clauses[..last], ty);
      CollectedIffOccurs(clauses[last].expr, ty);
      if i :| 0 <= i < |clauses| && OccursIn(ty, clauses[i].expr) {
        if i < last { assert clauses[..last][i] == clauses[i]; }
      }
      if i :| 0 <= i < last && OccursIn(ty, clauses[..last][i].expr) {
        assert OccursIn(ty, clauses[i].expr);
      }
    }
  }

  lemma CollectedIffMentioned(body: Body, ty: string)
    ensures ty in CollectedTypes(body) <==> MentionsType(body, ty)
  {
    ScopeTypesMembers(body.principal, ty);
    ScopeTypesMembers(body.resource, ty);
    ActionTypesMembers(body.action, ty);
    ClauseTypesMembers(body.clauses, ty);
  }

  method CheckOwnedAction(entityType: string, m: ModuleRecord, diagnostics: Mut<seq<Diagnostic>>)
    modifies diagnostics
    ensures Reported(old(diagnostics.value), diagnostics.value, !Owns(m.space, entityType))
  {
    if !Owns(m.space, entityType) {
      diagnostics.value := diagnostics.value + [ErrorOf(PolicyActionNamespace)];
    }
  }

  method CollectScope(c: ScopeConstraint, references: Mut<seq<string>>)
    modifies references
    ensures references.value == old(references.value) + ScopeTypes(c)
  {
    match c {
      case AnyEntity =>
      case EqEntity(value) => CollectEntityOrSlot(value, references);
      case InEntity(value) => CollectEntityOrSlot(value, references);
      case IsType(ty) => references.value := references.value + [ty];
      case IsTypeIn(ty, value) =>
        references.value := references.value + [ty];
        CollectEntityOrSlot(value, references);
    }
  }

  method CollectClauses(clauses: seq<Clause>, references: Mut<seq<string>>)
    modifies references
    ensures references.value == old(references.value) + ClauseTypes(clauses)
  {
    for i := 0 to |clauses|
      invariant references.value == old(references.value) + ClauseTypes(clauses[..i])
    {
      CollectExprReferences(clauses[i].expr, references);
      assert clauses[..i + 1][..i] == clauses[..i];
    }
    assert clauses[..|clauses|] == clauses;
  }

  /** The references of a policy body, in collection order. */
  method CollectReferences(body: Body) returns (types: seq<string>)
    ensures types == CollectedTypes(body)
  {
    var references := new Mut<seq<string>>([]);
    CollectScope(body.principal, references);
    CollectScope(body.resource, references);
    references.value := references.value + ActionTypes(body.action);
    CollectClauses(body.clauses, references);
    types := references.value;
  }

  method CheckAction(action: ActionConstraint, m: ModuleRecord, diagnostics: Mut<seq<Diagnostic>>)
    modifies diagnostics
    ensures Reported(old(diagnostics.value), diagnostics.value,
                     action.AnyAction? || exists ty :: ActionMentions(action, ty) && !Owns(m.space, ty))
  {
    match action {
      case AnyAction =>
        diagnostics.value := diagnostics.value + [ErrorOf(PolicyActionUnconstrained)];
      case EqAction(uid) =>
        CheckOwnedAction(uid.ty, m, diagnostics);
        assert ActionMentions(action, uid.ty);
      case InActions(uids) =>
        for i := 0 to |uids|
          invariant Reported(old(diagnostics.value), diagnostics.value,
                             exists k :: 0 <= k < i && !Owns(m.space, uids[k].ty))
        {
          CheckOwnedAction(uids[i].ty, m, diagnostics);
        }
        assert forall k :: 0 <= k < |uids| ==> ActionMentions(action, uids[k].ty);
    }
  }

  method CheckReferences(types: seq<string>, m: ModuleRecord, diagnostics: Mut<seq<Diagnostic>>)
    modifies diagnostics
    ensures Reported(old(diagnostics.value), diagnostics.value, exists ty :: ty in types && !Reachable(m, ty))
  {
    for i := 0 to |types|
      invariant Reported(old(diagnostics.value), diagnostics.value,
                         exists k :: 0 <= k < i && !Reachable(m, types[k]))
    {
      if !Owns(m.space, types[i]) && !exists k :: 0 <= k < |m.imports| && Owns(m.imports[k], types[i]) {
        diagnostics.value := diagnostics.value + [ErrorOf(PolicyNamespace)];
      }
    }
  }

  /** Adds an error exactly when the policy breaks the ownership rules. */
  method ValidatePolicyOwnership(policy: Policy, m: ModuleRecord, diagnostics: Mut<seq<Diagnostic>>)
    modifies diagnostics
    ensures Reported(old(diagnostics.value), diagnostics.value, !OwnershipHolds(policy, m))
  {
    if policy.pst.None? {
      diagnostics.value := diagnostics.value + [ErrorOf(PolicyStructure)];
      return;
    }
    var body := policy.pst.value;
    if m.role.Global? {
      return;
    }
    CheckAction(body.action, m, diagnostics);
    var types := CollectReferences(body);
    CheckReferences(types, m, diagnostics);
    forall ty ensures ty in types <==> MentionsType(body, ty) { CollectedIffMentioned(body, ty); }
  }
}
