/** Schema fragments: namespace ownership and the in-place three-level merge. */
module Schemas {
  import opened Diagnostics
  import opened Json
  import Names
  import Sorting

  const KINDS: set<string> := {"entityTypes", "actions", "commonTypes"}

  function Get(fields: map<string, Json>, key: string): Option<Json> {
    if key in fields then Some(fields[key]) else None
  }

  /** `entry(key).or_insert_with(empty object)` */
  function OrEmpty(existing: Option<Json>): Json {
    if existing.Some? then existing.value else Object(map[])
  }

  // ---- One merge step, level by level ----

  function MergedField(field: string, existing: Option<Json>, value: Json): Json {
    if field in KINDS then
      var base := OrEmpty(existing);
      if base.Object? && value.Object? then Object(base.fields + value.fields) else base
    else if existing.Some? then existing.value
    else value
  }

  ghost predicate FieldConflict(field: string, existing: Option<Json>, value: Json) {
    if field in KINDS then
      existing.Some? && existing.value.Object? && value.Object?
      && exists name :: name in existing.value.fields && name in value.fields
    else existing.Some? && existing.value != value
  }

  /** Every key of `fields` is combined with what `target` has there; other keys stay. */
  function Combined(combine: (string, Option<Json>, Json) -> Json,
                    target: map<string, Json>, fields: map<string, Json>): map<string, Json>
  {
    map k | k in target.Keys + fields.Keys ::
      if k in fields then combine(k, Get(target, k), fields[k]) else target[k]
  }

  function MergedSpace(space: string, existing: Option<Json>, definition: Json): Json {
    var base := OrEmpty(existing);
    if base.Object? && definition.Object? then Object(Combined(MergedField, base.fields, definition.fields)) else base
  }

  /** A key handled so far, that is outside `todo`, had a conflict. */
  ghost predicate FieldConflicts(target: map<string, Json>, fields: map<string, Json>, todo: set<string>) {
    exists k :: k in fields && k !in todo && FieldConflict(k, Get(target, k), fields[k])
  }

  ghost predicate SpaceConflict(existing: Option<Json>, definition: Json) {
    && OrEmpty(existing).Object? && definition.Object?
    && FieldConflicts(OrEmpty(existing).fields, definition.fields, {})
  }

  function Merged(target: Json, fragment: Json): Json {
    if target.Object? && fragment.Object? then Object(Combined(MergedSpace, target.fields, fragment.fields)) else target
  }

  ghost predicate SpaceConflicts(target: map<string, Json>, fields: map<string, Json>, todo: set<string>) {
    exists k :: k in fields && k !in todo && SpaceConflict(Get(target, k), fields[k])
  }

  ghost predicate Conflict(target: Json, fragment: Json) {
    target.Object? && fragment.Object? && SpaceConflicts(target.fields, fragment.fields, {})
  }

  // ---- The merge as the code performs it ----

  method MergeDeclarations(existing: map<string, Json>, declarations: map<string, Json>,
                           diagnostics: Mut<seq<Diagnostic>>)
    returns (merged: map<string, Json>)
    modifies diagnostics
    ensures merged == existing + declarations
    ensures Reported(old(diagnostics.value), diagnostics.value,
                     exists name :: name in existing && name in declarations)
  {
    merged := existing;
    var todo := declarations.Keys;
    while todo != {}
      invariant todo <= declarations.Keys
      invariant merged == existing + (declarations - todo)
      invariant Reported(old(diagnostics.value), diagnostics.value,
                         exists name :: name in existing && name in declarations && name !in todo)
    {
      var name :| name in todo;
      if name in merged {
        diagnostics.value := diagnostics.value + [ErrorOf(SchemaDuplicateDeclaration)];
        assert name in existing;
      }
      merged := merged[name := declarations[name]];
      todo := todo - {name};
    }
    assert declarations - {} == declarations;
  }

  method MergeField(field: string, existing: Option<Json>, value: Json, diagnostics: Mut<seq<Diagnostic>>)
    returns (merged: Json)
    modifies diagnostics
    ensures merged == MergedField(field, existing, value)
    ensures Reported(old(diagnostics.value), diagnostics.value, FieldConflict(field, existing, value))
  {
    if field in KINDS {
      merged := OrEmpty(existing);
      if merged.Object? && value.Object? {
        var declarations := MergeDeclarations(merged.fields, value.fields, diagnostics);
        merged := Object(declarations);
      }
    } else if existing.Some? {
      merged := existing.value;
      if merged != value {
        diagnostics.value := diagnostics.value + [ErrorOf(SchemaDuplicateMetadata)];
      }
    } else {
      merged := value;
    }
  }

  /** Handling one more key of a map that is merged key by key. */
  lemma CombineOneMore(combine: (string, Option<Json>, Json) -> Json, start: map<string, Json>,
                       fields: map<string, Json>, todo: set<string>, k: string)
    requires todo <= fields.Keys && k in todo
    ensures Get(Combined(combine, start, fields - todo), k) == Get(start, k)
    ensures Combined(combine, start, fields - todo)[k := combine(k, Get(start, k), fields[k])]
         == Combined(combine, start, fields - (todo - {k}))
  {
  }

  method MergeSpace(space: string, existing: Option<Json>, definition: Json, diagnostics: Mut<seq<Diagnostic>>)
    returns (merged: Json)
    modifies diagnostics
    ensures merged == MergedSpace(space, existing, definition)
    ensures Reported(old(diagnostics.value), diagnostics.value, SpaceConflict(existing, definition))
  {
    merged := OrEmpty(existing);
    if !merged.Object? || !definition.Object? { return; }
    ghost var start := merged.fields;
    var fields := definition.fields;
    var target := merged.fields;
    var todo := fields.Keys;
    while todo != {}
      invariant todo <= fields.Keys
      invariant target == Combined(MergedField, start, fields - todo)
      invariant Reported(old(diagnostics.value), diagnostics.value, FieldConflicts(start, fields, todo))
    {
      var field :| field in todo;
      CombineOneMore(MergedField, start, fields, todo, field);
      var value := MergeField(field, Get(target, field), fields[field], diagnostics);
      target := target[field := value];
      todo := todo - {field};
    }
    assert fields - {} == fields;
    merged := Object(target);
  }

  /** Merges the fragment into `target` and adds an error exactly on a conflict. */
  method MergeSchemaFragment(target: Mut<Json>, fragment: Json, diagnostics: Mut<seq<Diagnostic>>)
    modifies target, diagnostics
    ensures target.value == Merged(old(target.value), fragment)
    ensures Reported(old(diagnostics.value), diagnostics.value, Conflict(old(target.value), fragment))
  {
    if !target.value.Object? || !fragment.Object? { return; }
    ghost var start := target.value.fields;
    var fields := fragment.fields;
    var todo := fields.Keys;
    while todo != {}
      invariant todo <= fields.Keys
      invariant target.value == Object(Combined(MergedSpace, start, fields - todo))
      invariant Reported(old(diagnostics.value), diagnostics.value, SpaceConflicts(start, fields, todo))
    {
      var space :| space in todo;
      CombineOneMore(MergedSpace, start, fields, todo, space);
      var value := MergeSpace(space, Get(target.value.fields, space), fields[space], diagnostics);
      target.value := Object(target.value.fields[space := value]);
      todo := todo - {space};
    }
    assert fields - {} == fields;
  }

  // ---- The merge as a union of declarations ----

  /** A place in a schema document. */
  datatype Place =
    | Space(space: string)
    | Field(space: string, field: string)
    | Declaration(space: string, kind: string, name: string)

  /** The shape of a fragment that Cedar writes. */
  predicate WellFormed(j: Json) {
    && j.Object?
    && forall space :: space in j.fields ==>
         && j.fields[space].Object?
         && forall kind :: kind in KINDS && kind in j.fields[space].fields ==> j.fields[space].fields[kind].Object?
  }

  /** What stands at a place: the declaration or metadata value; containers only mark presence. */
  function Entry(j: Json, p: Place): Option<Json>
    requires WellFormed(j)
  {
    if p.space !in j.fields then None
    else
      var fields := j.fields[p.space].fields;
      match p
      case Space(_) => Some(Null)
      case Field(_, field) =>
        if field !in fields then None else if field in KINDS then Some(Null) else Some(fields[field])
      case Declaration(_, kind, name) =>
        if kind in KINDS && kind in fields then Get(fields[kind].fields, name) else None
  }

  /** Two fragments may not both declare a name, nor give different metadata. */
  predicate Clash(p: Place, a: Option<Json>, b: Option<Json>) {
    a.Some? && b.Some? && (p.Declaration? || a != b)
  }

  /** A schema is determined by its entries. */
  lemma SameEntries(a: Json, b: Json)
    requires WellFormed(a) && WellFormed(b)
    requires forall p :: Entry(a, p) == Entry(b, p)
    ensures a == b
  {
    forall space ensures space in a.fields <==> space in b.fields {
      assert Entry(a, Space(space)) == Entry(b, Space(space));
    }
    forall space | space in a.fields ensures a.fields[space] == b.fields[space] {
      SameFields(a, b, space);
    }
    assert a.fields == b.fields;
  }

  lemma SameFields(a: Json, b: Json, space: string)
    requires WellFormed(a) && WellFormed(b) && space in a.fields && space in b.fields
    requires forall p :: Entry(a, p) == Entry(b, p)
    ensures a.fields[space] == b.fields[space]
  {
    var fa, fb := a.fields[space].fields, b.fields[space].fields;
    forall field ensures field in fa <==> field in fb {
      assert Entry(a, Field(space, field)) == Entry(b, Field(space, field));
    }
    forall field | field in fa ensures fa[field] == fb[field] {
      assert Entry(a, Field(space, field)) == Entry(b, Field(space, field));
      if field in KINDS {
        forall name ensures Get(fa[field].fields, name) == Get(fb[field].fields, name) {
          assert Entry(a, Declaration(space, field, name)) == Entry(b, Declaration(space, field, name));
        }
        SameLookups(fa[field].fields, fb[field].fields);
      }
    }
    assert fa == fb;
  }

  lemma SameLookups(a: map<string, Json>, b: map<string, Json>)
    requires forall name :: Get(a, name) == Get(b, name)
    ensures a == b
  {
    forall name ensures name in a <==> name in b { assert Get(a, name) == Get(b, name); }
    forall name | name in a ensures a[name] == b[name] { assert Get(a, name) == Get(b, name); }
  }

  /** Declarations of entity types, actions and common types are merged name by name. */
  lemma KindsAreMerged(kind: string, a: map<string, Json>, b: map<string, Json>)
    requires kind == "entityTypes" || kind == "actions" || kind == "commonTypes"
    ensures MergedField(kind, Some(Object(a)), Object(b)) == Object(a + b)
    ensures FieldConflict(kind, Some(Object(a)), Object(b)) <==> exists name :: name in a && name in b
  {
  }

  /** Of any other field one of the values stays, and two different ones conflict. */
  lemma OtherFieldsStay(field: string, a: Json, b: Json)
    requires field != "entityTypes" && field != "actions" && field != "commonTypes"
    ensures MergedField(field, Some(a), b) == a
    ensures FieldConflict(field, Some(a), b) <==> a != b
  {
  }

  lemma MergedIsWellFormed(t: Json, f: Json)
    requires WellFormed(t) && WellFormed(f)
    ensures WellFormed(Merged(t, f))
  {
  }

  /** Merging keeps every entry of both sides; where both have one, a declaration is
      replaced and metadata kept. */
  lemma MergedEntry(t: Json, f: Json, p: Place)
    requires WellFormed(t) && WellFormed(f)
    ensures WellFormed(Merged(t, f))
    ensures Entry(Merged(t, f), p) ==
            if Entry(t, p).None? || (p.Declaration? && Entry(f, p).Some?) then Entry(f, p) else Entry(t, p)
  {
    MergedIsWellFormed(t, f);
  }

  /** The diagnostics of one merge are about clashing entries. */
  lemma ConflictIffClash(t: Json, f: Json)
    requires WellFormed(t) && WellFormed(f)
    ensures Conflict(t, f) <==> exists p :: Clash(p, Entry(t, p), Entry(f, p))
  {
    if Conflict(t, f) {
      var space :| space in f.fields && SpaceConflict(Get(t.fields, space), f.fields[space]);
      var fields := f.fields[space].fields;
      var k :| k in fields && FieldConflict(k, Get(OrEmpty(Get(t.fields, space)).fields, k), fields[k]);
      assert space in t.fields;
      if k in KINDS {
        var name :| name in t.fields[space].fields[k].fields && name in fields[k].fields;
        var d := Declaration(space, k, name);
        assert Clash(d, Entry(t, d), Entry(f, d));
      } else {
        assert Clash(Field(space, k), Entry(t, Field(space, k)), Entry(f, Field(space, k)));
      }
    }
    if p :| Clash(p, Entry(t, p), Entry(f, p)) {
      var k := if p.Declaration? then p.kind else p.field;
      assert FieldConflict(k, Get(t.fields[p.space].fields, k), f.fields[p.space].fields[k]);
      assert SpaceConflict(Get(t.fields, p.space), f.fields[p.space]);
    }
  }

  const EMPTY := Object(map[])

  lemma MergeIntoNothing(f: Json)
    requires WellFormed(f)
    ensures Merged(EMPTY, f) == f && !Conflict(EMPTY, f)
  {
    forall p ensures Entry(Merged(EMPTY, f), p) == Entry(f, p) { MergedEntry(EMPTY, f, p); }
    MergedIsWellFormed(EMPTY, f);
    SameEntries(Merged(EMPTY, f), f);
    ConflictIffClash(EMPTY, f);
  }

  // ---- Folding over all fragments ----

  function MergeInto(schema: Json, fragments: seq<Json>): Json {
    if fragments == [] then schema
    else Merged(MergeInto(schema, fragments[..|fragments| - 1]), fragments[|fragments| - 1])
  }

  /** Some step of the fold reports a conflict. */
  ghost predicate ConflictInto(schema: Json, fragments: seq<Json>) {
    fragments != [] &&
    (ConflictInto(schema, fragments[..|fragments| - 1])
     || Conflict(MergeInto(schema, fragments[..|fragments| - 1]), fragments[|fragments| - 1]))
  }

  function MergeAll(fragments: seq<Json>): Json {
    MergeInto(EMPTY, fragments)
  }

  ghost predicate FoldConflict(fragments: seq<Json>) {
    ConflictInto(EMPTY, fragments)
  }

  lemma {:induction false} MergeIntoConcat(schema: Json, a: seq<Json>, b: seq<Json>)
    ensures MergeInto(schema, a + b) == MergeInto(MergeInto(schema, a), b)
    ensures ConflictInto(schema, a + b) <==> ConflictInto(schema, a) || ConflictInto(MergeInto(schema, a), b)
  {
    if b == [] {
      assert a + b == a;
    } else {
      assert (a + b)[..|a + b| - 1] == a + b[..|b| - 1];
      MergeIntoConcat(schema, a, b[..|b| - 1]);
    }
  }

  ghost predicate AllWellFormed(fragments: seq<Json>) {
    forall i :: 0 <= i < |fragments| ==> WellFormed(fragments[i])
  }

  ghost predicate ClashAt(fragments: seq<Json>, i: int, j: int, p: Place)
    requires AllWellFormed(fragments)
  {
    && 0 <= i < |fragments| && 0 <= j < |fragments| && i != j
    && Clash(p, Entry(fragments[i], p), Entry(fragments[j], p))
  }

  /** Two different fragments clash somewhere. */
  ghost predicate SomeClash(fragments: seq<Json>)
    requires AllWellFormed(fragments)
  {
    exists i, j, p :: ClashAt(fragments, i, j, p)
  }

  lemma {:induction false} FoldIsWellFormed(fragments: seq<Json>)
    requires AllWellFormed(fragments)
    ensures WellFormed(MergeAll(fragments))
  {
    if fragments != [] {
      FoldIsWellFormed(fragments[..|fragments| - 1]);
      MergedIsWellFormed(MergeAll(fragments[..|fragments| - 1]), fragments[|fragments| - 1]);
    }
  }

  ghost predicate HoldsEntry(fragments: seq<Json>, p: Place, v: Json)
    requires AllWellFormed(fragments)
  {
    exists i :: 0 <= i < |fragments| && Entry(fragments[i], p) == Some(v)
  }

  lemma HoldsEntrySplit(fragments: seq<Json>, p: Place, v: Json)
    requires AllWellFormed(fragments) && fragments != []
    ensures HoldsEntry(fragments, p, v) <==>
            HoldsEntry(fragments[..|fragments| - 1], p, v) || Entry(fragments[|fragments| - 1], p) == Some(v)
  {
    var front := fragments[..|fragments| - 1];
    if i :| 0 <= i < |front| && Entry(front[i], p) == Some(v) {
      assert Entry(fragments[i], p) == Some(v);
    }
    if i :| 0 <= i < |fragments| && Entry(fragments[i], p) == Some(v) {
      if i < |front| { assert Entry(front[i], p) == Some(v); }
    }
  }

  /** Without clashes the fold holds exactly the union of the fragments' entries. */
  lemma {:induction false} FoldIsUnion(fragments: seq<Json>, p: Place)
    requires AllWellFormed(fragments) && !SomeClash(fragments)
    ensures WellFormed(MergeAll(fragments))
    ensures forall v :: Entry(MergeAll(fragments), p) == Some(v) <==> HoldsEntry(fragments, p, v)
  {
    FoldIsWellFormed(fragments);
    if fragments != [] {
      var last := |fragments| - 1;
      var front := fragments[..last];
      FrontHasNoClash(fragments);
      FoldIsUnion(front, p);
      MergedEntry(MergeAll(front), fragments[last], p);
      var e := Entry(MergeAll(front), p);
      if e.Some? {
        assert HoldsEntry(front, p, e.value);
        var i :| 0 <= i < |front| && Entry(front[i], p) == e;
        assert !ClashAt(fragments, i, last, p);
      }
      forall v ensures Entry(MergeAll(fragments), p) == Some(v) <==> HoldsEntry(fragments, p, v) {
        HoldsEntrySplit(fragments, p, v);
      }
    }
  }

  lemma FrontHasNoClash(fragments: seq<Json>)
    requires AllWellFormed(fragments) && !SomeClash(fragments) && fragments != []
    ensures AllWellFormed(fragments[..|fragments| - 1]) && !SomeClash(fragments[..|fragments| - 1])
  {
    var front := fragments[..|fragments| - 1];
    if i, j, p :| ClashAt(front, i, j, p) {
      assert ClashAt(fragments, i, j, p);
    }
  }

  lemma ClashWithFold(front: seq<Json>, f: Json, p: Place)
    requires AllWellFormed(front) && !SomeClash(front) && WellFormed(f)
    ensures WellFormed(MergeAll(front))
    ensures Clash(p, Entry(MergeAll(front), p), Entry(f, p)) <==>
            exists i :: 0 <= i < |front| && Clash(p, Entry(front[i], p), Entry(f, p))
  {
    FoldIsUnion(front, p);
    var e := Entry(MergeAll(front), p);
    if e.Some? {
      assert HoldsEntry(front, p, e.value);
    }
    if i :| 0 <= i < |front| && Clash(p, Entry(front[i], p), Entry(f, p)) {
      assert HoldsEntry(front, p, Entry(front[i], p).value);
    }
  }

  lemma ClashInvolvesLast(fragments: seq<Json>)
    requires AllWellFormed(fragments) && fragments != []
    requires AllWellFormed(fragments[..|fragments| - 1]) && !SomeClash(fragments[..|fragments| - 1])
    requires SomeClash(fragments)
    ensures exists k, p :: 0 <= k < |fragments| - 1
              && Clash(p, Entry(fragments[k], p), Entry(fragments[|fragments| - 1], p))
  {
    var last := |fragments| - 1;
    var i, j, p :| ClashAt(fragments, i, j, p);
    assert !ClashAt(fragments[..last], i, j, p);
    var k := if i == last then j else i;
    assert Clash(p, Entry(fragments[k], p), Entry(fragments[last], p));
  }

  lemma LastClash(fragments: seq<Json>)
    requires AllWellFormed(fragments) && fragments != []
    requires AllWellFormed(fragments[..|fragments| - 1]) && !SomeClash(fragments[..|fragments| - 1])
    ensures SomeClash(fragments) <==>
            Conflict(MergeAll(fragments[..|fragments| - 1]), fragments[|fragments| - 1])
  {
    var last := |fragments| - 1;
    var front, f := fragments[..last], fragments[last];
    FoldIsWellFormed(front);
    ConflictIffClash(MergeAll(front), f);
    if p :| Clash(p, Entry(MergeAll(front), p), Entry(f, p)) {
      ClashWithFold(front, f, p);
      var i :| 0 <= i < |front| && Clash(p, Entry(front[i], p), Entry(f, p));
      assert ClashAt(fragments, i, last, p);
    }
    if SomeClash(fragments) {
      ClashInvolvesLast(fragments);
      var k, p :| 0 <= k < last && Clash(p, Entry(fragments[k], p), Entry(f, p));
      assert front[k] == fragments[k];
      ClashWithFold(front, f, p);
    }
  }

  /** The fold reports nothing exactly when no two fragments clash. */
  lemma {:induction false} FoldConflictIff(fragments: seq<Json>)
    requires AllWellFormed(fragments)
    ensures FoldConflict(fragments) <==> SomeClash(fragments)
  {
    if fragments != [] {
      var front := fragments[..|fragments| - 1];
      FoldConflictIff(front);
      if SomeClash(front) {
        var i, j, p :| ClashAt(front, i, j, p);
        assert ClashAt(fragments, i, j, p);
      } else {
        LastClash(fragments);
      }
    }
  }

  lemma ReorderedClash(a: seq<Json>, b: seq<Json>)
    requires multiset(a) == multiset(b) && AllWellFormed(a)
    ensures AllWellFormed(b)
    ensures SomeClash(a) ==> SomeClash(b)
    ensures forall p, v :: HoldsEntry(a, p, v) ==> HoldsEntry(b, p, v)
  {
    forall j | 0 <= j < |b| ensures WellFormed(b[j]) {
      assert b[j] in multiset(b);
      assert b[j] in a;
    }
    if SomeClash(a) {
      var i, j, p :| ClashAt(a, i, j, p);
      var k, l := Sorting.TwoPositions(a, b, i, j);
      assert ClashAt(b, k, l, p);
    }
    forall p, v | HoldsEntry(a, p, v) ensures HoldsEntry(b, p, v) {
      var i :| 0 <= i < |a| && Entry(a[i], p) == Some(v);
      assert a[i] in multiset(a);
      assert a[i] in b;
      var j :| 0 <= j < |b| && b[j] == a[i];
      assert Entry(b[j], p) == Some(v);
    }
  }

  /** The order of the fragments is irrelevant: the same conflicts are found, and without
      conflicts the result is the same schema. */
  lemma FragmentOrderIsIrrelevant(a: seq<Json>, b: seq<Json>)
    requires multiset(a) == multiset(b) && AllWellFormed(a)
    ensures FoldConflict(a) <==> FoldConflict(b)
    ensures !FoldConflict(a) ==> MergeAll(a) == MergeAll(b)
  {
    ReorderedClash(a, b);
    ReorderedClash(b, a);
    FoldConflictIff(a);
    FoldConflictIff(b);
    if !SomeClash(a) {
      FoldIsWellFormed(a);
      FoldIsWellFormed(b);
      forall p ensures Entry(MergeAll(a), p) == Entry(MergeAll(b), p) {
        FoldIsUnion(a, p);
        FoldIsUnion(b, p);
        var e := if Entry(MergeAll(a), p).Some? then Entry(MergeAll(a), p) else Entry(MergeAll(b), p);
        if e.Some? { assert HoldsEntry(a, p, e.value) <==> HoldsEntry(b, p, e.value); }
      }
      SameEntries(MergeAll(a), MergeAll(b));
    }
  }

  // ---- Namespace ownership ----

  predicate SpacesOwned(schema: Json, root: string) {
    schema.Object? ==> forall space :: space in schema.fields ==> Names.Owns(root, space)
  }

  predicate OwnedBySome(space: string, roots: seq<string>) {
    exists k :: 0 <= k < |roots| && Names.Owns(roots[k], space)
  }

  predicate SpacesOwnedBySome(schema: Json, roots: seq<string>) {
    schema.Object? ==>
      forall space :: space in schema.fields ==> exists k :: 0 <= k < |roots| && Names.Owns(roots[k], space)
  }

  method ValidateSchemaOwnership(schema: Json, root: string, diagnostics: Mut<seq<Diagnostic>>)
    modifies diagnostics
    ensures Reported(old(diagnostics.value), diagnostics.value, !SpacesOwned(schema, root))
  {
    if !schema.Object? { return; }
    var todo := schema.fields.Keys;
    while todo != {}
      invariant todo <= schema.fields.Keys
      invariant Reported(old(diagnostics.value), diagnostics.value,
                         exists k :: k in schema.fields && k !in todo && !Names.Owns(root, k))
    {
      var space :| space in todo;
      if !Names.Owns(root, space) {
        diagnostics.value := diagnostics.value + [ErrorOf(SchemaNamespace)];
      }
      todo := todo - {space};
    }
  }

  method ValidateAggregateSchemaOwnership(schema: Json, roots: seq<string>, diagnostics: Mut<seq<Diagnostic>>)
    modifies diagnostics
    ensures Reported(old(diagnostics.value), diagnostics.value, !SpacesOwnedBySome(schema, roots))
  {
    if !schema.Object? { return; }
    var todo := schema.fields.Keys;
    while todo != {}
      invariant todo <= schema.fields.Keys
      invariant Reported(old(diagnostics.value), diagnostics.value,
                         exists k :: k in schema.fields && k !in todo && !OwnedBySome(k, roots))
    {
      var space :| space in todo;
      if !OwnedBySome(space, roots) {
        diagnostics.value := diagnostics.value + [ErrorOf(SchemaNamespace)];
      }
      todo := todo - {space};
    }
  }
}
