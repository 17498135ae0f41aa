/** Label rules against the schema: the alias resolver for record shapes, and the
    attribute checks. */
module LabelSchema {
  import opened Diagnostics
  import opened Json
  import opened Text
  import opened Labels
  import Names
  import Schemas

  // ---- Reading JSON ----

  /** `value.get(key)`; nothing unless the value is an object with that key. */
  function Member(j: Json, key: string): Option<Json> {
    if j.Object? then Schemas.Get(j.fields, key) else None
  }

  function TextMember(j: Json, key: string): Option<string> {
    var m := Member(j, key);
    if m.Some? && m.value.Str? then Some(m.value.text) else None
  }

  function CommonTypes(schema: Json, space: string): map<string, Json> {
    match Member(schema, space)
    case None => map[]
    case Some(definition) =>
      var common := Member(definition, "commonTypes");
      if common.Some? && common.value.Object? then common.value.fields else map[]
  }

  // ---- Alias names ----

  /** Where the last `::` starts. */
  function LastSeparator(s: string): (r: Option<nat>)
    ensures r.Some? ==> r.value + 2 <= |s| && s[r.value] == ':' && s[r.value + 1] == ':'
    ensures forall k :: (if r.Some? then r.value + 1 else 0) <= k < |s| - 1 ==> !(s[k] == ':' && s[k + 1] == ':')
  {
    if |s| < 2 then None
    else
      match LastSeparator(s[1..])
      case Some(k) => Some(k + 1)
      case None =>
        assert forall k :: 1 <= k < |s| - 1 ==> s[k] == s[1..][k - 1] && s[k + 1] == s[1..][k];
        if s[0] == ':' && s[1] == ':' then Some(0) else None
  }

  datatype CommonName = CommonName(space: string, base: string)

  /** A name is looked up in the namespace it spells out, else in the current one. */
  function CommonNameOf(space: string, name: string): CommonName {
    match LastSeparator(name)
    case None => CommonName(space, name)
    case Some(k) => CommonName(name[..k], name[k + 2..])
  }

  /** The common type a shape refers to, if it is an alias. */
  function AliasOf(space: string, shape: Json): Option<CommonName> {
    if TextMember(shape, "type") == Some("EntityOrCommon") then
      match TextMember(shape, "name")
      case None => None
      case Some(name) => Some(CommonNameOf(space, name))
    else None
  }

  function Qualified(name: CommonName): string {
    name.space + "::" + name.base
  }

  predicate IsDeclared(schema: Json, name: CommonName) {
    name.base in CommonTypes(schema, name.space)
  }

  function Definition(schema: Json, name: CommonName): Json
    requires IsDeclared(schema, name)
  {
    CommonTypes(schema, name.space)[name.base]
  }

  /** The qualified names of all declared common types. */
  ghost function Declared(schema: Json): set<string> {
    if !schema.Object? then {}
    else
      set space, base | space in schema.fields && base in CommonTypes(schema, space) ::
        Qualified(CommonName(space, base))
  }

  lemma DeclaredName(schema: Json, name: CommonName)
    requires IsDeclared(schema, name)
    ensures Qualified(name) in Declared(schema)
  {
    assert name.space in schema.fields;
  }

  predicate IsRecord(shape: Json) {
    TextMember(shape, "type") == Some("Record")
  }

  function Attributes(shape: Json): Option<map<string, Json>> {
    var attributes := Member(shape, "attributes");
    if attributes.Some? && attributes.value.Object? then Some(attributes.value.fields) else None
  }

  // ---- Where in the document these stand ----

  /** One step down: the value under a key, if there is an object that has it. */
  function Under(j: Option<Json>, key: string): Option<Json> {
    match j
    case Some(Object(fields)) => if key in fields then Some(fields[key]) else None
    case _ => None
  }

  /** The definition of a common type stands under its namespace, `commonTypes` and its name. */
  lemma CommonTypeIsAt(schema: Json, name: CommonName)
    ensures var at := Under(Under(Under(Some(schema), name.space), "commonTypes"), name.base);
            && (IsDeclared(schema, name) <==> at.Some?)
            && (IsDeclared(schema, name) ==> at == Some(Definition(schema, name)))
  {
  }

  /** A record is tagged so, and lists its attributes in an object. */
  lemma RecordIsAt(shape: Json)
    ensures IsRecord(shape) <==> Under(Some(shape), "type") == Some(Str("Record"))
    ensures forall attributes :: Attributes(shape) == Some(attributes)
              <==> Under(Some(shape), "attributes") == Some(Object(attributes))
  {
  }

  /** An alias is tagged so, and holds a name: what follows its last `::` is the base, what
      precedes it the namespace; without one, the namespace is the current one. */
  lemma AliasIsAt(space: string, shape: Json, target: CommonName)
    ensures AliasOf(space, shape) == Some(target) <==>
            && Under(Some(shape), "type") == Some(Str("EntityOrCommon"))
            && Under(Some(shape), "name").Some? && Under(Some(shape), "name").value.Str?
            && Splits(Under(Some(shape), "name").value.text, space, target)
  {
    if Under(Some(shape), "name").Some? && Under(Some(shape), "name").value.Str? {
      SplitsIff(Under(Some(shape), "name").value.text, space, target);
    }
  }

  predicate HasSeparator(s: string) {
    exists k :: 0 <= k < |s| - 1 && s[k] == ':' && s[k + 1] == ':'
  }

  /** `name` spells `target`, seen from the namespace `space`. */
  ghost predicate Splits(name: string, space: string, target: CommonName) {
    if HasSeparator(name) then name == target.space + "::" + target.base && !HasSeparator(target.base)
                               && LastAt(name, |target.space|)
    else target == CommonName(space, name)
  }

  /** No separator starts behind k. */
  predicate LastAt(name: string, k: int) {
    forall i :: 0 <= i < |name| - 1 && i > k ==> !(name[i] == ':' && name[i + 1] == ':')
  }

  lemma SplitsIff(name: string, space: string, target: CommonName)
    ensures CommonNameOf(space, name) == target <==> Splits(name, space, target)
  {
    match LastSeparator(name)
    case None =>
    case Some(k) =>
      assert name == name[..k] + "::" + name[k + 2..];
      assert LastAt(name, k) && HasSeparator(name);
      var base := name[k + 2..];
      assert forall i :: 0 <= i < |base| ==> base[i] == name[k + 2 + i];
      if Splits(name, space, target) {
        var n := |target.space|;
        assert name[n] == ':' && name[n + 1] == ':';
        assert n == k;
        assert target.space == name[..n] && target.base == name[n + 2..];
      }
  }

  // ---- The resolver ----

  /** Follows aliases, refusing a qualified name seen before. Each step that goes on has
      visited one more declared name, whatever the schema. */
  function Resolve(schema: Json, space: string, shape: Json, visited: set<string>): Option<map<string, Json>>
    decreases |Declared(schema) - visited|
  {
    if IsRecord(shape) then Attributes(shape)
    else
      match AliasOf(space, shape)
      case None => None
      case Some(name) =>
        if Qualified(name) in visited || !IsDeclared(schema, name) then None
        else
          VisitShrinks(schema, name, visited);
          Resolve(schema, name.space, Definition(schema, name), visited + {Qualified(name)})
  }

  lemma VisitShrinks(schema: Json, name: CommonName, visited: set<string>)
    requires IsDeclared(schema, name) && Qualified(name) !in visited
    ensures |Declared(schema) - (visited + {Qualified(name)})| < |Declared(schema) - visited|
  {
    DeclaredName(schema, name);
    var before, after := Declared(schema) - visited, Declared(schema) - (visited + {Qualified(name)});
    assert after == before - {Qualified(name)} && Qualified(name) in before;
  }

  /** The resolver as written: one visited set, mutated down the recursion. */
  method RecordAttributes(schema: Json, space: string, shape: Json, visited: Mut<set<string>>)
    returns (attributes: Option<map<string, Json>>)
    modifies visited
    ensures attributes == Resolve(schema, space, shape, old(visited.value))
    decreases |Declared(schema) - visited.value|
  {
    if IsRecord(shape) {
      return Attributes(shape);
    }
    var alias := AliasOf(space, shape);
    if alias.None? {
      return None;
    }
    var name := alias.value;
    if Qualified(name) in visited.value {
      return None;
    }
    ghost var seen := visited.value;
    visited.value := visited.value + {Qualified(name)};
    if !IsDeclared(schema, name) {
      return None;
    }
    VisitShrinks(schema, name, seen);
    attributes := RecordAttributes(schema, name.space, Definition(schema, name), visited);
  }

  // ---- What the resolver means ----

  /** Following exactly n aliases, with no memory of names seen, ends at a record. */
  function Follow(schema: Json, space: string, shape: Json, n: nat): Option<map<string, Json>>
    decreases n
  {
    if IsRecord(shape) then if n == 0 then Attributes(shape) else None
    else
      var alias := AliasOf(space, shape);
      if n == 0 || alias.None? || !IsDeclared(schema, alias.value) then None
      else Follow(schema, alias.value.space, Definition(schema, alias.value), n - 1)
  }

  lemma {:induction false} FollowLengthIsUnique(schema: Json, space: string, shape: Json, m: nat, n: nat)
    requires Follow(schema, space, shape, m).Some? && Follow(schema, space, shape, n).Some?
    ensures m == n
    decreases n
  {
    if !IsRecord(shape) {
      var name := AliasOf(space, shape).value;
      FollowLengthIsUnique(schema, name.space, Definition(schema, name), m - 1, n - 1);
    }
  }

  lemma {:induction false} ResolveStep(schema: Json, space: string, shape: Json, visited: set<string>)
    requires !IsRecord(shape) && Resolve(schema, space, shape, visited).Some?
    ensures AliasOf(space, shape).Some?
    ensures var name := AliasOf(space, shape).value;
            && IsDeclared(schema, name)
            && |Declared(schema) - (visited + {Qualified(name)})| < |Declared(schema) - visited|
            && Resolve(schema, space, shape, visited)
               == Resolve(schema, name.space, Definition(schema, name), visited + {Qualified(name)})
  {
    VisitShrinks(schema, AliasOf(space, shape).value, visited);
  }

  lemma {:induction false} FollowStep(schema: Json, space: string, shape: Json, n: nat)
    requires !IsRecord(shape) && AliasOf(space, shape).Some? && IsDeclared(schema, AliasOf(space, shape).value)
    ensures var name := AliasOf(space, shape).value;
            Follow(schema, space, shape, n + 1) == Follow(schema, name.space, Definition(schema, name), n)
  {
  }

  /** Some finite chain of aliases ends at a record with these attributes. */
  ghost predicate Reaches(schema: Json, space: string, shape: Json, attributes: map<string, Json>) {
    exists n: nat :: Follow(schema, space, shape, n) == Some(attributes)
  }

  lemma ReachesStep(schema: Json, space: string, shape: Json, attributes: map<string, Json>)
    requires !IsRecord(shape) && AliasOf(space, shape).Some? && IsDeclared(schema, AliasOf(space, shape).value)
    requires var name := AliasOf(space, shape).value; Reaches(schema, name.space, Definition(schema, name), attributes)
    ensures Reaches(schema, space, shape, attributes)
  {
    var name := AliasOf(space, shape).value;
    var n: nat :| Follow(schema, name.space, Definition(schema, name), n) == Some(attributes);
    FollowStep(schema, space, shape, n);
  }

  /** What the resolver returns, some chain of aliases reaches. */
  lemma {:induction false} ResolvedIsReached(schema: Json, space: string, shape: Json, visited: set<string>,
                                             attributes: map<string, Json>)
    requires Resolve(schema, space, shape, visited) == Some(attributes)
    ensures Reaches(schema, space, shape, attributes)
    decreases |Declared(schema) - visited|
  {
    if IsRecord(shape) {
      assert Follow(schema, space, shape, 0) == Some(attributes);
    } else {
      ResolveStep(schema, space, shape, visited);
      var name := AliasOf(space, shape).value;
      ResolvedIsReached(schema, name.space, Definition(schema, name), visited + {Qualified(name)}, attributes);
      ReachesStep(schema, space, shape, attributes);
    }
  }

  /** No declared common type has a name that begins with a colon. */
  predicate WellNamed(schema: Json) {
    schema.Object? ==>
      forall space :: space in schema.fields ==>
        forall base :: base in CommonTypes(schema, space) ==> base == "" || base[0] != ':'
  }

  /** Alias names carry no separator in their last part. */
  lemma AliasBaseHasNoSeparator(space: string, shape: Json, k: nat)
    requires AliasOf(space, shape).Some?
    ensures var base := AliasOf(space, shape).value.base; k + 1 < |base| ==> !(base[k] == ':' && base[k + 1] == ':')
  {
    var name := TextMember(shape, "name").value;
    match LastSeparator(name)
    case None =>
    case Some(at) =>
      var base := name[at + 2..];
      if k + 1 < |base| { assert base[k] == name[at + 2 + k] && base[k + 1] == name[at + 2 + k + 1]; }
  }

  ghost predicate CleanBase(base: string) {
    (base == "" || base[0] != ':') && forall k :: 0 <= k < |base| - 1 ==> !(base[k] == ':' && base[k + 1] == ':')
  }

  lemma AliasIsClean(schema: Json, space: string, shape: Json)
    requires WellNamed(schema) && AliasOf(space, shape).Some? && IsDeclared(schema, AliasOf(space, shape).value)
    ensures CleanBase(AliasOf(space, shape).value.base)
  {
    var name := AliasOf(space, shape).value;
    assert name.space in schema.fields;
    forall k | 0 <= k < |name.base| - 1 ensures !(name.base[k] == ':' && name.base[k + 1] == ':') {
      AliasBaseHasNoSeparator(space, shape, k);
    }
  }

  lemma LongerBaseIsNotClean(a: CommonName, b: CommonName)
    requires Qualified(a) == Qualified(b) && |a.base| < |b.base|
    ensures !CleanBase(b.base)
  {
    var q, n := Qualified(a), |b.space|;
    var d := |a.space| - n;
    assert q[|a.space|] == ':' && q[|a.space| + 1] == ':';
    assert forall k :: 0 <= k < |b.base| ==> b.base[k] == q[n + 2 + k];
    if d == 1 {
      assert b.base[0] == ':';
    } else {
      assert b.base[d - 2] == ':' && b.base[d - 1] == ':';
    }
  }

  /** Qualified names of clean bases tell the types apart. */
  lemma QualifiedIsInjective(a: CommonName, b: CommonName)
    requires CleanBase(a.base) && CleanBase(b.base) && Qualified(a) == Qualified(b)
    ensures a == b
  {
    if |a.base| < |b.base| {
      LongerBaseIsNotClean(a, b);
    } else if |b.base| < |a.base| {
      LongerBaseIsNotClean(b, a);
    } else {
      var q := Qualified(a);
      assert a.space == q[..|a.space|] && b.space == q[..|b.space|];
      assert a.base == q[|a.space| + 2..] && b.base == q[|b.space| + 2..];
    }
  }

  /** The names visited so far all lead to a record in n steps or more, if at all. */
  ghost predicate VisitedAreFurther(schema: Json, visited: set<string>, n: nat) {
    forall name: CommonName :: IsDeclared(schema, name) && CleanBase(name.base) && Qualified(name) in visited ==>
      forall m: nat :: m < n ==> Follow(schema, name.space, Definition(schema, name), m).None?
  }

  /** The visited set never stops a chain that ends at a record. */
  lemma {:induction false} ReachedIsResolved(schema: Json, space: string, shape: Json, visited: set<string>, n: nat)
    requires WellNamed(schema)
    requires Follow(schema, space, shape, n).Some?
    requires VisitedAreFurther(schema, visited, n)
    ensures Resolve(schema, space, shape, visited) == Follow(schema, space, shape, n)
    decreases n
  {
    if !IsRecord(shape) {
      var name := AliasOf(space, shape).value;
      var target := Definition(schema, name);
      AliasIsClean(schema, space, shape);
      assert Follow(schema, name.space, target, n - 1).Some?;
      assert Qualified(name) !in visited;
      var more := visited + {Qualified(name)};
      forall other: CommonName, m: nat
        | IsDeclared(schema, other) && CleanBase(other.base) && Qualified(other) in more && m < n - 1
        ensures Follow(schema, other.space, Definition(schema, other), m).None?
      {
        if Qualified(other) == Qualified(name) {
          QualifiedIsInjective(other, name);
          if Follow(schema, name.space, target, m).Some? {
            FollowLengthIsUnique(schema, name.space, target, m, n - 1);
          }
        }
      }
      ReachedIsResolved(schema, name.space, target, more, n - 1);
    }
  }

  /** The resolver finds attributes exactly when following aliases reaches a record in
      finitely many steps, and then it finds that record's attributes. */
  lemma {:induction false} ResolveIffReachable(schema: Json, space: string, shape: Json, attributes: map<string, Json>)
    requires WellNamed(schema)
    ensures Resolve(schema, space, shape, {}) == Some(attributes) <==> Reaches(schema, space, shape, attributes)
  {
    if Resolve(schema, space, shape, {}) == Some(attributes) {
      ResolvedIsReached(schema, space, shape, {}, attributes);
    }
    if n: nat :| Follow(schema, space, shape, n) == Some(attributes) {
      ReachedIsResolved(schema, space, shape, {}, n);
    }
  }

  // ---- On every schema ----

  /** The qualified names met on the first n steps from a shape. */
  function ChainNames(schema: Json, space: string, shape: Json, n: nat): seq<string>
    decreases n
  {
    var alias := AliasOf(space, shape);
    if n == 0 || IsRecord(shape) || alias.None? || !IsDeclared(schema, alias.value) then []
    else [Qualified(alias.value)] + ChainNames(schema, alias.value.space, Definition(schema, alias.value), n - 1)
  }

  /** The n steps from a shape end at a record, and meet no name twice nor one seen before. */
  ghost predicate FreshChain(schema: Json, space: string, shape: Json, n: nat, visited: set<string>) {
    var names := ChainNames(schema, space, shape, n);
    && Follow(schema, space, shape, n).Some?
    && DistinctStrings(names) && forall name :: name in names ==> name !in visited
  }

  lemma FreshStep(schema: Json, space: string, shape: Json, n: nat, visited: set<string>)
    requires n > 0 && !IsRecord(shape) && AliasOf(space, shape).Some? && IsDeclared(schema, AliasOf(space, shape).value)
    ensures var name := AliasOf(space, shape).value;
            FreshChain(schema, space, shape, n, visited) <==>
            && Qualified(name) !in visited
            && FreshChain(schema, name.space, Definition(schema, name), n - 1, visited + {Qualified(name)})
  {
    var name := AliasOf(space, shape).value;
    var q, rest := Qualified(name), ChainNames(schema, name.space, Definition(schema, name), n - 1);
    assert ChainNames(schema, space, shape, n) == [q] + rest;
    DistinctCons(q, rest);
  }

  lemma {:induction false} ResolvedHasFreshChain(schema: Json, space: string, shape: Json, visited: set<string>)
      returns (n: nat)
    requires Resolve(schema, space, shape, visited).Some?
    ensures FreshChain(schema, space, shape, n, visited)
    ensures Follow(schema, space, shape, n) == Resolve(schema, space, shape, visited)
    decreases |Declared(schema) - visited|
  {
    if IsRecord(shape) {
      n := 0;
    } else {
      ResolveStep(schema, space, shape, visited);
      var name := AliasOf(space, shape).value;
      var rest := ResolvedHasFreshChain(schema, name.space, Definition(schema, name), visited + {Qualified(name)});
      n := rest + 1;
      FreshStep(schema, space, shape, n, visited);
      FollowStep(schema, space, shape, rest);
    }
  }

  lemma {:induction false} FreshChainResolves(schema: Json, space: string, shape: Json, visited: set<string>, n: nat)
    requires FreshChain(schema, space, shape, n, visited)
    ensures Resolve(schema, space, shape, visited) == Follow(schema, space, shape, n)
    decreases n
  {
    if !IsRecord(shape) {
      var name := AliasOf(space, shape).value;
      FreshStep(schema, space, shape, n, visited);
      FreshChainResolves(schema, name.space, Definition(schema, name), visited + {Qualified(name)}, n - 1);
    }
  }

  /** On every schema the resolver finds attributes exactly when some chain of aliases ends at
      the record that has them and no two of its steps share a qualified name. */
  lemma {:induction false} ResolveIffFreshChain(schema: Json, space: string, shape: Json, attributes: map<string, Json>)
    ensures Resolve(schema, space, shape, {}) == Some(attributes) <==>
            exists n: nat :: Follow(schema, space, shape, n) == Some(attributes)
                             && DistinctStrings(ChainNames(schema, space, shape, n))
  {
    if Resolve(schema, space, shape, {}) == Some(attributes) {
      var n := ResolvedHasFreshChain(schema, space, shape, {});
    }
    if n: nat :| Follow(schema, space, shape, n) == Some(attributes)
                 && DistinctStrings(ChainNames(schema, space, shape, n))
    {
      FreshChainResolves(schema, space, shape, {}, n);
    }
  }

  /** Two types that share a qualified name: the visited set stops a chain through both. */
  lemma SharedNameCutsChain(schema: Json, space: string, shape: Json, first: CommonName, second: CommonName)
      returns (attributes: map<string, Json>)
    requires !IsRecord(shape) && AliasOf(space, shape) == Some(first) && IsDeclared(schema, first)
    requires var next := Definition(schema, first); !IsRecord(next) && AliasOf(first.space, next) == Some(second)
    requires IsDeclared(schema, second) && Qualified(first) == Qualified(second)
    requires var record := Definition(schema, second); IsRecord(record) && Attributes(record).Some?
    ensures Reaches(schema, space, shape, attributes)
    ensures Resolve(schema, space, shape, {}).None?
  {
    attributes := Attributes(Definition(schema, second)).value;
    assert Follow(schema, second.space, Definition(schema, second), 0) == Some(attributes);
    FollowStep(schema, first.space, Definition(schema, first), 0);
    FollowStep(schema, space, shape, 1);
    assert {} + {Qualified(first)} == {Qualified(first)};
  }

  function SpaceWith(base: string, definition: Json): Json {
    Object(map["commonTypes" := Object(map[base := definition])])
  }

  /** Such types exist once a base name may begin with a colon: `A` with `:B`, and `A:` with `B`. */
  lemma ColonBasesCanShareAName(one: Json, other: Json)
    ensures var schema := Object(map["A" := SpaceWith(":B", one), "A:" := SpaceWith("B", other)]);
            var first, second := CommonName("A", ":B"), CommonName("A:", "B");
            && IsDeclared(schema, first) && Definition(schema, first) == one
            && IsDeclared(schema, second) && Definition(schema, second) == other
            && Qualified(first) == Qualified(second) == "A:::B"
            && CommonNameOf("A", ":B") == first && CommonNameOf("A", "A:::B") == second
  {
    var schema := Object(map["A" := SpaceWith(":B", one), "A:" := SpaceWith("B", other)]);
    assert |"A"| != |"A:"|;
    OneDeclared(schema, CommonName("A", ":B"), one);
    OneDeclared(schema, CommonName("A:", "B"), other);
    ColonNames();
  }

  lemma OneDeclared(schema: Json, name: CommonName, definition: Json)
    requires schema.Object? && name.space in schema.fields
    requires schema.fields[name.space] == SpaceWith(name.base, definition)
    ensures IsDeclared(schema, name) && Definition(schema, name) == definition
  {
  }

  lemma {:induction false} ColonNames()
    ensures CommonNameOf("A", ":B") == CommonName("A", ":B") && CommonNameOf("A", "A:::B") == CommonName("A:", "B")
    ensures Qualified(CommonName("A", ":B")) == Qualified(CommonName("A:", "B")) == "A:::B"
  {
    assert "A:::B"[1..] == ":::B" && ":::B"[1..] == "::B" && "::B"[1..] == ":B" && ":B"[1..] == "B";
  }

  // ---- Attribute checks ----

  predicate IsStringType(j: Json) {
    TextMember(j, "type") == Some("String")
    || (TextMember(j, "type") == Some("EntityOrCommon") && TextMember(j, "name") == Some("String"))
  }

  /** The type of a string, as a primitive type or by name. */
  predicate DeclaresString(j: Json) {
    || Under(Some(j), "type") == Some(Str("String"))
    || (Under(Some(j), "type") == Some(Str("EntityOrCommon")) && Under(Some(j), "name") == Some(Str("String")))
  }

  predicate DeclaresStringSet(j: Json) {
    Under(Some(j), "type") == Some(Str("Set"))
    && match Under(Some(j), "element") case None => false case Some(element) => DeclaresString(element)
  }

  predicate IsStringSetType(j: Json) {
    TextMember(j, "type") == Some("Set") && Member(j, "element").Some? && IsStringType(Member(j, "element").value)
  }

  /** The shape declared for an entity type, with the namespace it is declared in. */
  function EntityShape(schema: Json, kind: string): Option<(string, Json)> {
    if !Names.ValidName(kind) then None
    else
      var segments := Names.Segments(kind);
      var space, base := Names.Join(segments[..|segments| - 1]), segments[|segments| - 1];
      match Member(schema, space)
      case None => None
      case Some(definition) =>
        var types := Member(definition, "entityTypes");
        var entity := if types.Some? then Member(types.value, base) else None;
        var shape := if entity.Some? then Member(entity.value, "shape") else None;
        if shape.Some? then Some((space, shape.value)) else None
  }

  /** The shape of an entity type stands under its namespace, `entityTypes`, its last segment and `shape`. */
  lemma {:induction false} EntityShapeIsAt(schema: Json, front: seq<string>, base: string)
    requires var kind := Names.Join(front + [base]); Names.ValidName(kind) && Names.Segments(kind) == front + [base]
    ensures var at := Under(Under(Under(Under(Some(schema), Names.Join(front)), "entityTypes"), base), "shape");
            EntityShape(schema, Names.Join(front + [base]))
            == if at.Some? then Some((Names.Join(front), at.value)) else None
  {
    var segments := front + [base];
    assert segments[..|segments| - 1] == front;
  }

  function EntityAttributes(schema: Json, kind: string): Option<map<string, Json>> {
    match EntityShape(schema, kind)
    case None => None
    case Some((space, shape)) => Resolve(schema, space, shape, {})
  }

  method FindEntityAttributes(schema: Json, kind: string) returns (r: Option<map<string, Json>>)
    ensures r == EntityAttributes(schema, kind)
  {
    var shape := EntityShape(schema, kind);
    if shape.None? {
      return None;
    }
    var visited := new Mut<set<string>>({});
    r := RecordAttributes(schema, shape.value.0, shape.value.1, visited);
  }

  /** The schema knows the rule's type, its input is a string and its output a set of strings. */
  predicate RuleFits(schema: Json, knownTypes: set<string>, rule: Rule) {
    && rule.target.resourceType in knownTypes
    && EntityAttributes(schema, rule.target.resourceType).Some?
    && var attributes := EntityAttributes(schema, rule.target.resourceType).value;
       && rule.field in attributes && DeclaresString(attributes[rule.field])
       && rule.target.attribute in attributes && DeclaresStringSet(attributes[rule.target.attribute])
  }

  method CheckAttributes(attributes: map<string, Json>, rule: Rule, diagnostics: Mut<seq<Diagnostic>>)
    modifies diagnostics
    ensures Reported(old(diagnostics.value), diagnostics.value,
                     !(&& rule.field in attributes && DeclaresString(attributes[rule.field])
                       && rule.target.attribute in attributes && DeclaresStringSet(attributes[rule.target.attribute])))
  {
    if rule.field in attributes {
      ReportIf(!IsStringType(attributes[rule.field]), LabelsFieldNotString, diagnostics);
    } else {
      ReportIf(true, LabelsFieldMissing, diagnostics);
    }
    if rule.target.attribute in attributes {
      ReportIf(!IsStringSetType(attributes[rule.target.attribute]), LabelsOutputNotStringSet, diagnostics);
    } else {
      ReportIf(true, LabelsOutputMissing, diagnostics);
    }
  }

  predicate AllFit(schema: Json, knownTypes: set<string>, rules: seq<Rule>) {
    forall i :: 0 <= i < |rules| ==> RuleFits(schema, knownTypes, rules[i])
  }

  /** Reports nothing exactly when every rule fits the schema. */
  method ValidateSchema(schema: Json, knownTypes: set<string>, rules: seq<Rule>, diagnostics: Mut<seq<Diagnostic>>)
    modifies diagnostics
    ensures Reported(old(diagnostics.value), diagnostics.value, !AllFit(schema, knownTypes, rules))
  {
    for i := 0 to |rules|
      invariant Reported(old(diagnostics.value), diagnostics.value, !AllFit(schema, knownTypes, rules[..i]))
    {
      assert AllFit(schema, knownTypes, rules[..i + 1])
             <==> AllFit(schema, knownTypes, rules[..i]) && RuleFits(schema, knownTypes, rules[i]);
      var rule := rules[i];
      if rule.target.resourceType !in knownTypes {
        ReportIf(true, LabelsUnknownKind, diagnostics);
      } else {
        var attributes := FindEntityAttributes(schema, rule.target.resourceType);
        if attributes.None? {
          ReportIf(true, LabelsMissingShape, diagnostics);
        } else {
          CheckAttributes(attributes.value, rule, diagnostics);
        }
      }
    }
    assert rules[..|rules|] == rules;
  }
}
