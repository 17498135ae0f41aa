/**
 JSON values as serde_json holds them (objects keep insertion order), what they mean
 (objects are maps), and the canonical form that sorts keys at every depth.
 */
module Json {
  import opened Text

  /** The integers a `serde_json::Number` holds. */
  type JsonInt = n: int | -0x8000_0000_0000_0000 <= n < 0x1_0000_0000_0000_0000

  /** `serde_json::Value` with `preserve_order`. */
  datatype Value =
    | VNull
    | VBool(b: bool)
    | VNumber(n: JsonInt)
    | VText(text: string)
    | VArray(items: seq<Value>)
    | VObject(members: seq<Member>)

  datatype Member = Member(key: string, value: Value)

  /** A value up to the key order of every object in it. */
  datatype Json =
    | Null
    | Bool(b: bool)
    | Number(n: JsonInt)
    | Str(text: string)
    | Array(items: seq<Json>)
    | Object(fields: map<string, Json>)

  function Meaning(v: Value): Json {
    match v
    case VNull => Null
    case VBool(b) => Bool(b)
    case VNumber(n) => Number(n)
    case VText(text) => Str(text)
    case VArray(items) => Array(MeaningOfItems(items))
    case VObject(members) => Object(MeaningOfMembers(members))
  }

  function MeaningOfItems(items: seq<Value>): (r: seq<Json>)
    ensures |r| == |items|
  {
    if items == [] then []
    else
      var last := |items| - 1;
      MeaningOfItems(items[..last]) + [Meaning(items[last])]
  }

  /** Inserting the members one by one; a repeated key keeps its last value. */
  function MeaningOfMembers(members: seq<Member>): map<string, Json> {
    if members == [] then map[]
    else
      var last := |members| - 1;
      MeaningOfMembers(members[..last])[members[last].key := Meaning(members[last].value)]
  }

  // ---- sort_json ----

  /** `BTreeMap::insert` on members in key order. */
  function InsertMember(members: seq<Member>, m: Member): seq<Member> {
    if members == [] then [m]
    else if m.key == members[0].key then [m] + members[1..]
    else if Less(m.key, members[0].key) then [m] + members
    else [members[0]] + InsertMember(members[1..], m)
  }

  function SortJson(v: Value): Value {
    match v
    case VArray(items) => VArray(SortItems(items))
    case VObject(members) => VObject(SortMembers(members))
    case _ => v
  }

  function SortItems(items: seq<Value>): seq<Value> {
    if items == [] then []
    else
      var last := |items| - 1;
      SortItems(items[..last]) + [SortJson(items[last])]
  }

  function SortMembers(members: seq<Member>): seq<Member> {
    if members == [] then []
    else
      var last := |members| - 1;
      InsertMember(SortMembers(members[..last]), Member(members[last].key, SortJson(members[last].value)))
  }

  // ---- Canonical values ----

  function Keys(members: seq<Member>): (r: seq<string>)
    ensures |r| == |members| && forall i :: 0 <= i < |r| ==> r[i] == members[i].key
  {
    seq(|members|, i requires 0 <= i < |members| => members[i].key)
  }

  /** Every object, at every depth, lists its keys in strictly increasing order. */
  predicate Canonical(v: Value) {
    match v
    case VArray(items) => forall i :: 0 <= i < |items| ==> Canonical(items[i])
    case VObject(members) =>
      && StrictlySorted(Keys(members))
      && forall i :: 0 <= i < |members| ==> Canonical(members[i].value)
    case _ => true
  }

  predicate CanonicalMembers(members: seq<Member>) {
    Canonical(VObject(members))
  }

  /** `r` is canonical and has the key of `m` beside those of `members`. */
  ghost predicate Inserted(r: seq<Member>, members: seq<Member>, m: Member) {
    CanonicalMembers(r) && forall k :: k in Keys(r) <==> k in Keys(members) || k == m.key
  }

  lemma {:induction false} InsertKeepsOrder(members: seq<Member>, m: Member)
    requires CanonicalMembers(members) && Canonical(m.value)
    ensures Inserted(InsertMember(members, m), members, m)
  {
    if members == [] {
      assert Keys([m]) == [m.key];
    } else if m.key == members[0].key {
      InsertedAtFirst(members, m);
    } else if Less(m.key, members[0].key) {
      InsertedInFront(members, m);
    } else {
      CanonicalRest(members);
      InsertKeepsOrder(members[1..], m);
      InsertedBeyondFirst(members, m, InsertMember(members[1..], m));
    }
  }

  lemma InsertedAtFirst(members: seq<Member>, m: Member)
    requires CanonicalMembers(members) && Canonical(m.value) && members != [] && m.key == members[0].key
    ensures Inserted([m] + members[1..], members, m)
  {
    var r := [m] + members[1..];
    assert Keys(r) == Keys(members);
    assert forall i :: 1 <= i < |r| ==> r[i] == members[i];
    assert Keys(members)[0] == m.key;
  }

  lemma InsertedInFront(members: seq<Member>, m: Member)
    requires CanonicalMembers(members) && Canonical(m.value) && members != [] && Less(m.key, members[0].key)
    ensures Inserted([m] + members, members, m)
  {
    assert Keys([m] + members) == [m.key] + Keys(members);
    InsertInFront(Keys(members), m.key);
  }

  lemma InsertedBeyondFirst(members: seq<Member>, m: Member, inserted: seq<Member>)
    requires CanonicalMembers(members) && members != []
    requires m.key != members[0].key && !Less(m.key, members[0].key)
    requires Inserted(inserted, members[1..], m)
    ensures Inserted([members[0]] + inserted, members, m)
  {
    CanonicalRest(members);
    InsertedAboveFirst(members, m, inserted);
    CanonicalCons(members[0], inserted);
  }

  lemma CanonicalCons(first: Member, rest: seq<Member>)
    requires Canonical(first.value) && CanonicalMembers(rest)
    requires forall k :: k in Keys(rest) ==> Less(first.key, k)
    ensures CanonicalMembers([first] + rest)
    ensures Keys([first] + rest) == [first.key] + Keys(rest)
  {
    assert Keys([first] + rest) == [first.key] + Keys(rest);
    SortedCons(first.key, Keys(rest));
  }

  lemma CanonicalRest(members: seq<Member>)
    requires members != [] && CanonicalMembers(members)
    ensures CanonicalMembers(members[1..]) && Keys(members) == [members[0].key] + Keys(members[1..])
  {
    var rest := members[1..];
    assert Keys(members) == [members[0].key] + Keys(rest);
    assert forall i :: 0 <= i < |rest| ==> rest[i] == members[i + 1];
    assert forall i :: 0 <= i < |rest| ==> Keys(rest)[i] == Keys(members)[i + 1];
  }

  lemma InsertedAboveFirst(members: seq<Member>, m: Member, inserted: seq<Member>)
    requires members != [] && StrictlySorted(Keys(members))
    requires m.key != members[0].key && !Less(m.key, members[0].key)
    requires forall k :: k in Keys(inserted) ==> k in Keys(members[1..]) || k == m.key
    ensures forall k :: k in Keys(inserted) ==> Less(members[0].key, k)
  {
    LessTotal(m.key, members[0].key);
    forall k | k in Keys(inserted) ensures Less(members[0].key, k) {
      if k in Keys(members[1..]) { KeyAboveFirst(members, k); }
    }
  }

  lemma {:induction false} KeyAboveFirst(members: seq<Member>, k: string)
    requires members != [] && StrictlySorted(Keys(members)) && k in Keys(members[1..])
    ensures Less(members[0].key, k)
  {
    var i :| 0 <= i < |members| - 1 && Keys(members[1..])[i] == k;
    assert Less(Keys(members)[0], Keys(members)[i + 1]);
  }

  lemma {:induction false} SortedCons(first: string, rest: seq<string>)
    requires StrictlySorted(rest) && forall k :: k in rest ==> Less(first, k)
    ensures StrictlySorted([first] + rest)
  {
  }

  lemma {:induction false} SortIsCanonical(v: Value)
    ensures Canonical(SortJson(v))
    decreases v, 1
  {
    match v {
      case VArray(items) => SortedItemsCanonical(items);
      case VObject(members) => SortedMembersCanonical(members);
      case _ =>
    }
  }

  lemma {:induction false} SortedItemsCanonical(items: seq<Value>)
    ensures |SortItems(items)| == |items|
    ensures forall i :: 0 <= i < |items| ==> Canonical(SortItems(items)[i])
    decreases items, 0
  {
    if items != [] {
      SortedItemsCanonical(items[..|items| - 1]);
      SortIsCanonical(items[|items| - 1]);
    }
  }

  lemma {:induction false} SortedMembersCanonical(members: seq<Member>)
    ensures CanonicalMembers(SortMembers(members))
    decreases members, 0
  {
    if members != [] {
      var last := |members| - 1;
      SortedMembersCanonical(members[..last]);
      SortIsCanonical(members[last].value);
      InsertKeepsOrder(SortMembers(members[..last]), Member(members[last].key, SortJson(members[last].value)));
    }
  }

  // ---- Sorting keeps the meaning ----

  lemma {:induction false} MeaningOfCons(m: Member, rest: seq<Member>)
    ensures MeaningOfMembers([m] + rest) == map[m.key := Meaning(m.value)] + MeaningOfMembers(rest)
  {
    var all := [m] + rest;
    if rest == [] {
      assert all[..0] == [];
    } else {
      assert all[..|all| - 1] == [m] + rest[..|rest| - 1];
      MeaningOfCons(m, rest[..|rest| - 1]);
    }
  }

  lemma {:induction false} MeaningKeys(members: seq<Member>)
    ensures forall k :: k in MeaningOfMembers(members) <==> k in Keys(members)
  {
    if members != [] {
      var last := |members| - 1;
      MeaningKeys(members[..last]);
      assert Keys(members) == Keys(members[..last]) + [members[last].key];
    }
  }

  lemma {:induction false} ReplaceFirstMeaning(first: Member, rest: seq<Member>, m: Member)
    requires m.key == first.key && first.key !in Keys(rest)
    ensures MeaningOfMembers([m] + rest) == MeaningOfMembers([first] + rest)[m.key := Meaning(m.value)]
  {
    MeaningOfCons(first, rest);
    MeaningOfCons(m, rest);
    MeaningKeys(rest);
  }

  lemma {:induction false} InsertMeaning(members: seq<Member>, m: Member)
    requires StrictlySorted(Keys(members))
    ensures MeaningOfMembers(InsertMember(members, m)) == MeaningOfMembers(members)[m.key := Meaning(m.value)]
  {
    if members == [] {
      assert [m][..0] == [];
    } else {
      var first, rest := members[0], members[1..];
      assert members == [first] + rest;
      assert Keys(rest) == Keys(members)[1..];
      if m.key == first.key {
        RestOmitsFirst(Keys(members));
        ReplaceFirstMeaning(first, rest, m);
      } else if Less(m.key, first.key) {
        InsertInFrontMeaning(members, m);
      } else {
        InsertMeaning(rest, m);
        InsertBeyondFirst(first, rest, InsertMember(rest, m), m);
      }
    }
  }

  lemma {:induction false} InsertInFrontMeaning(members: seq<Member>, m: Member)
    requires members != [] && StrictlySorted(Keys(members)) && Less(m.key, members[0].key)
    ensures MeaningOfMembers([m] + members) == MeaningOfMembers(members)[m.key := Meaning(m.value)]
  {
    MeaningOfCons(m, members);
    SmallerKeyIsNew(members, m.key);
  }

  lemma {:induction false} InsertBeyondFirst(first: Member, rest: seq<Member>, longer: seq<Member>, m: Member)
    requires MeaningOfMembers(longer) == MeaningOfMembers(rest)[m.key := Meaning(m.value)]
    ensures MeaningOfMembers([first] + longer) == MeaningOfMembers([first] + rest)[m.key := Meaning(m.value)]
  {
    MeaningOfCons(first, rest);
    MeaningOfCons(first, longer);
    OverrideBeyond(map[first.key := Meaning(first.value)], MeaningOfMembers(rest), m.key, Meaning(m.value));
  }

  lemma OverrideBeyond(a: map<string, Json>, b: map<string, Json>, k: string, v: Json)
    ensures a + b[k := v] == (a + b)[k := v]
  {
  }

  lemma {:induction false} SmallerKeyIsNew(members: seq<Member>, k: string)
    requires members != [] && StrictlySorted(Keys(members)) && Less(k, members[0].key)
    ensures k !in MeaningOfMembers(members)
  {
    MeaningKeys(members);
    if i :| 0 <= i < |members| && Keys(members)[i] == k {
      assert i > 0 ==> Less(Keys(members)[0], Keys(members)[i]);
      LessAsymmetric(k, members[0].key);
    }
  }

  /** Sorting changes no value, only the order of keys. */
  lemma {:induction false} SortKeepsMeaning(v: Value)
    ensures Meaning(SortJson(v)) == Meaning(v)
    decreases v, 1
  {
    match v {
      case VArray(items) => SortItemsKeepMeaning(items);
      case VObject(members) => SortMembersKeepMeaning(members);
      case _ =>
    }
  }

  lemma {:induction false} SortItemsKeepMeaning(items: seq<Value>)
    ensures MeaningOfItems(SortItems(items)) == MeaningOfItems(items)
    decreases items, 0
  {
    if items != [] {
      var last := |items| - 1;
      SortItemsKeepMeaning(items[..last]);
      SortKeepsMeaning(items[last]);
      assert (SortItems(items[..last]) + [SortJson(items[last])])[..|SortItems(items[..last])|]
             == SortItems(items[..last]);
    }
  }

  lemma {:induction false} SortMembersKeepMeaning(members: seq<Member>)
    ensures MeaningOfMembers(SortMembers(members)) == MeaningOfMembers(members)
    decreases members, 0
  {
    if members != [] {
      var last := |members| - 1;
      SortMembersKeepMeaning(members[..last]);
      SortKeepsMeaning(members[last].value);
      SortedMembersCanonical(members[..last]);
      InsertMeaning(SortMembers(members[..last]), Member(members[last].key, SortJson(members[last].value)));
    }
  }

  // ---- A meaning has one canonical value ----

  lemma {:induction false} CanonicalIsUnique(a: Value, b: Value)
    requires Canonical(a) && Canonical(b) && Meaning(a) == Meaning(b)
    ensures a == b
    decreases a, 1
  {
    match a {
      case VArray(items) => CanonicalItemsUnique(items, b.items);
      case VObject(members) =>
        MeaningKeys(members);
        MeaningKeys(b.members);
        SortedSetsAgree(Keys(members), Keys(b.members));
        CanonicalMembersUnique(members, b.members);
      case _ =>
    }
  }

  lemma {:induction false} CanonicalItemsUnique(a: seq<Value>, b: seq<Value>)
    requires forall i :: 0 <= i < |a| ==> Canonical(a[i])
    requires forall i :: 0 <= i < |b| ==> Canonical(b[i])
    requires MeaningOfItems(a) == MeaningOfItems(b)
    ensures a == b
    decreases a, 0
  {
    assert |a| == |b|;
    if a != [] {
      var last := |a| - 1;
      var ma, mb := MeaningOfItems(a), MeaningOfItems(b);
      assert MeaningOfItems(a[..last]) == ma[..last] == mb[..last] == MeaningOfItems(b[..last]);
      assert Meaning(a[last]) == ma[last] == mb[last] == Meaning(b[last]);
      CanonicalItemsUnique(a[..last], b[..last]);
      CanonicalIsUnique(a[last], b[last]);
      assert a == a[..last] + [a[last]] && b == b[..last] + [b[last]];
    }
  }

  lemma {:induction false} CanonicalMembersUnique(a: seq<Member>, b: seq<Member>)
    requires CanonicalMembers(a) && CanonicalMembers(b)
    requires Keys(a) == Keys(b) && MeaningOfMembers(a) == MeaningOfMembers(b)
    ensures a == b
    decreases a, 0
  {
    assert |a| == |Keys(a)| == |Keys(b)| == |b|;
    if a != [] {
      var last := |a| - 1;
      assert a[last].key == Keys(a)[last] == Keys(b)[last] == b[last].key;
      DropLastMember(a);
      DropLastMember(b);
      CanonicalMembersUnique(a[..last], b[..last]);
      CanonicalIsUnique(a[last].value, b[last].value);
      assert a == a[..last] + [a[last]] && b == b[..last] + [b[last]];
    }
  }

  lemma DropLastMember(members: seq<Member>)
    requires members != [] && CanonicalMembers(members)
    ensures var front, last := members[..|members| - 1], members[|members| - 1];
            && CanonicalMembers(front) && Canonical(last.value)
            && Keys(front) == Keys(members)[..|front|]
            && MeaningOfMembers(front) == MeaningOfMembers(members) - {last.key}
            && last.key in MeaningOfMembers(members)
            && MeaningOfMembers(members)[last.key] == Meaning(last.value)
  {
    var n := |members| - 1;
    SortedIsDistinct(Keys(members));
    assert Keys(members[..n]) == Keys(members)[..n];
    MeaningKeys(members[..n]);
    assert members[n].key !in Keys(members[..n]);
  }

  /** Two values sort to the same value exactly when they agree up to key order at
      every depth. */
  lemma {:induction false} SortEqualIff(a: Value, b: Value)
    ensures SortJson(a) == SortJson(b) <==> Meaning(a) == Meaning(b)
  {
    SortIsCanonical(a);
    SortIsCanonical(b);
    SortKeepsMeaning(a);
    SortKeepsMeaning(b);
    if Meaning(a) == Meaning(b) { CanonicalIsUnique(SortJson(a), SortJson(b)); }
  }

  lemma {:induction false} SortIsIdempotent(v: Value)
    ensures SortJson(SortJson(v)) == SortJson(v)
  {
    SortKeepsMeaning(v);
    SortEqualIff(SortJson(v), v);
  }

  // ---- Writing out a meaning ----

  lemma {:induction false} LeastExists(keys: set<string>)
    requires keys != {}
    ensures exists k :: k in keys && forall l :: l in keys ==> AtMost(k, l)
  {
    var x :| x in keys;
    if keys != {x} {
      assert keys == {x} + (keys - {x});
      LeastExists(keys - {x});
      var k :| k in keys - {x} && forall l :: l in keys - {x} ==> AtMost(k, l);
      LessTotal(x, k);
      var least := if Less(x, k) then x else k;
      forall l | l in keys ensures AtMost(least, l) {
        if l != x && least == x { AtMostTransitive(x, k, l); }
      }
    }
  }

  predicate IsLeast(k: string, keys: set<string>) {
    k in keys && forall l :: l in keys ==> AtMost(k, l)
  }

  lemma LeastIsUnique(keys: set<string>)
    ensures forall a, b :: IsLeast(a, keys) && IsLeast(b, keys) ==> a == b
  {
    forall a, b | IsLeast(a, keys) && IsLeast(b, keys) ensures a == b {
      assert AtMost(a, b) && AtMost(b, a);
      if a != b { LessAsymmetric(a, b); }
    }
  }

  function LeastKey(keys: set<string>): (k: string)
    requires keys != {}
    ensures k in keys && forall l :: l in keys ==> AtMost(k, l)
  {
    LeastExists(keys);
    LeastIsUnique(keys);
    assert exists k :: k in keys && IsLeast(k, keys) by {
      var k :| k in keys && forall l :: l in keys ==> AtMost(k, l);
      assert IsLeast(k, keys);
    }
    var k :| k in keys && IsLeast(k, keys);
    k
  }

  /** The canonical value of a meaning. */
  function ToValue(j: Json): Value
    decreases j, 1, 0
  {
    match j
    case Null => VNull
    case Bool(b) => VBool(b)
    case Number(n) => VNumber(n)
    case Str(text) => VText(text)
    case Array(items) => VArray(ToItems(items))
    case Object(fields) => VObject(ToMembers(j, fields))
  }

  function ToItems(items: seq<Json>): seq<Value>
    decreases items, 0, 0
  {
    if items == [] then [] else ToItems(items[..|items| - 1]) + [ToValue(items[|items| - 1])]
  }

  ghost predicate Within(fields: map<string, Json>, parent: Json) {
    parent.Object? && forall k :: k in fields ==> k in parent.fields && parent.fields[k] == fields[k]
  }

  function ToMembers(ghost parent: Json, fields: map<string, Json>): seq<Member>
    requires Within(fields, parent)
    decreases parent, 0, |fields|
  {
    if fields == map[] then []
    else
      assert fields.Keys != {};
      var k := LeastKey(fields.Keys);
      assert fields[k] == parent.fields[k];
      [Member(k, ToValue(fields[k]))] + ToMembers(parent, fields - {k})
  }

  lemma {:induction false} ToValueIsCanonical(j: Json)
    ensures Canonical(ToValue(j)) && Meaning(ToValue(j)) == j
    decreases j, 1, 0
  {
    match j {
      case Array(items) => ToItemsCanonical(items);
      case Object(fields) => ToMembersCanonical(j, fields);
      case _ =>
    }
  }

  lemma {:induction false} ToItemsCanonical(items: seq<Json>)
    ensures forall i :: 0 <= i < |ToItems(items)| ==> Canonical(ToItems(items)[i])
    ensures MeaningOfItems(ToItems(items)) == items
    decreases items, 0, 0
  {
    if items != [] {
      var front, last := items[..|items| - 1], items[|items| - 1];
      ToItemsCanonical(front);
      ToValueIsCanonical(last);
      var all := ToItems(front) + [ToValue(last)];
      assert all[..|all| - 1] == ToItems(front);
    }
  }

  lemma {:induction false} ToMembersCanonical(parent: Json, fields: map<string, Json>)
    requires Within(fields, parent)
    ensures CanonicalMembers(ToMembers(parent, fields))
    ensures MeaningOfMembers(ToMembers(parent, fields)) == fields
    ensures forall k :: k in Keys(ToMembers(parent, fields)) <==> k in fields
    decreases parent, 0, |fields|
  {
    if fields != map[] {
      assert fields.Keys != {};
      var k := LeastKey(fields.Keys);
      assert fields[k] == parent.fields[k];
      var rest := fields - {k};
      ToValueIsCanonical(fields[k]);
      ToMembersCanonical(parent, rest);
      LeastFirst(k, ToValue(fields[k]), ToMembers(parent, rest));
      PutBack(fields, k, ToValue(fields[k]), ToMembers(parent, rest));
    }
  }

  lemma {:induction false} PutBack(fields: map<string, Json>, k: string, v: Value, rest: seq<Member>)
    requires k in fields && Meaning(v) == fields[k] && MeaningOfMembers(rest) == fields - {k}
    ensures MeaningOfMembers([Member(k, v)] + rest) == fields
  {
    MeaningOfCons(Member(k, v), rest);
    assert map[k := fields[k]] + (fields - {k}) == fields;
  }

  lemma {:induction false} LeastFirst(k: string, v: Value, rest: seq<Member>)
    requires Canonical(v) && CanonicalMembers(rest)
    requires forall l :: l in Keys(rest) ==> Less(k, l)
    ensures CanonicalMembers([Member(k, v)] + rest)
    ensures forall l :: l in Keys([Member(k, v)] + rest) <==> l == k || l in Keys(rest)
  {
    assert Keys([Member(k, v)] + rest) == [k] + Keys(rest);
    SortedCons(k, Keys(rest));
  }

  /** The canonical value of a meaning is the value any writing of it sorts to. */
  lemma {:induction false} ToValueIsSorted(v: Value)
    ensures ToValue(Meaning(v)) == SortJson(v)
  {
    ToValueIsCanonical(Meaning(v));
    SortIsCanonical(v);
    SortKeepsMeaning(v);
    CanonicalIsUnique(ToValue(Meaning(v)), SortJson(v));
  }

  // ---- Depth ----

  /** Arrays and objects nest at most `depth` deep. */
  predicate Fits(v: Value, depth: nat)
    decreases depth
  {
    match v
    case VArray(items) => depth > 0 && forall i :: 0 <= i < |items| ==> Fits(items[i], depth - 1)
    case VObject(members) => depth > 0 && forall i :: 0 <= i < |members| ==> Fits(members[i].value, depth - 1)
    case _ => true
  }

  predicate MeaningFits(j: Json, depth: nat)
    decreases depth
  {
    match j
    case Array(items) => depth > 0 && forall i :: 0 <= i < |items| ==> MeaningFits(items[i], depth - 1)
    case Object(fields) => depth > 0 && forall k :: k in fields ==> MeaningFits(fields[k], depth - 1)
    case _ => true
  }

  lemma {:induction false} FitsDeeper(v: Value, n: nat, m: nat)
    requires Fits(v, n) && n <= m
    ensures Fits(v, m)
    decreases n
  {
    match v {
      case VArray(items) =>
        forall i | 0 <= i < |items| ensures Fits(items[i], m - 1) { FitsDeeper(items[i], n - 1, m - 1); }
      case VObject(members) =>
        forall i | 0 <= i < |members| ensures Fits(members[i].value, m - 1) {
          FitsDeeper(members[i].value, n - 1, m - 1);
        }
      case _ =>
    }
  }

  lemma {:induction false} MeaningOfItem(items: seq<Value>, i: nat)
    requires i < |items|
    ensures MeaningOfItems(items)[i] == Meaning(items[i])
  {
    if i < |items| - 1 { MeaningOfItem(items[..|items| - 1], i); }
  }

  /** With distinct keys an object has every member. */
  lemma {:induction false} MeaningOfMember(members: seq<Member>, i: nat)
    requires i < |members| && DistinctStrings(Keys(members))
    ensures members[i].key in MeaningOfMembers(members)
    ensures MeaningOfMembers(members)[members[i].key] == Meaning(members[i].value)
  {
    var last := |members| - 1;
    if i < last {
      var front := members[..last];
      assert forall k :: 0 <= k < last ==> Keys(front)[k] == Keys(members)[k];
      MeaningOfMember(front, i);
      assert Keys(members)[i] != Keys(members)[last];
    }
  }

  /** In canonical form the text nests as deep as its meaning. */
  lemma {:induction false} CanonicalFits(v: Value, depth: nat)
    requires Canonical(v)
    ensures Fits(v, depth) <==> MeaningFits(Meaning(v), depth)
    decreases depth
  {
    match v {
      case VArray(items) =>
        if depth > 0 {
          forall i | 0 <= i < |items|
            ensures Fits(items[i], depth - 1) <==> MeaningFits(MeaningOfItems(items)[i], depth - 1)
          {
            MeaningOfItem(items, i);
            CanonicalFits(items[i], depth - 1);
          }
        }
      case VObject(members) =>
        if depth > 0 { CanonicalMembersFit(members, depth); }
      case _ =>
    }
  }

  lemma {:induction false} CanonicalMembersFit(members: seq<Member>, depth: nat)
    requires CanonicalMembers(members) && depth > 0
    ensures Fits(VObject(members), depth) <==> MeaningFits(Meaning(VObject(members)), depth)
    decreases depth, 0
  {
    SortedIsDistinct(Keys(members));
    MeaningKeys(members);
    var fields := MeaningOfMembers(members);
    forall i | 0 <= i < |members|
      ensures members[i].key in fields
      ensures Fits(members[i].value, depth - 1) <==> MeaningFits(fields[members[i].key], depth - 1)
    {
      MeaningOfMember(members, i);
      CanonicalFits(members[i].value, depth - 1);
    }
    forall k | k in fields ensures exists i :: 0 <= i < |members| && members[i].key == k {
      var i :| 0 <= i < |members| && Keys(members)[i] == k;
      assert members[i].key == k;
    }
  }

  lemma {:induction false} SortedFits(v: Value, depth: nat)
    ensures Fits(SortJson(v), depth) <==> MeaningFits(Meaning(v), depth)
  {
    SortIsCanonical(v);
    SortKeepsMeaning(v);
    CanonicalFits(SortJson(v), depth);
  }

  lemma {:induction false} FitsMeaning(v: Value, depth: nat)
    requires Fits(v, depth)
    ensures MeaningFits(Meaning(v), depth)
    decreases depth
  {
    match v {
      case VArray(items) =>
        forall i | 0 <= i < |items| ensures MeaningFits(MeaningOfItems(items)[i], depth - 1) {
          MeaningOfItem(items, i);
          FitsMeaning(items[i], depth - 1);
        }
      case VObject(members) =>
        forall k | k in MeaningOfMembers(members) ensures MeaningFits(MeaningOfMembers(members)[k], depth - 1) {
          var i := LastMember(members, k);
          FitsMeaning(members[i].value, depth - 1);
        }
      case _ =>
    }
  }

  /** The member an object takes a key's value from. */
  lemma {:induction false} LastMember(members: seq<Member>, k: string) returns (i: nat)
    requires k in MeaningOfMembers(members)
    ensures i < |members| && MeaningOfMembers(members)[k] == Meaning(members[i].value)
  {
    var last := |members| - 1;
    if members[last].key == k { i := last; } else { i := LastMember(members[..last], k); }
  }
}
