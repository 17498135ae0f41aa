/** How derived readers take records, lists and fields from JSON, and what writing a record
    makes them find. */
module Records {
  import opened Text
  import opened Diagnostics
  import opened Json
  import opened Sorting

  // ---- Reading ----

  const NAME := "name"
  const FORMAT := "format_version"

  function Lookup(j: Json, key: string): Option<Json> {
    if j.Object? && key in j.fields then Some(j.fields[key]) else None
  }

  predicate HasExactly(j: Json, keys: set<string>) {
    j.Object? && j.fields.Keys == keys
  }

  /** The fields of a record with unknown fields denied: an object with exactly the declared
      keys, or an array of as many values in the order of declaration. */
  function Fields(j: Json, keys: seq<string>): (r: Option<seq<Json>>)
    ensures r.Some? ==> |r.value| == |keys|
  {
    match j
    case Array(items) => if |items| == |keys| then Some(items) else None
    case Object(fields) =>
      if fields.Keys == (set k | k in keys)
      then Some(seq(|keys|, i requires 0 <= i < |keys| && keys[i] in fields => fields[keys[i]]))
      else None
    case _ => None
  }

  function AsText(j: Json): (r: Option<string>)
    ensures r.Some? <==> j.Str?
    ensures r.Some? ==> j == Str(r.value)
  {
    if j.Str? then Some(j.text) else None
  }

  function AsNumber(j: Json, bound: nat): (r: Option<nat>)
    ensures r.Some? ==> r.value < bound && j.Number? && j.n == r.value
    ensures r.None? ==> !j.Number? || j.n < 0 || j.n >= bound
  {
    if j.Number? && 0 <= j.n < bound then Some(j.n) else None
  }

  function ReadList<T>(j: Json, read: Json -> Option<T>): Option<seq<T>> {
    if j.Array? then ReadItems(j.items, read) else None
  }

  /** Every item is read, in order, or nothing is. */
  function ReadItems<T>(items: seq<Json>, read: Json -> Option<T>): (r: Option<seq<T>>)
    ensures r.Some? <==> forall i :: 0 <= i < |items| ==> read(items[i]).Some?
    ensures r.Some? ==> |r.value| == |items| && forall i :: 0 <= i < |items| ==> read(items[i]) == Some(r.value[i])
  {
    if items == [] then Some([])
    else
      var front, last := ReadItems(items[..|items| - 1], read), read(items[|items| - 1]);
      if front.Some? && last.Some? then Some(front.value + [last.value]) else None
  }

  function ReadTexts(j: Json): Option<seq<string>> { ReadList(j, AsText) }

  /** A record is read from an array of its fields in order, or from an object with exactly its keys. */
  lemma FieldsIff(j: Json, keys: seq<string>, values: seq<Json>)
    requires |values| == |keys|
    ensures Fields(j, keys) == Some(values) <==>
            || j == Array(values)
            || (&& j.Object? && (forall k :: k in j.fields <==> k in keys)
                && forall i :: 0 <= i < |keys| ==> j.fields[keys[i]] == values[i])
  {
    if j.Object? { assert (forall k :: k in j.fields <==> k in keys) <==> j.fields.Keys == set k | k in keys; }
    if j.Object? && (forall k :: k in j.fields <==> k in keys)
       && (forall i :: 0 <= i < |keys| ==> j.fields[keys[i]] == values[i])
    {
      assert Fields(j, keys).value == values;
    }
  }

  /** An object that has a record's keys, with the values written, is the written record. */
  lemma WrittenIsAll(j: Json, members: seq<Member>, keys: seq<string>)
    requires j.Object? && Fields(j, keys).Some? && Keys(members) == keys && DistinctStrings(keys)
    requires forall i :: 0 <= i < |keys| ==> Fields(j, keys).value[i] == Meaning(members[i].value)
    ensures j == Meaning(VObject(members))
  {
    ObjectKeys(members, keys);
    var written := MeaningOfMembers(members);
    forall k | k in j.fields ensures k in written && j.fields[k] == written[k] {
      var i :| 0 <= i < |keys| && keys[i] == k;
      MeaningOfMember(members, i);
    }
    assert j.fields == written;
  }

  /** A list that reads as texts is those texts written. */
  lemma TextsAreAll(j: Json, texts: seq<string>)
    ensures ReadTexts(j) == Some(texts) <==> j == Meaning(TextsValue(texts))
  {
    ReadTextsValue(texts);
    if ReadTexts(j) == Some(texts) {
      var written := MeaningOfItems(Mapped(texts, TextValue));
      forall i | 0 <= i < |texts| ensures written[i] == j.items[i] { MeaningOfItem(Mapped(texts, TextValue), i); }
      assert written == j.items;
    }
  }

  // ---- Writing ----

  function TextValue(s: string): Value { VText(s) }

  function TextsValue(texts: seq<string>): Value { VArray(Mapped(texts, TextValue)) }

  // ---- What was written is found ----

  lemma {:induction false} ReadItemsOf<S, T>(xs: seq<S>, encode: S -> Value, read: Json -> Option<T>, ys: seq<T>)
    requires |xs| == |ys|
    requires forall i :: 0 <= i < |xs| ==> read(Meaning(encode(xs[i]))) == Some(ys[i])
    ensures ReadItems(MeaningOfItems(Mapped(xs, encode)), read) == Some(ys)
  {
    if xs != [] {
      var n := |xs| - 1;
      var values := Mapped(xs, encode);
      assert values[..n] == Mapped(xs[..n], encode);
      ReadItemsOf(xs[..n], encode, read, ys[..n]);
      var items := MeaningOfItems(values);
      assert items[..n] == MeaningOfItems(values[..n]);
      assert ys == ys[..n] + [ys[n]];
    }
  }

  lemma ReadTextsValue(texts: seq<string>)
    ensures ReadTexts(Meaning(TextsValue(texts))) == Some(texts)
  {
    ReadItemsOf(texts, TextValue, AsText, texts);
  }

  lemma LookupMember(members: seq<Member>, i: nat)
    requires i < |members| && DistinctStrings(Keys(members))
    ensures Lookup(Meaning(VObject(members)), members[i].key) == Some(Meaning(members[i].value))
  {
    MeaningOfMember(members, i);
  }

  /** The keys of an object written with distinct keys. */
  lemma ObjectKeys(members: seq<Member>, keys: seq<string>)
    requires Keys(members) == keys && DistinctStrings(keys)
    ensures HasExactly(Meaning(VObject(members)), set k | k in keys)
  {
    MeaningKeys(members);
  }

  /** A record written with distinct keys is found with every field. */
  lemma WrittenFields(members: seq<Member>, keys: seq<string>)
    requires Keys(members) == keys && DistinctStrings(keys)
    ensures Fields(Meaning(VObject(members)), keys).Some?
    ensures forall i :: 0 <= i < |members| ==>
              Fields(Meaning(VObject(members)), keys).value[i] == Meaning(members[i].value)
  {
    ObjectKeys(members, keys);
    forall i | 0 <= i < |members|
      ensures Fields(Meaning(VObject(members)), keys).value[i] == Meaning(members[i].value)
    {
      MeaningOfMember(members, i);
      assert keys[i] == members[i].key;
    }
  }

  lemma DifferentHeads(keys: seq<string>)
    requires forall i, j :: 0 <= i < j < |keys| ==>
               |keys[i]| != |keys[j]| || (|keys[i]| > 0 && keys[i][0] != keys[j][0])
    ensures DistinctStrings(keys)
  {
  }

  lemma {:induction false} TextsAreShallow(texts: seq<string>, depth: nat)
    requires depth >= 1
    ensures Fits(TextsValue(texts), depth)
  {
    forall i | 0 <= i < |texts| ensures Fits(TextValue(texts[i]), depth - 1) {}
  }
}
