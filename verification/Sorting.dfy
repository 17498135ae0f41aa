/** Sorting by a string key. `sort_by` and `sort_unstable` are library calls; what
    the bundle code relies on is that the sorted list is determined by its elements. */
module Sorting {
  import opened Text

  predicate SortedBy<T>(s: seq<T>, key: T -> string) {
    forall i, j :: 0 <= i < j < |s| ==> AtMost(key(s[i]), key(s[j]))
  }

  function Place<T>(s: seq<T>, x: T, key: T -> string): seq<T> {
    if s == [] then [x]
    else if Less(key(x), key(s[0])) then [x] + s
    else [s[0]] + Place(s[1..], x, key)
  }

  lemma {:induction false} PlaceKeeps<T>(s: seq<T>, x: T, key: T -> string)
    ensures var r := Place(s, x, key);
            && multiset(r) == multiset(s) + multiset{x} && |r| == |s| + 1
            && (SortedBy(s, key) ==> SortedBy(r, key))
  {
    if s == [] {
    } else if Less(key(x), key(s[0])) {
      PlaceInFront(s, x, key);
    } else {
      PlaceKeeps(s[1..], x, key);
      assert s == [s[0]] + s[1..];
      if SortedBy(s, key) { PlaceBehind(s, x, Place(s[1..], x, key), key); }
    }
  }

  lemma PlaceBehind<T>(s: seq<T>, x: T, rest: seq<T>, key: T -> string)
    requires s != [] && SortedBy(s, key) && !Less(key(x), key(s[0]))
    requires SortedBy(rest, key) && multiset(rest) == multiset(s[1..]) + multiset{x}
    ensures SortedBy([s[0]] + rest, key)
  {
    LessTotal(key(x), key(s[0]));
    forall k | 0 <= k < |rest| ensures AtMost(key(s[0]), key(rest[k])) {
      assert rest[k] in multiset(rest);
      if rest[k] != x { assert rest[k] in multiset(s[1..]); }
    }
  }

  lemma PlaceInFront<T>(s: seq<T>, x: T, key: T -> string)
    requires s != [] && Less(key(x), key(s[0]))
    ensures SortedBy(s, key) ==> SortedBy([x] + s, key)
  {
    if SortedBy(s, key) {
      forall k | 0 <= k < |s| ensures AtMost(key(x), key(s[k])) {
        if k > 0 { AtMostTransitive(key(x), key(s[0]), key(s[k])); }
      }
    }
  }

  /** A stable sort by key. */
  function Sort<T>(s: seq<T>, key: T -> string): (r: seq<T>)
    ensures multiset(r) == multiset(s)
    ensures SortedBy(r, key)
    ensures |r| == |s|
  {
    if s == [] then []
    else
      var last := |s| - 1;
      assert s == s[..last] + [s[last]];
      PlaceKeeps(Sort(s[..last], key), s[last], key);
      Place(Sort(s[..last], key), s[last], key)
  }

  /** Elements that agree on the key are the same element, within s. */
  ghost predicate KeyDetermines<T(!new)>(s: multiset<T>, key: T -> string) {
    forall x, y :: x in s && y in s && key(x) == key(y) ==> x == y
  }

  /** Two sorted lists of the same elements are the same list when the key tells
      elements apart; so any correct sort returns the list `Sort` returns. */
  lemma {:induction false} SortedListsAgree<T(!new)>(a: seq<T>, b: seq<T>, key: T -> string)
    requires SortedBy(a, key) && SortedBy(b, key)
    requires multiset(a) == multiset(b)
    requires KeyDetermines(multiset(a), key)
    ensures a == b
  {
    if a == [] {
      assert |multiset(b)| == 0;
    } else {
      HeadsAgree(a, b, key);
      TailsAgree(a, b, key);
      SortedListsAgree(a[1..], b[1..], key);
      assert a == [a[0]] + a[1..] && b == [b[0]] + b[1..];
    }
  }

  lemma DropFirst<T(!new)>(s: seq<T>, key: T -> string)
    requires s != [] && SortedBy(s, key)
    ensures SortedBy(s[1..], key)
    ensures multiset(s[1..]) == multiset(s) - multiset{s[0]}
    ensures KeyDetermines(multiset(s), key) ==> KeyDetermines(multiset(s[1..]), key)
  {
    assert s == [s[0]] + s[1..];
  }

  lemma TailsAgree<T(!new)>(a: seq<T>, b: seq<T>, key: T -> string)
    requires a != [] && b != [] && a[0] == b[0]
    requires SortedBy(a, key) && SortedBy(b, key) && multiset(a) == multiset(b)
    requires KeyDetermines(multiset(a), key)
    ensures SortedBy(a[1..], key) && SortedBy(b[1..], key) && multiset(a[1..]) == multiset(b[1..])
    ensures KeyDetermines(multiset(a[1..]), key)
  {
    DropFirst(a, key);
    DropFirst(b, key);
  }

  lemma HeadsAgree<T(!new)>(a: seq<T>, b: seq<T>, key: T -> string)
    requires SortedBy(a, key) && SortedBy(b, key)
    requires multiset(a) == multiset(b) && a != []
    requires KeyDetermines(multiset(a), key)
    ensures b != [] && a[0] == b[0]
  {
    assert a[0] in multiset(a) && a[0] in multiset(b);
    assert b[0] in multiset(b) && b[0] in multiset(a);
    var i :| 0 <= i < |b| && b[i] == a[0];
    var j :| 0 <= j < |a| && a[j] == b[0];
    assert AtMost(key(b[0]), key(b[i])) && AtMost(key(a[0]), key(a[j]));
    if key(a[0]) != key(b[0]) { LessAsymmetric(key(a[0]), key(b[0])); }
  }

  // ---- Positions under reordering ----

  lemma DuplicatePositions<T>(s: seq<T>, x: T)
    ensures multiset(s)[x] >= 2 <==> exists i, j :: 0 <= i < j < |s| && s[i] == x && s[j] == x
  {
    if s != [] {
      assert s == [s[0]] + s[1..];
      DuplicatePositions(s[1..], x);
      if multiset(s)[x] >= 2 {
        if s[0] == x {
          assert x in multiset(s[1..]);
          var k :| 0 <= k < |s[1..]| && s[1..][k] == x;
          assert s[0] == x && s[k + 1] == x;
        } else {
          var i, j :| 0 <= i < j < |s[1..]| && s[1..][i] == x && s[1..][j] == x;
          assert s[i + 1] == x && s[j + 1] == x;
        }
      }
      if i, j :| 0 <= i < j < |s| && s[i] == x && s[j] == x {
        assert s[1..][j - 1] == x;
        assert x in multiset(s[1..]);
        if i > 0 { assert s[1..][i - 1] == x; }
      }
    }
  }

  /** Two positions of a list have counterparts in any reordering. */
  lemma TwoPositions<T>(a: seq<T>, b: seq<T>, i: nat, j: nat) returns (k: nat, l: nat)
    requires multiset(a) == multiset(b) && i < |a| && j < |a| && i != j
    ensures k < |b| && l < |b| && k != l && b[k] == a[i] && b[l] == a[j]
  {
    if a[i] == a[j] {
      var low, high := if i < j then i else j, if i < j then j else i;
      assert low < high && a[low] == a[i] && a[high] == a[i];
      DuplicatePositions(a, a[i]);
      DuplicatePositions(b, a[i]);
      k, l :| 0 <= k < l < |b| && b[k] == a[i] && b[l] == a[i];
    } else {
      assert a[i] in multiset(b) && a[j] in multiset(b);
      k :| 0 <= k < |b| && b[k] == a[i];
      l :| 0 <= l < |b| && b[l] == a[j];
    }
  }

  function Mapped<T, U>(s: seq<T>, f: T -> U): (r: seq<U>)
    ensures |r| == |s| && forall i :: 0 <= i < |s| ==> r[i] == f(s[i])
  {
    seq(|s|, i requires 0 <= i < |s| => f(s[i]))
  }

  /** Lists joined one after the other. */
  function Flatten<T>(lists: seq<seq<T>>): seq<T> {
    if lists == [] then [] else Flatten(lists[..|lists| - 1]) + lists[|lists| - 1]
  }

  lemma FlattenOne<T>(list: seq<T>)
    ensures Flatten([list]) == list
  {
    assert [list][..0] == [];
  }

  lemma {:induction false} FlattenConcat<T>(a: seq<seq<T>>, b: seq<seq<T>>)
    ensures Flatten(a + b) == Flatten(a) + Flatten(b)
  {
    if b == [] {
      assert a + b == a;
    } else {
      var last := |b| - 1;
      assert (a + b)[..|a + b| - 1] == a + b[..last];
      FlattenConcat(a, b[..last]);
      SeqAssoc(Flatten(a), Flatten(b[..last]), b[last]);
    }
  }

  lemma FlattenPrefix<T>(lists: seq<seq<T>>, n: nat)
    requires n < |lists|
    ensures Flatten(lists[..n + 1]) == Flatten(lists[..n]) + lists[n]
  {
    assert lists[..n + 1][..n] == lists[..n];
  }

  /** A list has an element exactly if one of its parts has. */
  lemma {:induction false} FlattenMembers<T>(lists: seq<seq<T>>, x: T)
    ensures x in Flatten(lists) <==> exists i :: 0 <= i < |lists| && x in lists[i]
  {
    if lists != [] {
      var last := |lists| - 1;
      FlattenMembers(lists[..last], x);
      assert forall i :: 0 <= i < last ==> lists[..last][i] == lists[i];
      if i :| 0 <= i < |lists| && x in lists[i] {
        if i < last { assert x in lists[..last][i]; }
      }
    }
  }

  lemma WithoutOne<T>(s: seq<T>, i: nat)
    requires i < |s|
    ensures multiset(s[..i] + s[i + 1..]) == multiset(s) - multiset{s[i]}
  {
    assert s == s[..i] + [s[i]] + s[i + 1..];
  }

  /** The first element of a list, found in a reordering. */
  lemma Counterpart<T>(a: seq<T>, b: seq<T>) returns (i: nat)
    requires multiset(a) == multiset(b) && a != []
    ensures i < |b| && b[i] == a[0]
    ensures multiset(a[..0] + a[1..]) == multiset(b[..i] + b[i + 1..])
  {
    assert a[0] in multiset(b);
    i :| 0 <= i < |b| && b[i] == a[0];
    WithoutOne(a, 0);
    WithoutOne(b, i);
  }

  lemma MappedWithout<T, U>(s: seq<T>, i: nat, f: T -> U)
    requires i < |s|
    ensures multiset(Mapped(s, f)) == multiset(Mapped(s[..i] + s[i + 1..], f)) + multiset{f(s[i])}
  {
    var front, back := Mapped(s[..i], f), Mapped(s[i + 1..], f);
    assert Mapped(s, f) == front + [f(s[i])] + back;
    assert Mapped(s[..i] + s[i + 1..], f) == front + back;
  }

  /** Mapping reordered lists gives reordered lists. */
  lemma {:induction false} MappedReordered<T, U>(a: seq<T>, b: seq<T>, f: T -> U)
    requires multiset(a) == multiset(b)
    ensures multiset(Mapped(a, f)) == multiset(Mapped(b, f))
    decreases |a|
  {
    if a == [] {
      assert |multiset(b)| == 0;
    } else {
      var i := Counterpart(a, b);
      MappedReordered(a[..0] + a[1..], b[..i] + b[i + 1..], f);
      MappedWithout(a, 0, f);
      MappedWithout(b, i, f);
    }
  }

  /** Sorting forgets the order of the list it is given. */
  lemma {:induction false} SortIgnoresOrder<T(!new)>(a: seq<T>, b: seq<T>, key: T -> string)
    requires multiset(a) == multiset(b) && KeyDetermines(multiset(a), key)
    ensures Sort(a, key) == Sort(b, key)
  {
    SortedListsAgree(Sort(a, key), Sort(b, key), key);
  }

  function Itself(s: string): string { s }
}
