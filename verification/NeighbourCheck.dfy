/**
 "Sort the namespace roots, then look at neighbours" against the check it stands
 for, "some two roots overlap". Digits sort below ':', so the two differ; this module
 says exactly when.
 */
module NeighbourCheck {
  import opened Text
  import opened Names
  import opened Sorting

  /** Two different positions hold overlapping roots. */
  ghost predicate SomeOverlap(roots: seq<string>) {
    exists i, j :: 0 <= i < |roots| && 0 <= j < |roots| && i != j && Owns(roots[i], roots[j])
  }

  ghost predicate AllValid(names: seq<string>) {
    forall name :: name in names ==> ValidName(name)
  }

  /** `windows(2).any(overlap)` */
  predicate NeighbourHit(names: seq<string>) {
    exists i :: 0 <= i < |names| - 1 && Overlap(names[i], names[i + 1])
  }

  /** One of the first n pairs of neighbours overlaps. */
  predicate HitBefore(names: seq<string>, n: nat) {
    exists i :: 0 <= i < n && i < |names| - 1 && Overlap(names[i], names[i + 1])
  }

  /** The check as the code runs it. */
  predicate Check(roots: seq<string>) {
    NeighbourHit(Sort(roots, Itself))
  }

  /** `longer` is `root` followed directly by a digit: A::B1 for A::B. */
  predicate DigitExtends(root: string, longer: string) {
    |root| < |longer| && root <= longer && IsDigit(longer[|root|])
  }

  predicate Shadowed(root: string, names: seq<string>) {
    exists k :: 0 <= k < |names| && DigitExtends(root, names[k])
  }

  /** An overlap the neighbour test can see: equal roots, or an owner none of
      whose digit extensions is listed. */
  ghost predicate VisiblePair(names: seq<string>, i: int, j: int) {
    && 0 <= i < |names| && 0 <= j < |names| && i != j
    && Owns(names[i], names[j])
    && (names[i] == names[j] || !Shadowed(names[i], names))
  }

  ghost predicate VisibleOverlap(names: seq<string>) {
    exists i, j :: VisiblePair(names, i, j)
  }

  // ---- Characters that can follow a name inside a longer name ----

  predicate IsText(s: string) {
    forall i :: 0 <= i < |s| ==> IsLetter(s[i]) || IsDigit(s[i])
  }

  predicate AllText(segments: seq<string>) {
    forall i :: 0 <= i < |segments| ==> IsText(segments[i])
  }

  /** In a valid name every character is an identifier character or half of a `::`. */
  lemma {:induction false} EveryCharacter(s: string, k: nat)
    requires AllText(Segments(s))
    requires k < |s|
    ensures IsLetter(s[k]) || IsDigit(s[k]) || "::" <= s[k..] || (k > 0 && s[k - 1] == ':')
  {
    var segments := Segments(s);
    assert IsText(segments[0]);
    if |s| >= 2 && s[0] == ':' && s[1] == ':' {
      if k >= 2 {
        assert segments[1..] == Segments(s[2..]);
        EveryCharacter(s[2..], k - 2);
        assert s[k..] == s[2..][k - 2..];
      }
    } else if |s| >= 2 {
      var rest := Segments(s[1..]);
      assert segments[0] == [s[0]] + rest[0] && segments[1..] == rest[1..];
      assert segments[0][0] == s[0];
      if k > 0 {
        assert rest[0] == segments[0][1..];
        assert forall i :: 1 <= i < |rest| ==> rest[i] == segments[i];
        EveryCharacter(s[1..], k - 1);
        assert s[k..] == s[1..][k - 1..];
      }
    }
  }

  /** The character after a valid prefix of a valid name. */
  lemma NextCharacter(root: string, name: string)
    requires ValidName(name) && root < name
    requires root != "" && root[|root| - 1] != ':'
    ensures var c := name[|root|]; IsLetter(c) || IsDigit(c) || "::" <= name[|root|..]
  {
    forall i | 0 <= i < |Segments(name)| ensures IsText(Segments(name)[i]) {
      assert IsIdentifier(Segments(name)[i]);
    }
    EveryCharacter(name, |root|);
  }

  // ---- What sits right after a root in the sorted list ----

  /** Between a root and something it owns come only names the root owns and digit extensions. */
  lemma BetweenOwnerAndOwned(root: string, between: string, owned: string)
    requires ValidName(root) && ValidName(between)
    requires Owns(root, owned)
    requires AtMost(root, between) && AtMost(between, owned)
    ensures Owns(root, between) || DigitExtends(root, between)
  {
    if between != root && owned != root {
      BetweenKeepsPrefix(root, between, owned);
      ValidNameEndsInText(root);
      NextCharacter(root, between);
      assert between[|root|..][0] == between[|root|];
      assert owned[|root|..][0] == ':';
    } else if between != root {
      LessAsymmetric(root, between);
    }
  }

  lemma {:induction false} DigitExtensionComesFirst(root: string, extension: string, owned: string)
    requires DigitExtends(root, extension) && Owns(root, owned) && root != owned
    ensures Less(root, extension) && Less(extension, owned)
  {
    var a, b := extension[|root|..], owned[|root|..];
    assert extension == root + a && owned == root + b && root == root + "";
    assert a[0] == extension[|root|] && b[0] == ':';
    LessAfterPrefix(root, "", a);
    LessAfterPrefix(root, a, b);
  }

  lemma OwnedIsAbove(root: string, owned: string)
    requires Owns(root, owned)
    ensures AtMost(root, owned)
  {
    if root != owned {
      assert owned == root + owned[|root|..] && root == root + "";
      LessAfterPrefix(root, "", owned[|root|..]);
    }
  }

  // ---- On a sorted list ----

  /** A neighbour hit is an overlap, and no digit extension of its owner is listed. */
  lemma HitIsVisible(names: seq<string>)
    requires SortedBy(names, Itself) && NeighbourHit(names)
    ensures VisibleOverlap(names)
  {
    var i :| 0 <= i < |names| - 1 && Overlap(names[i], names[i + 1]);
    assert AtMost(Itself(names[i]), Itself(names[i + 1]));
    if names[i] == names[i + 1] {
      assert VisiblePair(names, i, i + 1);
    } else {
      LessAsymmetric(names[i], names[i + 1]);
      if Owns(names[i + 1], names[i]) { OwnedIsAbove(names[i + 1], names[i]); }
      if Shadowed(names[i], names) {
        var k :| 0 <= k < |names| && DigitExtends(names[i], names[k]);
        assert k < i ==> AtMost(Itself(names[k]), Itself(names[i]));
        assert k > i + 1 ==> AtMost(Itself(names[i + 1]), Itself(names[k]));
        DigitExtensionComesFirst(names[i], names[k], names[i + 1]);
        LessAsymmetric(names[k], names[i + 1]);
        if k <= i { LessAsymmetric(names[i], names[k]); }
      }
      assert VisiblePair(names, i, i + 1);
    }
  }

  lemma OverlapAhead(names: seq<string>, i: nat, j: nat)
    requires SortedBy(names, Itself) && AllValid(names)
    requires i < j < |names| && Owns(names[i], names[j])
    ensures Overlap(names[i], names[i + 1]) || DigitExtends(names[i], names[i + 1])
  {
    assert AtMost(Itself(names[i]), Itself(names[i + 1]));
    assert i + 1 < j ==> AtMost(Itself(names[i + 1]), Itself(names[j]));
    BetweenOwnerAndOwned(names[i], names[i + 1], names[j]);
  }

  lemma VisibleIsHit(names: seq<string>)
    requires SortedBy(names, Itself) && AllValid(names) && VisibleOverlap(names)
    ensures NeighbourHit(names)
  {
    var i, j :| VisiblePair(names, i, j);
    if i < j {
      OverlapAhead(names, i, j);
      NotItsOwnExtension(names, i, j);
    } else {
      OwnedIsAbove(names[i], names[j]);
      assert AtMost(Itself(names[j]), Itself(names[i]));
      if names[i] != names[j] { LessAsymmetric(names[i], names[j]); }
      OverlapAhead(names, j, i);
      NotItsOwnExtension(names, j, i);
    }
  }

  lemma NotItsOwnExtension(names: seq<string>, i: nat, j: nat)
    requires SortedBy(names, Itself) && i < j < |names| && Owns(names[i], names[j])
    requires names[i] == names[j] || !Shadowed(names[i], names)
    ensures !DigitExtends(names[i], names[i + 1])
  {
    if names[i] == names[j] && DigitExtends(names[i], names[i + 1]) {
      var root, next := names[i], names[i + 1];
      assert next == root + next[|root|..] && root == root + "";
      LessAfterPrefix(root, "", next[|root|..]);
      assert i + 1 < j ==> AtMost(Itself(names[i + 1]), Itself(names[j]));
      LessAsymmetric(root, next);
    }
  }

  // ---- On any list ----

  /** Overlaps depend on the collection of roots, not on their order. */
  lemma OverlapsKeepUnderReordering(a: seq<string>, b: seq<string>)
    requires multiset(a) == multiset(b)
    ensures SomeOverlap(a) ==> SomeOverlap(b)
    ensures VisibleOverlap(a) ==> VisibleOverlap(b)
    ensures AllValid(a) ==> AllValid(b)
  {
    forall x | x in b ensures x in a { assert x in multiset(b); assert x in multiset(a); }
    if SomeOverlap(a) {
      var i, j :| 0 <= i < |a| && 0 <= j < |a| && i != j && Owns(a[i], a[j]);
      var k, l := TwoPositions(a, b, i, j);
    }
    if VisibleOverlap(a) {
      var i, j :| VisiblePair(a, i, j);
      var k, l := TwoPositions(a, b, i, j);
      if n :| 0 <= n < |b| && DigitExtends(b[k], b[n]) {
        assert b[n] in a;
        var m :| 0 <= m < |a| && a[m] == b[n];
        assert DigitExtends(a[i], a[m]);
      }
      assert VisiblePair(b, k, l);
    }
  }

  /** What the neighbour check decides: it fires exactly on overlaps whose owner has no
      listed digit extension (or which are duplicates). In particular a hit is always
      a real overlap. */
  lemma CheckDecides(roots: seq<string>)
    requires AllValid(roots)
    ensures Check(roots) <==> VisibleOverlap(roots)
    ensures Check(roots) ==> SomeOverlap(roots)
  {
    var names := Sort(roots, Itself);
    OverlapsKeepUnderReordering(roots, names);
    OverlapsKeepUnderReordering(names, roots);
    if NeighbourHit(names) { HitIsVisible(names); }
    if VisibleOverlap(names) { VisibleIsHit(names); }
    if VisibleOverlap(roots) {
      var i, j :| VisiblePair(roots, i, j);
      assert Owns(roots[i], roots[j]);
    }
  }

  /** The neighbour check agrees with the pairwise check on a list of names exactly
      when the list has no overlap or has one with an unshadowed owner; so it agrees on every
      list in which no name continues another directly with a digit. */
  lemma CheckExactIff(roots: seq<string>)
    requires AllValid(roots)
    ensures (Check(roots) <==> SomeOverlap(roots)) <==> (SomeOverlap(roots) ==> VisibleOverlap(roots))
    ensures (forall root :: root in roots ==> !Shadowed(root, roots)) ==> (Check(roots) <==> SomeOverlap(roots))
  {
    CheckDecides(roots);
    if SomeOverlap(roots) && forall root :: root in roots ==> !Shadowed(root, roots) {
      var i, j :| 0 <= i < |roots| && 0 <= j < |roots| && i != j && Owns(roots[i], roots[j]);
      assert roots[i] in roots;
      assert VisiblePair(roots, i, j);
    }
  }

  lemma {:induction false} ShortIdentifier(s: string)
    requires 1 <= |s| <= 2 && 'A' <= s[0] <= 'Z' && (|s| == 2 ==> IsDigit(s[1]))
    ensures IsIdentifier(s) && Segments(s) == [s]
  {
    assert s !in RESERVED by {
      forall r | r in RESERVED ensures r[0] != s[0] {}
    }
    OneSegment(s);
  }

  lemma {:induction false} NameOf(front: string, last: string)
    requires ValidName(front) && IsIdentifier(last) && Segments(last) == [last]
    ensures ValidName(front + "::" + last)
  {
    ValidNameEndsInText(front);
    SegmentsSplit(front, last);
  }

  /** Every root hides what it owns behind one of its digit extensions. */
  lemma DigitExtensionHidesOverlap(roots: seq<string>)
    requires AllValid(roots) && |roots| == 3
    requires Owns(roots[0], roots[2]) && roots[0] != roots[2] && DigitExtends(roots[0], roots[1])
    ensures SomeOverlap(roots) && !Check(roots)
  {
    var root, digit, child := roots[0], roots[1], roots[2];
    CheckDecides(roots);
    assert child[|root|] == child[|root|..][0] == ':';
    assert digit[|root|..][0] == digit[|root|];
    assert Shadowed(root, roots);
  }

  /** A list of valid, overlapping roots that passes the check. */
  lemma CheckMissesAnOverlap()
    ensures exists roots :: roots == ["B", "B1", "B::C"] && AllValid(roots) && SomeOverlap(roots) && !Check(roots)
  {
    ShortIdentifier("B");
    ShortIdentifier("B1");
    ShortIdentifier("C");
    NameOf("B", "C");
    OwnsExtension("B", "C");
    var roots := ["B", "B1", "B::C"];
    assert roots[2] == "B" + "::" + "C";
    DigitExtensionHidesOverlap(roots);
  }

  // ---- The same check under segment-wise order ----

  /** Lists of segments, ordered segment by segment. */
  predicate SegmentsLess(a: seq<string>, b: seq<string>) {
    b != [] && (a == [] || Less(a[0], b[0]) || (a[0] == b[0] && SegmentsLess(a[1..], b[1..])))
  }

  predicate SegmentSorted(names: seq<string>) {
    forall i, j :: 0 <= i < j < |names| ==>
      names[i] == names[j] || SegmentsLess(Segments(names[i]), Segments(names[j]))
  }

  lemma {:induction false} SegmentsBetween(prefix: seq<string>, between: seq<string>, above: seq<string>)
    requires prefix <= above
    requires prefix == between || SegmentsLess(prefix, between)
    requires between == above || SegmentsLess(between, above)
    ensures prefix <= between
  {
    if prefix != [] && prefix != between && between != above {
      if prefix[0] == between[0] {
        if prefix[0] == above[0] && !Less(between[0], above[0]) {
          SegmentsBetween(prefix[1..], between[1..], above[1..]);
        } else {
          LessIrreflexive(prefix[0]);
        }
      } else {
        LessAsymmetric(prefix[0], between[0]);
      }
    }
  }

  lemma {:induction false} SegmentsPrefixIsBelow(prefix: seq<string>, above: seq<string>)
    requires prefix < above
    ensures SegmentsLess(prefix, above) && !SegmentsLess(above, prefix)
  {
    if prefix != [] {
      SegmentsPrefixIsBelow(prefix[1..], above[1..]);
      LessIrreflexive(prefix[0]);
    }
  }

  lemma NeighbourOfOwner(names: seq<string>, low: nat, high: nat)
    requires AllValid(names) && SegmentSorted(names)
    requires low < high < |names| && Owns(names[low], names[high])
    ensures Overlap(names[low], names[low + 1])
  {
    OwnsIffSegmentPrefix(names[low], names[high]);
    SegmentsBetween(Segments(names[low]), Segments(names[low + 1]), Segments(names[high]));
    OwnsIffSegmentPrefix(names[low], names[low + 1]);
  }

  /** An owner sorted behind what it owns is the same name. */
  lemma OwnerBehind(names: seq<string>, low: nat, high: nat)
    requires AllValid(names) && SegmentSorted(names)
    requires low < high < |names| && Owns(names[high], names[low])
    ensures names[low] == names[high]
  {
    OwnsIffSegmentPrefix(names[high], names[low]);
    if names[low] != names[high] {
      JoinSegments(names[low]);
      JoinSegments(names[high]);
      assert Segments(names[low]) != Segments(names[high]);
      SegmentsPrefixIsBelow(Segments(names[high]), Segments(names[low]));
    }
  }

  /** Sorted segment by segment, looking at neighbours is the pairwise check. */
  lemma SegmentOrderMakesCheckExact(names: seq<string>)
    requires AllValid(names) && SegmentSorted(names)
    ensures NeighbourHit(names) <==> SomeOverlap(names)
  {
    if NeighbourHit(names) {
      var i :| 0 <= i < |names| - 1 && Overlap(names[i], names[i + 1]);
      assert Owns(names[i], names[i + 1]) || Owns(names[i + 1], names[i]);
    }
    if SomeOverlap(names) {
      var i, j :| 0 <= i < |names| && 0 <= j < |names| && i != j && Owns(names[i], names[j]);
      if i < j {
        NeighbourOfOwner(names, i, j);
      } else {
        OwnerBehind(names, j, i);
        NeighbourOfOwner(names, j, i);
      }
    }
  }
}
