/**
 Namespace ownership: `namespace_owns` compares strings, yet means that one list of
 name segments is a prefix of another.
 */
module Names {

  // ---- Cedar names ----

  predicate IsDigit(c: char) { '0' <= c <= '9' }

  predicate IsLetter(c: char) { 'a' <= c <= 'z' || 'A' <= c <= 'Z' || c == '_' }

  const RESERVED: set<string> :=
    {"true", "false", "if", "then", "else", "in", "is", "like", "has", "__cedar"}

  predicate IsIdentifier(s: string) {
    && s != "" && IsLetter(s[0])
    && (forall c :: c in s ==> IsLetter(c) || IsDigit(c))
    && s !in RESERVED
  }

  /** A name cut at every `::`. */
  function Segments(s: string): (r: seq<string>)
    ensures r != []
  {
    if |s| < 2 then [s]
    else if s[0] == ':' && s[1] == ':' then [""] + Segments(s[2..])
    else
      var rest := Segments(s[1..]);
      [[s[0]] + rest[0]] + rest[1..]
  }

  function Join(segments: seq<string>): string {
    if segments == [] then ""
    else if |segments| == 1 then segments[0]
    else segments[0] + "::" + Join(segments[1..])
  }

  /** What `str::parse::<EntityTypeName>` accepts. */
  predicate ValidName(s: string) {
    forall segment :: segment in Segments(s) ==> IsIdentifier(segment)
  }

  predicate NoSeparator(s: string) {
    forall k :: 0 <= k < |s| - 1 ==> !(s[k] == ':' && s[k + 1] == ':')
  }

  /** The parts of a cut name hold no separator. */
  lemma {:induction false} SegmentsAreCut(s: string)
    ensures forall part :: part in Segments(s) ==> NoSeparator(part)
    ensures s != "" && s[0] != ':' ==> Segments(s)[0] != "" && Segments(s)[0][0] == s[0]
  {
    if |s| >= 2 {
      if s[0] == ':' && s[1] == ':' {
        SegmentsAreCut(s[2..]);
      } else {
        SegmentsAreCut(s[1..]);
        var rest := Segments(s[1..]);
        FirstPart(s[0], rest[0]);
        assert forall part :: part in rest[1..] ==> part in rest;
      }
    }
  }

  lemma FirstPart(c: char, part: string)
    requires NoSeparator(part) && (c == ':' && part != "" ==> part[0] != ':')
    ensures NoSeparator([c] + part)
  {
  }

  // ---- Ownership ----

  predicate Owns(root: string, name: string) {
    name == root || (root <= name && "::" <= name[|root|..])
  }

  predicate Overlap(left: string, right: string) {
    Owns(left, right) || Owns(right, left)
  }

  lemma {:induction false} JoinPrepend(c: char, segments: seq<string>)
    requires segments != []
    ensures Join([[c] + segments[0]] + segments[1..]) == [c] + Join(segments)
  {
    var longer := [[c] + segments[0]] + segments[1..];
    assert longer[1..] == segments[1..];
    if |segments| > 1 {
      assert [c] + (segments[0] + "::" + Join(segments[1..])) == ([c] + segments[0]) + "::" + Join(segments[1..]);
    }
  }

  /** Joining undoes cutting. */
  lemma {:induction false} JoinSegments(s: string)
    ensures Join(Segments(s)) == s
  {
    if |s| < 2 {
    } else if s[0] == ':' && s[1] == ':' {
      JoinSegments(s[2..]);
      assert Segments(s)[1..] == Segments(s[2..]);
      assert s == "" + "::" + s[2..];
    } else {
      JoinSegments(s[1..]);
      JoinPrepend(s[0], Segments(s[1..]));
      assert s == [s[0]] + s[1..];
    }
  }

  lemma {:induction false} JoinSplit(front: seq<string>, back: seq<string>)
    requires front != [] && back != []
    ensures Join(front + back) == Join(front) + "::" + Join(back)
  {
    if |front| == 1 {
      assert (front + back)[1..] == back;
    } else {
      assert (front + back)[1..] == front[1..] + back;
      JoinSplit(front[1..], back);
      assert front[0] + "::" + (Join(front[1..]) + "::" + Join(back))
          == (front[0] + "::" + Join(front[1..])) + "::" + Join(back);
    }
  }

  lemma {:induction false} CutAfterOne(c: char, back: string)
    requires c != ':'
    ensures Segments([c] + "::" + back) == [[c]] + Segments(back)
    ensures Segments([c]) == [[c]]
  {
    var whole, rest := [c] + "::" + back, "::" + back;
    assert whole[1..] == rest && rest[2..] == back;
    assert Segments(rest) == [""] + Segments(back);
    assert [c] + "" == [c] && Segments(rest)[1..] == Segments(back);
  }

  lemma {:induction false} CutAfterMore(front: string, whole: string, back: seq<string>)
    requires |front| >= 2 && front <= whole && !(front[0] == ':' && front[1] == ':')
    requires Segments(whole[1..]) == Segments(front[1..]) + back
    ensures Segments(whole) == Segments(front) + back
  {
    GrowFirst(front[0], Segments(front[1..]), back);
  }

  lemma GrowFirst(c: char, front: seq<string>, back: seq<string>)
    requires front != []
    ensures [[c] + (front + back)[0]] + (front + back)[1..] == ([[c] + front[0]] + front[1..]) + back
  {
    assert (front + back)[1..] == front[1..] + back && (front + back)[0] == front[0];
  }

  /** A cut after a name that does not end in a colon separates the two sides. */
  lemma {:induction false} SegmentsSplit(front: string, back: string)
    requires front != "" ==> front[|front| - 1] != ':'
    ensures Segments(front + "::" + back) == Segments(front) + Segments(back)
    decreases |front|
  {
    var whole := front + "::" + back;
    if front == "" {
      assert whole[2..] == back;
    } else if |front| == 1 {
      assert front == [front[0]];
      CutAfterOne(front[0], back);
    } else if front[0] == ':' && front[1] == ':' {
      assert whole[2..] == front[2..] + "::" + back;
      SegmentsSplit(front[2..], back);
    } else {
      assert whole[1..] == front[1..] + "::" + back;
      SegmentsSplit(front[1..], back);
      CutAfterMore(front, whole, Segments(back));
    }
  }

  lemma {:induction false} OneSegment(s: string)
    requires ':' !in s
    ensures Segments(s) == [s]
  {
    if |s| >= 2 {
      assert s == [s[0]] + s[1..];
      OneSegment(s[1..]);
    }
  }

  /** A text without colons is a name exactly if it is an ASCII identifier and no reserved word. */
  lemma ShortName(s: string)
    requires ':' !in s
    ensures ValidName(s) <==>
            && s != "" && !('0' <= s[0] <= '9')
            && (forall c :: c in s ==> 'a' <= c <= 'z' || 'A' <= c <= 'Z' || '0' <= c <= '9' || c == '_')
            && s !in {"true", "false", "if", "then", "else", "in", "is", "like", "has", "__cedar"}
  {
    OneSegment(s);
    assert s in Segments(s);
    assert ValidName(s) <==> IsIdentifier(s);
    assert s != "" ==> s[0] in s;
    assert (forall c :: c in s ==> IsLetter(c) || IsDigit(c))
      <==> forall c :: c in s ==> 'a' <= c <= 'z' || 'A' <= c <= 'Z' || '0' <= c <= '9' || c == '_';
  }

  lemma {:induction false} LastCharacter(s: string)
    requires s != ""
    ensures var last := Segments(s)[|Segments(s)| - 1];
            last != "" ==> last[|last| - 1] == s[|s| - 1]
  {
    if |s| >= 2 {
      if s[0] == ':' && s[1] == ':' {
        if s[2..] != "" { LastCharacter(s[2..]); }
      } else {
        LastCharacter(s[1..]);
        EndsInText(s[1..]);
      }
    }
  }

  /** If the last segment is empty the text is empty or ends in a colon. */
  lemma {:induction false} EndsInText(s: string)
    ensures var segments := Segments(s);
            segments[|segments| - 1] == "" ==> s == "" || s[|s| - 1] == ':'
  {
    if |s| >= 2 {
      if s[0] == ':' && s[1] == ':' { EndsInText(s[2..]); } else { EndsInText(s[1..]); }
    }
  }

  lemma ValidNameEndsInText(s: string)
    requires ValidName(s)
    ensures s != "" && s[|s| - 1] != ':'
  {
    var segments := Segments(s);
    var last := segments[|segments| - 1];
    assert last in segments;
    if s != "" {
      LastCharacter(s);
      assert last[|last| - 1] in last;
    }
  }

  lemma {:induction false} OwnsImpliesSegmentPrefix(root: string, name: string)
    requires ValidName(root) && Owns(root, name)
    ensures Segments(root) <= Segments(name)
  {
    if name != root {
      ValidNameEndsInText(root);
      var back := name[|root|..][2..];
      assert name == root + "::" + back;
      SegmentsSplit(root, back);
    }
  }

  lemma OwnsExtension(root: string, back: string)
    ensures Owns(root, root + "::" + back)
  {
    assert (root + "::" + back)[|root|..] == "::" + back;
  }

  lemma {:induction false} SegmentPrefixImpliesOwns(root: string, name: string)
    requires Segments(root) <= Segments(name)
    ensures Owns(root, name)
  {
    JoinSegments(root);
    JoinSegments(name);
    var front, whole := Segments(root), Segments(name);
    if |front| < |whole| {
      var back := whole[|front|..];
      assert whole == front + back;
      JoinSplit(front, back);
      OwnsExtension(root, Join(back));
    } else {
      assert front == whole;
    }
  }

  /** On valid names, owning is having the owner's segments as a prefix. */
  lemma {:induction false} OwnsIffSegmentPrefix(root: string, name: string)
    requires ValidName(root) && ValidName(name)
    ensures Owns(root, name) <==> Segments(root) <= Segments(name)
  {
    if Owns(root, name) { OwnsImpliesSegmentPrefix(root, name); }
    if Segments(root) <= Segments(name) { SegmentPrefixImpliesOwns(root, name); }
  }

  /** Ownership is a partial order in which the owners of one name form a chain. */
  lemma OwnershipIsTreeOrder(a: string, b: string, name: string)
    requires ValidName(a) && ValidName(b) && ValidName(name)
    ensures Owns(a, a)
    ensures Owns(a, b) && Owns(b, a) ==> a == b
    ensures Owns(a, b) && Owns(b, name) ==> Owns(a, name)
    ensures Owns(a, name) && Owns(b, name) ==> Overlap(a, b)
  {
    OwnsIffSegmentPrefix(a, b);
    OwnsIffSegmentPrefix(b, a);
    OwnsIffSegmentPrefix(a, name);
    OwnsIffSegmentPrefix(b, name);
    if Owns(a, name) && Owns(b, name) {
      var sa, sb, sn := Segments(a), Segments(b), Segments(name);
      if |sa| <= |sb| { assert sa == sn[..|sa|] == sb[..|sa|]; } else { assert sb == sn[..|sb|] == sa[..|sb|]; }
    }
  }

  ghost predicate Disjoint(roots: seq<string>) {
    forall i, j :: 0 <= i < |roots| && 0 <= j < |roots| && i != j ==> !Overlap(roots[i], roots[j])
  }

  /** With pairwise disjoint roots every valid name has at most one owner. */
  lemma UniqueOwner(roots: seq<string>, name: string, i: nat, j: nat)
    requires Disjoint(roots) && ValidName(name)
    requires forall root :: root in roots ==> ValidName(root)
    requires i < |roots| && j < |roots|
    requires Owns(roots[i], name) && Owns(roots[j], name)
    ensures i == j
  {
    OwnershipIsTreeOrder(roots[i], roots[j], name);
  }

  /** The chain property needs valid names: a root ending in a colon breaks it. */
  lemma ChainNeedsValidNames()
    ensures Owns("A", "A:::B") && Owns("A:", "A:::B") && !Overlap("A", "A:")
  {
    assert "A:::B"[1..] == ":::B" && "A:::B"[2..] == "::B";
  }
}
