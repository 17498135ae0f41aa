/**
 Strings as the bundle code compares them: byte-wise order, ordered sets of
 strings (`BTreeSet<String>`), blank tests and UTF-8 lengths.
 */
module Text {

  /** Byte-wise order. UTF-8 keeps the order of code points, so comparing code
      points one by one is comparing bytes. */
  predicate Less(a: string, b: string) {
    b != "" && (a == "" || a[0] < b[0] || (a[0] == b[0] && Less(a[1..], b[1..])))
  }

  predicate AtMost(a: string, b: string) {
    a == b || Less(a, b)
  }

  /** At k the strings differ for the first time, and a has the smaller character. */
  predicate FirstDifference(a: string, b: string, k: nat) {
    k < |a| && k < |b| && a[..k] == b[..k] && a[k] < b[k]
  }

  /** A string is below its extensions and below what has a larger character where the two first differ. */
  lemma {:induction false} LessIff(a: string, b: string)
    ensures Less(a, b) <==> a < b || exists k: nat :: FirstDifference(a, b, k)
  {
    if a != "" && b != "" && a[0] == b[0] {
      LessIff(a[1..], b[1..]);
      if k: nat :| FirstDifference(a[1..], b[1..], k) {
        assert a[..k + 1] == [a[0]] + a[1..][..k] && b[..k + 1] == [b[0]] + b[1..][..k];
        assert FirstDifference(a, b, k + 1);
      }
      if k: nat :| FirstDifference(a, b, k) {
        assert k > 0;
        assert a[1..][..k - 1] == a[..k][1..] && b[1..][..k - 1] == b[..k][1..];
        assert FirstDifference(a[1..], b[1..], k - 1);
      }
      assert a < b <==> a[1..] < b[1..] by {
        if a[1..] < b[1..] { assert a == [a[0]] + a[1..] && b == [b[0]] + b[1..]; }
      }
    } else if a != "" && b != "" && a[0] < b[0] {
      assert FirstDifference(a, b, 0);
    }
  }

  lemma {:induction false} LessIrreflexive(a: string)
    ensures !Less(a, a)
  {
    if a != "" { LessIrreflexive(a[1..]); }
  }

  lemma {:induction false} LessTransitive(a: string, b: string, c: string)
    requires Less(a, b) && Less(b, c)
    ensures Less(a, c)
  {
    if a != "" && a[0] == b[0] && b[0] == c[0] {
      LessTransitive(a[1..], b[1..], c[1..]);
    }
  }

  lemma {:induction false} LessTotal(a: string, b: string)
    ensures Less(a, b) || a == b || Less(b, a)
  {
    if a != "" && b != "" && a[0] == b[0] {
      LessTotal(a[1..], b[1..]);
      assert a == [a[0]] + a[1..] && b == [b[0]] + b[1..];
    }
  }

  lemma {:induction false} LessAsymmetric(a: string, b: string)
    requires Less(a, b)
    ensures a != b && !Less(b, a)
  {
    LessIrreflexive(a);
    if Less(b, a) { LessTransitive(a, b, a); }
  }

  lemma AtMostTransitive(a: string, b: string, c: string)
    requires AtMost(a, b) && AtMost(b, c)
    ensures AtMost(a, c)
  {
    if Less(a, b) && Less(b, c) { LessTransitive(a, b, c); }
  }

  /** Anything between a prefix and one of its extensions carries the prefix. */
  lemma {:induction false} BetweenKeepsPrefix(prefix: string, between: string, above: string)
    requires prefix <= above
    requires AtMost(prefix, between) && AtMost(between, above)
    ensures prefix <= between
    ensures AtMost(between[|prefix|..], above[|prefix|..])
  {
    if prefix == "" {
      assert between[|prefix|..] == between && above[|prefix|..] == above;
    } else {
      LessIrreflexive(above);
      assert between != "" && above != "";
      if between == prefix {
        assert between[|prefix|..] == "";
      } else if between == above {
        assert between[|prefix|..] == above[|prefix|..];
      } else {
        BetweenKeepsPrefix(prefix[1..], between[1..], above[1..]);
        assert between == [prefix[0]] + between[1..];
        assert between[|prefix|..] == between[1..][|prefix[1..]|..];
        assert above[|prefix|..] == above[1..][|prefix[1..]|..];
      }
    }
  }

  lemma {:induction false} LessAfterPrefix(prefix: string, a: string, b: string)
    ensures Less(prefix + a, prefix + b) <==> Less(a, b)
  {
    if prefix == "" {
      assert prefix + a == a && prefix + b == b;
    } else {
      assert (prefix + a)[1..] == prefix[1..] + a && (prefix + b)[1..] == prefix[1..] + b;
      LessAfterPrefix(prefix[1..], a, b);
    }
  }

  // ---- Ordered sets of strings ----

  predicate StrictlySorted(s: seq<string>) {
    forall i, j :: 0 <= i < j < |s| ==> Less(s[i], s[j])
  }

  /** The test the archive code makes: each entry is below its right neighbour. */
  predicate NeighboursIncrease(s: seq<string>) {
    forall i :: 0 <= i < |s| - 1 ==> Less(s[i], s[i + 1])
  }

  lemma {:induction false} NeighboursIncreaseIffSorted(s: seq<string>)
    ensures NeighboursIncrease(s) <==> StrictlySorted(s)
  {
    if |s| > 1 {
      var rest := s[1..];
      NeighboursIncreaseIffSorted(rest);
      if NeighboursIncrease(s) {
        assert NeighboursIncrease(rest) by {
          forall i | 0 <= i < |rest| - 1 ensures Less(rest[i], rest[i + 1]) {
            assert Less(s[i + 1], s[i + 1 + 1]);
          }
        }
        forall i, j | 0 <= i < j < |s| ensures Less(s[i], s[j]) {
          if i > 0 {
            assert Less(rest[i - 1], rest[j - 1]);
          } else if j > 1 {
            assert Less(s[0], s[0 + 1]) && Less(rest[0], rest[j - 1]);
            LessTransitive(s[0], s[1], s[j]);
          } else {
            assert Less(s[0], s[0 + 1]);
          }
        }
      }
    }
  }

  /** `BTreeSet::insert` on the increasing sequence of a set's elements. */
  function Insert(s: seq<string>, x: string): (r: seq<string>)
    ensures forall y :: y in r <==> y in s || y == x
    ensures StrictlySorted(s) ==> StrictlySorted(r)
  {
    if s == [] then [x]
    else if x == s[0] then s
    else if Less(x, s[0]) then
      assert StrictlySorted(s) ==> StrictlySorted([x] + s) by { InsertInFront(s, x); }
      [x] + s
    else
      var rest := Insert(s[1..], x);
      assert forall y :: y in s <==> y == s[0] || y in s[1..];
      assert StrictlySorted(s) ==> StrictlySorted([s[0]] + rest) by {
        LessTotal(x, s[0]);
        if StrictlySorted(s) {
          forall k | 0 <= k < |rest| ensures Less(s[0], rest[k]) {
            assert rest[k] in rest;
          }
        }
      }
      [s[0]] + rest
  }

  lemma {:induction false} InsertInFront(s: seq<string>, x: string)
    requires s != [] && Less(x, s[0])
    ensures StrictlySorted(s) ==> StrictlySorted([x] + s)
  {
    if StrictlySorted(s) {
      forall k | 0 <= k < |s| ensures Less(x, s[k]) {
        if k > 0 { LessTransitive(x, s[0], s[k]); }
      }
    }
  }

  /** A set has one increasing enumeration. */
  lemma {:induction false} SortedSetsAgree(a: seq<string>, b: seq<string>)
    requires StrictlySorted(a) && StrictlySorted(b)
    requires forall x :: x in a <==> x in b
    ensures a == b
  {
    if a == [] {
      if b != [] { HasFirst(b); }
    } else {
      assert a[0] in b;
      FirstIsLeast(a, b);
      FirstIsLeast(b, a);
      if a[0] != b[0] { LessAsymmetric(a[0], b[0]); }
      forall x ensures x in a[1..] <==> x in b[1..] {
        RestOmitsFirst(a);
        RestOmitsFirst(b);
        assert x in a <==> x == a[0] || x in a[1..];
        assert x in b <==> x == b[0] || x in b[1..];
      }
      SortedSetsAgree(a[1..], b[1..]);
      assert a == [a[0]] + a[1..] && b == [b[0]] + b[1..];
    }
  }

  lemma HasFirst(s: seq<string>)
    requires s != []
    ensures exists x :: x in s
  {
    assert s[0] in s;
  }

  lemma FirstIsLeast(a: seq<string>, b: seq<string>)
    requires StrictlySorted(a) && a != [] && b != []
    requires b[0] in a
    ensures AtMost(a[0], b[0])
  {
    var k :| 0 <= k < |a| && a[k] == b[0];
    if k > 0 { assert Less(a[0], a[k]); }
  }

  lemma RestOmitsFirst(a: seq<string>)
    requires StrictlySorted(a) && a != []
    ensures a[0] !in a[1..]
  {
    if a[0] in a[1..] {
      var k :| 0 <= k < |a[1..]| && a[1..][k] == a[0];
      assert Less(a[0], a[k + 1]);
      LessIrreflexive(a[0]);
    }
  }

  lemma SeqAssoc<T>(a: seq<T>, b: seq<T>, c: seq<T>)
    ensures a + (b + c) == (a + b) + c
  {
  }

  predicate DistinctStrings(s: seq<string>) {
    forall i, j :: 0 <= i < j < |s| ==> s[i] != s[j]
  }

  lemma DistinctCons(first: string, rest: seq<string>)
    ensures DistinctStrings([first] + rest) <==> DistinctStrings(rest) && first !in rest
  {
    var all := [first] + rest;
    if DistinctStrings(all) {
      forall i | 0 <= i < |rest| ensures rest[i] != first { assert all[0] != all[i + 1]; }
      forall i, j | 0 <= i < j < |rest| ensures rest[i] != rest[j] { assert all[i + 1] != all[j + 1]; }
    }
  }

  lemma SortedIsDistinct(s: seq<string>)
    requires StrictlySorted(s)
    ensures DistinctStrings(s)
  {
    forall i, j | 0 <= i < j < |s| ensures s[i] != s[j] {
      LessIrreflexive(s[i]);
      assert Less(s[i], s[j]);
    }
  }

  // ---- Blank strings and byte lengths ----

  /** Unicode White_Space, the class `str::trim` removes. */
  predicate IsSpace(c: char) {
    var n := c as int;
    9 <= n <= 13 || n == 0x20 || n == 0x85 || n == 0xA0 || n == 0x1680 || 0x2000 <= n <= 0x200A
    || n == 0x2028 || n == 0x2029 || n == 0x202F || n == 0x205F || n == 0x3000
  }

  /** The white space characters of Unicode, one by one. */
  lemma WhiteSpace(c: char)
    ensures IsSpace(c) <==>
            c as int in {9, 10, 11, 12, 13, 32, 133, 160, 5760, 8192, 8193, 8194, 8195, 8196, 8197, 8198, 8199, 8200,
                         8201, 8202, 8232, 8233, 8239, 8287, 12288}
  {
  }

  /** `s.trim().is_empty()` */
  predicate IsBlank(s: string) {
    forall c :: c in s ==> IsSpace(c)
  }

  /** `str::trim` */
  function Trim(s: string): (r: string)
    ensures r != "" ==> !IsSpace(r[0]) && !IsSpace(r[|r| - 1])
    ensures |r| <= |s|
  {
    if s == "" then ""
    else if IsSpace(s[0]) then Trim(s[1..])
    else if IsSpace(s[|s| - 1]) then Trim(s[..|s| - 1])
    else s
  }

  lemma {:induction false} BlankIffTrimmedAway(s: string)
    ensures IsBlank(s) <==> Trim(s) == ""
  {
    if s != "" {
      var last := |s| - 1;
      assert s == [s[0]] + s[1..] && s == s[..last] + [s[last]];
      if IsSpace(s[0]) { BlankIffTrimmedAway(s[1..]); } else if IsSpace(s[last]) { BlankIffTrimmedAway(s[..last]); }
    }
  }

  function CharBytes(c: char): (n: nat)
    ensures 1 <= n <= 4
  {
    var n := c as int;
    if n < 0x80 then 1 else if n < 0x800 then 2 else if n < 0x1_0000 then 3 else 4
  }

  /** `str::len`: the length in UTF-8 bytes. */
  function ByteLen(s: string): nat {
    if s == "" then 0 else CharBytes(s[0]) + ByteLen(s[1..])
  }

  /** A character takes as many bytes as its code point has groups of payload bits: 7 fit one
      byte, 11 two, 16 three, and the rest four. */
  lemma CharacterWidth(c: char)
    ensures ByteLen([c]) == 1 <==> c as int < 128
    ensures ByteLen([c]) == 2 <==> 128 <= c as int < 2_048
    ensures ByteLen([c]) == 3 <==> 2_048 <= c as int < 65_536
    ensures ByteLen([c]) == 4 <==> 65_536 <= c as int
  {
    assert [c][1..] == "";
  }

  lemma {:induction false} ByteLenConcat(a: string, b: string)
    ensures ByteLen(a + b) == ByteLen(a) + ByteLen(b)
  {
    if a == "" {
      assert a + b == b;
    } else {
      assert (a + b)[1..] == a[1..] + b;
      ByteLenConcat(a[1..], b);
    }
  }
}
