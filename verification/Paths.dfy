/** Relative paths cut into components. */
module Paths {

  function Split(path: string): (r: seq<string>)
    ensures r != []
  {
    if path == "" then [""]
    else
      var rest := Split(path[1..]);
      if path[0] == '/' then [""] + rest else [[path[0]] + rest[0]] + rest[1..]
  }

  /** `Path::components` of a relative path: empty parts and later `.` parts do not count. */
  function Components(parts: seq<string>, first: bool): seq<string> {
    if parts == [] then []
    else if parts[0] == "" || (parts[0] == "." && !first) then Components(parts[1..], false)
    else [parts[0]] + Components(parts[1..], false)
  }

  /** The parts, joined by slashes, are the path, and none holds a slash. */
  function JoinParts(parts: seq<string>): string
    requires parts != []
  {
    if |parts| == 1 then parts[0] else parts[0] + "/" + JoinParts(parts[1..])
  }

  lemma {:induction false} SplitJoins(path: string)
    ensures JoinParts(Split(path)) == path
    ensures forall part :: part in Split(path) ==> '/' !in part
  {
    if path != "" {
      SplitJoins(path[1..]);
      var rest := Split(path[1..]);
      assert path == [path[0]] + path[1..];
      if path[0] != '/' {
        var parts := [[path[0]] + rest[0]] + rest[1..];
        assert parts[1..] == rest[1..];
        if |rest| > 1 {
          assert ([path[0]] + rest[0]) + "/" + JoinParts(rest[1..])
              == [path[0]] + (rest[0] + "/" + JoinParts(rest[1..]));
        }
      } else {
        assert ([""] + rest)[1..] == rest;
      }
    }
  }

  /** Part k is a component: it is neither empty nor a `.` after the first place. */
  predicate Counts(parts: seq<string>, first: bool, k: nat)
    requires k < |parts|
  {
    parts[k] != "" && (parts[k] != "." || (first && k == 0))
  }

  /** A name other than `.` and the empty one is a component exactly if it is a part. */
  lemma {:induction false} ComponentsMembers(parts: seq<string>, first: bool, name: string)
    requires name != "" && name != "."
    ensures name in Components(parts, first) <==> name in parts
  {
    if parts != [] {
      assert parts == [parts[0]] + parts[1..];
      ComponentsMembers(parts[1..], false, name);
    }
  }

  lemma {:induction false} NoComponents(parts: seq<string>, first: bool)
    ensures Components(parts, first) == [] <==> forall k :: 0 <= k < |parts| ==> !Counts(parts, first, k)
  {
    if parts != [] {
      var rest := parts[1..];
      NoComponents(rest, false);
      if Counts(parts, first, 0) { assert Components(parts, first)[0] == parts[0]; }
      assert forall k :: 1 <= k < |parts| ==> (Counts(parts, first, k) <==> Counts(rest, false, k - 1));
      assert forall k :: 0 <= k < |rest| ==> (Counts(rest, false, k) <==> Counts(parts, first, k + 1));
    }
  }

  /** There is one component, and it is part k, exactly if k is the only part that counts. */
  lemma {:induction false} OneComponent(parts: seq<string>, first: bool, k: nat)
    requires k < |parts| && Counts(parts, first, k)
    ensures |Components(parts, first)| == 1 <==> forall i :: 0 <= i < |parts| && i != k ==> !Counts(parts, first, i)
    ensures |Components(parts, first)| == 1 ==> Components(parts, first)[0] == parts[k]
  {
    var rest := parts[1..];
    NoComponents(rest, false);
    assert forall i :: 1 <= i < |parts| ==> (Counts(parts, first, i) <==> Counts(rest, false, i - 1));
    assert forall i :: 0 <= i < |rest| ==> (Counts(rest, false, i) <==> Counts(parts, first, i + 1));
    if k > 0 {
      OneComponent(rest, false, k - 1);
      assert Counts(parts, first, 0) ==> Components(parts, first) == [parts[0]] + Components(rest, false);
    }
  }

  predicate IsAbsolute(path: string) { path != "" && path[0] == '/' }

  lemma {:induction false} SplitPlain(path: string)
    requires '/' !in path
    ensures Split(path) == [path]
  {
    if path != "" {
      assert path == [path[0]] + path[1..];
      SplitPlain(path[1..]);
    }
  }
}
