/** Archive limits, the entry layout, and decoding a packed archive. gzip and tar framing
    are one abstract container. */
module Archives {
  import opened Diagnostics
  import opened Codecs
  import opened Paths

  // ---- Limits ----

  const U64_MAX := 0xFFFF_FFFF_FFFF_FFFF

  /** `u64::try_from(limit)` then `checked_add(1)`. */
  function LimitPlusOne(limit: USize): Option<nat> {
    if limit + 1 <= U64_MAX then Some(limit + 1) else None
  }

  datatype Limits = Limits(maxCompressed: USize, maxUncompressed: USize)

  predicate LimitsOk(limits: Limits) {
    0 < limits.maxCompressed < 0xFFFF_FFFF_FFFF_FFFF && 0 < limits.maxUncompressed < 0xFFFF_FFFF_FFFF_FFFF
  }

  method NewLimits(maxCompressed: USize, maxUncompressed: USize) returns (r: Result<Limits>)
    ensures r.Ok? <==> LimitsOk(Limits(maxCompressed, maxUncompressed))
    ensures r.Ok? ==> r.value == Limits(maxCompressed, maxUncompressed)
  {
    if maxCompressed == 0 || maxUncompressed == 0 {
      return Err(Archive);
    }
    if LimitPlusOne(maxCompressed).None? || LimitPlusOne(maxUncompressed).None? {
      return Err(Archive);
    }
    r := Ok(Limits(maxCompressed, maxUncompressed));
  }

  // ---- The limited reader ----

  function Min(a: nat, b: nat): nat { if a < b then a else b }

  /** `Read::take` over a stream of `total` bytes: `limit` counts down as bytes are consumed. */
  class LimitedReader {
    const total: nat
    const start: nat
    var consumed: nat
    var limit: nat

    predicate Valid()
      reads this
    {
      consumed + limit == start && consumed <= total
    }

    constructor (total: nat, limit: nat)
      ensures Valid() && this.total == total && this.start == limit && consumed == 0
    {
      this.total := total;
      this.start := limit;
      this.consumed := 0;
      this.limit := limit;
    }

    /** One read of at most `want` bytes; the stream below offers as many as it likes, but
        at least one while it has any. */
    method Read(want: nat, offer: nat) returns (n: nat)
      requires Valid()
      modifies this
      ensures Valid()
      ensures consumed == old(consumed) + n && n <= want
      ensures n == 0 <==> want == 0 || old(limit) == 0 || old(consumed) == total
    {
      var most := Min(Min(want, limit), total - consumed);
      n := if most == 0 then 0 else Min(most, if offer == 0 then 1 else offer);
      consumed := consumed + n;
      limit := limit - n;
    }

    /** Reads to the end, however the stream splits its bytes. */
    method Drain(offers: seq<nat>)
      requires Valid()
      modifies this
      ensures Valid()
      ensures limit == 0 <==> total >= start
    {
      var i := 0;
      var n := 1;
      while n != 0
        invariant Valid()
        invariant n == 0 ==> limit == 0 || consumed == total
        decreases limit, n
      {
        n := Read(8192, if i < |offers| then offers[i] else 8192);
        i := i + 1;
      }
    }
  }

  /** Whatever was read before, in whatever pieces, the drained reader has nothing left
      exactly when the stream is larger than the maximum. */
  method ExceedsMaximum(total: nat, max: nat, pieces: seq<(nat, nat)>, offers: seq<nat>) returns (exceeds: bool)
    ensures exceeds <==> total > max
  {
    var reader := new LimitedReader(total, max + 1);
    for i := 0 to |pieces|
      invariant fresh(reader) && reader.Valid() && reader.start == max + 1 && reader.total == total
    {
      var _ := reader.Read(pieces[i].0, pieces[i].1);
    }
    reader.Drain(offers);
    exceeds := reader.limit == 0;
  }

  // ---- Entries ----

  const MANIFEST_PATH := "manifest.json"
  const SIGNATURE_PATH := "signature.json"
  const POLICIES_PATH := "policies.cedar"
  const SCHEMA_PATH := "schema.json"
  const LABELS_PATH := "labels.json"

  datatype Entry = Entry(name: string, contents: Bytes)

  /** An entry as tar presents it. */
  datatype TarEntry = TarEntry(regular: bool, entry: Entry)

  datatype Decoded = Decoded(manifest: Bytes, signature: Option<Bytes>, policies: Bytes, schema: Option<Bytes>,
                             labels: Bytes)

  function OptionalEntry(name: string, contents: Option<Bytes>): seq<Entry> {
    if contents.Some? then [Entry(name, contents.value)] else []
  }

  /** The artifacts, in archive order. */
  function ArtifactEntries(policies: Bytes, schema: Option<Bytes>, labels: Bytes): seq<Entry> {
    [Entry(POLICIES_PATH, policies)] + OptionalEntry(SCHEMA_PATH, schema) + [Entry(LABELS_PATH, labels)]
  }

  function EntriesOf(d: Decoded): seq<Entry> {
    [Entry(MANIFEST_PATH, d.manifest)] + OptionalEntry(SIGNATURE_PATH, d.signature)
    + ArtifactEntries(d.policies, d.schema, d.labels)
  }

  method ListArtifacts(d: Decoded) returns (entries: seq<Entry>)
    ensures entries == ArtifactEntries(d.policies, d.schema, d.labels)
  {
    entries := [Entry(POLICIES_PATH, d.policies)];
    if d.schema.Some? {
      entries := entries + [Entry(SCHEMA_PATH, d.schema.value)];
    }
    entries := entries + [Entry(LABELS_PATH, d.labels)];
  }

  /** The entries an archive is packed from. */
  method EncodeEntries(manifest: Bytes, signature: Option<Bytes>, artifacts: seq<Entry>) returns (entries: seq<Entry>)
    ensures entries == [Entry(MANIFEST_PATH, manifest)] + OptionalEntry(SIGNATURE_PATH, signature) + artifacts
  {
    entries := [Entry(MANIFEST_PATH, manifest)];
    if signature.Some? {
      entries := entries + [Entry(SIGNATURE_PATH, signature.value)];
    }
    ghost var front := entries;
    for i := 0 to |artifacts|
      invariant entries == front + artifacts[..i]
    {
      entries := entries + [artifacts[i]];
    }
    assert artifacts[..|artifacts|] == artifacts;
  }

  // ---- Paths ----

  /** Relative, and one component that does not lead upwards. */
  predicate PathSafe(path: string) {
    && !IsAbsolute(path)
    && var parts := Components(Split(path), true); |parts| == 1 && parts[0] != ".."
  }

  /** Part k is the only one that counts, and does not lead upwards. */
  predicate OnlyPart(parts: seq<string>, k: int) {
    && 0 <= k < |parts| && parts[k] != ".." && Counts(parts, true, k)
    && forall i :: 0 <= i < |parts| && i != k ==> !Counts(parts, true, i)
  }

  /** Safe paths do not begin with a slash and have one part that is not empty or a later `.`, and it is
      not `..`. */
  lemma {:induction false} PathSafeIff(path: string)
    ensures PathSafe(path) <==> (path == "" || path[0] != '/') && exists k :: OnlyPart(Split(path), k)
  {
    var parts := Split(path);
    NoComponents(parts, true);
    if PathSafe(path) {
      var k: nat :| k < |parts| && Counts(parts, true, k);
      OneComponent(parts, true, k);
      assert OnlyPart(parts, k);
    }
    if k: nat :| OnlyPart(parts, k) { OneComponent(parts, true, k); }
  }

  lemma PlainPathIsSafe(path: string)
    requires |path| > 2 && '/' !in path
    ensures PathSafe(path)
  {
    SplitPlain(path);
    assert Components([path], true) == [path] + Components([], false);
  }

  // ---- Decoding ----

  function Names(entries: seq<Entry>): (r: seq<string>)
    ensures |r| == |entries| && forall i :: 0 <= i < |r| ==> r[i] == entries[i].name
  {
    seq(|entries|, i requires 0 <= i < |entries| => entries[i].name)
  }

  /** The four accepted orders of entries. */
  predicate LayoutOk(names: seq<string>) {
    || names == [MANIFEST_PATH, POLICIES_PATH, LABELS_PATH]
    || names == [MANIFEST_PATH, POLICIES_PATH, SCHEMA_PATH, LABELS_PATH]
    || names == [MANIFEST_PATH, SIGNATURE_PATH, POLICIES_PATH, LABELS_PATH]
    || names == [MANIFEST_PATH, SIGNATURE_PATH, POLICIES_PATH, SCHEMA_PATH, LABELS_PATH]
  }

  /** `BTreeMap::remove` after collecting: the last entry of that name. */
  function Find(entries: seq<Entry>, name: string): Option<Bytes> {
    if entries == [] then None
    else if entries[|entries| - 1].name == name then Some(entries[|entries| - 1].contents)
    else Find(entries[..|entries| - 1], name)
  }

  predicate EntriesOk(tar: seq<TarEntry>) {
    |tar| <= 5 && forall i :: 0 <= i < |tar| ==> tar[i].regular && PathSafe(tar[i].entry.name)
  }

  function Contents(tar: seq<TarEntry>): (r: seq<Entry>)
    ensures |r| == |tar| && forall i :: 0 <= i < |r| ==> r[i] == tar[i].entry
  {
    seq(|tar|, i requires 0 <= i < |tar| => tar[i].entry)
  }

  /** The entry loop: at most five regular files with safe names. */
  method ReadEntries(tar: seq<TarEntry>) returns (ok: bool, entries: seq<Entry>)
    ensures ok <==> EntriesOk(tar)
    ensures ok ==> entries == Contents(tar)
  {
    entries := [];
    for i := 0 to |tar|
      invariant i <= 5 && entries == Contents(tar)[..i]
      invariant forall k :: 0 <= k < i ==> tar[k].regular && PathSafe(tar[k].entry.name)
    {
      if |entries| == 5 { return false, entries; }
      if !tar[i].regular { return false, entries; }
      if !PathSafe(tar[i].entry.name) { return false, entries; }
      entries := entries + [tar[i].entry];
    }
    assert Contents(tar)[..|tar|] == Contents(tar);
    ok := true;
  }

  function DecodedOf(entries: seq<Entry>): Option<Decoded> {
    var manifest, policies := Find(entries, MANIFEST_PATH), Find(entries, POLICIES_PATH);
    var labels := Find(entries, LABELS_PATH);
    if LayoutOk(Names(entries)) && manifest.Some? && policies.Some? && labels.Some?
    then Some(Decoded(manifest.value, Find(entries, SIGNATURE_PATH), policies.value, Find(entries, SCHEMA_PATH),
                      labels.value))
    else None
  }

  lemma PathsDiffer()
    ensures MANIFEST_PATH == "manifest.json" && SIGNATURE_PATH == "signature.json" && POLICIES_PATH == "policies.cedar"
            && SCHEMA_PATH == "schema.json" && LABELS_PATH == "labels.json"
    ensures MANIFEST_PATH != SIGNATURE_PATH && MANIFEST_PATH != POLICIES_PATH && MANIFEST_PATH != SCHEMA_PATH
            && MANIFEST_PATH != LABELS_PATH
    ensures SIGNATURE_PATH != POLICIES_PATH && SIGNATURE_PATH != SCHEMA_PATH && SIGNATURE_PATH != LABELS_PATH
    ensures POLICIES_PATH != SCHEMA_PATH && POLICIES_PATH != LABELS_PATH && SCHEMA_PATH != LABELS_PATH
  {
    assert MANIFEST_PATH[0] == 'm' && SIGNATURE_PATH[0] == 's' && POLICIES_PATH[0] == 'p'
           && SCHEMA_PATH[0] == 's' && LABELS_PATH[0] == 'l';
    assert |SIGNATURE_PATH| != |SCHEMA_PATH|;
  }

  lemma {:induction false} FindLast(front: seq<Entry>, e: Entry, name: string)
    ensures Find(front + [e], name) == if e.name == name then Some(e.contents) else Find(front, name)
  {
    assert (front + [e])[..|front|] == front;
  }

  /** Decoding takes entries apart the way encoding put them together: every encoded archive
      decodes to itself. */
  lemma EntriesRoundTrip(d: Decoded)
    ensures DecodedOf(EntriesOf(d)) == Some(d)
    ensures KnownEntries(EntriesOf(d))
    ensures |EntriesOf(d)| <= 5
  {
    PathsDiffer();
    var a := [Entry(MANIFEST_PATH, d.manifest)];
    var b := a + OptionalEntry(SIGNATURE_PATH, d.signature);
    var c := b + [Entry(POLICIES_PATH, d.policies)];
    var e := c + OptionalEntry(SCHEMA_PATH, d.schema);
    var all := e + [Entry(LABELS_PATH, d.labels)];
    assert EntriesOf(d) == all;
    forall name ensures Find(all, name) ==
        if name == LABELS_PATH then Some(d.labels)
        else if name == SCHEMA_PATH then d.schema
        else if name == POLICIES_PATH then Some(d.policies)
        else if name == SIGNATURE_PATH then d.signature
        else if name == MANIFEST_PATH then Some(d.manifest) else None
    {
      FindInLayout(d, name);
    }
    LayoutOfEntries(d);
  }

  lemma {:induction false} FindInLayout(d: Decoded, name: string)
    ensures Find(EntriesOf(d), name) ==
        if name == LABELS_PATH then Some(d.labels)
        else if name == SCHEMA_PATH then d.schema
        else if name == POLICIES_PATH then Some(d.policies)
        else if name == SIGNATURE_PATH then d.signature
        else if name == MANIFEST_PATH then Some(d.manifest) else None
  {
    PathsDiffer();
    var a := [Entry(MANIFEST_PATH, d.manifest)];
    var b := a + OptionalEntry(SIGNATURE_PATH, d.signature);
    var c := b + [Entry(POLICIES_PATH, d.policies)];
    var e := c + OptionalEntry(SCHEMA_PATH, d.schema);
    assert a == [] + a;
    FindLast([], a[0], name);
    if d.signature.Some? { FindLast(a, Entry(SIGNATURE_PATH, d.signature.value), name); } else { assert b == a; }
    FindLast(b, Entry(POLICIES_PATH, d.policies), name);
    if d.schema.Some? { FindLast(c, Entry(SCHEMA_PATH, d.schema.value), name); } else { assert e == c; }
    FindLast(e, Entry(LABELS_PATH, d.labels), name);
    assert EntriesOf(d) == e + [Entry(LABELS_PATH, d.labels)];
  }

  lemma LayoutOfEntries(d: Decoded)
    ensures LayoutOk(Names(EntriesOf(d)))
  {
    var names := Names(EntriesOf(d));
    if d.signature.Some? && d.schema.Some? {
      assert names == [MANIFEST_PATH, SIGNATURE_PATH, POLICIES_PATH, SCHEMA_PATH, LABELS_PATH];
    } else if d.signature.Some? {
      assert names == [MANIFEST_PATH, SIGNATURE_PATH, POLICIES_PATH, LABELS_PATH];
    } else if d.schema.Some? {
      assert names == [MANIFEST_PATH, POLICIES_PATH, SCHEMA_PATH, LABELS_PATH];
    } else {
      assert names == [MANIFEST_PATH, POLICIES_PATH, LABELS_PATH];
    }
  }

  /** Only the four layouts decode, and what decodes is exactly what the entries hold. */
  lemma DecodedIffLayout(entries: seq<Entry>)
    ensures DecodedOf(entries).Some? <==> LayoutOk(Names(entries))
    ensures DecodedOf(entries).Some? ==> EntriesOf(DecodedOf(entries).value) == entries
  {
    if LayoutOk(Names(entries)) {
      var d := FromLayout(entries);
      EntriesRoundTrip(d);
    }
  }

  /** The contents of a list of entries in one of the four layouts. */
  lemma FromLayout(entries: seq<Entry>) returns (d: Decoded)
    requires LayoutOk(Names(entries))
    ensures EntriesOf(d) == entries
  {
    var names, n := Names(entries), |entries|;
    assert n == |names|;
    assert forall i :: 0 <= i < n ==> entries[i] == Entry(names[i], entries[i].contents);
    PathsDiffer();
    var signed := names[1] == SIGNATURE_PATH;
    var at := if signed then 2 else 1;
    var withSchema := n == at + 3;
    d := Decoded(entries[0].contents, if signed then Some(entries[1].contents) else None, entries[at].contents,
                 if withSchema then Some(entries[at + 1].contents) else None, entries[n - 1].contents);
    assert |EntriesOf(d)| == n;
    assert forall i :: 0 <= i < n ==> EntriesOf(d)[i] == entries[i];
  }

  // ---- The packed archive ----

  /** What unpacking gives: the entries, the size of the decompressed stream, how many
      compressed bytes were used, and how the stream was split into reads. */
  datatype Stream = Stream(tar: seq<TarEntry>, size: nat, used: nat, pieces: seq<(nat, nat)>, offers: seq<nat>)

  datatype Container = Container(pack: seq<Entry> -> Bytes, size: seq<Entry> -> nat, unpack: Bytes -> Option<Stream>)

  function Regular(entries: seq<Entry>): (r: seq<TarEntry>)
    ensures |r| == |entries| && Contents(r) == entries && forall i :: 0 <= i < |r| ==> r[i].regular
  {
    var r := seq(|entries|, i requires 0 <= i < |entries| => TarEntry(true, entries[i]));
    assert Contents(r) == entries;
    r
  }

  predicate KnownName(name: string) {
    || name == MANIFEST_PATH || name == SIGNATURE_PATH
    || name == POLICIES_PATH || name == SCHEMA_PATH || name == LABELS_PATH
  }

  predicate KnownEntries(entries: seq<Entry>) {
    forall i :: 0 <= i < |entries| ==> KnownName(entries[i].name)
  }

  /** Packed entries with archive names unpack to themselves, using all bytes. */
  ghost predicate LawfulContainer(c: Container) {
    forall entries: seq<Entry> {:trigger c.pack(entries)} :: KnownEntries(entries) ==>
      && c.unpack(c.pack(entries)).Some?
      && c.unpack(c.pack(entries)).value.tar == Regular(entries)
      && c.unpack(c.pack(entries)).value.size == c.size(entries)
      && c.unpack(c.pack(entries)).value.used == |c.pack(entries)|
  }

  /** What an archive has to satisfy to decode. */
  predicate DecodeOk(c: Container, limits: Limits, bytes: Bytes) {
    && |bytes| <= limits.maxCompressed
    && LimitPlusOne(limits.maxUncompressed).Some?
    && c.unpack(bytes).Some?
    && var stream := c.unpack(bytes).value;
       && EntriesOk(stream.tar)
       && stream.size <= limits.maxUncompressed
       && stream.used == |bytes|
       && LayoutOk(Names(Contents(stream.tar)))
  }

  method DecodeArchive(c: Container, limits: Limits, bytes: Bytes) returns (r: Result<Decoded>)
    ensures r.Ok? <==> DecodeOk(c, limits, bytes)
    ensures r.Ok? ==> EntriesOf(r.value) == Contents(c.unpack(bytes).value.tar)
  {
    if |bytes| > limits.maxCompressed { return Err(SizeLimit); }
    if LimitPlusOne(limits.maxUncompressed).None? { return Err(Archive); }
    var unpacked := c.unpack(bytes);
    if unpacked.None? { return Err(Archive); }
    var stream := unpacked.value;
    var ok, entries := ReadEntries(stream.tar);
    if !ok { return Err(Archive); }
    var exceeds := ExceedsMaximum(stream.size, limits.maxUncompressed, stream.pieces, stream.offers);
    if exceeds { return Err(SizeLimit); }
    if stream.used != |bytes| { return Err(Archive); }
    DecodedIffLayout(entries);
    var decoded := DecodedOf(entries);
    if decoded.None? { return Err(Archive); }
    r := Ok(decoded.value);
  }

  lemma KnownNameIsSafe(name: string)
    requires KnownName(name)
    ensures PathSafe(name)
  {
    assert |name| > 2 && '/' !in name;
    PlainPathIsSafe(name);
  }

  lemma EncodedEntriesOk(d: Decoded)
    ensures EntriesOk(Regular(EntriesOf(d)))
  {
    EntriesRoundTrip(d);
    var entries := EntriesOf(d);
    var tar := Regular(entries);
    forall i | 0 <= i < |tar| ensures tar[i].regular && PathSafe(tar[i].entry.name) {
      assert Contents(tar)[i] == tar[i].entry == entries[i];
      assert entries[i] in entries;
      KnownNameIsSafe(entries[i].name);
    }
  }

  /** A packed archive decodes exactly when it is within the limits, and to what was packed. */
  lemma PackedDecodesIff(c: Container, limits: Limits, d: Decoded)
    requires LawfulContainer(c) && LimitsOk(limits)
    ensures DecodeOk(c, limits, c.pack(EntriesOf(d))) <==>
            |c.pack(EntriesOf(d))| <= limits.maxCompressed && c.size(EntriesOf(d)) <= limits.maxUncompressed
    ensures c.unpack(c.pack(EntriesOf(d))).Some?
    ensures Contents(c.unpack(c.pack(EntriesOf(d))).value.tar) == EntriesOf(d)
    ensures DecodedOf(EntriesOf(d)) == Some(d)
  {
    EncodedEntriesOk(d);
    EntriesRoundTrip(d);
    LayoutOfEntries(d);
  }
}
