/** What a required signature is worth: an accepted archive is one that was released under a
    trusted key, but for the signature entry itself. */
module Releases {
  import opened Diagnostics
  import opened Codecs
  import opened Archives
  import opened Signing
  import opened Verifier
  import ArchiveManifests

  /** Contents of the two lists that have one digest are the same. */
  ghost predicate NoCollision(codec: Codec, a: seq<Entry>, b: seq<Entry>) {
    forall x, y :: x in a && y in b && codec.hash(x.contents) == codec.hash(y.contents) ==> x.contents == y.contents
  }

  /** Two lists of entries that match the same records are the same list. */
  lemma SameRecordsSameEntries(codec: Codec, records: seq<ArchiveManifests.Artifact>, a: seq<Entry>, b: seq<Entry>)
    requires ArtifactsMatch(codec, records, a) && ArtifactsMatch(codec, records, b)
    requires NoCollision(codec, a, b)
    ensures a == b
  {
    forall i | 0 <= i < |a| ensures a[i] == b[i] {
      assert a[i] in a && b[i] in b;
    }
  }

  /** The artifacts of an archive can be told from the list of its entries. */
  lemma EntriesTellArtifacts(d: Decoded, e: Decoded)
    requires DecodedArtifacts(d) == DecodedArtifacts(e)
    ensures e == d.(manifest := e.manifest, signature := e.signature)
  {
    var a, b := DecodedArtifacts(d), DecodedArtifacts(e);
    assert a[0] == Entry(POLICIES_PATH, d.policies) && b[0] == Entry(POLICIES_PATH, e.policies);
    assert |a| == (if d.schema.Some? then 3 else 2) && |b| == (if e.schema.Some? then 3 else 2);
    assert a[|a| - 1] == Entry(LABELS_PATH, d.labels) && b[|b| - 1] == Entry(LABELS_PATH, e.labels);
    if d.schema.Some? {
      assert a[1] == Entry(SCHEMA_PATH, d.schema.value) && b[1] == Entry(SCHEMA_PATH, e.schema.value);
    }
  }

  /** The manifest's bytes fix every artifact: two archives in order with one manifest differ in
      their signatures only. */
  lemma ManifestFixesContent(w: World, d: Decoded, e: Decoded)
    requires ContentOk(w, d) && ContentOk(w, e) && d.manifest == e.manifest
    requires NoCollision(w.codec, DecodedArtifacts(d), DecodedArtifacts(e))
    ensures e == d.(signature := e.signature)
  {
    var m := ParseManifest(w.codec, d.manifest).value;
    SameRecordsSameEntries(w.codec, m.artifacts, DecodedArtifacts(d), DecodedArtifacts(e));
    EntriesTellArtifacts(d, e);
  }

  /** The trusted keys have signed the manifests of these archives only, each in order. */
  ghost predicate OnlyReleased(w: World, keys: map<string, TrustedKey>, released: set<Decoded>) {
    forall id, manifest, bytes {:trigger w.crypto.verify(keys[id].raw, SIGNATURE_DOMAIN + manifest, bytes)} ::
      id in keys && w.crypto.verify(keys[id].raw, SIGNATURE_DOMAIN + manifest, bytes) ==>
        exists d :: d in released && ContentOk(w, d) && d.manifest == manifest
  }

  /** Some trusted key verifies the manifest of an archive in order whose signature is required. */
  lemma AcceptedIsSigned(w: World, d: Decoded, keys: map<string, TrustedKey>) returns (id: string, signature: Bytes)
    requires DecodedOk(w, d, Required, keys, true)
    ensures id in keys && w.crypto.verify(keys[id].raw, SIGNATURE_DOMAIN + d.manifest, signature)
  {
    var s := ParseSignature(w.codec, d.signature.value).value;
    id, signature := s.keyId, w.crypto.decode(s.signature).value;
  }

  /** Where a signature is required, only released archives are accepted. */
  lemma AcceptedWasReleased(w: World, limits: Limits, bytes: Bytes, keys: map<string, TrustedKey>,
                            released: set<Decoded>) returns (d: Decoded)
    requires ArchiveOk(w, limits, bytes, Required, keys, true) && OnlyReleased(w, keys, released)
    requires forall r :: r in released ==>
               NoCollision(w.codec, DecodedArtifacts(r), DecodedArtifacts(Unpacked(w, bytes).value))
    ensures d in released
    ensures Unpacked(w, bytes) == Some(d.(signature := Unpacked(w, bytes).value.signature))
  {
    var e := Unpacked(w, bytes).value;
    var id, signature := AcceptedIsSigned(w, e, keys);
    d :| d in released && ContentOk(w, d) && d.manifest == e.manifest;
    ManifestFixesContent(w, d, e);
  }
}
