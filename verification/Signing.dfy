/** Manifest signatures and the trust store. Key material, Ed25519 and base64 are abstract. */
module Signing {
  import opened Text
  import opened Diagnostics
  import opened Json
  import opened Codecs
  import opened Records
  import Manifests

  /** Keys and signatures are byte strings; `keyId` is the digest of a public key. */
  datatype Crypto = Crypto(
    publicOf: Bytes -> Bytes,
    sign: (Bytes, Bytes) -> Bytes,
    verify: (Bytes, Bytes, Bytes) -> bool,
    keyId: Bytes -> string,
    encode: Bytes -> string,
    decode: string -> Option<Bytes>,
    wellFormed: Bytes -> bool)

  /** What a key signs, its public half verifies; base64 loses nothing. */
  ghost predicate LawfulCrypto(crypto: Crypto) {
    && (forall key: Bytes, message: Bytes {:trigger crypto.sign(key, message)} ::
          && crypto.wellFormed(crypto.sign(key, message))
          && crypto.verify(crypto.publicOf(key), message, crypto.sign(key, message)))
    && (forall b: Bytes {:trigger crypto.encode(b)} :: crypto.decode(crypto.encode(b)) == Some(b))
  }

  /** "treetop-bundle-signature-v1" and a zero byte. */
  const SIGNATURE_DOMAIN: Bytes :=
    [116, 114, 101, 101, 116, 111, 112, 45, 98, 117, 110, 100, 108, 101, 45, 115, 105, 103, 110, 97, 116, 117, 114, 101,
     45, 118, 49, 0]

  /** The domain is that text in ASCII, ended by a zero byte. */
  lemma DomainIsText()
    ensures var text := "treetop-bundle-signature-v1";
            && |SIGNATURE_DOMAIN| == |text| + 1 && SIGNATURE_DOMAIN[|text|] == 0
            && forall i :: 0 <= i < |text| ==> SIGNATURE_DOMAIN[i] == text[i] as int
  {
  }

  const ED25519 := "ed25519"

  datatype Signature = Signature(formatVersion: U32, algorithm: string, keyId: string, signature: string)

  datatype TrustedKey = TrustedKey(keyId: string, raw: Bytes)

  function TrustedKeyOf(crypto: Crypto, raw: Bytes): TrustedKey {
    TrustedKey(crypto.keyId(raw), raw)
  }

  function SignManifest(crypto: Crypto, key: Bytes, manifest: Bytes): Signature {
    Signature(Manifests.FORMAT_VERSION, ED25519, crypto.keyId(crypto.publicOf(key)),
              crypto.encode(crypto.sign(key, SIGNATURE_DOMAIN + manifest)))
  }

  predicate FormatOk(crypto: Crypto, s: Signature) {
    && s.formatVersion == Manifests.FORMAT_VERSION && s.algorithm == ED25519
    && crypto.decode(s.signature).Some? && crypto.wellFormed(crypto.decode(s.signature).value)
  }

  /** The signature names a trusted key, and under that key its bytes sign the domain and the manifest. */
  predicate Authentic(crypto: Crypto, keys: map<string, TrustedKey>, manifest: Bytes, s: Signature) {
    && s.keyId in keys
    && crypto.decode(s.signature).Some?
    && crypto.verify(keys[s.keyId].raw, SIGNATURE_DOMAIN + manifest, crypto.decode(s.signature).value)
  }

  /** Verifies under a set of trusted keys; gives the id of the key that verified. */
  function Verify(crypto: Crypto, keys: map<string, TrustedKey>, manifest: Bytes, s: Signature): Option<string> {
    if !FormatOk(crypto, s) || s.keyId !in keys then None
    else
      var key := keys[s.keyId];
      if crypto.verify(key.raw, SIGNATURE_DOMAIN + manifest, crypto.decode(s.signature).value)
      then Some(key.keyId) else None
  }

  // ---- The trust store ----

  class TrustStore {
    var keys: map<string, TrustedKey>

    constructor ()
      ensures keys == map[] && Valid()
    {
      keys := map[];
    }

    /** Every key is filed under its own id. */
    predicate Valid()
      reads this
    {
      forall id :: id in keys ==> keys[id].keyId == id
    }

    /** Refuses a key whose id is taken by other key bytes; otherwise the key is present. */
    method Insert(key: TrustedKey) returns (ok: bool)
      requires Valid()
      modifies this
      ensures Valid()
      ensures ok <==> !(key.keyId in old(keys) && old(keys)[key.keyId].raw != key.raw)
      ensures keys == if ok then old(keys)[key.keyId := key] else old(keys)
    {
      if key.keyId in keys {
        return keys[key.keyId].raw == key.raw;
      }
      keys := keys[key.keyId := key];
      ok := true;
    }
  }

  /** No two keys share an id with different bytes. */
  predicate Consistent(keys: seq<TrustedKey>) {
    forall i, j :: 0 <= i < |keys| && 0 <= j < |keys| && keys[i].keyId == keys[j].keyId ==> keys[i].raw == keys[j].raw
  }

  /** A store built from a list holds exactly the listed keys, or is refused for a clash. */
  method FromKeys(keys: seq<TrustedKey>) returns (ok: bool, store: TrustStore)
    ensures fresh(store) && store.Valid()
    ensures ok <==> Consistent(keys)
    ensures ok ==> forall key: TrustedKey :: (key.keyId in store.keys && store.keys[key.keyId] == key) <==> key in keys
  {
    store := new TrustStore();
    for i := 0 to |keys|
      invariant fresh(store) && store.Valid()
      invariant Consistent(keys[..i])
      invariant forall key: TrustedKey ::
                  (key.keyId in store.keys && store.keys[key.keyId] == key) <==> key in keys[..i]
    {
      ghost var before := store.keys;
      ok := store.Insert(keys[i]);
      assert keys[..i + 1] == keys[..i] + [keys[i]];
      if !ok {
        assert before[keys[i].keyId] in keys[..i];
        return;
      }
      assert Consistent(keys[..i + 1]) by {
        forall k | 0 <= k < i && keys[k].keyId == keys[i].keyId ensures keys[k].raw == keys[i].raw {
          assert keys[..i][k] == keys[k] && keys[k] in keys[..i];
        }
      }
    }
    assert keys[..|keys|] == keys;
    ok := true;
  }

  /** A manifest signed with a trusted key verifies, and names that key. */
  lemma SignedVerifies(crypto: Crypto, key: Bytes, keys: map<string, TrustedKey>, manifest: Bytes)
    requires LawfulCrypto(crypto)
    requires var trusted := TrustedKeyOf(crypto, crypto.publicOf(key));
             trusted.keyId in keys && keys[trusted.keyId] == trusted
    ensures Verify(crypto, keys, manifest, SignManifest(crypto, key, manifest))
            == Some(crypto.keyId(crypto.publicOf(key)))
  {
    var signature := crypto.sign(key, SIGNATURE_DOMAIN + manifest);
    assert crypto.decode(crypto.encode(signature)) == Some(signature);
  }

  // ---- signature.json ----

  const ALGORITHM := "algorithm"
  const KEY_ID := "key_id"
  const SIGNATURE := "signature"
  const SIGNATURE_KEYS := [FORMAT, ALGORITHM, KEY_ID, SIGNATURE]

  function SignatureMembers(s: Signature): seq<Member> {
    [Member(FORMAT, VNumber(s.formatVersion)), Member(ALGORITHM, VText(s.algorithm)), Member(KEY_ID, VText(s.keyId)),
     Member(SIGNATURE, VText(s.signature))]
  }

  function SignatureValue(s: Signature): Value { VObject(SignatureMembers(s)) }

  function ReadSignature(j: Json): Option<Signature> {
    match Fields(j, SIGNATURE_KEYS)
    case None => None
    case Some(f) =>
      var version, algorithm := AsNumber(f[0], 0x1_0000_0000), AsText(f[1]);
      var id, signature := AsText(f[2]), AsText(f[3]);
      if version.Some? && algorithm.Some? && id.Some? && signature.Some?
      then Some(Signature(version.value, algorithm.value, id.value, signature.value))
      else None
  }

  lemma SignatureKeys(s: Signature)
    ensures Keys(SignatureMembers(s)) == SIGNATURE_KEYS && DistinctStrings(SIGNATURE_KEYS)
  {
    DifferentHeads(SIGNATURE_KEYS);
    assert Keys(SignatureMembers(s)) == SIGNATURE_KEYS;
  }

  lemma SignatureRoundTrip(s: Signature)
    ensures ReadSignature(Meaning(SignatureValue(s))) == Some(s)
  {
    SignatureKeys(s);
    var members := SignatureMembers(s);
    WrittenFields(members, SIGNATURE_KEYS);
    var f := Fields(Meaning(VObject(members)), SIGNATURE_KEYS).value;
    assert f[0] == Meaning(members[0].value) && f[1] == Meaning(members[1].value);
    assert f[2] == Meaning(members[2].value) && f[3] == Meaning(members[3].value);
  }

  /** Written as an object, a signature is read from its own JSON only. */
  lemma SignatureReadExactly(j: Json, s: Signature)
    requires j.Object?
    ensures ReadSignature(j) == Some(s) <==> j == Meaning(SignatureValue(s))
    ensures Keys(SignatureMembers(s)) == ["format_version", "algorithm", "key_id", "signature"]
  {
    SignatureRoundTrip(s);
    SignatureKeys(s);
    if ReadSignature(j) == Some(s) {
      var f, members := Fields(j, SIGNATURE_KEYS).value, SignatureMembers(s);
      assert f[0] == Meaning(members[0].value) && f[1] == Meaning(members[1].value);
      assert f[2] == Meaning(members[2].value) && f[3] == Meaning(members[3].value);
      WrittenIsAll(j, members, SIGNATURE_KEYS);
    }
  }

  lemma {:induction false} SignatureIsShallow(s: Signature, depth: nat)
    requires depth >= 1
    ensures Fits(SignatureValue(s), depth)
  {
  }
}
