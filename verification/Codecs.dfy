/** Bytes, and what the libraries for text, JSON and SHA-256 do with them. */
module Codecs {
  import opened Diagnostics
  import opened Json

  type Byte = n: nat | n < 256
  type Bytes = seq<Byte>

  type U32 = n: nat | n < 0x1_0000_0000
  type USize = n: nat | n < 0x1_0000_0000_0000_0000

  const NEWLINE: Byte := 10

  /** `read` takes any JSON text; `readRecord` refuses repeated keys. Both give up on text that
      nests deeper than `maxDepth`. */
  datatype Codec = Codec(
    utf8: string -> Bytes,
    fromUtf8: Bytes -> Option<string>,
    write: Value -> Bytes,
    read: Bytes -> Option<Value>,
    readRecord: Bytes -> Option<Value>,
    maxDepth: nat,
    hash: Bytes -> string)

  /** The nesting `serde_json::from_str` accepts. */
  const MAX_DEPTH := 127

  /** Text survives encoding. */
  ghost predicate EncodesText(codec: Codec) {
    forall s: string {:trigger codec.utf8(s)} :: codec.fromUtf8(codec.utf8(s)) == Some(s)
  }

  /** Different canonical values have different JSON text. */
  ghost predicate WritesInjectively(codec: Codec) {
    forall a: Value, b: Value {:trigger codec.write(a), codec.write(b)} ::
      Canonical(a) && Canonical(b) && codec.write(a) == codec.write(b) ==> a == b
  }

  /** Every JSON text is UTF-8; the text of a canonical value reads back exactly when it does
      not nest too deep. */
  ghost predicate ReadsWithinDepth(codec: Codec) {
    codec.maxDepth == 127 &&
    forall v: Value {:trigger codec.write(v)} :: Canonical(v) ==>
      var text := codec.write(v) + [10];
      && codec.fromUtf8(text).Some?
      && (Fits(v, codec.maxDepth) ==> codec.read(text) == Some(v) && codec.readRecord(text) == Some(v))
      && (!Fits(v, codec.maxDepth) ==> codec.read(text) == None)
  }

  ghost predicate LawfulCodec(codec: Codec) {
    EncodesText(codec) && WritesInjectively(codec) && ReadsWithinDepth(codec)
  }

  /** `canonical_json_bytes` */
  function CanonicalBytes(codec: Codec, v: Value): Bytes {
    codec.write(SortJson(v)) + [NEWLINE]
  }

  /** Canonical bytes are equal exactly for values that agree up to key order. */
  lemma {:induction false} CanonicalBytesIff(codec: Codec, a: Value, b: Value)
    requires WritesInjectively(codec)
    ensures CanonicalBytes(codec, a) == CanonicalBytes(codec, b) <==> Meaning(a) == Meaning(b)
  {
    SortIsCanonical(a);
    SortIsCanonical(b);
    SortEqualIff(a, b);
    var x, y := codec.write(SortJson(a)), codec.write(SortJson(b));
    assert (x + [NEWLINE])[..|x|] == x && (y + [NEWLINE])[..|y|] == y;
  }

  /** Canonical bytes are UTF-8, and read back, with the same meaning, exactly when the
      value does not nest too deep. */
  lemma {:induction false} CanonicalBytesRead(codec: Codec, v: Value)
    requires ReadsWithinDepth(codec)
    ensures var bytes := CanonicalBytes(codec, v);
            && codec.fromUtf8(bytes).Some?
            && (MeaningFits(Meaning(v), codec.maxDepth) ==>
                  codec.read(bytes) == codec.readRecord(bytes) == Some(SortJson(v)))
            && (!MeaningFits(Meaning(v), codec.maxDepth) ==> codec.read(bytes) == None)
    ensures Meaning(SortJson(v)) == Meaning(v)
  {
    SortIsCanonical(v);
    SortKeepsMeaning(v);
    SortedFits(v, codec.maxDepth);
  }

  /** A document of small depth always reads back. */
  lemma {:induction false} ShallowBytesRead(codec: Codec, v: Value, depth: nat)
    requires ReadsWithinDepth(codec) && Fits(v, depth) && depth <= MAX_DEPTH
    ensures codec.readRecord(CanonicalBytes(codec, v)) == Some(SortJson(v))
    ensures codec.fromUtf8(CanonicalBytes(codec, v)).Some?
    ensures Meaning(SortJson(v)) == Meaning(v)
  {
    FitsDeeper(v, depth, codec.maxDepth);
    FitsMeaning(v, codec.maxDepth);
    CanonicalBytesRead(codec, v);
  }
}
