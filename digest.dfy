/**
 * `hashJSON`: canonicalise, serialise, encode as UTF-8, hash with SHA-256 and
 * render the 32-byte digest as lower-case hex.
 */
module Digest {
  import opened Bytes
  import opened Wrappers
  import opened JsonValue
  import opened Canonical
  import Serialize
  import Utf8
  import Hex

  type Digest32 = s: seq<byte> | |s| == 32 witness seq(32, _ => 0)

  /**
   * SHA-256 (FIPS 180-4), which the source takes from `crypto.subtle.digest`.
   * It is supplied by the caller; all the model relies on is that it is a
   * function and that it yields 32 bytes.
   */
  type Sha256 = seq<byte> -> Digest32

  /** The exact bytes `hashJSON` hands to SHA-256. */
  function CanonicalBytes(v: Json): seq<byte> {
    Utf8.Encode(Serialize.Serialize(Canonicalize(v)))
  }

  /** 64 hex digits that read back as the SHA-256 of the canonical bytes. */
  function HashJson(sha: Sha256, v: Json): (r: string)
    ensures |r| == 64
    ensures Hex.Decode(r) == Some(sha(CanonicalBytes(v)))
  {
    Hex.DecodeEncode(sha(CanonicalBytes(v)));
    Hex.Encode(sha(CanonicalBytes(v)))
  }

  /** Every character of the hash is a lower-case hex digit. */
  lemma HashIsLowerHex(sha: Sha256, v: Json)
    ensures Hex.IsLowerHex(HashJson(sha, v))
  {
    Hex.EncodeIsLowerHex(sha(CanonicalBytes(v)));
  }

  /** The hash depends only on the canonical form: hashing it again gives the same digest. */
  lemma HashOfCanonical(sha: Sha256, v: Json)
    ensures HashJson(sha, Canonicalize(v)) == HashJson(sha, v)
  {
    Idempotent(v);
  }

  /** Issuer and verifier agree: values equal as JSON data hash alike, whatever their key order. */
  lemma KeyOrderInvariant(sha: Sha256, u: Json, v: Json)
    requires WellFormed(u) && WellFormed(v) && Equiv(u, v)
    ensures HashJson(sha, u) == HashJson(sha, v)
  {
    EquivSameCanonical(u, v);
  }

  /**
   * A member keyed `__proto__` added in front of an object's members, whatever
   * its value, leaves the hash as it was.
   */
  lemma ProtoMemberSameHash(sha: Sha256, x: Json, fs: seq<(string, Json)>)
    ensures HashJson(sha, Obj([(ProtoKey, x)] + fs)) == HashJson(sha, Obj(fs))
  {
    ProtoMemberIgnored(x, fs);
  }

  /** The hex rendering loses nothing: two hashes match exactly when the SHA-256 digests match. */
  lemma SameHashIff(sha: Sha256, u: Json, v: Json)
    ensures HashJson(sha, u) == HashJson(sha, v) <==> sha(CanonicalBytes(u)) == sha(CanonicalBytes(v))
  {
    if HashJson(sha, u) == HashJson(sha, v) {
      Hex.EncodeInjective(sha(CanonicalBytes(u)), sha(CanonicalBytes(v)));
    }
  }
}
