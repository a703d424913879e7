/** The foreign code the core calls: Keccak-256, RLP, Brotli and the two
    domain-separation salts. Each is a parameter of the model, and the
    properties proved about the core state exactly which of their laws they
    rely on. */
module Primitives {
  import opened Types

  datatype Env = Env(
    keccak: seq<byte> -> Hash,
    rlpEncode: EntityMetaData -> Option<seq<byte>>,
    rlpDecode: seq<byte> -> Option<EntityMetaData>,
    brotliCompress: seq<byte> -> seq<byte>,
    brotliDecompress: seq<byte> -> Option<seq<byte>>,
    entityMetaDataSalt: seq<byte>,
    payloadSalt: seq<byte>)

  /** `Keccak256Hash(EntityMetaDataSalt, key[:])`: the slot of an entity's
      metadata blob (the hash of the salt followed by the key). */
  function MetaDataSlot(env: Env, key: Hash): Hash {
    env.keccak(env.entityMetaDataSalt + key)
  }

  /** The slot of an entity's payload blob, under the payload salt. */
  function PayloadSlot(env: Env, key: Hash): Hash {
    env.keccak(env.payloadSalt + key)
  }

  /** Collision freedom of the salted metadata hash: distinct keys, distinct slots. */
  ghost predicate MetaDataSlotsInjective(env: Env) {
    forall k1, k2 :: MetaDataSlot(env, k1) == MetaDataSlot(env, k2) ==> k1 == k2
  }

  /** Domain separation: no metadata slot is ever a payload slot. */
  ghost predicate SlotsSeparated(env: Env) {
    forall k1, k2 :: MetaDataSlot(env, k1) != PayloadSlot(env, k2)
  }

  /** The codec laws: RLP decoding inverts a successful encoding, Brotli
      decompression inverts compression, and a compressed blob is never empty
      (so a stored blob is never mistaken for an absent one). */
  ghost predicate CodecRoundTrips(env: Env) {
    && (forall m :: env.rlpEncode(m).Some? ==> env.rlpDecode(env.rlpEncode(m).value) == Some(m))
    && (forall b :: env.brotliDecompress(env.brotliCompress(b)) == Some(b))
    && (forall b :: |env.brotliCompress(b)| > 0)
  }
}
