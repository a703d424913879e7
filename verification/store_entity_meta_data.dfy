/** Persistence of entity metadata and payload blobs in the host state. */
module EntityStore {
  import opened Types
  import opened Primitives
  import opened StateAccess

  /** `GetEntityMetaData`: reads the metadata blob, decompresses and decodes
      it; an empty (absent) blob means the entity does not exist. */
  function GetEntityMetaData(env: Env, st: State, key: Hash): Result<EntityMetaData> {
    var blob := GetBlob(st, MetaDataSlot(env, key));
    if |blob| == 0 then Err(NotFound(key))
    else match env.brotliDecompress(blob)
      case None => Err(DecompressError)
      case Some(encoded) =>
        match env.rlpDecode(encoded)
        case None => Err(DecodeError)
        case Some(emd) => Ok(emd)
  }

  /** `GetCompressedPayload`: the raw payload blob of an entity. */
  function GetCompressedPayload(env: Env, st: State, key: Hash): seq<byte> {
    GetBlob(st, PayloadSlot(env, key))
  }

  /** `StoreEntityMetaData`: writes the compressed encoding of `emd` into the
      entity's metadata slot and reports the uncompressed encoded size. */
  function StoreEntityMetaData(env: Env, st: State, key: Hash, emd: EntityMetaData): (r: Step<uint64>)
    ensures env.rlpEncode(emd).None? ==> r == Step(st, Err(EncodeError))
    ensures env.rlpEncode(emd).Some? ==>
              var encoded := env.rlpEncode(emd).value;
              && r.result == Ok(ToUint64(|encoded|))
              && GetBlob(r.state, MetaDataSlot(env, key)) == env.brotliCompress(encoded)
    ensures forall slot :: slot != MetaDataSlot(env, key) ==> GetBlob(r.state, slot) == GetBlob(st, slot)
    ensures r.state.expiring == st.expiring
  {
    var slot := MetaDataSlot(env, key);
    match env.rlpEncode(emd)
    case None => Step(st, Err(EncodeError))
    case Some(encoded) =>
      var compressed := env.brotliCompress(encoded);
      Step(SetBlob(st, slot, compressed), Ok(ToUint64(|encoded|)))
  }

  /** Reading back what was stored yields the stored metadata. */
  lemma StoreThenGet(env: Env, st: State, key: Hash, emd: EntityMetaData)
    requires CodecRoundTrips(env)
    requires env.rlpEncode(emd).Some?
    ensures GetEntityMetaData(env, StoreEntityMetaData(env, st, key, emd).state, key) == Ok(emd)
  {
    var encoded := env.rlpEncode(emd).value;
    assert |env.brotliCompress(encoded)| > 0;
    assert env.brotliDecompress(env.brotliCompress(encoded)) == Some(encoded);
  }

  /** Storing under one key leaves every other entity's metadata, and every
      payload, as it was. */
  lemma StoreFrame(env: Env, st: State, key: Hash, emd: EntityMetaData, other: Hash)
    requires MetaDataSlotsInjective(env) && SlotsSeparated(env)
    ensures var st' := StoreEntityMetaData(env, st, key, emd).state;
            && (other != key ==> GetEntityMetaData(env, st', other) == GetEntityMetaData(env, st, other))
            && GetCompressedPayload(env, st', other) == GetCompressedPayload(env, st, other)
  {
    assert other != key ==> MetaDataSlot(env, other) != MetaDataSlot(env, key);
    assert PayloadSlot(env, other) != MetaDataSlot(env, key);
  }

  /** A second store under the same key replaces the first entirely. */
  lemma StoreTwiceKeepsSecond(env: Env, st: State, key: Hash, m1: EntityMetaData, m2: EntityMetaData)
    requires env.rlpEncode(m2).Some?
    ensures StoreEntityMetaData(env, StoreEntityMetaData(env, st, key, m1).state, key, m2)
         == StoreEntityMetaData(env, st, key, m2)
  {
  }

  /** Distinct keys are stored in distinct slots. This is the assumption
      `MetaDataSlotsInjective` itself, stated for one pair of keys; it proves
      nothing beyond it. `StoreFrame` is where the assumption does work. */
  lemma DistinctKeysDistinctSlots(env: Env, k1: Hash, k2: Hash)
    requires MetaDataSlotsInjective(env)
    requires k1 != k2
    ensures MetaDataSlot(env, k1) != MetaDataSlot(env, k2)
  {
  }
}
