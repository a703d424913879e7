/** Extension of an entity's block-to-live: the entity is re-indexed at its
    new expiry height and its metadata re-stored. */
module ExtendBtl {
  import opened Types
  import opened Primitives
  import opened StateAccess
  import opened EntityExpiration
  import opened EntityStore

  datatype ExtendBTLResult = ExtendBTLResult(
    OldExpiresAtBlock: uint64,
    Owner: Address,
    TotalBytes: uint64)

  /** `key` is live and its stored expiry is `block`. */
  ghost predicate ExpiresAt(env: Env, st: State, key: Hash, block: uint64) {
    var m := GetEntityMetaData(env, st, key);
    m.Ok? && m.value.ExpiresAtBlock == block
  }

  /** The index lists `key` exactly at its stored expiry: in that one bucket
      if it is live, in none otherwise. */
  ghost predicate KeyIndexed(env: Env, st: State, key: Hash) {
    forall b :: key in Bucket(st.expiring, b) <==> ExpiresAt(env, st, key, b)
  }

  /** The index-consistency invariant, for every key at once. */
  ghost predicate IndexConsistent(env: Env, st: State) {
    forall k, b :: k in Bucket(st.expiring, b) <==> ExpiresAt(env, st, k, b)
  }

  /** `ExtendBTL`: load, un-index at the old height, add `numberOfBlocks`
      (wrapping modulo 2^64), index at the new height, re-store the metadata,
      then measure the decompressed payload. Writes made before a failure
      stay in the returned state. */
  function ExtendBTL(env: Env, st: State, key: Hash, numberOfBlocks: uint64): (r: Step<ExtendBTLResult>)
    // a missing or unreadable entity: the lookup error, nothing written
    ensures GetEntityMetaData(env, st, key).Err? ==>
              r == Step(st, Err(GetEntityMetaData(env, st, key).error))
    ensures GetEntityMetaData(env, st, key).Ok? ==>
              var ent := GetEntityMetaData(env, st, key).value;
              var oldExpiry := ent.ExpiresAtBlock;
              var newExpiry := AddUint64(oldExpiry, numberOfBlocks);
              var ent' := ent.(ExpiresAtBlock := newExpiry);
              // the key moves from the old bucket to the new one ...
              && key in Bucket(r.state.expiring, newExpiry)
              && (numberOfBlocks != 0 ==> key !in Bucket(r.state.expiring, oldExpiry))
              && (numberOfBlocks == 0 ==> Bucket(r.state.expiring, oldExpiry) == Bucket(st.expiring, oldExpiry) + {key})
              // ... and no other key moves
              && (forall b, k :: k != key ==> (k in Bucket(r.state.expiring, b) <==> k in Bucket(st.expiring, b)))
              && (forall b :: b != oldExpiry && b != newExpiry ==> Bucket(r.state.expiring, b) == Bucket(st.expiring, b))
              // only the entity's metadata slot is written, with the updated record
              && (forall slot :: slot != MetaDataSlot(env, key) ==> GetBlob(r.state, slot) == GetBlob(st, slot))
              && (env.rlpEncode(ent').None? ==>
                    r.result == Err(StoreMetaDataFailed(EncodeError)) && r.state.blobs == st.blobs)
              && (env.rlpEncode(ent').Some? ==>
                    var encoded := env.rlpEncode(ent').value;
                    var payload := env.brotliDecompress(GetCompressedPayload(env, r.state, key));
                    && GetBlob(r.state, MetaDataSlot(env, key)) == env.brotliCompress(encoded)
                    && (payload.None? ==> r.result == Err(PayloadDecompressFailed(key)))
                    && (payload.Some? ==>
                          r.result == Ok(ExtendBTLResult(oldExpiry, ent.Owner,
                                                         AddUint64(ToUint64(|encoded|), ToUint64(|payload.value|))))))
  {
    match GetEntityMetaData(env, st, key)
    case Err(e) => Step(st, Err(e))
    case Ok(ent) =>
      var oldExpiresAtBlock := ent.ExpiresAtBlock;
      var ent' := ent.(ExpiresAtBlock := AddUint64(ent.ExpiresAtBlock, numberOfBlocks));
      var st1 := st.(expiring := ReindexEntity(st.expiring, key, oldExpiresAtBlock, ent'.ExpiresAtBlock));
      var stored := StoreEntityMetaData(env, st1, key, ent');
      if stored.result.Err? then Step(stored.state, Err(StoreMetaDataFailed(stored.result.error)))
      else
        var entityMetaDataSize := stored.result.value;
        var compressed := GetCompressedPayload(env, stored.state, key);
        match env.brotliDecompress(compressed)
        case None => Step(stored.state, Err(PayloadDecompressFailed(key)))
        case Some(decompressed) =>
          Step(stored.state, Ok(ExtendBTLResult(
                                  oldExpiresAtBlock,
                                  ent'.Owner,
                                  AddUint64(entityMetaDataSize, ToUint64(|decompressed|)))))
  }

  /** After a successful extension the stored record is the old one with only
      `ExpiresAtBlock` changed, to old + n modulo 2^64; the result reports the
      old expiry and the stored owner. */
  lemma ExtendBTLStoresNewExpiry(env: Env, st: State, key: Hash, n: uint64)
    requires CodecRoundTrips(env)
    ensures ExtendBTL(env, st, key, n).result.Ok? ==> GetEntityMetaData(env, st, key).Ok?
    ensures ExtendBTL(env, st, key, n).result.Ok? ==>
            var ent := GetEntityMetaData(env, st, key).value;
            var res := ExtendBTL(env, st, key, n).result.value;
            && GetEntityMetaData(env, ExtendBTL(env, st, key, n).state, key)
               == Ok(ent.(ExpiresAtBlock := AddUint64(ent.ExpiresAtBlock, n)))
            && res.OldExpiresAtBlock == ent.ExpiresAtBlock
            && res.Owner == ent.Owner
  {
    if ExtendBTL(env, st, key, n).result.Ok? {
      var ent := GetEntityMetaData(env, st, key).value;
      var ent' := ent.(ExpiresAtBlock := AddUint64(ent.ExpiresAtBlock, n));
      var st1 := st.(expiring := ExtendBTL(env, st, key, n).state.expiring);
      StoreThenGet(env, st1, key, ent');
    }
  }

  /** Extending one entity changes neither the metadata nor the index
      entries of any other entity, nor any payload (its own included). */
  lemma ExtendBTLFrame(env: Env, st: State, key: Hash, n: uint64, other: Hash)
    requires MetaDataSlotsInjective(env) && SlotsSeparated(env)
    requires other != key
    ensures var st' := ExtendBTL(env, st, key, n).state;
            && GetEntityMetaData(env, st', other) == GetEntityMetaData(env, st, other)
            && (forall p :: GetCompressedPayload(env, st', p) == GetCompressedPayload(env, st, p))
            && forall b :: other in Bucket(st'.expiring, b) <==> other in Bucket(st.expiring, b)
  {
    var st' := ExtendBTL(env, st, key, n).state;
    assert MetaDataSlot(env, other) != MetaDataSlot(env, key);
    assert GetBlob(st', MetaDataSlot(env, other)) == GetBlob(st, MetaDataSlot(env, other));
    forall p ensures GetCompressedPayload(env, st', p) == GetCompressedPayload(env, st, p) {
      assert PayloadSlot(env, p) != MetaDataSlot(env, key);
    }
  }

  /** There is no rollback: when the payload cannot be decompressed, the
      index move and the metadata write have already happened. */
  lemma ExtendBTLNoRollback(env: Env, st: State, key: Hash, n: uint64)
    requires CodecRoundTrips(env)
    requires GetEntityMetaData(env, st, key).Ok?
    requires var ent := GetEntityMetaData(env, st, key).value;
             env.rlpEncode(ent.(ExpiresAtBlock := AddUint64(ent.ExpiresAtBlock, n))).Some?
    requires env.brotliDecompress(GetCompressedPayload(env, st, key)).None?
    ensures var r := ExtendBTL(env, st, key, n);
            var ent := GetEntityMetaData(env, st, key).value;
            var newExpiry := AddUint64(ent.ExpiresAtBlock, n);
            && r.result == Err(PayloadDecompressFailed(key))
            && key in Bucket(r.state.expiring, newExpiry)
            && GetEntityMetaData(env, r.state, key) == Ok(ent.(ExpiresAtBlock := newExpiry))
  {
    var ent := GetEntityMetaData(env, st, key).value;
    var ent' := ent.(ExpiresAtBlock := AddUint64(ent.ExpiresAtBlock, n));
    var st1 := st.(expiring := ExtendBTL(env, st, key, n).state.expiring);
    StoreThenGet(env, st1, key, ent');
  }

  /** Unless re-storing the metadata fails, an extension keeps the key indexed
      exactly at its stored expiry. */
  lemma ExtendBTLPreservesKeyIndexed(env: Env, st: State, key: Hash, n: uint64)
    requires CodecRoundTrips(env)
    requires KeyIndexed(env, st, key)
    requires !ExtendBTL(env, st, key, n).result.Err? ||
             !ExtendBTL(env, st, key, n).result.error.StoreMetaDataFailed?
    ensures KeyIndexed(env, ExtendBTL(env, st, key, n).state, key)
  {
    var r := ExtendBTL(env, st, key, n);
    if GetEntityMetaData(env, st, key).Ok? {
      var ent := GetEntityMetaData(env, st, key).value;
      var oldExpiry := ent.ExpiresAtBlock;
      var newExpiry := AddUint64(oldExpiry, n);
      var ent' := ent.(ExpiresAtBlock := newExpiry);
      var st1 := st.(expiring := r.state.expiring);
      StoreThenGet(env, st1, key, ent');
      AddUint64FixedPointIffZero(oldExpiry, n);
      forall b
        ensures key in Bucket(r.state.expiring, b) <==> ExpiresAt(env, r.state, key, b)
      {
        if b != oldExpiry && b != newExpiry {
          assert key in Bucket(st.expiring, b) <==> ExpiresAt(env, st, key, b);
        }
      }
    }
  }

  /** The index-consistency invariant survives an extension, unless
      re-storing the metadata fails (see `ExtendBTLEncodeFailureBreaksIndex`). */
  lemma ExtendBTLPreservesIndexConsistency(env: Env, st: State, key: Hash, n: uint64)
    requires CodecRoundTrips(env) && MetaDataSlotsInjective(env) && SlotsSeparated(env)
    requires IndexConsistent(env, st)
    requires !ExtendBTL(env, st, key, n).result.Err? ||
             !ExtendBTL(env, st, key, n).result.error.StoreMetaDataFailed?
    ensures IndexConsistent(env, ExtendBTL(env, st, key, n).state)
  {
    var st' := ExtendBTL(env, st, key, n).state;
    assert KeyIndexed(env, st, key) by {
      forall b ensures key in Bucket(st.expiring, b) <==> ExpiresAt(env, st, key, b) {
      }
    }
    ExtendBTLPreservesKeyIndexed(env, st, key, n);
    forall k, b
      ensures k in Bucket(st'.expiring, b) <==> ExpiresAt(env, st', k, b)
    {
      if k == key {
        assert KeyIndexed(env, st', key);
      } else {
        ExtendBTLFrame(env, st, key, n, k);
        assert k in Bucket(st.expiring, b) <==> ExpiresAt(env, st, k, b);
      }
    }
  }

  /** Why the host must roll back a failed extension: if re-encoding the
      metadata fails after a non-zero extension, the key is left indexed at
      the new height while its stored expiry is still the old one. */
  lemma ExtendBTLEncodeFailureBreaksIndex(env: Env, st: State, key: Hash, n: uint64)
    requires GetEntityMetaData(env, st, key).Ok?
    requires var ent := GetEntityMetaData(env, st, key).value;
             env.rlpEncode(ent.(ExpiresAtBlock := AddUint64(ent.ExpiresAtBlock, n))).None?
    requires n != 0
    ensures ExtendBTL(env, st, key, n).result == Err(StoreMetaDataFailed(EncodeError))
    ensures !KeyIndexed(env, ExtendBTL(env, st, key, n).state, key)
  {
    var r := ExtendBTL(env, st, key, n);
    var ent := GetEntityMetaData(env, st, key).value;
    var newExpiry := AddUint64(ent.ExpiresAtBlock, n);
    AddUint64FixedPointIffZero(ent.ExpiresAtBlock, n);
    assert GetEntityMetaData(env, r.state, key) == Ok(ent);
    assert key in Bucket(r.state.expiring, newExpiry) && !ExpiresAt(env, r.state, key, newExpiry);
  }
}
