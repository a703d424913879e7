# Entity metadata, block-to-live extension and column allowlist — a Dafny model

This project models three pieces of the golem-base storage layer of an
op-geth fork:

- the **column allowlist** (`arkivtype`): a fixed list of nine column names,
  the name → (index, name) map built from it at start-up, and the two lookups
  that guard user-supplied column names before they reach a query string;
- the **entity metadata store** (`StoreEntityMetaData`): the metadata record is
  RLP-encoded, Brotli-compressed and written as one blob at the slot
  `Keccak256(EntityMetaDataSalt ‖ key)`, and the *uncompressed* size is returned
  for billing;
- the **block-to-live extension** (`ExtendBTL`): the entity is taken out of
  the expiration bucket of its old height, its expiry is increased, it is
  put into the bucket of the new height, its metadata is re-stored and the
  decompressed payload is measured.

The state is immutable data: `StateAccess.State` holds the hash-addressed
blobs (metadata and payloads) and the expiration index
`map<uint64, set<Hash>>`. Every operation is a pure function from state to a
`Step` = (new state, `Result`). Go has no rollback, so the state in a failed
`Step` keeps every write made before the failure.

Keccak-256, RLP and Brotli are foreign code. They are fields of
`Primitives.Env`, a record of total functions, together with the two salts.
No property assumes anything of them silently. Each lemma that needs a law
names it in its `requires`:

- `MetaDataSlotsInjective`: the salted metadata hash is collision-free;
- `SlotsSeparated`: a metadata slot is never a payload slot;
- `CodecRoundTrips`: decode inverts encode, decompress inverts compress, and
  a compressed blob is non-empty.

The allowlist map `ArkivType.AllColumnsMapping` is a `const`: it is built
once and no operation can change it afterwards.

The entity's metadata is the view `EntityStore.GetEntityMetaData`. It reads
the blob, decompresses it and decodes it. An empty blob is an absent entity.
The main invariant is `ExtendBtl.IndexConsistent`: a key sits in a bucket
exactly when it is live and that bucket is its stored expiry. So a live key
is in exactly one bucket, and a missing key is in none.

Files: `types.dfy` (byte, uint64 arithmetic, errors, the metadata record),
`primitives.dfy`, `state_access.dfy`, `entity_expiration.dfy`, `search.dfy`,
`store_entity_meta_data.dfy`, `extend_btl.dfy`.

## Model

| member | source | states |
|---|---|---|
| ArkivType.BuildMapping | golem-base/arkivtype/search.go:35-44 | the allowlist map has exactly the listed names as keys; each entry carries its own name and a position where that name occurs in the list |
| ArkivType.BuildMappingKeepsLastOccurrence | golem-base/arkivtype/search.go:38-42 | a later duplicate overwrites an earlier one: no occurrence of a name follows the position recorded for it |
| ArkivType.InitMapping | golem-base/arkivtype/search.go:37-44 | the `init` loop over the column list builds exactly the map `BuildMapping` describes |
| ArkivType.BuildMappingPositions | golem-base/arkivtype/search.go:37-44 | over a list without duplicates, the entry for the i-th name has Index i and that name |
| ArkivType.BuildMappingSize | golem-base/arkivtype/search.go:37-44 | over a list without duplicates, the map has as many entries as the list |
| ArkivType.AllColumnsDistinct | golem-base/arkivtype/search.go:17-27 | the nine column names are pairwise distinct |
| ArkivType.AllColumnsMappingShape | golem-base/arkivtype/search.go:17-44 | the allowlist has exactly 9 entries and `allColumns[i]` maps to (i, `allColumns[i]`) |
| ArkivType.LookupColumn | golem-base/arkivtype/search.go:46-52 | `getColumn` succeeds iff the name is a column, returning the entry for that name at its position; otherwise the error text is built from the empty zero-value name |
| ArkivType.GetColumn | golem-base/arkivtype/search.go:54-60 | succeeds iff the name is one of the nine columns, and then returns it unchanged; every rejection carries the same message |
| ArkivType.GetColumnOrPanic | golem-base/arkivtype/search.go:62-69 | on an allowlisted name returns that name, agreeing with `GetColumn`; an unknown name is a precondition violation (the panic) |
| ArkivType.SpecialAttributesRejected | golem-base/arkivtype/search.go:11-27 | no name starting with `$` is accepted, in particular none of `$key`, `$creator`, `$owner`, `$expiration`, `$sequence` |
| ArkivType.GetColumnErrorOmitsName | golem-base/arkivtype/search.go:46-49 | as written, the rejection of `; DROP TABLE x` reads just `invalid column name: ` and equals the rejection of `$creator` |
| ArkivType.GetColumnReportingName | golem-base/arkivtype/search.go:46-60 | corrected lookup: same acceptance as `GetColumn`, and the error message ends with the rejected name |
| ArkivType.GetColumnReportingNameIdentifiesInput | golem-base/arkivtype/search.go:46-49 | with the corrected message, equal rejections come from equal names |
| Types.ToUint64 | golem-base/storageutil/entity/store_entity_meta_data.go:28 | `uint64(len(...))` is the length itself whenever it fits in 64 bits |
| Types.AddUint64 | golem-base/storageutil/entity/extend_btl.go:36 | uint64 `+=` is exact without overflow and wraps by 2^64 with it; it never saturates |
| Types.AddUint64FixedPointIffZero | golem-base/storageutil/entity/extend_btl.go:34-38 | the new expiry equals the old one iff zero blocks are added, so no wrap-around lands on the old height |
| EntityExpiration.RemoveFromEntitiesToExpire | golem-base/storageutil/entity/extend_btl.go:29 | removes the key from the old height's bucket only, and never leaves an empty bucket behind |
| EntityExpiration.AddToEntitiesToExpireAtBlock | golem-base/storageutil/entity/extend_btl.go:38 | inserts the key into the new height's bucket only, and never leaves an empty bucket behind |
| EntityExpiration.RemoveAbsentIsNoOp | golem-base/storageutil/entity/extend_btl.go:29 | removing a key that is not due at that height leaves the index as it was |
| EntityExpiration.AddIdempotent | golem-base/storageutil/entity/extend_btl.go:38 | adding the same key twice is the same as adding it once |
| EntityExpiration.RemoveIdempotent | golem-base/storageutil/entity/extend_btl.go:29 | removing the same key twice is the same as removing it once |
| EntityExpiration.ReindexEntity | golem-base/storageutil/entity/extend_btl.go:29-38 | remove at the old height, then add at the new one: the key is due at the new height, gone from the old one when the heights differ, and there exactly once when they are equal; no other key moves |
| EntityStore.StoreEntityMetaData | golem-base/storageutil/entity/store_entity_meta_data.go:14-29 | on encode failure: an encode error and the state unchanged; otherwise the metadata slot holds compress(encode(emd)), the result is the uncompressed length, and no other slot or index entry changes |
| EntityStore.StoreThenGet | golem-base/storageutil/entity/store_entity_meta_data.go:14-29 | reading the metadata back after a successful store yields the stored record |
| EntityStore.StoreFrame | golem-base/storageutil/entity/store_entity_meta_data.go:15-27 | with a collision-free, domain-separated hash, a store leaves every other entity's metadata and every payload unchanged |
| EntityStore.StoreTwiceKeepsSecond | golem-base/storageutil/entity/store_entity_meta_data.go:14-29 | storing twice under one key gives the same state and size as storing the second record alone |
| EntityStore.DistinctKeysDistinctSlots | golem-base/storageutil/entity/store_entity_meta_data.go:15 | the collision-freedom assumption on the salted hash, restated per key pair: distinct keys are written to distinct slots (its real use is in `StoreFrame`) |
| ExtendBtl.ExtendBTL | golem-base/storageutil/entity/extend_btl.go:18-60 | missing metadata: its error and no state change. Otherwise the key moves to the new bucket (old bucket cleared if n ≠ 0, or just re-added if n = 0), with expiry old + n mod 2^64. No other key's index entry and no other slot changes. Failures wrap their cause. Success reports the old expiry, the owner and metadata size + payload length |
| ExtendBtl.ExtendBTLStoresNewExpiry | golem-base/storageutil/entity/extend_btl.go:34-56 | after success the stored record differs from the old one only in `ExpiresAtBlock`, now old + n mod 2^64; the result's old expiry and owner are the stored ones |
| ExtendBtl.ExtendBTLFrame | golem-base/storageutil/entity/extend_btl.go:29-49 | extending one entity leaves every other entity's metadata and index entries, and every payload, unchanged |
| ExtendBtl.ExtendBTLNoRollback | golem-base/storageutil/entity/extend_btl.go:29-52 | when payload decompression fails, the error is returned and the index move and metadata write have already been applied |
| ExtendBtl.ExtendBTLPreservesKeyIndexed | golem-base/storageutil/entity/extend_btl.go:29-43 | if the key was indexed exactly at its stored expiry, it still is afterwards, unless re-storing the metadata failed |
| ExtendBtl.ExtendBTLPreservesIndexConsistency | golem-base/storageutil/entity/extend_btl.go:29-43 | the whole-index invariant (every key in exactly the bucket of its stored expiry) survives an extension, unless re-storing the metadata failed |
| ExtendBtl.ExtendBTLEncodeFailureBreaksIndex | golem-base/storageutil/entity/extend_btl.go:29-46 | if re-encoding fails after a non-zero extension, the key is left in the new bucket while its stored expiry is the old one: only the host's transaction rollback restores consistency |

## Notes on the code

- `extend_btl.go:36` is a plain Go `uint64 +=`. So the expiry wraps modulo 2^64 and does not saturate (`Types.AddUint64`).
- `ExtendBTL` performs no rollback. Writes made before a failure stay in the state, and atomicity comes from the host transaction (`ExtendBtl.ExtendBTLNoRollback`, `ExtendBtl.ExtendBTLEncodeFailureBreaksIndex`).

## Left out

- Keccak-256, RLP and Brotli are not modelled: they are parameters (`Primitives.Env`), and lemmas state the laws they rely on as preconditions.
- The 32-byte width of hashes and keys is not modelled. At a fixed width, a collision-free salted hash and domain separation together would be unsatisfiable by counting.
- `GetEntityMetaData`, `GetCompressedPayload`, `RemoveFromEntitiesToExpire`, `AddToEntitiesToExpireAtBlock` and `stateblob.SetBlob` are not part of this model's source files. They are defined abstractly: a blob read (empty when absent) with decompress and decode, and set insert and remove on a bucket.
- The error returns of the two expiration-index helpers (extend_btl.go:30-32, 39-41) are not modelled. Insert and remove on the abstract index cannot fail.
- The panic path of `MustBrotliCompress` is not modelled: compression is a total function.
- The layout of a blob over several state slots, and the balance methods of `StateAccess`, are not modelled. The store is a map from slot to blob.
- Go error strings built with `fmt.Errorf` are modelled as error constructors. `ExtendBTL`'s wrappers keep the key or the modelled cause. Failures inside RLP and Brotli are single constructors without a cause: `StoreEntityMetaData`'s encode failure (store_entity_meta_data.go:20) is a bare `EncodeError`, and `PayloadDecompressFailed` keeps the key but not the Brotli cause (extend_btl.go:51). The exception is the column error, whose text is the point of a finding.
- The panic of `GetColumnOrPanic` on an unknown name is modelled only as its precondition. On failure `getColumn` returns a nil pointer (search.go:49), so evaluating `column.Name` at search.go:66 is itself a nil-pointer panic. The intended `invalid column name: ` panic message is therefore never built, and the model does not describe which panic occurs.
- `Cursor`, `CursorValue`, `OrderByAnnotation`, `QueryResponse` and `EntityData` are data only: JSON-tagged records with no logic.
- `eth/api_arkiv.go` is the RPC surface and an external SQLite query engine. `golem-base/testutil/estimate_storage_costs.go` is a test RPC call. Neither holds core logic.
- The expiration sweep that consumes a bucket is not part of the modelled files.
- Types.ToUint64: for a length of 2^64 or more, the contract only says the result is smaller. Go lengths never get that large.

## Findings

| source | as written | input that shows it | evidently intended | confidence | as-written member | corrected member |
|---|---|---|---|---|---|---|
| golem-base/arkivtype/search.go:49 | the error text formats `column.Name` of the zero-value entry that a failed map lookup returns, so it is always `invalid column name: ` | `GetColumn("; DROP TABLE x")` and `GetColumn("$creator")` return the same error | the message names the rejected input | high, not executed | ArkivType.GetColumnErrorOmitsName | ArkivType.GetColumnReportingName |
