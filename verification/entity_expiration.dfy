/** The expiration index: for each block height, the set of entity keys that
    expire at it. A height with no due entities has no entry. */
module EntityExpiration {
  import opened Types

  type Index = map<uint64, set<Hash>>

  /** The keys due at `block` (empty when the height has no entry). */
  function Bucket(idx: Index, block: uint64): set<Hash> {
    if block in idx then idx[block] else {}
  }

  /** No entry holds an empty set. */
  ghost predicate NoEmptyBuckets(idx: Index) {
    forall b :: b in idx ==> idx[b] != {}
  }

  /** Inserts `key` into the bucket of `block`, creating it if needed. */
  function AddToEntitiesToExpireAtBlock(idx: Index, block: uint64, key: Hash): (r: Index)
    ensures Bucket(r, block) == Bucket(idx, block) + {key}
    ensures forall b :: b != block ==> Bucket(r, b) == Bucket(idx, b)
    ensures NoEmptyBuckets(idx) ==> NoEmptyBuckets(r)
  {
    idx[block := Bucket(idx, block) + {key}]
  }

  /** Removes `key` from the bucket of `block`, dropping the entry once it is
      empty; removing a non-member changes nothing. */
  function RemoveFromEntitiesToExpire(idx: Index, block: uint64, key: Hash): (r: Index)
    ensures Bucket(r, block) == Bucket(idx, block) - {key}
    ensures forall b :: b != block ==> Bucket(r, b) == Bucket(idx, b)
    ensures NoEmptyBuckets(idx) ==> NoEmptyBuckets(r)
  {
    var rest := Bucket(idx, block) - {key};
    if rest == {} then idx - {block} else idx[block := rest]
  }

  /** Removing a key that is not due at `block` leaves the index as it was. */
  lemma RemoveAbsentIsNoOp(idx: Index, block: uint64, key: Hash)
    requires NoEmptyBuckets(idx)
    requires key !in Bucket(idx, block)
    ensures RemoveFromEntitiesToExpire(idx, block, key) == idx
  {
    if block in idx {
      assert idx[block] - {key} == idx[block];
    }
  }

  /** Adding is idempotent. */
  lemma AddIdempotent(idx: Index, block: uint64, key: Hash)
    ensures AddToEntitiesToExpireAtBlock(AddToEntitiesToExpireAtBlock(idx, block, key), block, key)
         == AddToEntitiesToExpireAtBlock(idx, block, key)
  {
  }

  /** Removing is idempotent. */
  lemma RemoveIdempotent(idx: Index, block: uint64, key: Hash)
    requires NoEmptyBuckets(idx)
    ensures RemoveFromEntitiesToExpire(RemoveFromEntitiesToExpire(idx, block, key), block, key)
         == RemoveFromEntitiesToExpire(idx, block, key)
  {
    var once := RemoveFromEntitiesToExpire(idx, block, key);
    RemoveAbsentIsNoOp(once, block, key);
  }

  /** Un-indexes `key` at `from`, then indexes it at `to`: afterwards it is
      due at `to` and no longer at `from` (when the two differ); when they are
      equal it is there exactly once. No other key moves. */
  function ReindexEntity(idx: Index, key: Hash, from: uint64, to: uint64): (r: Index)
    ensures key in Bucket(r, to)
    ensures from != to ==> key !in Bucket(r, from)
    ensures from == to ==> Bucket(r, from) == Bucket(idx, from) + {key}
    ensures forall b, k :: k != key ==> (k in Bucket(r, b) <==> k in Bucket(idx, b))
    ensures forall b :: b != from && b != to ==> Bucket(r, b) == Bucket(idx, b)
    ensures NoEmptyBuckets(idx) ==> NoEmptyBuckets(r)
  {
    AddToEntitiesToExpireAtBlock(RemoveFromEntitiesToExpire(idx, from, key), to, key)
  }
}
