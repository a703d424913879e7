/** The host state the core reads and writes: hash-addressed blobs (metadata
    and payload) and the block-height expiration index. */
module StateAccess {
  import opened Types

  datatype State = State(
    blobs: map<Hash, seq<byte>>,
    expiring: map<uint64, set<Hash>>)

  /** A state transition that may fail. Go has no rollback: `state` holds
      every write made before the failure. */
  datatype Step<+T> = Step(state: State, result: Result<T>)

  /** Reading a slot never fails: an absent blob reads as empty, as the
      state store reads an unset slot as zero. */
  function GetBlob(st: State, slot: Hash): seq<byte> {
    if slot in st.blobs then st.blobs[slot] else []
  }

  function SetBlob(st: State, slot: Hash, data: seq<byte>): State {
    st.(blobs := st.blobs[slot := data])
  }
}
