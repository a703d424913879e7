/** Scalar types, the entity metadata record, errors and results shared by
    every part of the model. */
module Types {

  /** An 8-bit byte. */
  type byte = b: int | 0 <= b < 256

  /** 2^64: the modulus of Go's uint64 arithmetic. */
  const UINT64_MODULUS: nat := 0x1_0000_0000_0000_0000

  /** Go's uint64. Arithmetic on it is written out explicitly below. */
  type uint64 = x: int | 0 <= x < 0x1_0000_0000_0000_0000

  /** A `common.Hash`: entity keys and state slots. The 32-byte width is not
      modelled (see README). */
  type Hash = seq<byte>

  /** A `common.Address`: the owner of an entity. */
  type Address = seq<byte>

  datatype Option<+T> = None | Some(value: T)

  /** The errors the modelled operations return. `StoreMetaDataFailed` and
      `PayloadDecompressFailed` are the wrappers ExtendBTL puts around the
      cause it received. */
  datatype Error =
    | InvalidColumnName(message: string)
    | NotFound(key: Hash)
    | DecompressError
    | DecodeError
    | EncodeError
    | StoreMetaDataFailed(cause: Error)
    | PayloadDecompressFailed(key: Hash)

  /** Go's `(value, error)` pair: exactly one of the two is meaningful. */
  datatype Result<+T> = Ok(value: T) | Err(error: Error)

  /** Per-entity metadata, persisted RLP-encoded and Brotli-compressed. */
  datatype EntityMetaData = EntityMetaData(
    Owner: Address,
    ExpiresAtBlock: uint64,
    ContentType: string,
    CreatedAtBlock: uint64,
    LastModifiedAtBlock: uint64,
    TransactionIndexInBlock: uint64,
    OperationIndexInTransaction: uint64,
    StringAttributes: seq<(string, string)>,
    NumericAttributes: seq<(string, uint64)>)

  /** Go's conversion `uint64(n)` of a non-negative length: the low 64 bits. */
  function ToUint64(n: nat): (r: uint64)
    ensures n < UINT64_MODULUS ==> r == n
    ensures n >= UINT64_MODULUS ==> r < n
  {
    n % UINT64_MODULUS
  }

  /** Go's `a + b` on uint64: exact unless it overflows, in which case it
      wraps around by 2^64 (it never saturates). */
  function AddUint64(a: uint64, b: uint64): (r: uint64)
    ensures a + b < UINT64_MODULUS ==> r == a + b
    ensures a + b >= UINT64_MODULUS ==> r == a + b - UINT64_MODULUS
  {
    (a + b) % UINT64_MODULUS
  }

  /** Adding leaves a uint64 where it was exactly when nothing is added: a
      wrap-around never lands back on the starting value. */
  lemma AddUint64FixedPointIffZero(a: uint64, b: uint64)
    ensures AddUint64(a, b) == a <==> b == 0
  {
    if a + b >= UINT64_MODULUS {
      assert AddUint64(a, b) == a + b - UINT64_MODULUS < a;
    }
  }
}
