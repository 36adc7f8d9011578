/** Option and Result, the shapes of the storage interface's return values. */
module Wrappers {

  datatype Option<+T> = None | Some(value: T)

  datatype Result<+R, +E> = Success(value: R) | Failure(error: E)
}

/** Fixed-width values and the storage error type shared by the state store
    and the sealed-block lookups. */
module Primitives {

  /** Every identifier, key, value and root in this model is 32 bytes wide. */
  type Bytes32 = s: seq<bv8> | |s| == 32
    witness [0, 0, 0, 0, 0, 0, 0, 0, 0, 0, 0, 0, 0, 0, 0, 0, 0, 0, 0, 0, 0, 0, 0, 0, 0, 0, 0, 0, 0, 0, 0, 0]

  type ContractId = Bytes32
  type MerkleRoot = Bytes32

  /** The literal `[0; 32]`: the root held by a default metadata record. */
  const ZeroRoot: MerkleRoot :=
    [0, 0, 0, 0, 0, 0, 0, 0, 0, 0, 0, 0, 0, 0, 0, 0, 0, 0, 0, 0, 0, 0, 0, 0, 0, 0, 0, 0, 0, 0, 0, 0]

  /** The tables this model names in its errors. */
  datatype Table = ContractsState | ContractsStateMerkleMetadata | FuelBlocks | SealedBlockConsensus

  /** What the sparse Merkle tree engine reports when it cannot rebuild a tree. */
  datatype MerkleTreeError = LoadError(root: MerkleRoot)

  /** The storage error: a missing required record, a wrapped tree error, or an
      opaque failure of the backing store, carried verbatim. */
  datatype StorageError =
    | NotFound(table: Table)
    | Other(cause: MerkleTreeError)
    | Backend(code: nat)
}
