/** The messages of proofs.proto the verifier handles. Byte fields are values, so nil and empty agree. */
module Ics23 {
  import opened Bytes

  datatype LeafOp = LeafOp(hash: int32, prehashKey: int32, prehashValue: int32, length: int32, prefix: Bytes)

  datatype InnerOp = InnerOp(hash: int32, prefix: Bytes, suffix: Bytes)

  datatype ExistenceProof = ExistenceProof(key: Bytes, value: Bytes, leaf: Option<LeafOp>, path: seq<InnerOp>)

  datatype NonExistenceProof =
    NonExistenceProof(key: Bytes, left: Option<ExistenceProof>, right: Option<ExistenceProof>)

  datatype InnerSpec = InnerSpec(childOrder: seq<int32>, childSize: int32, minPrefixLength: int32,
                                 maxPrefixLength: int32, emptyChild: Bytes, hash: int32)

  datatype ProofSpec = ProofSpec(leafSpec: Option<LeafOp>, innerSpec: Option<InnerSpec>, maxDepth: int32,
                                 minDepth: int32, prehashKeyBeforeComparison: bool)

  datatype BatchEntry = ExistEntry(exist: ExistenceProof) | NonexistEntry(nonexist: NonExistenceProof) | NoEntry

  datatype CompressedExistenceProof =
    CompressedExistenceProof(key: Bytes, value: Bytes, leaf: Option<LeafOp>, path: seq<int32>)

  datatype CompressedNonExistenceProof =
    CompressedNonExistenceProof(key: Bytes, left: Option<CompressedExistenceProof>,
                                right: Option<CompressedExistenceProof>)

  datatype CompressedBatchEntry =
    | CompressedExist(exist: CompressedExistenceProof)
    | CompressedNonexist(nonexist: CompressedNonExistenceProof)
    | CompressedNoEntry

  datatype CommitmentProof =
    | Exist(exist: ExistenceProof)
    | Nonexist(nonexist: NonExistenceProof)
    | Batch(entries: seq<BatchEntry>)
    | Compressed(centries: seq<CompressedBatchEntry>, lookupInners: seq<InnerOp>)
    | NoProof

  // HashOp
  const NO_HASH: int32 := 0
  const SHA256: int32 := 1
  const SHA512: int32 := 2
  const KECCAK256: int32 := 3
  const RIPEMD160: int32 := 4
  const BITCOIN: int32 := 5
  const SHA512_256: int32 := 6
  const BLAKE2B_512: int32 := 7
  const BLAKE2S_256: int32 := 8
  const BLAKE3: int32 := 9

  // LengthOp
  const NO_PREFIX: int32 := 0
  const VAR_PROTO: int32 := 1
  const VAR_RLP: int32 := 2
  const FIXED32_BIG: int32 := 3
  const FIXED32_LITTLE: int32 := 4
  const FIXED64_BIG: int32 := 5
  const FIXED64_LITTLE: int32 := 6
  const REQUIRE_32_BYTES: int32 := 7
  const REQUIRE_64_BYTES: int32 := 8
}
