/** u64 arithmetic that reports overflow, the tree height, and the digest of a descriptor. */
module Fsverity {
  import opened Bytes
  import opened Results
  import opened TreeShape
  import opened Merkle

  /** The program's errors. `Overflow` stands for a u64 overflow and `Panicked` for a failed
      assertion or `expect`. */
  datatype FsverityError =
    | BadSignature
    | InsufficientData(size: nat)
    | CannotVerify
    | Io
    | InvalidState
    | Overflow
    | Panicked

  type Checked<+T> = Result<T, FsverityError>

  function AddU64(a: nat, b: nat): Checked<nat> {
    if a + b < TWO_64 then Ok(a + b) else Err(Overflow)
  }

  function MulU64(a: nat, b: nat): Checked<nat> {
    if a * b < TWO_64 then Ok(a * b) else Err(Overflow)
  }

  function Pow128U64(e: nat): Checked<nat> {
    if Pow128(e) < TWO_64 then Ok(Pow128(e)) else Err(Overflow)
  }

  function DivideRoundupU64(dividend: nat, divisor: nat): Checked<nat>
    requires divisor > 0
  {
    var sum :- AddU64(dividend, divisor);
    Ok((sum - 1) / divisor)
  }

  /** Height of the tree over a file of `dataSize` bytes; `None` for the empty file. */
  function MerkleTreeHeight(dataSize: nat): Checked<Option<nat>> {
    var hashPages :- DivideRoundupU64(dataSize, HASHES_PER_PAGE * CHUNK_SIZE);
    Ok(if hashPages == 0 then None else Some(Log128Ceil(hashPages)))
  }

  /** Largest file size whose height the program can compute in 64 bits. */
  const MAX_HEIGHT_SIZE: nat := TWO_64 - 1 - HASHES_PER_PAGE * CHUNK_SIZE

  /** The height depends on the number of chunks only, and is `Height` of it. */
  lemma {:induction false} MerkleTreeHeightIs(dataSize: nat)
    ensures dataSize > MAX_HEIGHT_SIZE ==> MerkleTreeHeight(dataSize) == Err(Overflow)
    ensures 0 < dataSize <= MAX_HEIGHT_SIZE ==>
              && 0 < ChunkCount(dataSize) < TWO_64
              && MerkleTreeHeight(dataSize) == Ok(Some(Height(ChunkCount(dataSize))))
  {
    RoundupTwice(dataSize, CHUNK_SIZE, HASHES_PER_PAGE);
  }
}
