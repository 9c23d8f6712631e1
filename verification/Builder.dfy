/** `MerkleLeaves`: the leaf hashes of a file under construction, and the digest folded from them. */
module Builder {
  import opened Bytes
  import opened Results
  import opened TreeShape
  import opened Merkle
  import opened Fsverity

  /** `Vec::resize` on the leaves: new leaves are hashes of zero chunks. */
  function ResizedLeaves(leaves: seq<Digest>, n: nat): (r: seq<Digest>)
    ensures |r| == n
  {
    if n <= |leaves| then leaves[..n]
    else leaves + seq<Digest>(n - |leaves|, _ => HASH_OF_4096_ZEROS)
  }

  function UpdatedLeaves(leaves: seq<Digest>, index: nat, hash: Digest): (r: seq<Digest>)
    ensures |r| == Max(|leaves|, index + 1)
  {
    ResizedLeaves(leaves, Max(|leaves|, index + 1))[index := hash]
  }

  /** Hashes all pages `times` times over. */
  function FoldPages(h: HashFn, source: seq<Digest>, times: nat): seq<Digest>
    decreases times
  {
    if times == 0 then source else FoldPages(h, HashAllPages(h, source), times - 1)
  }

  function CalculateRootHash(h: HashFn, leaves: seq<Digest>): Checked<Digest> {
    if |leaves| == 0 then Ok(Zeros(HASH_SIZE))
    else if |leaves| == 1 then Ok(leaves[0])
    else
      var sizeForEquivalent :- MulU64(|leaves|, CHUNK_SIZE);
      var level :- MerkleTreeHeight(sizeForEquivalent);
      if level.None? then Err(Panicked) else
      var hashes := FoldPages(h, HashAllPages(h, leaves), level.value);
      if |hashes| != 1 then Err(InvalidState) else Ok(hashes[0])
  }

  lemma {:induction false} FoldPagesIsLevel(h: HashFn, source: seq<Digest>, times: nat)
    ensures FoldPages(h, source, times) == Level(h, source, times)
    decreases times
  {
    if times > 0 {
      FoldPagesIsLevel(h, HashAllPages(h, source), times - 1);
      LevelShift(h, source, times - 1);
    }
  }

  /** Folding by the computed height gives the reference root, and the only way to fail is a size
      that does not fit in 64 bits: `InvalidState` and the height's `unwrap` never happen. */
  lemma {:induction false} CalculateRootHashIsRoot(h: HashFn, leaves: seq<Digest>)
    ensures CalculateRootHash(h, leaves)
         == if |leaves| <= 1 || |leaves| * CHUNK_SIZE <= MAX_HEIGHT_SIZE
            then Ok(RootHash(h, leaves)) else Err(Overflow)
  {
    var n := |leaves|;
    MerkleTreeHeightIs(n * CHUNK_SIZE);
    assert ChunkCount(n * CHUNK_SIZE) == n;
    if n > 1 && n * CHUNK_SIZE <= MAX_HEIGHT_SIZE {
      RootIsTopLevel(h, leaves);
      LevelShift(h, leaves, Height(n));
      FoldPagesIsLevel(h, HashAllPages(h, leaves), Height(n));
    }
  }

  class MerkleLeaves {
    const h: HashFn
    var leaves: seq<Digest>
    var fileSize: nat

    constructor (h: HashFn)
      ensures this.h == h && leaves == [] && fileSize == 0
    {
      this.h, leaves, fileSize := h, [], 0;
    }

    method Resize(newFileSize: nat)
      requires newFileSize + CHUNK_SIZE < TWO_64
      modifies this
      ensures leaves == ResizedLeaves(old(leaves), ChunkCount(newFileSize))
      ensures fileSize == newFileSize
    {
      leaves := ResizedLeaves(leaves, DivideRoundup(newFileSize, CHUNK_SIZE));
      fileSize := newFileSize;
    }

    method UpdateHash(index: nat, hash: Digest, sizeAtLeast: nat)
      modifies this
      ensures leaves == UpdatedLeaves(old(leaves), index, hash)
      ensures fileSize == Max(old(fileSize), sizeAtLeast)
    {
      if |leaves| < index + 1 {
        leaves := ResizedLeaves(leaves, index + 1);
      }
      leaves := leaves[index := hash];
      if sizeAtLeast > fileSize {
        fileSize := sizeAtLeast;
      }
    }

    predicate IsIndexValid(index: nat)
      reads this
    {
      index < |leaves|
    }

    predicate IsConsistent(index: nat, hash: Digest)
      reads this
    {
      index < |leaves| && leaves[index] == hash
    }

    function CalculateFsverityDigest(): Checked<Digest>
      reads this
    {
      var root :- CalculateRootHash(h, leaves);
      Ok(DigestOf(h, root, fileSize))
    }
  }

  /** Changing one byte range inside chunk `k` and replacing leaf `k` by the hash of the patched chunk
      keeps the leaves those of the file, also when the write leaves a hole behind it. */
  lemma {:induction false} LeavesAfterWrite(h: HashFn, d: Bytes, src: Bytes, offset: nat)
    requires KnowsZeros(h)
    requires src != [] && offset % CHUNK_SIZE + |src| <= CHUNK_SIZE
    ensures var k := offset / CHUNK_SIZE;
            UpdatedLeaves(FileLeaves(h, d), k, h(Patched(PaddedChunk(d, k), src, offset % CHUNK_SIZE)))
            == FileLeaves(h, Splice(d, src, offset))
  {
    var k := offset / CHUNK_SIZE;
    var d' := Splice(d, src, offset);
    var l := UpdatedLeaves(FileLeaves(h, d), k, h(Patched(PaddedChunk(d, k), src, offset % CHUNK_SIZE)));
    var r := FileLeaves(h, d');
    assert |l| == |r|;
    forall i | 0 <= i < |l|
      ensures l[i] == r[i]
    {
      if i == k {
        SpliceSameChunk(d, src, offset, k);
      } else {
        SpliceOtherChunk(d, src, offset, k, i);
        if i >= ChunkCount(|d|) {
          ChunkPastEnd(d, i);
        }
      }
    }
  }

  /** Resizing the leaves follows resizing the file, except for a chunk that truncation cuts. */
  lemma {:induction false} LeavesAfterResize(h: HashFn, d: Bytes, size: nat)
    requires KnowsZeros(h)
    requires |d| <= size || size % CHUNK_SIZE == 0
    ensures ResizedLeaves(FileLeaves(h, d), ChunkCount(size)) == FileLeaves(h, Resized(d, size))
  {
    var l, r := ResizedLeaves(FileLeaves(h, d), ChunkCount(size)), FileLeaves(h, Resized(d, size));
    forall i | 0 <= i < |l|
      ensures l[i] == r[i]
    {
      ResizedChunk(d, size, i);
      if i >= ChunkCount(|d|) {
        ChunkPastEnd(d, i);
      }
    }
  }
}
