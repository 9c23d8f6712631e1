/** Reference definition of an fs-verity digest ("File digest computation" in the Linux kernel's
    Documentation/filesystems/fsverity.rst): the Merkle tree over the zero-padded chunks of a
    file, its root hash, and the hash of the 256-byte descriptor.
 */
module Merkle {
  import opened Bytes
  import opened TreeShape

  function Concat(hashes: seq<Digest>): (r: Bytes)
    ensures |r| == HASH_SIZE * |hashes|
  {
    if hashes == [] then [] else hashes[0] + Concat(hashes[1..])
  }

  /** Up to 128 hashes packed into one zero-padded page. */
  function Page(hashes: seq<Digest>): (p: Bytes)
    requires |hashes| <= HASHES_PER_PAGE
    ensures |p| == CHUNK_SIZE
  {
    Concat(hashes) + Zeros((HASHES_PER_PAGE - |hashes|) * HASH_SIZE)
  }

  /** The hashes that page `p` of a level packs. */
  function PageHashes(level: seq<Digest>, p: nat): (s: seq<Digest>)
    ensures |s| <= HASHES_PER_PAGE
  {
    var start := Min(HASHES_PER_PAGE * p, |level|);
    level[start..Min(start + HASHES_PER_PAGE, |level|)]
  }

  /** One level up: every page of hashes is hashed. */
  function HashAllPages(h: HashFn, level: seq<Digest>): seq<Digest> {
    seq<Digest>(DivideRoundup(|level|, HASHES_PER_PAGE), p requires 0 <= p => h(Page(PageHashes(level, p))))
  }

  /** Level `x` of the tree over `leaves`, level 0 being the leaves. */
  function Level(h: HashFn, leaves: seq<Digest>, x: nat): (r: seq<Digest>)
    ensures |r| == LevelCount(|leaves|, x)
  {
    if x == 0 then leaves else HashAllPages(h, Level(h, leaves, x - 1))
  }

  /** Packs and hashes until a single hash remains. */
  function FoldToRoot(h: HashFn, hashes: seq<Digest>): Digest
    requires hashes != []
    decreases |hashes|
  {
    if |hashes| == 1 then hashes[0] else FoldToRoot(h, HashAllPages(h, hashes))
  }

  /** Root hash of a file with these leaf hashes; all zeros for the empty file. */
  function RootHash(h: HashFn, leaves: seq<Digest>): Digest {
    if leaves == [] then Zeros(HASH_SIZE) else FoldToRoot(h, leaves)
  }

  function FileLeaves(h: HashFn, d: Bytes): seq<Digest> {
    seq<Digest>(ChunkCount(|d|), i requires 0 <= i => h(PaddedChunk(d, i)))
  }

  function LittleEndian(n: nat, width: nat): (r: Bytes)
    ensures |r| == width
  {
    if width == 0 then [] else [(n % 256) as byte] + LittleEndian(n / 256, width - 1)
  }

  /** The 256-byte fs-verity descriptor. */
  function Descriptor(root: Digest, size: nat): (d: Bytes)
    ensures |d| == 256
  {
    [1, 1, 12, 0]                       // version, hash algorithm, log2 of block size, salt size
    + Zeros(4)                          // signature size
    + LittleEndian(size, 8)
    + root + Zeros(32)                  // root hash field, 64 bytes
    + Zeros(32)                         // salt
    + Zeros(144)                        // reserved
  }

  function DigestOf(h: HashFn, root: Digest, size: nat): Digest {
    h(Descriptor(root, size))
  }

  /** The root hash of a file, from its bytes alone: with more than one chunk, it is the root hash of the
      file that consists of the hashes of its chunks. */
  function FileRoot(h: HashFn, d: Bytes): Digest
    decreases |d|
  {
    var leaves := FileLeaves(h, d);
    if |leaves| == 0 then Zeros(HASH_SIZE)
    else if |leaves| == 1 then leaves[0]
    else FileRoot(h, Concat(leaves))
  }

  /** The fs-verity digest of a file, computed from scratch. */
  function FsVerityDigest(h: HashFn, d: Bytes): Digest {
    DigestOf(h, FileRoot(h, d), |d|)
  }

  lemma {:induction false} ConcatSlot(hashes: seq<Digest>, s: nat)
    requires s < |hashes|
    ensures Concat(hashes)[HASH_SIZE * s..HASH_SIZE * (s + 1)] == hashes[s]
  {
    if s > 0 {
      ConcatSlot(hashes[1..], s - 1);
      assert Concat(hashes)[HASH_SIZE * s..HASH_SIZE * (s + 1)]
          == Concat(hashes[1..])[HASH_SIZE * (s - 1)..HASH_SIZE * s];
    }
  }

  /** Slot `s` of a page holds its hash `s`. */
  lemma {:induction false} PageSlot(hashes: seq<Digest>, s: nat)
    requires s < |hashes| <= HASHES_PER_PAGE
    ensures Page(hashes)[HASH_SIZE * s..HASH_SIZE * (s + 1)] == hashes[s]
  {
    ConcatSlot(hashes, s);
    assert Page(hashes)[HASH_SIZE * s..HASH_SIZE * (s + 1)] == Concat(hashes)[HASH_SIZE * s..HASH_SIZE * (s + 1)];
  }

  /** Hash `i` of a level sits in slot `i % 128` of its page `i / 128`. */
  lemma {:induction false} SlotOfLevel(level: seq<Digest>, i: nat)
    requires i < |level|
    ensures var s := HASH_SIZE * (i % HASHES_PER_PAGE);
            Page(PageHashes(level, i / HASHES_PER_PAGE))[s..s + HASH_SIZE] == level[i]
  {
    var hashes := PageHashes(level, i / HASHES_PER_PAGE);
    assert hashes[i % HASHES_PER_PAGE] == level[i];
    PageSlot(hashes, i % HASHES_PER_PAGE);
  }

  /** Folding until one hash remains stops exactly at the first level with one hash. */
  lemma {:induction false} FoldIsLevel(h: HashFn, leaves: seq<Digest>, x: nat)
    requires leaves != []
    requires LevelCount(|leaves|, x) == 1
    requires x > 0 ==> LevelCount(|leaves|, x - 1) != 1
    ensures FoldToRoot(h, leaves) == Level(h, leaves, x)[0]
    decreases x
  {
    if x > 0 {
      var up := HashAllPages(h, leaves);
      LevelShift(h, leaves, x - 1);
      LevelCountAdd(|leaves|, 1, x - 1);
      if x > 1 {
        LevelCountAdd(|leaves|, 1, x - 2);
      }
      assert |leaves| != 1 by {
        if |leaves| == 1 { SingleStays(x - 1); }
      }
      assert LevelCount(|leaves|, 1) == |up| by {
        assert LevelCount(|leaves|, 0) == |leaves|;
      }
      FoldIsLevel(h, up, x - 1);
    }
  }

  lemma {:induction false} SingleStays(x: nat)
    ensures LevelCount(1, x) == 1
  {
    if x > 0 {
      SingleStays(x - 1);
    }
  }

  /** Level `x + 1` is level `x` of the tree one level up. */
  lemma {:induction false} LevelShift(h: HashFn, leaves: seq<Digest>, x: nat)
    ensures Level(h, leaves, x + 1) == Level(h, HashAllPages(h, leaves), x)
  {
    if x > 0 {
      LevelShift(h, leaves, x - 1);
    } else {
      assert Level(h, leaves, 0) == leaves;
    }
  }

  /** From two leaves up, the root is the one hash on level `Height + 1`. */
  lemma {:induction false} RootIsTopLevel(h: HashFn, leaves: seq<Digest>)
    requires 2 <= |leaves| < TWO_64
    ensures |Level(h, leaves, Height(|leaves|) + 1)| == 1
    ensures RootHash(h, leaves) == Level(h, leaves, Height(|leaves|) + 1)[0]
  {
    var n := |leaves|;
    var x := Height(n);
    HeightExact(n, x);
    if x > 0 {
      HeightExact(n, x - 1);
    }
    FoldIsLevel(h, leaves, x + 1);
  }

  lemma {:induction false} ConcatAt(hashes: seq<Digest>, i: nat)
    ensures At(Concat(hashes), i) == if i / HASH_SIZE < |hashes| then hashes[i / HASH_SIZE][i % HASH_SIZE] else 0
    decreases |hashes|
  {
    if hashes != [] && i >= HASH_SIZE {
      ConcatAt(hashes[1..], i - HASH_SIZE);
      assert At(Concat(hashes), i) == At(Concat(hashes[1..]), i - HASH_SIZE);
    }
  }

  /** A page of hashes is a padded chunk of the file of all hashes. */
  lemma {:induction false} PageIsChunk(level: seq<Digest>, p: nat)
    ensures Page(PageHashes(level, p)) == PaddedChunk(Concat(level), p)
  {
    hide Page, PageHashes, Concat;
    var l, r := Page(PageHashes(level, p)), PaddedChunk(Concat(level), p);
    forall j | 0 <= j < CHUNK_SIZE
      ensures l[j] == r[j]
    {
      PageByte(level, p, j);
      ConcatAt(level, CHUNK_SIZE * p + j);
      assert r[j] == At(Concat(level), CHUNK_SIZE * p + j);
      SlotOfByte(p, j);
    }
  }

  lemma {:induction false} SlotOfByte(p: nat, j: nat)
    ensures (CHUNK_SIZE * p + j) / HASH_SIZE == HASHES_PER_PAGE * p + j / HASH_SIZE
    ensures (CHUNK_SIZE * p + j) % HASH_SIZE == j % HASH_SIZE
  {
  }

  lemma {:induction false} PageByte(level: seq<Digest>, p: nat, j: nat)
    requires j < CHUNK_SIZE
    ensures var i := HASHES_PER_PAGE * p + j / HASH_SIZE;
            Page(PageHashes(level, p))[j] == if i < |level| then level[i][j % HASH_SIZE] else 0
  {
    var hashes := PageHashes(level, p);
    ConcatAt(hashes, j);
    assert Page(hashes)[j] == At(Concat(hashes), j);
    assert j / HASH_SIZE < |hashes| <==> HASHES_PER_PAGE * p + j / HASH_SIZE < |level|;
  }

  /** Hashing all pages is hashing the chunks of the file of all hashes. */
  lemma {:induction false} HashAllPagesIsFileLeaves(h: HashFn, level: seq<Digest>)
    ensures HashAllPages(h, level) == FileLeaves(h, Concat(level))
  {
    var l, r := HashAllPages(h, level), FileLeaves(h, Concat(level));
    assert |l| == |r|;
    forall p | 0 <= p < |l|
      ensures l[p] == r[p]
    {
      PageIsChunk(level, p);
    }
  }

  /** Folding the leaf hashes of a file gives its root hash. */
  lemma {:induction false} RootHashIsFileRoot(h: HashFn, d: Bytes)
    ensures RootHash(h, FileLeaves(h, d)) == FileRoot(h, d)
    decreases |d|
  {
    var leaves := FileLeaves(h, d);
    if |leaves| > 1 {
      HashAllPagesIsFileLeaves(h, leaves);
      RootHashIsFileRoot(h, Concat(leaves));
    }
  }
}
