/** Reading a file against a serialized Merkle tree that an untrusted party stores.

    `Agreement` theorems: over the honest tree every walk succeeds with the root the builder folds.
    `Soundness` theorems: over any readers, whatever they return, a read that succeeds returned the
    honest chunk, or the proof names the page or chunk they returned that differs from the honest one
    and has the same hash.
 */
module Verifier {
  import opened Bytes
  import opened Results
  import opened TreeShape
  import opened Merkle
  import opened Fsverity
  import opened Walk
  import Builder
  import Binding

  type PageBytes = p: Bytes | |p| == CHUNK_SIZE witness Zeros(CHUNK_SIZE)

  /** What `read_chunk` leaves behind: the size it returned and the caller's whole buffer. */
  datatype ReadOutcome = ReadOutcome(size: nat, buf: Bytes)

  type ChunkRead = c: ReadOutcome | |c.buf| == CHUNK_SIZE && c.size <= CHUNK_SIZE
    witness ReadOutcome(0, Zeros(CHUNK_SIZE))

  /** A `ReadByChunk` implementation: any function from chunk indices to outcomes. */
  type Reader = nat -> Checked<ChunkRead>

  /** `LocalFileReader` over the bytes `d`, filling a zeroed buffer. */
  function LocalReader(d: Bytes): Reader {
    (i: nat) => Ok(ReadOutcome(|Chunk(d, i)|, PaddedChunk(d, i)))
  }

  /** Checks the hash of a child against its slot in each page on the way up, and returns the hash of
      the last page. */
  function CheckSteps(h: HashFn, tree: Reader, actual: Digest, steps: seq<Step>): Checked<Digest>
    decreases |steps|
  {
    if steps == [] then Ok(actual) else
    var read :- tree(steps[0].page);
    var at := steps[0].hashOffset;
    if at + HASH_SIZE > CHUNK_SIZE then Err(Panicked)
    else if actual != read.buf[at..at + HASH_SIZE] then Err(CannotVerify)
    else CheckSteps(h, tree, h(read.buf), steps[1..])
  }

  function VerityCheck(h: HashFn, chunk: Bytes, chunkIndex: nat, fileSize: nat, tree: Reader): Checked<Digest>
    requires |chunk| <= CHUNK_SIZE
  {
    if fileSize == 0 then Err(Panicked) else
    var steps :- FsverityWalk(chunkIndex, fileSize);
    CheckSteps(h, tree, h(Padded(chunk)), steps)
  }

  /** `struct fsverity_formatted_digest`: magic, algorithm, digest size, digest. */
  function FormattedDigest(h: HashFn, root: Digest, fileSize: nat): (f: Bytes)
    ensures |f| == 12 + HASH_SIZE
  {
    [70, 83, 86, 101, 114, 105, 116, 121] + LittleEndian(1, 2) + LittleEndian(HASH_SIZE, 2)
    + DigestOf(h, root, fileSize)
  }

  /** The signed message byte by byte: the magic "FSVerity", the algorithm 1 and the digest size 32 as 16-bit
      numbers, the least significant byte first, and the digest. */
  lemma {:induction false} FormattedDigestLayout(h: HashFn, root: Digest, fileSize: nat)
    ensures var f := FormattedDigest(h, root, fileSize);
            && f[..8] == [0x46, 0x53, 0x56, 0x65, 0x72, 0x69, 0x74, 0x79]
            && f[8..12] == [1, 0, 32, 0]
            && Binding.Decoded(f[8..10]) == 1 && Binding.Decoded(f[10..12]) == 32
            && f[12..] == DigestOf(h, root, fileSize)
  {
    var f := FormattedDigest(h, root, fileSize);
    Binding.Pow256Eight();
    Binding.LittleEndianDecodes(1, 2);
    Binding.LittleEndianDecodes(HASH_SIZE, 2);
    assert f[8..10] == LittleEndian(1, 2) && f[10..12] == LittleEndian(HASH_SIZE, 2);
    Binding.LittleEndianByte(1, 2, 0);
    Binding.LittleEndianByte(1, 2, 1);
    Binding.LittleEndianByte(HASH_SIZE, 2, 0);
    Binding.LittleEndianByte(HASH_SIZE, 2, 1);
  }

  datatype VerifiedFileReader = VerifiedFileReader(file: Reader, fileSize: nat, tree: Reader, rootHash: Digest)

  type Authenticator = (Bytes, Bytes) -> Checked<bool>

  function NewReader(h: HashFn, auth: Authenticator, file: Reader, fileSize: nat, sig: Bytes, tree: Reader)
    : Checked<VerifiedFileReader>
  {
    var page :- tree(0);
    if page.size != CHUNK_SIZE then Err(InsufficientData(page.size)) else
    var rootHash := h(page.buf);
    var valid :- auth(sig, FormattedDigest(h, rootHash, fileSize));
    if valid then Ok(VerifiedFileReader(file, fileSize, tree, rootHash)) else Err(BadSignature)
  }

  function ReadChunk(h: HashFn, r: VerifiedFileReader, chunkIndex: nat): Checked<ChunkRead> {
    var read :- r.file(chunkIndex);
    var rootHash := VerityCheck(h, read.buf[..read.size], chunkIndex, r.fileSize, r.tree);
    if rootHash.Err? then Err(if rootHash.error.Panicked? || rootHash.error.Overflow? then rootHash.error else Io)
    else if rootHash.value != r.rootHash then Err(Io) else Ok(read)
  }

  /** Opening succeeds exactly if the root page could be read in full and the signature is accepted for its hash
      and the size; a short page, a refused signature and a failing read each give their own error. */
  lemma {:induction false} OpensIff(h: HashFn, auth: Authenticator, file: Reader, fileSize: nat, sig: Bytes, tree: Reader)
    ensures var opening, page := NewReader(h, auth, file, fileSize, sig, tree), tree(0);
            && (page.Err? ==> opening.Err? && opening.error == page.error)
            && (page.Ok? && page.value.size < CHUNK_SIZE ==> opening == Err(InsufficientData(page.value.size)))
            && (page.Ok? && page.value.size == CHUNK_SIZE ==>
                  var answer := auth(sig, FormattedDigest(h, h(page.value.buf), fileSize));
                  && (opening.Ok? <==> answer == Ok(true))
                  && (answer == Ok(false) <==> opening == Err(BadSignature) && answer.Ok?)
                  && (answer.Err? ==> opening.Err? && opening.error == answer.error))
            && (opening.Ok? ==> opening.value == VerifiedFileReader(file, fileSize, tree, h(page.value.buf)))
  {
  }

  /** A walk fails at the first page that cannot be read or does not hold the hash below it. */
  lemma {:induction false} CheckFails(h: HashFn, tree: Reader, actual: Digest, steps: seq<Step>)
    requires steps != [] && steps[0].hashOffset + HASH_SIZE <= CHUNK_SIZE
    ensures var page, at, result := tree(steps[0].page), steps[0].hashOffset, CheckSteps(h, tree, actual, steps);
            && (page.Err? ==> result.Err? && result.error == page.error)
            && (page.Ok? && page.value.buf[at..at + HASH_SIZE] != actual ==> result == Err(CannotVerify))
  {
  }

  /** A read returns what the file reader returned, exactly if the walk over the tree ends in the root hash; a
      walk that does not is an I/O error, and reading an empty file panics. */
  lemma {:induction false} ReadsIff(h: HashFn, r: VerifiedFileReader, i: nat)
    ensures var read, result := r.file(i), ReadChunk(h, r, i);
            && (read.Err? ==> result.Err? && result.error == read.error)
            && (read.Ok? ==>
                  var check := VerityCheck(h, read.value.buf[..read.value.size], i, r.fileSize, r.tree);
                  && (result.Ok? <==> check == Ok(r.rootHash))
                  && (result.Ok? ==> result == read)
                  && (check == Err(CannotVerify) || (check.Ok? && check.value != r.rootHash) ==> result == Err(Io))
                  && (r.fileSize == 0 ==> result == Err(Panicked)))
  {
  }

  // ---------- The honest tree ----------

  /** The pages of level `x`. */
  function LevelPages(h: HashFn, leaves: seq<Digest>, x: nat): (r: seq<PageBytes>)
    ensures |r| == LevelCount(|leaves|, x + 1)
  {
    var level := Level(h, leaves, x);
    seq<PageBytes>(LevelCount(|leaves|, x + 1), p requires 0 <= p => Page(PageHashes(level, p)))
  }

  /** The pages of levels 0, ..., `top`. */
  function TreeLevels(h: HashFn, leaves: seq<Digest>, top: nat): (r: seq<seq<PageBytes>>)
    ensures |r| == top + 1
  {
    (if top == 0 then [] else TreeLevels(h, leaves, top - 1)) + [LevelPages(h, leaves, top)]
  }

  /** All pages, those of the last level first. */
  function RootFirst<T>(levels: seq<seq<T>>): seq<T> {
    if levels == [] then [] else levels[|levels| - 1] + RootFirst(levels[..|levels| - 1])
  }

  /** Where level `x` starts in the root-first order. */
  function StartOf<T>(levels: seq<seq<T>>, x: nat): nat {
    if |levels| <= x + 1 then 0 else |levels[|levels| - 1]| + StartOf(levels[..|levels| - 1], x)
  }

  function Flatten(pages: seq<PageBytes>): (r: Bytes)
    ensures |r| == CHUNK_SIZE * |pages|
  {
    if pages == [] then [] else pages[0] + Flatten(pages[1..])
  }

  /** The root-first serialization of the tree over a file. */
  function HonestTree(h: HashFn, d: Bytes): Bytes
    requires 0 < ChunkCount(|d|) < TWO_64
  {
    Flatten(RootFirst(TreeLevels(h, FileLeaves(h, d), Height(ChunkCount(|d|)))))
  }

  /** The hash of the honest root page, which is what a verifier of this tree expects. */
  function TreeRoot(h: HashFn, leaves: seq<Digest>): Digest
    requires 0 < |leaves| < TWO_64
  {
    HeightExact(|leaves|, Height(|leaves|));
    Level(h, leaves, Height(|leaves|) + 1)[0]
  }

  lemma {:induction false} RootFirstAt<T>(levels: seq<seq<T>>, x: nat, p: nat)
    requires x < |levels| && p < |levels[x]|
    ensures StartOf(levels, x) + p < |RootFirst(levels)|
    ensures RootFirst(levels)[StartOf(levels, x) + p] == levels[x][p]
  {
    var last := |levels| - 1;
    if x < last {
      RootFirstAt(levels[..last], x, p);
    }
  }

  lemma {:induction false} TreeLevelAt(h: HashFn, leaves: seq<Digest>, top: nat, x: nat)
    requires x <= top
    ensures TreeLevels(h, leaves, top)[x] == LevelPages(h, leaves, x)
    ensures StartOf(TreeLevels(h, leaves, top), x) == LevelStart(|leaves|, top, x)
  {
    hide LevelPages, LevelCount;
    if x < top {
      TreeLevelAt(h, leaves, top - 1, x);
      assert TreeLevels(h, leaves, top)[..top] == TreeLevels(h, leaves, top - 1);
      assert TreeLevels(h, leaves, top)[top] == LevelPages(h, leaves, top);
    }
  }

  lemma {:induction false} FlattenPage(pages: seq<PageBytes>, i: nat)
    requires i < |pages|
    ensures Flatten(pages)[CHUNK_SIZE * i..CHUNK_SIZE * (i + 1)] == pages[i]
  {
    if i > 0 {
      FlattenPage(pages[1..], i - 1);
      assert Flatten(pages)[CHUNK_SIZE * i..CHUNK_SIZE * (i + 1)]
          == Flatten(pages[1..])[CHUNK_SIZE * (i - 1)..CHUNK_SIZE * i];
    }
  }

  /** Reading page `LevelStart + p` of the serialized tree yields page `p` of that level. */
  lemma {:induction false} HonestPage(h: HashFn, d: Bytes, x: nat, p: nat)
    requires 0 < ChunkCount(|d|) < TWO_64
    requires x <= Height(ChunkCount(|d|)) && p < LevelCount(ChunkCount(|d|), x + 1)
    ensures var n := ChunkCount(|d|);
            LocalReader(HonestTree(h, d))(LevelStart(n, Height(n), x) + p)
            == Ok(ReadOutcome(CHUNK_SIZE, Page(PageHashes(Level(h, FileLeaves(h, d), x), p))))
  {
    hide Height, LevelCount, LevelStart, Level, Page, PageHashes, RootFirst, StartOf, Flatten, TreeLevels, HashAllPages;
    var n := ChunkCount(|d|);
    var leaves := FileLeaves(h, d);
    var levels := TreeLevels(h, leaves, Height(n));
    TreeLevelAt(h, leaves, Height(n), x);
    RootFirstAt(levels, x, p);
    ReadPage(RootFirst(levels), StartOf(levels, x) + p);
    assert levels[x][p] == Page(PageHashes(Level(h, leaves, x), p));
  }

  lemma {:induction false} ReadPage(pages: seq<PageBytes>, i: nat)
    requires i < |pages|
    ensures LocalReader(Flatten(pages))(i) == Ok(ReadOutcome(CHUNK_SIZE, pages[i]))
  {
    FlattenPage(pages, i);
    assert Chunk(Flatten(pages), i) == pages[i];
    PaddedOfChunk(Flatten(pages), i);
    assert Padded(pages[i]) == pages[i];
  }

  // ---------- Agreement ----------

  /** The honest page on level `x` of the path of leaf `i`. */
  function PathPage(h: HashFn, leaves: seq<Digest>, i: nat, x: nat): PageBytes {
    Page(PageHashes(Level(h, leaves, x), Ancestor(i, x) / HASHES_PER_PAGE))
  }

  /** The ancestor of the leaf on level `x`. */
  function PathHash(h: HashFn, leaves: seq<Digest>, i: nat, x: nat): Digest
    requires i < |leaves|
  {
    AncestorInRange(|leaves|, i, x);
    Level(h, leaves, x)[Ancestor(i, x)]
  }

  /** The ancestor on level `x` sits in its slot of the path's page, and the hash of that page is the
      ancestor on level `x + 1`. */
  lemma {:induction false} HonestStep(h: HashFn, leaves: seq<Digest>, top: nat, i: nat, x: nat)
    requires i < |leaves|
    ensures var at := StepAt(|leaves|, top, i, x).hashOffset;
            && at + HASH_SIZE <= CHUNK_SIZE
            && PathPage(h, leaves, i, x)[at..at + HASH_SIZE] == PathHash(h, leaves, i, x)
            && h(PathPage(h, leaves, i, x)) == PathHash(h, leaves, i, x + 1)
  {
    AncestorInRange(|leaves|, i, x);
    AncestorInRange(|leaves|, i, x + 1);
    SlotOfLevel(Level(h, leaves, x), Ancestor(i, x));
  }

  lemma {:induction false} RootOnPath(h: HashFn, leaves: seq<Digest>, i: nat)
    requires i < |leaves| < TWO_64
    ensures PathHash(h, leaves, i, Height(|leaves|) + 1) == TreeRoot(h, leaves)
  {
    HeightExact(|leaves|, Height(|leaves|));
    AncestorInRange(|leaves|, i, Height(|leaves|) + 1);
  }

  /** The tree reader serves the honest page at every step of the path. */
  ghost predicate ServesPath(h: HashFn, tree: Reader, leaves: seq<Digest>, top: nat, i: nat) {
    forall x: nat :: x <= top ==>
      tree(StepAt(|leaves|, top, i, x).page) == Ok(ReadOutcome(CHUNK_SIZE, PathPage(h, leaves, i, x)))
  }

  lemma {:induction false} CheckStep(h: HashFn, tree: Reader, actual: Digest, steps: seq<Step>, page: Bytes)
    requires steps != [] && steps[0].hashOffset + HASH_SIZE <= CHUNK_SIZE == |page|
    requires tree(steps[0].page) == Ok(ReadOutcome(CHUNK_SIZE, page))
    requires page[steps[0].hashOffset..steps[0].hashOffset + HASH_SIZE] == actual
    ensures CheckSteps(h, tree, actual, steps) == CheckSteps(h, tree, h(page), steps[1..])
  {
  }

  lemma {:induction false} HonestSteps(h: HashFn, tree: Reader, leaves: seq<Digest>, i: nat, x: nat)
    requires i < |leaves| < TWO_64 && x <= Height(|leaves|) + 1
    requires ServesPath(h, tree, leaves, Height(|leaves|), i)
    ensures CheckSteps(h, tree, PathHash(h, leaves, i, x), PathSteps(|leaves|, Height(|leaves|), i)[x..])
         == Ok(TreeRoot(h, leaves))
    decreases Height(|leaves|) + 1 - x
  {
    hide Height, PathPage, PathHash, TreeRoot, StepAt, PathSteps;
    var top := Height(|leaves|);
    var steps := PathSteps(|leaves|, top, i)[x..];
    if x == top + 1 {
      RootOnPath(h, leaves, i);
    } else {
      HonestStep(h, leaves, top, i, x);
      assert steps[0] == StepAt(|leaves|, top, i, x);
      CheckStep(h, tree, PathHash(h, leaves, i, x), steps, PathPage(h, leaves, i, x));
      HonestSteps(h, tree, leaves, i, x + 1);
      assert steps[1..] == PathSteps(|leaves|, top, i)[x + 1..];
    }
  }

  lemma {:induction false} HonestTreeServes(h: HashFn, d: Bytes, i: nat)
    requires i < ChunkCount(|d|) < TWO_64
    ensures ServesPath(h, LocalReader(HonestTree(h, d)), FileLeaves(h, d), Height(ChunkCount(|d|)), i)
  {
    hide Height, LevelCount, LevelStart, Level, Page, PageHashes, HonestTree, LocalReader;
    var n := ChunkCount(|d|);
    forall x: nat | x <= Height(n)
      ensures LocalReader(HonestTree(h, d))(StepAt(n, Height(n), i, x).page)
           == Ok(ReadOutcome(CHUNK_SIZE, PathPage(h, FileLeaves(h, d), i, x)))
    {
      AncestorInRange(n, i, x + 1);
      HonestPage(h, d, x, Ancestor(i, x) / HASHES_PER_PAGE);
    }
  }

  /** For every file up to the maximal size and every chunk of it, the walk over the honest tree
      succeeds and ends in the hash of the honest root page. */
  lemma {:induction false} HonestWalk(h: HashFn, d: Bytes, i: nat)
    requires 0 < |d| <= MAX_WALK_SIZE && i < ChunkCount(|d|)
    ensures ChunkCount(|d|) < TWO_64
    ensures VerityCheck(h, Chunk(d, i), i, |d|, LocalReader(HonestTree(h, d))) == Ok(TreeRoot(h, FileLeaves(h, d)))
  {
    WalkIsPath(|d|, i);
    var n := ChunkCount(|d|);
    PaddedOfChunk(d, i);
    HonestTreeServes(h, d, i);
    HonestSteps(h, LocalReader(HonestTree(h, d)), FileLeaves(h, d), i, 0);
    assert PathSteps(n, Height(n), i)[0..] == PathSteps(n, Height(n), i);
  }

  /** Builder and verifier agree on a file exactly when it has two chunks or more, or when the hash
      function happens to map the page holding its only leaf to that leaf. */
  lemma {:induction false} BuilderVerifierAgree(h: HashFn, d: Bytes, i: nat)
    requires 0 < |d| <= MAX_WALK_SIZE && i < ChunkCount(|d|)
    ensures ChunkCount(|d|) < TWO_64
    ensures Builder.CalculateRootHash(h, FileLeaves(h, d)) == Ok(FileRoot(h, d))
    ensures VerityCheck(h, Chunk(d, i), i, |d|, LocalReader(HonestTree(h, d)))
            == Builder.CalculateRootHash(h, FileLeaves(h, d))
       <==> ChunkCount(|d|) >= 2 || h(Page(FileLeaves(h, d))) == FileLeaves(h, d)[0]
  {
    var leaves := FileLeaves(h, d);
    HonestWalk(h, d, i);
    Builder.CalculateRootHashIsRoot(h, leaves);
    RootHashIsFileRoot(h, d);
    if |leaves| >= 2 {
      RootIsTopLevel(h, leaves);
    } else {
      SingleLeafTree(h, leaves);
    }
  }

  /** An instance where they do not: a one-byte file, and a hash function that maps everything but the zero
      chunk to zeros. */
  lemma {:induction false} SingleChunkDisagrees()
    ensures var h: HashFn := b => if b == Zeros(CHUNK_SIZE) then HASH_OF_4096_ZEROS else Zeros(HASH_SIZE);
            var d: Bytes := [1];
            && KnowsZeros(h)
            && VerityCheck(h, Chunk(d, 0), 0, |d|, LocalReader(HonestTree(h, d))) == Ok(HASH_OF_4096_ZEROS)
            && Builder.CalculateRootHash(h, FileLeaves(h, d)) == Ok(Zeros(HASH_SIZE))
  {
    var h: HashFn := b => if b == Zeros(CHUNK_SIZE) then HASH_OF_4096_ZEROS else Zeros(HASH_SIZE);
    var d: Bytes := [1];
    HonestWalk(h, d, 0);
    assert PaddedChunk(d, 0)[0] == At(d, CHUNK_SIZE * 0 + 0);
    assert FileLeaves(h, d) == [Zeros(HASH_SIZE)];
    assert Page([Zeros(HASH_SIZE)]) == Zeros(CHUNK_SIZE);
    SingleLeafTree(h, FileLeaves(h, d));
  }

  lemma {:induction false} SingleLeafTree(h: HashFn, leaves: seq<Digest>)
    requires |leaves| == 1
    ensures TreeRoot(h, leaves) == h(Page(leaves))
  {
    HeightExact(1, 0);
    assert Level(h, leaves, 0) == leaves && PageHashes(leaves, 0) == leaves;
  }

  /** Completeness: opening the honest tree computes the hash of the honest root page, and reading any chunk
      of the honest file through it succeeds. */
  lemma {:induction false} HonestReader(h: HashFn, auth: Authenticator, sig: Bytes, d: Bytes, i: nat)
    requires 0 < |d| <= MAX_WALK_SIZE && i < ChunkCount(|d|)
    ensures ChunkCount(|d|) < TWO_64
    ensures var root := TreeRoot(h, FileLeaves(h, d));
            var opening := NewReader(h, auth, LocalReader(d), |d|, sig, LocalReader(HonestTree(h, d)));
            && (auth(sig, FormattedDigest(h, root, |d|)) == Ok(true) ==>
                  opening == Ok(VerifiedFileReader(LocalReader(d), |d|, LocalReader(HonestTree(h, d)), root)))
            && (opening.Ok? ==> ReadChunk(h, opening.value, i) == Ok(ReadOutcome(|Chunk(d, i)|, PaddedChunk(d, i))))
  {
    HonestWalk(h, d, i);
    var n, leaves := ChunkCount(|d|), FileLeaves(h, d);
    var top := Height(n);
    HeightExact(n, top);
    HonestPage(h, d, top, 0);
    assert LevelStart(n, top, top) == 0;
    assert h(Page(PageHashes(Level(h, leaves, top), 0))) == TreeRoot(h, leaves);
    assert PaddedChunk(d, i)[..|Chunk(d, i)|] == Chunk(d, i) by {
      PaddedOfChunk(d, i);
    }
  }

  // ---------- Soundness ----------

  /** The tree reader returned a page for level `y` of the path of leaf `i` that collides with the honest page
      there. */
  ghost predicate ForgesPage(h: HashFn, tree: Reader, leaves: seq<Digest>, i: nat, y: nat)
    requires 0 < |leaves| < TWO_64
  {
    && y <= Height(|leaves|)
    && var read := tree(StepAt(|leaves|, Height(|leaves|), i, y).page);
       read.Ok? && Collides(h, read.value.buf, PathPage(h, leaves, i, y))
  }

  /** If the walk from level `x` up ends in the honest root, the hash it started from is the honest one, or
      the page that the untrusted tree returned for some level `y` from `x` up collides with the
      honest page there. */
  lemma {:induction false} StepsSound(h: HashFn, tree: Reader, leaves: seq<Digest>, i: nat, x: nat, actual: Digest)
    returns (y: nat)
    requires i < |leaves| < TWO_64
    requires x <= Height(|leaves|) + 1
    requires CheckSteps(h, tree, actual, PathSteps(|leaves|, Height(|leaves|), i)[x..]) == Ok(TreeRoot(h, leaves))
    ensures actual == PathHash(h, leaves, i, x) || (x <= y && ForgesPage(h, tree, leaves, i, y))
    decreases Height(|leaves|) + 1 - x
  {
    hide Height, PathPage, PathHash, TreeRoot, StepAt, PathSteps;
    var top := Height(|leaves|);
    y := x;
    if x == top + 1 {
      RootOnPath(h, leaves, i);
    } else {
      var steps := PathSteps(|leaves|, top, i)[x..];
      assert steps[0] == StepAt(|leaves|, top, i, x);
      assert steps[1..] == PathSteps(|leaves|, top, i)[x + 1..];
      HonestStep(h, leaves, top, i, x);
      var page := tree(steps[0].page).value.buf;
      if h(page) != PathHash(h, leaves, i, x + 1) {
        y := StepsSound(h, tree, leaves, i, x + 1, h(page));
      }
    }
  }

  /** The chunk a reader returned collides with chunk `i` of `d`. */
  ghost predicate ForgesChunk(h: HashFn, read: ChunkRead, d: Bytes, i: nat) {
    Collides(h, Padded(read.buf[..read.size]), PaddedChunk(d, i))
  }

  /** Verified-read soundness: over any file and tree readers, a read of a chunk inside the file that
      succeeds against the root of the honest tree returned the honest chunk (up to zero padding), or
      it returned a chunk that collides with the honest one, or the tree returned a page on the path
      that collides with the honest page there. */
  lemma {:induction false} ReadChunkSound(h: HashFn, d: Bytes, r: VerifiedFileReader, i: nat) returns (y: nat)
    requires i < ChunkCount(|d|) < TWO_64
    ensures r.fileSize == |d| && r.rootHash == TreeRoot(h, FileLeaves(h, d)) ==>
              var read := ReadChunk(h, r, i);
              read.Ok? ==>
                || Padded(read.value.buf[..read.value.size]) == PaddedChunk(d, i)
                || ForgesChunk(h, read.value, d, i)
                || ForgesPage(h, r.tree, FileLeaves(h, d), i, y)
  {
    y := 0;
    var leaves := FileLeaves(h, d);
    var n := ChunkCount(|d|);
    if r.fileSize == |d| && r.rootHash == TreeRoot(h, leaves) && ReadChunk(h, r, i).Ok? {
      var read := ReadChunk(h, r, i).value;
      WalkFitsIff(|d|, i);
      WalkIsPath(|d|, i);
      assert PathSteps(n, Height(n), i)[0..] == PathSteps(n, Height(n), i);
      y := StepsSound(h, r.tree, leaves, i, 0, h(Padded(read.buf[..read.size])));
    }
  }

  /** The signature is accepted for nothing but the digest of a file with this root hash and size. */
  ghost predicate VouchesOnlyFor(h: HashFn, auth: Authenticator, sig: Bytes, root: Digest, size: nat) {
    forall m :: auth(sig, m) == Ok(true) ==> m == FormattedDigest(h, root, size)
  }

  /** End to end, for every non-empty file: if the signature vouches only for the digest of the honest tree of
      `d` (from two chunks up that is the fs-verity digest of `d`), then a reader that opened, and a
      later read through it of a chunk inside the file, with readers that may by then answer anything,
      yields the size and the chunk of `d`; or the descriptor of the opened file, the returned chunk or
      a returned page collides with the honest one. */
  lemma {:induction false} SignedReadSound(h: HashFn, auth: Authenticator, sig: Bytes, d: Bytes,
                        file: Reader, fileSize: nat, tree: Reader, file': Reader, tree': Reader, i: nat)
    returns (y: nat)
    requires 0 < |d| < TWO_64 && fileSize < TWO_64 && i < ChunkCount(fileSize)
    requires VouchesOnlyFor(h, auth, sig, TreeRoot(h, FileLeaves(h, d)), |d|)
    ensures ChunkCount(|d|) >= 2 ==> TreeRoot(h, FileLeaves(h, d)) == FileRoot(h, d)
    ensures var leaves := FileLeaves(h, d);
            var opening := NewReader(h, auth, file, fileSize, sig, tree);
            opening.Ok? ==>
              var read := ReadChunk(h, opening.value.(file := file', tree := tree'), i);
              read.Ok? ==>
                || (fileSize == |d| && Padded(read.value.buf[..read.value.size]) == PaddedChunk(d, i))
                || Collides(h, Descriptor(opening.value.rootHash, fileSize), Descriptor(TreeRoot(h, leaves), |d|))
                || (fileSize == |d| && ForgesChunk(h, read.value, d, i))
                || (fileSize == |d| && ForgesPage(h, tree', leaves, i, y))
  {
    y := 0;
    var leaves := FileLeaves(h, d);
    var root := TreeRoot(h, leaves);
    if |leaves| >= 2 {
      RootIsTopLevel(h, leaves);
      RootHashIsFileRoot(h, d);
    }
    var opening := NewReader(h, auth, file, fileSize, sig, tree);
    if opening.Ok? && ReadChunk(h, opening.value.(file := file', tree := tree'), i).Ok? {
      var reader := opening.value;
      var f, g := FormattedDigest(h, reader.rootHash, fileSize), FormattedDigest(h, root, |d|);
      assert f == g;
      assert f[12..] == DigestOf(h, reader.rootHash, fileSize) && g[12..] == DigestOf(h, root, |d|);
      Binding.DescriptorBinds(h, reader.rootHash, fileSize, root, |d|);
      if fileSize == |d| && reader.rootHash == root {
        y := ReadChunkSound(h, d, reader.(file := file', tree := tree'), i);
      }
    }
  }
}
