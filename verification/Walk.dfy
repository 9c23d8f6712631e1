/** The leaf-to-root walk over a serialized tree: which page and which slot each level reads.

    The serialization puts the root page first and the leaf pages last. The walk computes page
    numbers in closed form, in u64 arithmetic; `WalkGeometry` says what they are and when the
    arithmetic fits.
 */
module Walk {
  import opened Bytes
  import opened Results
  import opened TreeShape
  import opened Fsverity

  /** One step reads 32 bytes at `hashOffset` of page `page`. */
  datatype Step = Step(page: nat, hashOffset: nat)

  /** Bytes that level `x` occupies, and the offset in it of the hash on the path to the chunk. */
  function LevelGeometry(fileSize: nat, chunkIndex: nat, x: nat): Checked<(nat, nat)> {
    var leavesPerHash :- Pow128U64(x);
    var leavesSizePerHash :- MulU64(CHUNK_SIZE, leavesPerHash);
    var leavesSizePerNode :- MulU64(leavesSizePerHash, HASHES_PER_PAGE);
    var nodesAtLevel :- DivideRoundupU64(fileSize, leavesSizePerNode);
    var levelSize :- MulU64(nodesAtLevel, CHUNK_SIZE);
    var offsetInLevel :- MulU64(Quotient(chunkIndex, leavesPerHash), HASH_SIZE);
    Ok((levelSize, offsetInLevel))
  }

  /** Geometry of the levels `x`, ..., 0. */
  function LevelGeometries(fileSize: nat, chunkIndex: nat, x: nat): Checked<seq<(nat, nat)>> {
    var geometry :- LevelGeometry(fileSize, chunkIndex, x);
    if x == 0 then Ok([geometry]) else
    var lower :- LevelGeometries(fileSize, chunkIndex, x - 1);
    Ok([geometry] + lower)
  }

  /** Adds up the level sizes from `levelOffset` on, giving the offset in the tree of each hash. */
  function ScanOffsets(levels: seq<(nat, nat)>, levelOffset: nat): (r: Checked<seq<nat>>)
    ensures r.Ok? ==> |r.value| == |levels|
  {
    if levels == [] then Ok([]) else
    var nextOffset :- AddU64(levelOffset, levels[0].0);
    var hashOffset :- AddU64(levelOffset, levels[0].1);
    var rest :- ScanOffsets(levels[1..], nextOffset);
    Ok([hashOffset] + rest)
  }

  function ToStep(hashOffset: nat): Step {
    Step(hashOffset / CHUNK_SIZE, hashOffset % CHUNK_SIZE)
  }

  /** The steps from leaf to root for a chunk of a file. */
  function FsverityWalk(chunkIndex: nat, fileSize: nat): Checked<seq<Step>> {
    var maxLevel :- MerkleTreeHeight(fileSize);
    if maxLevel.None? then Err(Panicked) else
    var levels :- LevelGeometries(fileSize, chunkIndex, maxLevel.value);
    var offsets :- ScanOffsets(levels, 0);
    Ok(Reversed(offsets))
  }

  /** One step per offset, last offset first. */
  function Reversed(offsets: seq<nat>): seq<Step> {
    seq(|offsets|, y requires 0 <= y < |offsets| => ToStep(offsets[|offsets| - 1 - y]))
  }

  lemma {:induction false} ReversedSteps(offsets: seq<nat>, steps: seq<Step>)
    requires |offsets| == |steps|
    requires forall x :: 0 <= x < |steps| ==> ToStep(offsets[|steps| - 1 - x]) == steps[x]
    ensures Reversed(offsets) == steps
  {
  }

  /** The walk's arithmetic fits in 64 bits up to this file size. */
  const MAX_WALK_SIZE: nat := 0x2000_0000_0000_0000
  const MAX_WALK_CHUNKS: nat := 0x2_0000_0000_0000

  /** First page of level `x` in a tree whose top level is `top`: the levels above it come first. */
  function LevelStart(n: nat, top: nat, x: nat): nat
    decreases top
  {
    if top <= x then 0 else LevelCount(n, top + 1) + LevelStart(n, top - 1, x)
  }

  /** The step at level `x`: the page, within the level, of the chunk's ancestor, and its slot. */
  function StepAt(n: nat, top: nat, chunkIndex: nat, x: nat): Step {
    var i := Ancestor(chunkIndex, x);
    Step(LevelStart(n, top, x) + i / HASHES_PER_PAGE, HASH_SIZE * (i % HASHES_PER_PAGE))
  }

  lemma {:induction false} LevelCountShrinks(n: nat, x: nat)
    ensures LevelCount(n, x) <= n
  {
    if x > 0 {
      LevelCountShrinks(n, x - 1);
    }
  }

  lemma {:induction false} LevelStartBound(n: nat, top: nat, x: nat)
    ensures LevelStart(n, top, x) <= top * n
    decreases top
  {
    if top > x {
      LevelStartBound(n, top - 1, x);
      LevelCountShrinks(n, top + 1);
      assert top * n == (top - 1) * n + n;
    }
  }

  lemma {:induction false} MulMonotone(a: nat, b: nat, n: nat)
    requires a <= b
    ensures a * n <= b * n
  {
  }

  /** Byte offsets into a tree of at most seven levels. */
  lemma {:induction false} OffsetsFit(n: nat, top: nat, x: nat, chunkIndex: nat)
    requires chunkIndex < n <= MAX_WALK_CHUNKS && top <= 6
    ensures CHUNK_SIZE * LevelStart(n, top, x) + CHUNK_SIZE * LevelCount(n, x + 1) < TWO_64
    ensures CHUNK_SIZE * LevelStart(n, top, x) + HASH_SIZE * Ancestor(chunkIndex, x) < TWO_64
  {
    LevelStartBound(n, top, x);
    LevelCountShrinks(n, x + 1);
    AncestorShrinks(chunkIndex, x);
    MulMonotone(top, 6, n);
  }

  /** Consecutive levels occupy consecutive page ranges. */
  lemma {:induction false} LevelsConsecutive(n: nat, top: nat, x: nat)
    requires x < top
    ensures LevelStart(n, top, x) == LevelStart(n, top, x + 1) + LevelCount(n, x + 2)
    decreases top
  {
    if x + 1 < top {
      LevelsConsecutive(n, top - 1, x);
    }
  }

  lemma {:induction false} Pow128Six()
    ensures Pow128(6) == 0x400_0000_0000
  {
    assert Pow128(3) == 0x20_0000;
  }

  /** Up to the maximal size the tree has at most seven levels of pages; beyond it, more. */
  lemma {:induction false} WalkHeight(fileSize: nat)
    requires 0 < fileSize <= MAX_HEIGHT_SIZE
    ensures 0 < ChunkCount(fileSize) < TWO_64
    ensures Height(ChunkCount(fileSize)) <= 6 <==> fileSize <= MAX_WALK_SIZE
  {
    var n := ChunkCount(fileSize);
    HeightExact(n, 6);
    LevelCountOne(n, 7);
    Pow128Six();
    assert Pow128(7) == HASHES_PER_PAGE * Pow128(6);
  }

  lemma {:induction false} NodesAtLevel(fileSize: nat, x: nat)
    requires fileSize <= MAX_WALK_SIZE && x <= 6
    ensures 0 < CHUNK_SIZE * Pow128(x + 1) <= MAX_WALK_SIZE
    ensures DivideRoundupU64(fileSize, CHUNK_SIZE * Pow128(x + 1)) == Ok(LevelCount(ChunkCount(fileSize), x + 1))
  {
    Pow128Monotone(x + 1, 7);
    Pow128Six();
    assert Pow128(7) == HASHES_PER_PAGE * Pow128(6);
    RoundupTwice(fileSize, CHUNK_SIZE, Pow128(x + 1));
    LevelCountClosed(ChunkCount(fileSize), x + 1);
  }

  lemma {:induction false} LevelGeometryIs(fileSize: nat, chunkIndex: nat, x: nat)
    requires 0 < fileSize <= MAX_WALK_SIZE && chunkIndex < ChunkCount(fileSize) && x <= 6
    ensures LevelGeometry(fileSize, chunkIndex, x) == Ok(PathLevel(ChunkCount(fileSize), chunkIndex, x))
  {
    var n := ChunkCount(fileSize);
    var p := Pow128(x);
    NodesAtLevel(fileSize, x);
    assert Pow128(x + 1) == HASHES_PER_PAGE * p;
    LevelCountShrinks(n, x + 1);
    AncestorIsQuotient(chunkIndex, x);
    AncestorShrinks(chunkIndex, x);
    assert Pow128U64(x) == Ok(p);
    assert MulU64(CHUNK_SIZE, p) == Ok(CHUNK_SIZE * p);
    assert MulU64(CHUNK_SIZE * p, HASHES_PER_PAGE) == Ok(CHUNK_SIZE * Pow128(x + 1));
  }

  /** The geometry of levels `x`, ..., 0. */
  function PathLevels(n: nat, chunkIndex: nat, x: nat): seq<(nat, nat)> {
    [PathLevel(n, chunkIndex, x)] + if x == 0 then [] else PathLevels(n, chunkIndex, x - 1)
  }

  function PathLevel(n: nat, chunkIndex: nat, x: nat): (nat, nat) {
    (CHUNK_SIZE * LevelCount(n, x + 1), HASH_SIZE * Ancestor(chunkIndex, x))
  }

  lemma {:induction false} LevelGeometriesAre(fileSize: nat, chunkIndex: nat, x: nat)
    requires 0 < fileSize <= MAX_WALK_SIZE && chunkIndex < ChunkCount(fileSize) && x <= 6
    ensures LevelGeometries(fileSize, chunkIndex, x) == Ok(PathLevels(ChunkCount(fileSize), chunkIndex, x))
  {
    var n := ChunkCount(fileSize);
    LevelGeometryIs(fileSize, chunkIndex, x);
    if x > 0 {
      LevelGeometriesAre(fileSize, chunkIndex, x - 1);
    } else {
      assert PathLevels(n, chunkIndex, x) == [PathLevel(n, chunkIndex, x)];
    }
  }

  /** Offset in the serialized tree of the hash that level `x` reads. */
  function PathOffset(n: nat, top: nat, chunkIndex: nat, x: nat): nat {
    CHUNK_SIZE * LevelStart(n, top, x) + HASH_SIZE * Ancestor(chunkIndex, x)
  }

  /** First byte of level `x`. */
  function LevelByte(n: nat, top: nat, x: nat): nat {
    CHUNK_SIZE * LevelStart(n, top, x)
  }

  /** First byte after level `x`. */
  function NextByte(n: nat, top: nat, x: nat): nat {
    CHUNK_SIZE * LevelStart(n, top, x) + CHUNK_SIZE * LevelCount(n, x + 1)
  }

  lemma {:induction false} LevelSizeFits(n: nat, top: nat, chunkIndex: nat, x: nat)
    requires chunkIndex < n <= MAX_WALK_CHUNKS && x <= top <= 6
    ensures AddU64(LevelByte(n, top, x), PathLevel(n, chunkIndex, x).0) == Ok(NextByte(n, top, x))
  {
    OffsetsFit(n, top, x, chunkIndex);
  }

  lemma {:induction false} HashOffsetFits(n: nat, top: nat, chunkIndex: nat, x: nat)
    requires chunkIndex < n <= MAX_WALK_CHUNKS && x <= top <= 6
    ensures AddU64(LevelByte(n, top, x), PathLevel(n, chunkIndex, x).1) == Ok(PathOffset(n, top, chunkIndex, x))
  {
    OffsetsFit(n, top, x, chunkIndex);
  }

  lemma {:induction false} NextByteIs(n: nat, top: nat, x: nat)
    requires 0 < x <= top
    ensures NextByte(n, top, x) == LevelByte(n, top, x - 1)
  {
    var y := x - 1;
    LevelsConsecutive(n, top, y);
    assert x == y + 1 && x + 1 == y + 2;
  }

  /** Offsets that levels `x`, ..., 0 read. */
  function PathOffsets(n: nat, top: nat, chunkIndex: nat, x: nat): (r: seq<nat>)
    ensures |r| == x + 1
  {
    [PathOffset(n, top, chunkIndex, x)] + if x == 0 then [] else PathOffsets(n, top, chunkIndex, x - 1)
  }

  lemma {:induction false} PathOffsetsAt(n: nat, top: nat, chunkIndex: nat, x: nat, y: nat)
    requires y <= x
    ensures PathOffsets(n, top, chunkIndex, x)[x - y] == PathOffset(n, top, chunkIndex, y)
    decreases x
  {
    hide PathOffset;
    if y < x {
      PathOffsetsAt(n, top, chunkIndex, x - 1, y);
    }
  }

  lemma {:induction false} ScanStep(levels: seq<(nat, nat)>, start: nat, next: nat, hashOffset: nat, rest: seq<nat>)
    requires levels != [] && AddU64(start, levels[0].0) == Ok(next) && AddU64(start, levels[0].1) == Ok(hashOffset)
    requires ScanOffsets(levels[1..], next) == Ok(rest)
    ensures ScanOffsets(levels, start) == Ok([hashOffset] + rest)
  {
  }

  lemma {:induction false} PathOffsetsAre(n: nat, top: nat, chunkIndex: nat, x: nat)
    requires chunkIndex < n <= MAX_WALK_CHUNKS && x <= top <= 6
    ensures ScanOffsets(PathLevels(n, chunkIndex, x), LevelByte(n, top, x)) == Ok(PathOffsets(n, top, chunkIndex, x))
    decreases x
  {
    var levels := PathLevels(n, chunkIndex, x);
    var rest := if x == 0 then [] else PathOffsets(n, top, chunkIndex, x - 1);
    LevelSizeFits(n, top, chunkIndex, x);
    HashOffsetFits(n, top, chunkIndex, x);
    assert levels[0] == PathLevel(n, chunkIndex, x);
    assert PathOffsets(n, top, chunkIndex, x) == [PathOffset(n, top, chunkIndex, x)] + rest;
    if x > 0 {
      assert levels[1..] == PathLevels(n, chunkIndex, x - 1);
      NextByteIs(n, top, x);
      PathOffsetsAre(n, top, chunkIndex, x - 1);
    } else {
      assert levels[1..] == [];
    }
    ScanStep(levels, LevelByte(n, top, x), NextByte(n, top, x), PathOffset(n, top, chunkIndex, x), rest);
  }

  lemma {:induction false} PathStep(n: nat, top: nat, chunkIndex: nat, x: nat)
    ensures ToStep(PathOffset(n, top, chunkIndex, x)) == StepAt(n, top, chunkIndex, x)
  {
  }

  /** Page and slot of level `x`, in closed form. */
  ghost predicate StepIs(n: nat, top: nat, chunkIndex: nat, x: nat, step: Step) {
    && step.page == LevelStart(n, top, x) + Quotient(chunkIndex, Pow128(x + 1))
    && step.hashOffset == HASH_SIZE * (Quotient(chunkIndex, Pow128(x)) % HASHES_PER_PAGE)
    && Quotient(chunkIndex, Pow128(x + 1)) < LevelCount(n, x + 1)
  }

  /** The steps of levels 0, ..., `top`. */
  function PathSteps(n: nat, top: nat, chunkIndex: nat): (r: seq<Step>)
    ensures |r| == top + 1
    ensures forall x :: 0 <= x <= top ==> r[x] == StepAt(n, top, chunkIndex, x)
  {
    seq(top + 1, x requires 0 <= x => StepAt(n, top, chunkIndex, x))
  }

  /** The steps the program computes are the path. */
  lemma {:induction false} WalkIsPath(fileSize: nat, chunkIndex: nat)
    requires 0 < fileSize <= MAX_WALK_SIZE && chunkIndex < ChunkCount(fileSize)
    ensures ChunkCount(fileSize) < TWO_64
    ensures var n := ChunkCount(fileSize); FsverityWalk(chunkIndex, fileSize) == Ok(PathSteps(n, Height(n), chunkIndex))
  {
    var n := ChunkCount(fileSize);
    var top := Height(n);
    MerkleTreeHeightIs(fileSize);
    WalkHeight(fileSize);
    LevelGeometriesAre(fileSize, chunkIndex, top);
    PathOffsetsAre(n, top, chunkIndex, top);
    var offsets := PathOffsets(n, top, chunkIndex, top);
    var steps := PathSteps(n, top, chunkIndex);
    forall x: nat | x <= top
      ensures ToStep(offsets[top - x]) == steps[x]
    {
      PathOffsetsAt(n, top, chunkIndex, top, x);
      PathStep(n, top, chunkIndex, x);
    }
    ReversedSteps(offsets, steps);
  }

  lemma {:induction false} StepAtIs(n: nat, top: nat, chunkIndex: nat, x: nat)
    requires chunkIndex < n
    ensures StepIs(n, top, chunkIndex, x, StepAt(n, top, chunkIndex, x))
  {
    AncestorIsQuotient(chunkIndex, x);
    AncestorIsQuotient(chunkIndex, x + 1);
    AncestorInRange(n, chunkIndex, x + 1);
  }

  /** Geometry of the walk for every chunk of every file up to the maximal size: no u64 operation
      overflows; there is one step per level; the top level is page 0 alone; the levels occupy
      consecutive page ranges, top first; and level `x` reads slot `i / 128^x mod 128` of its page
      `i / 128^(x+1)`, which lies inside the level. */
  lemma {:induction false} WalkGeometry(fileSize: nat, chunkIndex: nat) returns (steps: seq<Step>)
    requires 0 < fileSize <= MAX_WALK_SIZE && chunkIndex < ChunkCount(fileSize)
    ensures ChunkCount(fileSize) < TWO_64
    ensures FsverityWalk(chunkIndex, fileSize) == Ok(steps)
    ensures var n := ChunkCount(fileSize);
            var top := Height(n);
            && |steps| == top + 1
            && LevelStart(n, top, top) == 0 && LevelCount(n, top + 1) == 1
            && (forall x: nat :: x <= top ==> StepIs(n, top, chunkIndex, x, steps[x]))
            && (forall x: nat :: x < top ==> LevelStart(n, top, x) == LevelStart(n, top, x + 1) + LevelCount(n, x + 2))
  {
    var n := ChunkCount(fileSize);
    WalkIsPath(fileSize, chunkIndex);
    var top := Height(n);
    steps := PathSteps(n, top, chunkIndex);
    HeightExact(n, top);
    forall x: nat | x <= top
      ensures StepIs(n, top, chunkIndex, x, steps[x])
    {
      StepAtIs(n, top, chunkIndex, x);
    }
    forall x: nat | x < top
      ensures LevelStart(n, top, x) == LevelStart(n, top, x + 1) + LevelCount(n, x + 2)
    {
      LevelsConsecutive(n, top, x);
    }
  }

  /** Above the maximal size the walk overflows, whatever the chunk. */
  lemma {:induction false} WalkOverflows(fileSize: nat, chunkIndex: nat)
    requires fileSize > MAX_WALK_SIZE
    ensures FsverityWalk(chunkIndex, fileSize) == Err(Overflow)
  {
    MerkleTreeHeightIs(fileSize);
    if fileSize <= MAX_HEIGHT_SIZE {
      WalkHeight(fileSize);
      var top := Height(ChunkCount(fileSize));
      Pow128Monotone(7, top);
      Pow128Six();
      assert Pow128(7) == HASHES_PER_PAGE * Pow128(6);
      assert LevelGeometry(fileSize, chunkIndex, top) == Err(Overflow);
    }
  }

  /** So the walk to a chunk of a file fits in 64 bits exactly up to 2^61 bytes; there is none in an empty file. */
  lemma {:induction false} WalkFitsIff(fileSize: nat, chunkIndex: nat)
    ensures chunkIndex < ChunkCount(fileSize) ==> (FsverityWalk(chunkIndex, fileSize).Ok? <==> fileSize <= MAX_WALK_SIZE)
    ensures fileSize == 0 ==> FsverityWalk(chunkIndex, fileSize) == Err(Panicked)
  {
    if chunkIndex < ChunkCount(fileSize) && fileSize <= MAX_WALK_SIZE {
      WalkIsPath(fileSize, chunkIndex);
    } else if fileSize > MAX_WALK_SIZE {
      WalkOverflows(fileSize, chunkIndex);
    }
  }
}
