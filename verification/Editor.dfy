/** `VerifiedFileEditor`: writes a file to an untrusted server while keeping, in trusted memory, the
    leaf hashes of what was written.

    The ghost field `expected` is the file the editor's tree vouches for: what its callers have
    written, with the bytes that resizes adopted. The server may hold something else. The contracts
    say what a call does for any leaves and any bytes the server holds. `Tracks` says that the leaves
    are those of `expected`; it holds of a new file and every call keeps it, unless the server holds
    a chunk that differs from the expected one and has the same hash (`Deceives`).
 */
module Editor {
  import opened Bytes
  import opened Results
  import opened TreeShape
  import opened Merkle
  import opened Fsverity
  import opened Builder
  import opened Chunks
  import opened FdServer
  import Binding

  /** Some chunk stored as `d` collides with the same chunk of `e`. */
  ghost predicate Deceives(h: HashFn, d: Bytes, e: Bytes) {
    exists k: nat :: Collides(h, PaddedChunk(d, k), PaddedChunk(e, k))
  }

  /** The piece writes part of an existing chunk, which must be read back, and the server altered it. */
  ghost predicate HitsAltered(e: Bytes, d: Bytes, piece: (nat, nat)) {
    var k := piece.0 / CHUNK_SIZE;
    piece.1 != CHUNK_SIZE && k < ChunkCount(|e|) && PaddedChunk(d, k) != PaddedChunk(e, k)
  }

  /** Of `n` bytes written at `offset`, those in the pieces before the first one that hits an altered
      chunk. */
  ghost function AcceptedBytes(e: Bytes, d: Bytes, n: nat, offset: nat): nat
    decreases n
  {
    if n == 0 then 0 else
    var size := Piece(n, offset, CHUNK_SIZE);
    if HitsAltered(e, d, (offset, size)) then 0 else size + AcceptedBytes(e, d, n - size, offset + size)
  }

  lemma {:induction false} AcceptedStep(e: Bytes, d: Bytes, n: nat, offset: nat)
    ensures n == 0 ==> AcceptedBytes(e, d, n, offset) == 0
    ensures n > 0 ==>
              var size := Piece(n, offset, CHUNK_SIZE);
              AcceptedBytes(e, d, n, offset)
              == if HitsAltered(e, d, (offset, size)) then 0 else size + AcceptedBytes(e, d, n - size, offset + size)
  {
  }

  /** The chunk a new hash is based on: what the server returns if the chunk exists, else zeros. */
  function Original(leaves: seq<Digest>, d: Bytes, k: nat): (c: Bytes)
    ensures |c| == CHUNK_SIZE
  {
    if k < |leaves| then PaddedChunk(d, k) else Zeros(CHUNK_SIZE)
  }

  /** The leaves after writing `src`, which stays inside one chunk, at `offset`. */
  function WrittenLeaves(h: HashFn, leaves: seq<Digest>, d: Bytes, src: Bytes, offset: nat): seq<Digest>
    requires offset % CHUNK_SIZE + |src| <= CHUNK_SIZE
  {
    var k := offset / CHUNK_SIZE;
    UpdatedLeaves(leaves, k, h(Patched(Original(leaves, d, k), src, offset % CHUNK_SIZE)))
  }

  /** A write of `len` bytes needs to read its chunk back and the chunk does not match its leaf. */
  predicate Inconsistent(h: HashFn, leaves: seq<Digest>, d: Bytes, len: nat, offset: nat) {
    var k := offset / CHUNK_SIZE;
    len != CHUNK_SIZE && k < |leaves| && h(PaddedChunk(d, k)) != leaves[k]
  }

  /** Of `n` bytes written at `offset`, those in the pieces before the first inconsistent one. */
  ghost function MatchedBytes(h: HashFn, leaves: seq<Digest>, d: Bytes, n: nat, offset: nat): (m: nat)
    ensures m <= n
    decreases n
  {
    if n == 0 then 0 else
    var size := Piece(n, offset, CHUNK_SIZE);
    if Inconsistent(h, leaves, d, size, offset) then 0 else size + MatchedBytes(h, leaves, d, n - size, offset + size)
  }

  lemma {:induction false} MatchedStep(h: HashFn, leaves: seq<Digest>, d: Bytes, n: nat, offset: nat)
    ensures n == 0 ==> MatchedBytes(h, leaves, d, n, offset) == 0
    ensures n > 0 ==>
              var size := Piece(n, offset, CHUNK_SIZE);
              MatchedBytes(h, leaves, d, n, offset)
              == if Inconsistent(h, leaves, d, size, offset) then 0 else size + MatchedBytes(h, leaves, d, n - size, offset + size)
  {
  }

  /** Against the leaves of `e`, the pieces that match are those whose chunk is unaltered. */
  lemma {:induction false} MatchedIsAccepted(h: HashFn, e: Bytes, d: Bytes, n: nat, offset: nat)
    requires !Deceives(h, d, e)
    ensures MatchedBytes(h, FileLeaves(h, e), d, n, offset) == AcceptedBytes(e, d, n, offset)
    decreases n
  {
    if n > 0 {
      var size, k := Piece(n, offset, CHUNK_SIZE), offset / CHUNK_SIZE;
      PieceNotDeceived(h, d, e, k);
      assert Inconsistent(h, FileLeaves(h, e), d, size, offset) <==> HitsAltered(e, d, (offset, size));
      MatchedIsAccepted(h, e, d, n - size, offset + size);
    }
  }

  /** The stored bytes that `n` leaves cover. */
  function Covered(d: Bytes, n: nat): Bytes {
    d[..Min(|d|, CHUNK_SIZE * n)]
  }

  lemma {:induction false} CoveredChunk(leaves: seq<Digest>, d: Bytes, k: nat)
    ensures PaddedChunk(Covered(d, |leaves|), k) == Original(leaves, d, k)
  {
    var c := Covered(d, |leaves|);
    forall j | 0 <= j < CHUNK_SIZE
      ensures PaddedChunk(c, k)[j] == Original(leaves, d, k)[j]
    {
      assert PaddedChunk(c, k)[j] == At(c, CHUNK_SIZE * k + j);
    }
  }

  /** Some of the bytes `src` at `offset` lie in chunk `k`. */
  predicate Touches(src: Bytes, offset: nat, k: nat) {
    src != [] && offset / CHUNK_SIZE <= k < ChunkCount(offset + |src|)
  }

  /** The leaves after writing `src` at `offset`: a chunk it touches has the hash of what the server stores (zeros
      where there was no leaf) with `src` in place; other leaves stay, and new ones before it are hashes
      of zero chunks. */
  function PatchedLeaves(h: HashFn, leaves: seq<Digest>, d: Bytes, src: Bytes, offset: nat): seq<Digest> {
    if src == [] then leaves else
    seq<Digest>(Max(|leaves|, ChunkCount(offset + |src|)), k requires 0 <= k => PatchedLeaf(h, leaves, d, src, offset, k))
  }

  function PatchedLeaf(h: HashFn, leaves: seq<Digest>, d: Bytes, src: Bytes, offset: nat, k: nat): Digest {
    if Touches(src, offset, k) then h(PaddedChunk(Splice(Covered(d, |leaves|), src, offset), k))
    else if k < |leaves| then leaves[k] else HASH_OF_4096_ZEROS
  }

  /** A piece's leaf is not touched by the pieces before it. */
  lemma {:induction false} LeafUntouched(h: HashFn, leaves: seq<Digest>, d: Bytes, buf: Bytes, offset: nat, done: nat)
    requires done < |buf| && (done == 0 || (offset + done) % CHUNK_SIZE == 0)
    ensures var k, leaves' := (offset + done) / CHUNK_SIZE, PatchedLeaves(h, leaves, d, buf[..done], offset);
            && (k < |leaves'| <==> k < |leaves|) && (k < |leaves| ==> leaves'[k] == leaves[k])
  {
  }

  /** What the next piece does to chunk `i` of the covered bytes. */
  lemma {:induction false} ChunkAfterPiece(leaves: seq<Digest>, d: Bytes, buf: Bytes, offset: nat, done: nat, size: nat, i: nat)
    requires done < |buf| && (done == 0 || (offset + done) % CHUNK_SIZE == 0)
    requires size == Piece(|buf| - done, offset + done, CHUNK_SIZE)
    ensures var c, k := Covered(d, |leaves|), (offset + done) / CHUNK_SIZE;
            PaddedChunk(Splice(c, buf[..done + size], offset), i)
            == if i == k then Patched(Original(leaves, d, k), buf[done..done + size], (offset + done) % CHUNK_SIZE)
               else PaddedChunk(Splice(c, buf[..done], offset), i)
  {
    hide Splice, PaddedChunk, Patched, Original, Covered;
    var c, at, k := Covered(d, |leaves|), offset + done, (offset + done) / CHUNK_SIZE;
    var c', src := Splice(c, buf[..done], offset), buf[done..done + size];
    SpliceAppend(c, buf, offset, done, done + size);
    if i == k {
      SpliceBefore(c, buf[..done], offset, k);
      SpliceSameChunk(c', src, at, k);
      CoveredChunk(leaves, d, k);
    } else {
      SpliceOtherChunk(c', src, at, k, i);
    }
  }

  lemma {:induction false} TouchesMore(buf: Bytes, offset: nat, done: nat, size: nat, i: nat)
    requires done < |buf| && (done == 0 || (offset + done) % CHUNK_SIZE == 0)
    requires size == Piece(|buf| - done, offset + done, CHUNK_SIZE)
    ensures Touches(buf[..done + size], offset, i) <==> i == (offset + done) / CHUNK_SIZE || Touches(buf[..done], offset, i)
    ensures ChunkCount(offset + done + size) == (offset + done) / CHUNK_SIZE + 1
    ensures done > 0 ==> ChunkCount(offset + done) == (offset + done) / CHUNK_SIZE
  {
  }

  /** Writing the next piece. */
  lemma {:induction false} PatchedMore(h: HashFn, leaves: seq<Digest>, d: Bytes, buf: Bytes, offset: nat, done: nat, size: nat)
    requires done < |buf| && (done == 0 || (offset + done) % CHUNK_SIZE == 0)
    requires size == Piece(|buf| - done, offset + done, CHUNK_SIZE)
    ensures WrittenLeaves(h, PatchedLeaves(h, leaves, d, buf[..done], offset), Splice(d, buf[..done], offset),
                          buf[done..done + size], offset + done)
         == PatchedLeaves(h, leaves, d, buf[..done + size], offset)
  {
    var k := (offset + done) / CHUNK_SIZE;
    var leaves', d' := PatchedLeaves(h, leaves, d, buf[..done], offset), Splice(d, buf[..done], offset);
    var l, r := WrittenLeaves(h, leaves', d', buf[done..done + size], offset + done), PatchedLeaves(h, leaves, d, buf[..done + size], offset);
    LeafUntouched(h, leaves, d, buf, offset, done);
    assert Original(leaves', d', k) == Original(leaves, d, k) by {
      hide PatchedLeaves;
      SpliceBefore(d, buf[..done], offset, k);
    }
    hide Splice, PaddedChunk, Covered, Original, Patched, Piece, Touches, ChunkCount;
    TouchesMore(buf, offset, done, size, k);
    assert |l| == |r|;
    forall i | 0 <= i < |l|
      ensures l[i] == r[i]
    {
      ChunkAfterPiece(leaves, d, buf, offset, done, size, i);
      TouchesMore(buf, offset, done, size, i);
    }
  }

  /** The leaves after a resize to `size`. */
  function ResizedTree(h: HashFn, leaves: seq<Digest>, fileSize: nat, d: Bytes, size: nat): seq<Digest> {
    ResizedLeaves(if CutsChunk(size, fileSize) then CutLeaves(h, leaves, d, size) else leaves, ChunkCount(size))
  }

  /** The state of an editor and its server before a write. */
  datatype Snapshot = Snapshot(data: Bytes, expected: Bytes, leaves: seq<Digest>, size: nat, pool: map<int, FdConfig>, readable: bool, accepting: bool)

  /** How one chunk of a write ended: applied, refused before anything was written, or failed while
      writing to the server. */
  datatype ChunkOutcome = Applied | Refused(error: IoError) | Failed(error: IoError)

  /** Recorded size after a write of `len` bytes at `offset`, of which `k` were applied. */
  function RecordedSize(size: nat, len: nat, offset: nat, k: nat): nat {
    if k == 0 then size else Max(size, offset + len)
  }

  /** The file after a resize that cuts a chunk: the head of that chunk is whatever the server
      returned for it. */
  function CutAdopting(e: Bytes, d: Bytes, size: nat): Bytes {
    Splice(Resized(e, size), PaddedChunk(d, size / CHUNK_SIZE)[..size % CHUNK_SIZE], size - size % CHUNK_SIZE)
  }

  class VerifiedFileEditor {
    const h: HashFn
    const file: RemoteFileEditor
    const tree: MerkleLeaves
    ghost var expected: Bytes

    /** Wraps a new, empty file. */
    constructor (h: HashFn, file: RemoteFileEditor)
      ensures this.h == h && this.file == file && fresh(tree)
      ensures expected == [] && Tracks() && Settled()
    {
      this.h, this.file := h, file;
      tree := new MerkleLeaves(h);
      expected := [];
      new;
      assert FileLeaves(h, []) == [];
    }

    /** The leaves are those of the expected file, which is not longer than the recorded size. */
    ghost predicate Tracks()
      reads this, tree
    {
      tree.h == h && tree.leaves == FileLeaves(h, expected) && |expected| <= tree.fileSize
    }

    /** The recorded size is that of the expected file. */
    ghost predicate Settled()
      reads this, tree
    {
      tree.fileSize == |expected|
    }

    method NewHashForIncompleteWrite(source: Bytes, offsetFromAlignment: nat, k: nat) returns (r: Result<Digest, IoError>)
      requires offsetFromAlignment + |source| <= CHUNK_SIZE
      ensures r.Ok? ==> r.value == h(Patched(Original(tree.leaves, file.Data(), k), source, offsetFromAlignment))
      ensures r.Ok? && k < |tree.leaves| ==> h(Original(tree.leaves, file.Data(), k)) == tree.leaves[k]
      ensures r.Err? ==> k < |tree.leaves|
      ensures r.Err? && r.error == InvalidData ==> h(Original(tree.leaves, file.Data(), k)) != tree.leaves[k]
      ensures r.Err? && file.Readable() && CHUNK_SIZE * k <= I64_MAX ==> r.error == InvalidData
    {
      var origData := new byte[CHUNK_SIZE](_ => 0);
      if tree.IsIndexValid(k) {
        var read := file.ReadChunk(k, origData);
        if read.Err? {
          return Err(read.error);
        }
        PaddedOfChunk(file.Data(), k);
        assert origData[..] == PaddedChunk(file.Data(), k);
        if !tree.IsConsistent(k, h(origData[..])) {
          return Err(InvalidData);
        }
      }
      assert origData[..] == Original(tree.leaves, file.Data(), k);
      r := Ok(h(origData[..offsetFromAlignment] + source + origData[offsetFromAlignment + |source|..]));
    }

    method NewChunkHash(source: Bytes, offsetFromAlignment: nat, currentSize: nat, k: nat) returns (r: Result<Digest, IoError>)
      requires offsetFromAlignment + |source| <= CHUNK_SIZE && currentSize == |source|
      ensures r.Ok? ==> r.value == h(Patched(Original(tree.leaves, file.Data(), k), source, offsetFromAlignment))
      ensures r.Ok? && |source| != CHUNK_SIZE && k < |tree.leaves| ==> h(Original(tree.leaves, file.Data(), k)) == tree.leaves[k]
      ensures r.Err? ==> k < |tree.leaves| && |source| != CHUNK_SIZE
      ensures r.Err? && r.error == InvalidData ==> h(Original(tree.leaves, file.Data(), k)) != tree.leaves[k]
      ensures r.Err? && file.Readable() && CHUNK_SIZE * k <= I64_MAX ==> r.error == InvalidData
    {
      if currentSize == CHUNK_SIZE {
        assert Patched(Original(tree.leaves, file.Data(), k), source, offsetFromAlignment) == source;
        r := Ok(h(source));
      } else {
        r := NewHashForIncompleteWrite(source, offsetFromAlignment, k);
      }
    }

    /** One iteration of `WriteAt`, under the tree's lock: hash the patched chunk, write, then record
        the hash. */
    method WriteChunk(source: Bytes, outputOffset: nat, sizeAtLeast: nat) returns (r: ChunkOutcome, ghost written: nat)
      requires KnowsZeros(h)
      requires source != [] && outputOffset % CHUNK_SIZE + |source| <= CHUNK_SIZE
      modifies this, tree, file.service
      ensures OnlyContentOf(file.fd, old(file.service.pool), file.service.pool)
      ensures written <= |source| && file.Data() == Splice(old(file.Data()), source[..written], outputOffset)
      ensures r.Applied? ==> written == |source|
      ensures r.Failed? ==> r.error != InvalidData
      ensures r.Refused? ==> written == 0 && file.service.pool == old(file.service.pool)
      ensures !r.Applied? ==> expected == old(expected) && tree.leaves == old(tree.leaves) && tree.fileSize == old(tree.fileSize)
      ensures r.Applied? ==> expected == Splice(old(expected), source, outputOffset)
      ensures r.Applied? ==> tree.leaves == WrittenLeaves(h, old(tree.leaves), old(file.Data()), source, outputOffset)
      ensures !r.Refused? ==> !Inconsistent(h, old(tree.leaves), old(file.Data()), |source|, outputOffset)
      ensures r == Refused(InvalidData) ==> Inconsistent(h, old(tree.leaves), old(file.Data()), |source|, outputOffset)
      ensures r.Applied? ==> tree.fileSize == Max(old(tree.fileSize), sizeAtLeast)
      ensures var k := outputOffset / CHUNK_SIZE;
              var stored, wanted := old(PaddedChunk(file.Data(), k)), old(PaddedChunk(expected, k));
              old(tree.leaves == FileLeaves(h, expected)) && !Collides(h, stored, wanted) ==>
                && (r.Applied? ==> tree.leaves == FileLeaves(h, expected))
                && (r.Applied? ==> !HitsAltered(old(expected), old(file.Data()), (outputOffset, |source|)))
                && (r == Refused(InvalidData) ==> HitsAltered(old(expected), old(file.Data()), (outputOffset, |source|)))
      ensures old(file.Readable()) && outputOffset + |source| <= I64_MAX && r.Refused? ==> r.error == InvalidData
      ensures old(file.Accepting()) && outputOffset + |source| <= I64_MAX ==> !r.Failed?
    {
      var k := outputOffset / CHUNK_SIZE;
      var offsetFromAlignment := outputOffset % CHUNK_SIZE;
      var newHash := NewChunkHash(source, offsetFromAlignment, |source|, k);
      if newHash.Err? {
        return Refused(newHash.error), 0;
      }
      var w;
      w, written := file.WriteAllAt(source, outputOffset);
      if w.Err? {
        return Failed(w.error), written;
      }
      assert source[..written] == source;
      tree.UpdateHash(k, newHash.value, sizeAtLeast);
      expected := Splice(expected, source, outputOffset);
      r := Applied;
      LeavesAfterWrite(h, old(expected), source, outputOffset);
      if k >= ChunkCount(|old(expected)|) {
        ChunkPastEnd(old(expected), k);
      }
    }

    /** The state before a write. */
    ghost function Before(): Snapshot
      reads this, tree, file.service
    {
      Snapshot(file.Data(), expected, tree.leaves, tree.fileSize, file.service.pool, file.Readable(), file.Accepting())
    }

    /** `done` bytes of a write of `buf` are applied, and `more` bytes after them reached the server. */
    ghost predicate Midway(b: Snapshot, buf: Bytes, offset: nat, done: nat, more: nat)
      reads this, tree, file.service
    {
      && done + more <= |buf|
      && OnlyContentOf(file.fd, b.pool, file.service.pool)
      && (done == 0 || done == |buf| || (offset + done) % CHUNK_SIZE == 0)
      && expected == Splice(b.expected, buf[..done], offset)
      && file.Data() == Splice(b.data, buf[..done + more], offset)
      && tree.leaves == PatchedLeaves(h, b.leaves, b.data, buf[..done], offset)
      && (b.leaves == FileLeaves(h, b.expected) && !Deceives(h, b.data, b.expected) ==> tree.leaves == FileLeaves(h, expected))
      && tree.fileSize == RecordedSize(b.size, |buf|, offset, done)
    }

    /** The last piece of the write had this outcome. */
    ghost predicate Ended(b: Snapshot, buf: Bytes, offset: nat, done: nat, more: nat, outcome: ChunkOutcome) {
      var matched := MatchedBytes(h, b.leaves, b.data, |buf|, offset);
      var inRange := offset + |buf| <= I64_MAX;
      && done <= matched
      && match outcome
         case Applied =>
           && more == 0 && done <= |buf|
           && matched == done + MatchedBytes(h, b.leaves, b.data, |buf| - done, offset + done)
         case Refused(e) =>
           && more == 0 && done < |buf|
           && (e == InvalidData ==> matched == done)
           && (b.readable && inRange ==> e == InvalidData)
         case Failed(e) =>
           e != InvalidData && done < matched && !(b.accepting && inRange)
    }

    lemma {:induction false} MidwayStarts(buf: Bytes, offset: nat)
      ensures Midway(Before(), buf, offset, 0, 0) && Ended(Before(), buf, offset, 0, 0, Applied)
      ensures Before().readable ==> Writable(Before().pool, file.fd) && file.service.servesReads
      ensures Before().accepting ==> Writable(Before().pool, file.fd) && file.service.servesWrites
    {
      hide FileLeaves, Splice;
      SpliceNothing(file.Data(), buf, offset);
      SpliceNothing(expected, buf, offset);
    }

    /** How each outcome of the next piece leaves the write. */
    lemma {:induction false} EndedStep(b: Snapshot, buf: Bytes, offset: nat, done: nat, size: nat, more: nat, outcome: ChunkOutcome)
      requires done < |buf| && size == Piece(|buf| - done, offset + done, CHUNK_SIZE)
      requires Ended(b, buf, offset, done, 0, Applied)
      requires var refuses := Inconsistent(h, b.leaves, b.data, size, offset + done);
               var inRange := offset + |buf| <= I64_MAX;
               && (!outcome.Refused? ==> !refuses) && (outcome == Refused(InvalidData) ==> refuses)
               && (b.readable && inRange && outcome.Refused? ==> outcome.error == InvalidData)
               && (b.accepting && inRange ==> !outcome.Failed?)
               && (outcome.Refused? ==> more == 0)
               && (outcome.Failed? ==> outcome.error != InvalidData)
      ensures outcome.Applied? ==> Ended(b, buf, offset, done + size, 0, outcome)
      ensures !outcome.Applied? ==> Ended(b, buf, offset, done, more, outcome)
    {
      hide Inconsistent, MatchedBytes;
      MatchedStep(h, b.leaves, b.data, |buf| - done, offset + done);
    }

    /** Body of the loop of `WriteAt`, for the piece of `size` bytes after the first `done`. */
    method WritePiece(buf: Bytes, offset: nat, done: nat, size: nat, ghost b: Snapshot)
      returns (r: ChunkOutcome, ghost more: nat)
      requires KnowsZeros(h)
      requires done < |buf| && size == Piece(|buf| - done, offset + done, CHUNK_SIZE)
      requires b.readable ==> Writable(b.pool, file.fd) && file.service.servesReads
      requires b.accepting ==> Writable(b.pool, file.fd) && file.service.servesWrites
      requires Midway(b, buf, offset, done, 0) && Ended(b, buf, offset, done, 0, Applied)
      modifies this, tree, file.service
      ensures r.Applied? ==> Midway(b, buf, offset, done + size, 0) && Ended(b, buf, offset, done + size, 0, r)
      ensures !r.Applied? ==> Midway(b, buf, offset, done, more) && Ended(b, buf, offset, done, more, r)
    {
      hide Splice, PaddedChunk, FileLeaves, HitsAltered, Deceives, Ended, OnlyContentOf, WrittenLeaves, PatchedLeaves, Inconsistent, Collides;
      ghost var pool := file.service.pool;
      OnlyContentTransitive(file.fd, b.pool, pool, pool);
      var source := buf[done..done + size];
      ghost var d, e := file.Data(), expected;
      PieceUntouched(h, b.leaves, b.data, b.expected, buf, offset, done, size);
      PieceNotDeceived(h, b.data, b.expected, (offset + done) / CHUNK_SIZE);
      PatchedMore(h, b.leaves, b.data, buf, offset, done, size);
      r, more := WriteChunk(source, offset + done, offset + |buf|);
      OnlyContentTransitive(file.fd, b.pool, pool, file.service.pool);
      EndedStep(b, buf, offset, done, size, more, r);
      assert file.Data() == Splice(d, source[..more], offset + done);
      SplicePiece(b.data, buf, offset, done, size, more, d);
      assert file.Data() == Splice(b.data, buf[..done + more], offset);
      if r.Applied? {
        assert expected == Splice(e, source, offset + done);
        SplicePiece(b.expected, buf, offset, done, size, size, e);
        assert expected == Splice(b.expected, buf[..done + size], offset);
      }
    }

    /** The loop of `WriteAt` over the pieces of `ChunkedSizeIter`, until all are applied or one is not. */
    method WritePieces(buf: Bytes, offset: nat) returns (outcome: ChunkOutcome, done: nat, ghost more: nat)
      requires KnowsZeros(h)
      modifies this, tree, file.service
      ensures Midway(old(Before()), buf, offset, done, more) && Ended(old(Before()), buf, offset, done, more, outcome)
      ensures outcome.Applied? ==> done == |buf|
    {
      hide Midway, Ended, Piece, Ranges, Before, KnowsZeros, Writable;
      ghost var b := Before();
      done, more, outcome := 0, 0, Applied;
      MidwayStarts(buf, offset);
      var iter := new ChunkedSizeIter(|buf|, offset, CHUNK_SIZE);
      var next := iter.Next();
      while next.Some?
        invariant fresh(iter) && iter.alignment == CHUNK_SIZE
        invariant done <= |buf| && more == 0 && outcome == Applied && (next.None? ==> done == |buf|)
        invariant next.Some? ==>
                    && done < |buf| && next.value == (offset + done, Piece(|buf| - done, offset + done, CHUNK_SIZE))
                    && iter.offset == offset + done + next.value.1 && iter.remaining == |buf| - done - next.value.1
        invariant Midway(b, buf, offset, done, 0) && Ended(b, buf, offset, done, 0, Applied)
        decreases |buf| - done, next.Some?
      {
        var (outputOffset, size) := next.value;
        outcome, more := WritePiece(buf, offset, outputOffset - offset, size, b);
        if !outcome.Applied? {
          return;
        }
        done, more := done + size, 0;
        next := iter.Next();
      }
    }

    /** Writes `buf` chunk by chunk.

        `applied` is how much of `buf` is in the expected file afterwards and `written` how much
        reached the server, which is more only if writing to the server failed midway. For any leaves
        and whatever the server holds: no piece at or past the first one that does not match its leaf
        is applied; if writing to the server failed, that error is returned, but an error before that, after
        some chunks, is a short count; the leaves of the chunks written are the hashes of their new content, and no other
        leaf changes; an error "inconsistent" means that nothing changed; a short count means that
        exactly that prefix was applied; and the recorded size is extended for the whole of `buf` as
        soon as anything was applied. Leaves that describe the expected file still do (or the server
        deceives), and then a server that serves all requests stops the write exactly at the first
        piece that hits a chunk it altered. */
    method WriteAt(buf: Bytes, offset: nat) returns (r: Result<nat, IoError>, ghost applied: nat, ghost written: nat)
      requires KnowsZeros(h)
      modifies this, tree, file.service
      ensures OnlyContentOf(file.fd, old(file.service.pool), file.service.pool)
      ensures applied <= written <= |buf|
      ensures expected == Splice(old(expected), buf[..applied], offset)
      ensures file.Data() == Splice(old(file.Data()), buf[..written], offset)
      ensures tree.leaves == PatchedLeaves(h, old(tree.leaves), old(file.Data()), buf[..applied], offset)
      ensures tree.fileSize == RecordedSize(old(tree.fileSize), |buf|, offset, applied)
      ensures r.Ok? ==> r.value == applied == written && (applied == 0 ==> buf == [])
      ensures r == Err(InvalidData) ==> written == 0
      ensures var matched := MatchedBytes(h, old(tree.leaves), old(file.Data()), |buf|, offset);
              && applied <= matched
              && (old(file.Accepting()) && offset + |buf| <= I64_MAX ==> (r.Ok? <==> applied > 0 || buf == []))
              && (old(file.Readable()) && offset + |buf| <= I64_MAX && applied < matched ==> r.Err?)
              && (old(file.Online()) && offset + |buf| <= I64_MAX ==>
                    applied == matched && r == if applied == 0 && buf != [] then Err(InvalidData) else Ok(applied))
      ensures old(Tracks()) && !Deceives(h, old(file.Data()), old(expected)) ==>
                && Tracks()
                && (old(file.Online()) && offset + |buf| <= I64_MAX ==>
                      && applied == AcceptedBytes(old(expected), old(file.Data()), |buf|, offset)
                      && (old(Settled()) ==>
                            (Settled() <==> SizeStaysRight(old(expected), old(file.Data()), |buf|, offset))))
    {
      hide Splice, FileLeaves, PatchedLeaves, Deceives, AcceptedBytes, MatchedBytes, SizeStaysRight;
      var outcome, done;
      ghost var more;
      outcome, done, more := WritePieces(buf, offset);
      applied, written := done, done + more;
      MatchedStep(h, old(tree.leaves), old(file.Data()), 0, offset + |buf|);
      match outcome {
        case Applied => r := Ok(|buf|);
        case Refused(e) => r := if done > 0 then Ok(done) else Err(e);
        case Failed(e) => r := Err(e);
      }
      if old(Tracks()) && !Deceives(h, old(file.Data()), old(expected)) {
        MatchedIsAccepted(h, old(expected), old(file.Data()), |buf|, offset);
        RecordedSizeRightIff(old(expected), old(file.Data()), buf, offset);
      }
    }

    /** Truncating into a chunk replaces its leaf by the hash of what the server returns for its head,
        without comparing it to the leaf; the expected file adopts those bytes. A resize that fails at
        the server after that leaves the leaf replaced, so that the tree vouches for the file with
        that one chunk cut (`Spoiled`). */
    method Resize(size: nat) returns (r: Result<(), IoError>)
      requires KnowsZeros(h)
      modifies this, tree, file.service
      ensures OnlyContentOf(file.fd, old(file.service.pool), file.service.pool)
      ensures old(Tracks()) ==> Tracks()
      ensures r.Ok? ==> size <= I64_MAX && file.Data() == Resized(old(file.Data()), size) && tree.fileSize == size && Settled()
      ensures r.Ok? ==> expected == if CutsChunk(size, old(tree.fileSize)) then CutAdopting(old(expected), old(file.Data()), size)
                                    else Resized(old(expected), size)
      ensures r.Ok? ==> tree.leaves == ResizedTree(h, old(tree.leaves), old(tree.fileSize), old(file.Data()), size)
      ensures r.Err? ==> file.service.pool == old(file.service.pool) && tree.fileSize == old(tree.fileSize)
      ensures r.Err? ==>
                || (tree.leaves == old(tree.leaves) && expected == old(expected))
                || (&& CutsChunk(size, old(tree.fileSize))
                    && tree.leaves == CutLeaves(h, old(tree.leaves), old(file.Data()), size)
                    && expected == Spoiled(old(expected), old(file.Data()), size))
      ensures old(file.Online()) && size <= I64_MAX ==> r.Ok?
      ensures old(file.Accepting()) && size <= I64_MAX && r.Err? ==> CutsChunk(size, old(tree.fileSize)) && tree.leaves == old(tree.leaves)
    {
      if size < tree.fileSize && size % CHUNK_SIZE > 0 {
        var newTailSize, chunkIndex := size % CHUNK_SIZE, size / CHUNK_SIZE;
        var buf := new byte[CHUNK_SIZE](_ => 0);
        var s := file.ReadChunk(chunkIndex, buf);
        if s.Err? {
          return Err(s.error);
        }
        PaddedOfChunk(file.Data(), chunkIndex);
        assert buf[..] == PaddedChunk(file.Data(), chunkIndex);
        assert buf[..newTailSize] + Zeros(CHUNK_SIZE - newTailSize) == CutChunk(PaddedChunk(file.Data(), chunkIndex), newTailSize);
        var newHash := h(buf[..newTailSize] + Zeros(CHUNK_SIZE - newTailSize));
        tree.UpdateHash(chunkIndex, newHash, size);
        assert tree.leaves == CutLeaves(h, old(tree.leaves), old(file.Data()), size);
      }
      hide CutLeaves, CutAdopting, Spoiled, FileLeaves, PaddedChunk, ResizedLeaves, OnlyContentOf;
      var f := file.Resize(size);
      if f.Err? {
        if CutsChunk(size, old(tree.fileSize)) {
          expected := Spoiled(expected, old(file.Data()), size);
          LeavesAfterFailedCut(h, old(expected), old(file.Data()), size);
        }
        return Err(f.error);
      }
      tree.Resize(size);
      if CutsChunk(size, old(tree.fileSize)) {
        CutAdoptingChunk(expected, old(file.Data()), size, 0);
        LeavesAfterCut(h, expected, old(file.Data()), size);
        expected := CutAdopting(expected, old(file.Data()), size);
      } else {
        if old(Tracks()) {
          LeavesAfterResize(h, expected, size);
        }
        expected := Resized(expected, size);
      }
      r := Ok(());
    }

    method ReadChunk(chunkIndex: nat, buf: array<byte>) returns (r: Result<nat, IoError>)
      requires buf.Length == CHUNK_SIZE
      modifies buf
      ensures r.Ok? ==> r.value == |Chunk(file.Data(), chunkIndex)|
      ensures r.Ok? ==> buf[..] == Chunk(file.Data(), chunkIndex) + old(buf[r.value..])
      ensures file.Readable() && CHUNK_SIZE * chunkIndex <= I64_MAX ==> r.Ok?
    {
      r := file.ReadChunk(chunkIndex, buf);
    }

    function Size(): nat
      reads tree
    {
      tree.fileSize
    }

    /** The digest of a settled file is the one computed from scratch; with the recorded size ahead of the file,
        only the size in the descriptor differs. */
    method CalculateFsverityDigest() returns (r: Checked<Digest>)
      ensures Tracks() && |expected| <= I64_MAX ==> r == Ok(DigestOf(h, FileRoot(h, expected), tree.fileSize))
      ensures Tracks() && Settled() && |expected| <= I64_MAX ==> r == Ok(FsVerityDigest(h, expected))
    {
      r := tree.CalculateFsverityDigest();
      CalculateRootHashIsRoot(h, tree.leaves);
      RootHashIsFileRoot(h, expected);
    }
  }

  /** A resize to `size` cuts a chunk of a file of recorded size `fileSize`. */
  predicate CutsChunk(size: nat, fileSize: nat) {
    size < fileSize && size % CHUNK_SIZE > 0
  }

  /** The leaves once the leaf of the cut chunk is replaced. */
  function CutLeaves(h: HashFn, leaves: seq<Digest>, d: Bytes, size: nat): seq<Digest> {
    UpdatedLeaves(leaves, size / CHUNK_SIZE, h(CutChunk(PaddedChunk(d, size / CHUNK_SIZE), size % CHUNK_SIZE)))
  }

  lemma {:induction false} CutAdoptingChunk(e: Bytes, d: Bytes, size: nat, i: nat)
    requires size % CHUNK_SIZE > 0 && i < ChunkCount(size)
    ensures |CutAdopting(e, d, size)| == size
    ensures PaddedChunk(CutAdopting(e, d, size), i)
         == if i == size / CHUNK_SIZE then CutChunk(PaddedChunk(d, i), size % CHUNK_SIZE) else PaddedChunk(e, i)
  {
    hide Splice, PaddedChunk, Resized;
    var k, tail := size / CHUNK_SIZE, size % CHUNK_SIZE;
    var src := PaddedChunk(d, k)[..tail];
    if i == k {
      SpliceSameChunk(Resized(e, size), src, size - tail, k);
      TruncatedChunk(e, size);
      assert PaddedChunk(CutAdopting(e, d, size), k) == src + Zeros(CHUNK_SIZE - tail);
    } else {
      SpliceOtherChunk(Resized(e, size), src, size - tail, k, i);
      ResizedChunk(e, size, i);
    }
  }

  /** After a cut, the leaves are those of the adopted file. */
  lemma {:induction false} LeavesAfterCut(h: HashFn, e: Bytes, d: Bytes, size: nat)
    requires KnowsZeros(h)
    requires size % CHUNK_SIZE > 0
    ensures ResizedLeaves(CutLeaves(h, FileLeaves(h, e), d, size), ChunkCount(size)) == FileLeaves(h, CutAdopting(e, d, size))
  {
    var l, r := ResizedLeaves(CutLeaves(h, FileLeaves(h, e), d, size), ChunkCount(size)), FileLeaves(h, CutAdopting(e, d, size));
    CutAdoptingChunk(e, d, size, 0);
    assert |l| == |r|;
    hide CutAdopting, PaddedChunk;
    forall i | 0 <= i < |l|
      ensures l[i] == r[i]
    {
      CutAdoptingChunk(e, d, size, i);
      if i < size / CHUNK_SIZE && i >= ChunkCount(|e|) {
        ChunkPastEnd(e, i);
      }
    }
  }

  /** The file that the leaves describe once the leaf of the chunk to be cut is replaced and nothing else is
      done: in that chunk it has what the server returned, cut. */
  function Spoiled(e: Bytes, d: Bytes, size: nat): Bytes {
    var start := size - size % CHUNK_SIZE;
    Splice(e, CutChunk(PaddedChunk(d, size / CHUNK_SIZE), size % CHUNK_SIZE)[..Min(CHUNK_SIZE, Max(|e|, size) - start)], start)
  }

  /** A chunk is zero from the end of the file on. */
  lemma {:induction false} ChunkTail(e: Bytes, k: nat, at: nat)
    requires at <= CHUNK_SIZE && (at == CHUNK_SIZE || |e| <= CHUNK_SIZE * k + at)
    ensures PaddedChunk(e, k)[at..] == Zeros(CHUNK_SIZE - at)
  {
    var c := PaddedChunk(e, k);
    forall j | at <= j < CHUNK_SIZE
      ensures c[j] == 0
    {
      assert c[j] == At(e, CHUNK_SIZE * k + j);
    }
  }

  lemma {:induction false} PatchHead(c: Bytes, cut: Bytes, n: nat)
    requires n <= |c| == |cut| && c[n..] == cut[n..]
    ensures Patched(c, cut[..n], 0) == cut
  {
    assert cut == cut[..n] + cut[n..];
  }

  lemma {:induction false} LeavesAfterFailedCut(h: HashFn, e: Bytes, d: Bytes, size: nat)
    requires KnowsZeros(h)
    requires size % CHUNK_SIZE > 0
    ensures CutLeaves(h, FileLeaves(h, e), d, size) == FileLeaves(h, Spoiled(e, d, size))
    ensures |Spoiled(e, d, size)| == Max(|e|, size)
  {
    var k, start := size / CHUNK_SIZE, size - size % CHUNK_SIZE;
    var cut, c := CutChunk(PaddedChunk(d, k), size % CHUNK_SIZE), PaddedChunk(e, k);
    var src := cut[..Min(CHUNK_SIZE, Max(|e|, size) - start)];
    assert cut[|src|..] == Zeros(CHUNK_SIZE - |src|);
    hide FileLeaves, Splice, UpdatedLeaves, PaddedChunk, CutChunk, Patched, Zeros;
    ChunkTail(e, k, |src|);
    PatchHead(c, cut, |src|);
    LeavesAfterWrite(h, e, src, start);
  }

  /** A resize that the server refuses after the leaf was replaced leaves the tree describing the file exactly
      if the chunk exists and what the server returned for it, cut, is that chunk or collides with it. */
  lemma {:induction false} FailedResizeHarmlessIff(h: HashFn, e: Bytes, d: Bytes, size: nat)
    requires size % CHUNK_SIZE > 0
    ensures var k := size / CHUNK_SIZE;
            var cut, c := CutChunk(PaddedChunk(d, k), size % CHUNK_SIZE), PaddedChunk(e, k);
            CutLeaves(h, FileLeaves(h, e), d, size) == FileLeaves(h, e)
            <==> k < ChunkCount(|e|) && (cut == c || Collides(h, cut, c))
  {
    var k := size / CHUNK_SIZE;
    var cut := CutChunk(PaddedChunk(d, k), size % CHUNK_SIZE);
    assert k < ChunkCount(|e|) ==> FileLeaves(h, e)[k] == h(PaddedChunk(e, k));
    assert CutLeaves(h, FileLeaves(h, e), d, size)[k] == h(cut);
  }

  /** With a server that returned the bytes of the file: exactly if the bytes to be cut off the chunk are all
      zero, or a collision. */
  lemma {:induction false} FailedHonestResizeHarmlessIff(h: HashFn, e: Bytes, size: nat)
    requires size % CHUNK_SIZE > 0 && size < |e|
    ensures var c, tail := PaddedChunk(e, size / CHUNK_SIZE), size % CHUNK_SIZE;
            CutLeaves(h, FileLeaves(h, e), e, size) == FileLeaves(h, e)
            <==> c[tail..] == Zeros(CHUNK_SIZE - tail) || Collides(h, CutChunk(c, tail), c)
  {
    var tail := size % CHUNK_SIZE;
    var c := PaddedChunk(e, size / CHUNK_SIZE);
    FailedResizeHarmlessIff(h, e, e, size);
    assert c == c[..tail] + c[tail..];
    assert CutChunk(c, tail)[tail..] == Zeros(CHUNK_SIZE - tail);
  }

  /** An instance where it is not: the file [1, 1], cut to one byte, and a hash function that tells [1] from it. */
  lemma {:induction false} FailedResizeSpoils()
    ensures var e: Bytes := [1, 1];
            var h: HashFn := b => if b == Zeros(CHUNK_SIZE) then HASH_OF_4096_ZEROS else if At(b, 1) == 1 then Ones() else Zeros(HASH_SIZE);
            && KnowsZeros(h)
            && FileLeaves(h, e) == [Ones()] && CutLeaves(h, FileLeaves(h, e), e, 1) == [Zeros(HASH_SIZE)]
            && Ones() != Zeros(HASH_SIZE) && Spoiled(e, e, 1) == [1, 0]
  {
    var e: Bytes := [1, 1];
    var c := PaddedChunk(e, 0);
    assert c[0] == At(e, CHUNK_SIZE * 0 + 0) && c[1] == At(e, CHUNK_SIZE * 0 + 1);
    assert Ones()[0] == 1;
    var cut := CutChunk(c, 1);
    assert cut[0] == 1 && cut[1] == 0;
  }

  function Ones(): Digest {
    seq(HASH_SIZE, _ => 1)
  }

  /** A truncation into a chunk keeps the caller's bytes exactly when the server returned them for the
      kept head: nothing else is compared. */
  lemma {:induction false} CutIsTruncationIff(e: Bytes, d: Bytes, size: nat)
    requires size % CHUNK_SIZE > 0
    ensures var k, tail := size / CHUNK_SIZE, size % CHUNK_SIZE;
            CutAdopting(e, d, size) == Resized(e, size) <==> PaddedChunk(d, k)[..tail] == PaddedChunk(e, k)[..tail]
  {
    var k, tail := size / CHUNK_SIZE, size % CHUNK_SIZE;
    hide CutAdopting, PaddedChunk, Resized;
    var a, b := CutAdopting(e, d, size), Resized(e, size);
    CutAdoptingChunk(e, d, size, k);
    TruncatedChunk(e, size);
    assert PaddedChunk(a, k)[..tail] == PaddedChunk(d, k)[..tail];
    assert PaddedChunk(b, k)[..tail] == PaddedChunk(e, k)[..tail];
    if PaddedChunk(d, k)[..tail] == PaddedChunk(e, k)[..tail] {
      forall i: nat | i < ChunkCount(|a|)
        ensures PaddedChunk(a, i) == PaddedChunk(b, i)
      {
        CutAdoptingChunk(e, d, size, i);
        if i < k {
          ResizedChunk(e, size, i);
        }
      }
      EqualByChunks(a, b);
    }
  }

  /** An instance where it is not: the file [1, 2] is cut to one byte, and the server returns a 3 for it. */
  lemma {:induction false} CutAdoptsAltered()
    ensures var e: Bytes, d: Bytes := [1, 2], [3, 2];
            CutAdopting(e, d, 1) == [3] && Resized(e, 1) == [1]
  {
    var e: Bytes, d: Bytes := [1, 2], [3, 2];
    assert PaddedChunk(d, 0)[0] == At(d, CHUNK_SIZE * 0 + 0);
  }

  /** Two editors with the same digest hold the same file, or the trees of the two files collide in one place. */
  lemma {:induction false} EditorDigestsBind(a: VerifiedFileEditor, b: VerifiedFileEditor) returns (clash: Binding.Clash)
    requires a.h == b.h
    requires a.Tracks() && a.Settled() && |a.expected| <= I64_MAX
    requires b.Tracks() && b.Settled() && |b.expected| <= I64_MAX
    requires a.tree.CalculateFsverityDigest() == b.tree.CalculateFsverityDigest()
    ensures a.expected == b.expected || Binding.ClashesIn(a.h, a.expected, b.expected, clash)
  {
    CalculateRootHashIsRoot(a.h, a.tree.leaves);
    CalculateRootHashIsRoot(b.h, b.tree.leaves);
    RootHashIsFileRoot(a.h, a.expected);
    RootHashIsFileRoot(b.h, b.expected);
    clash := Binding.DigestBinds(a.h, a.expected, b.expected);
  }

  /** A server that returns what was written is never found inconsistent. */
  lemma {:induction false} HonestAcceptsAll(e: Bytes, n: nat, offset: nat)
    ensures AcceptedBytes(e, e, n, offset) == n
    decreases n
  {
    if n > 0 {
      var size := Piece(n, offset, CHUNK_SIZE);
      HonestAcceptsAll(e, n - size, offset + size);
    }
  }

  /** No piece of the write hits an altered chunk. */
  ghost predicate NoneHit(e: Bytes, d: Bytes, n: nat, offset: nat) {
    forall i :: 0 <= i < |Ranges(n, offset, CHUNK_SIZE)| ==> !HitsAltered(e, d, Ranges(n, offset, CHUNK_SIZE)[i])
  }

  /** The write ends inside the file, or it hits an altered chunk nowhere, or already with its first piece. */
  ghost predicate SizeStaysRight(e: Bytes, d: Bytes, n: nat, offset: nat) {
    || offset + n <= |e|
    || NoneHit(e, d, n, offset)
    || HitsAltered(e, d, (offset, Piece(n, offset, CHUNK_SIZE)))
  }

  lemma {:induction false} AcceptedAllIff(e: Bytes, d: Bytes, n: nat, offset: nat)
    ensures AcceptedBytes(e, d, n, offset) <= n
    ensures AcceptedBytes(e, d, n, offset) == n <==> NoneHit(e, d, n, offset)
    decreases n
  {
    if n > 0 {
      var size := Piece(n, offset, CHUNK_SIZE);
      var all, rest := Ranges(n, offset, CHUNK_SIZE), Ranges(n - size, offset + size, CHUNK_SIZE);
      assert all == [(offset, size)] + rest;
      hide HitsAltered, AcceptedBytes, Ranges, Piece;
      AcceptedAllIff(e, d, n - size, offset + size);
      AcceptedStep(e, d, n, offset);
      NoneHitCons(e, d, (offset, size), rest, all);
    }
  }

  lemma {:induction false} NoneHitCons(e: Bytes, d: Bytes, first: (nat, nat), rest: seq<(nat, nat)>, all: seq<(nat, nat)>)
    requires all == [first] + rest
    ensures (forall i :: 0 <= i < |all| ==> !HitsAltered(e, d, all[i]))
       <==> !HitsAltered(e, d, first) && forall i :: 0 <= i < |rest| ==> !HitsAltered(e, d, rest[i])
  {
    hide HitsAltered;
    if forall i :: 0 <= i < |all| ==> !HitsAltered(e, d, all[i]) {
      assert all[0] == first;
      forall i | 0 <= i < |rest|
        ensures !HitsAltered(e, d, rest[i])
      {
        assert rest[i] == all[i + 1];
      }
    }
  }

  /** A write to a file whose recorded size is right keeps it right exactly if it ends inside the file, or no
      chunk it must read back was altered, or already the first one was: the first chunk applied
      records the size of the whole write. */
  lemma {:induction false} RecordedSizeRightIff(e: Bytes, d: Bytes, buf: Bytes, offset: nat)
    ensures var k := AcceptedBytes(e, d, |buf|, offset);
            && k <= |buf|
            && (RecordedSize(|e|, |buf|, offset, k) == |Splice(e, buf[..k], offset)|
                <==> SizeStaysRight(e, d, |buf|, offset))
  {
    AcceptedAllIff(e, d, |buf|, offset);
    AcceptedStep(e, d, |buf|, offset);
    hide NoneHit, HitsAltered, AcceptedBytes;
    if buf == [] {
      AcceptedAllIff(e, d, 0, offset);
    }
  }

  /** An instance where it is not: the second chunk is altered, so 4096 of 5000 bytes are applied. */
  lemma {:induction false} RecordedSizeRunsAhead()
    ensures var e, buf := Zeros(4097), Zeros(5000);
            var d := e[4096 := 1];
            && AcceptedBytes(e, d, |buf|, 0) == 4096
            && RecordedSize(|e|, |buf|, 0, 4096) == 5000 && |Splice(e, buf[..4096], 0)| == 4097
  {
    var e := Zeros(4097);
    var d := e[4096 := 1];
    assert PaddedChunk(d, 1)[0] == At(d, CHUNK_SIZE * 1 + 0) && PaddedChunk(e, 1)[0] == At(e, CHUNK_SIZE * 1 + 0);
    AcceptedStep(e, d, 5000, 0);
    AcceptedStep(e, d, 904, 4096);
  }

  /** A piece's chunk and leaf are not touched by the pieces before it. */
  lemma {:induction false} PieceUntouched(h: HashFn, leaves: seq<Digest>, d: Bytes, e: Bytes, buf: Bytes, offset: nat, done: nat, size: nat)
    requires done < |buf| && (done == 0 || (offset + done) % CHUNK_SIZE == 0)
    ensures var k := (offset + done) / CHUNK_SIZE;
            var d', e' := Splice(d, buf[..done], offset), Splice(e, buf[..done], offset);
            && PaddedChunk(d', k) == PaddedChunk(d, k) && PaddedChunk(e', k) == PaddedChunk(e, k)
            && (Inconsistent(h, PatchedLeaves(h, leaves, d, buf[..done], offset), d', size, offset + done)
                <==> Inconsistent(h, leaves, d, size, offset + done))
  {
    LeafUntouched(h, leaves, d, buf, offset, done);
    hide Splice, PaddedChunk, PatchedLeaves;
    var k := (offset + done) / CHUNK_SIZE;
    SpliceBefore(d, buf[..done], offset, k);
    SpliceBefore(e, buf[..done], offset, k);
  }

  lemma {:induction false} PieceNotDeceived(h: HashFn, d: Bytes, e: Bytes, k: nat)
    ensures !Deceives(h, d, e) ==> !Collides(h, PaddedChunk(d, k), PaddedChunk(e, k))
  {
  }

  lemma {:induction false} SplicePiece(d: Bytes, buf: Bytes, offset: nat, done: nat, size: nat, w: nat, cur: Bytes)
    requires w <= size && done + size <= |buf|
    requires cur == Splice(d, buf[..done], offset)
    ensures Splice(cur, buf[done..done + size][..w], offset + done) == Splice(d, buf[..done + w], offset)
    ensures w == size ==> buf[done..done + size][..w] == buf[done..done + size]
  {
    hide Splice;
    SpliceAppend(d, buf, offset, done, done + w);
    assert buf[done..done + size][..w] == buf[done..done + w];
  }
}
