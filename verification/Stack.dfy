/** The whole write path: reads and writes of a file in the mounted file system, through the editor
    and the remote client down to the file server, against one abstract byte array.
 */
module Stack {
  import opened Bytes
  import opened Results
  import opened Merkle
  import opened Fsverity
  import opened Chunks
  import opened FdServer
  import opened Editor

  datatype Op = Write(buf: Bytes, offset: nat) | Truncate(size: nat)

  function ApplyOp(d: Bytes, op: Op): Bytes {
    match op
    case Write(buf, offset) => Splice(d, buf, offset)
    case Truncate(size) => Resized(d, size)
  }

  /** The file after a run of operations on an empty file. */
  function Final(ops: seq<Op>): Bytes {
    if ops == [] then [] else ApplyOp(Final(ops[..|ops| - 1]), ops[|ops| - 1])
  }

  /** The operation stays within the offsets a file can have. */
  predicate InRange(op: Op) {
    match op
    case Write(buf, offset) => offset + |buf| <= I64_MAX
    case Truncate(size) => size <= I64_MAX
  }

  /** `n` bytes of a file from `offset` on, zeros past its end. */
  function Window(d: Bytes, offset: nat, n: nat): Bytes {
    seq(n, i requires 0 <= i => At(d, offset + i))
  }

  /** Every piece of the range is at most as long as the chunk it is read from, which is what
      `read_chunks` checks. */
  ghost predicate ChunksCover(d: Bytes, n: nat, offset: nat)
    decreases n
  {
    n == 0 ||
    var size := Piece(n, offset, CHUNK_SIZE);
    size <= |Chunk(d, offset / CHUNK_SIZE)| && ChunksCover(d, n - size, offset + size)
  }

  /** The last chunk of the range holds as many bytes as are wanted from it. */
  predicate LastChunkSuffices(d: Bytes, n: nat, offset: nat)
    requires n > 0
  {
    var k := (offset + n - 1) / CHUNK_SIZE;
    offset + n - Max(offset, CHUNK_SIZE * k) <= |Chunk(d, k)|
  }

  /** Only the last chunk of a range can be too short: if it exists, the ones before it are whole. */
  lemma {:induction false} ChunksCoverIff(d: Bytes, n: nat, offset: nat)
    ensures ChunksCover(d, n, offset) <==> n == 0 || LastChunkSuffices(d, n, offset)
    decreases n
  {
    if n > 0 {
      var size, k, last := Piece(n, offset, CHUNK_SIZE), offset / CHUNK_SIZE, (offset + n - 1) / CHUNK_SIZE;
      CoverStep(d, n, offset);
      hide ChunksCover, Chunk;
      if size < n {
        hide LastChunkSuffices;
        ChunksCoverIff(d, n - size, offset + size);
        LastChunkOfRest(d, n, offset);
        EarlierChunkWhole(d, k, last);
      } else {
        assert last == k;
        ChunksCoverIff(d, 0, offset + n);
      }
    } else {
      CoverStep(d, 0, offset);
    }
  }

  lemma {:induction false} LastChunkOfRest(d: Bytes, n: nat, offset: nat)
    requires Piece(n, offset, CHUNK_SIZE) < n
    ensures var size := Piece(n, offset, CHUNK_SIZE);
            && offset / CHUNK_SIZE < (offset + n - 1) / CHUNK_SIZE
            && (LastChunkSuffices(d, n, offset) <==> LastChunkSuffices(d, n - size, offset + size))
            && (LastChunkSuffices(d, n, offset) ==> Chunk(d, (offset + n - 1) / CHUNK_SIZE) != [])
  {
    hide Chunk;
    var size, k := Piece(n, offset, CHUNK_SIZE), offset / CHUNK_SIZE;
    assert offset + size == CHUNK_SIZE * (k + 1);
  }

  lemma {:induction false} EarlierChunkWhole(d: Bytes, k: nat, last: nat)
    requires k < last
    ensures Chunk(d, last) != [] ==> |Chunk(d, k)| == CHUNK_SIZE
  {
  }

  /** Bytes that a read of `size` bytes at `offset` yields from a file of size `fileSize`. */
  function SizeToRead(fileSize: nat, offset: nat, size: nat): nat {
    Min(size, if offset < fileSize then fileSize - offset else 0)
  }

  /** Reads one piece, from the chunk it lies in. */
  method ReadPiece(file: VerifiedFileEditor, current: nat, planned: nat) returns (r: Result<Bytes, IoError>)
    requires current % CHUNK_SIZE + planned <= CHUNK_SIZE
    ensures r.Ok? ==> r.value == Window(file.file.Data(), current, planned)
    ensures r.Ok? ==> planned <= |Chunk(file.file.Data(), current / CHUNK_SIZE)|
    ensures file.file.Readable() && current <= I64_MAX && r.Err? ==> r.error == NoData && planned > |Chunk(file.file.Data(), current / CHUNK_SIZE)|
  {
    ghost var d := file.file.Data();
    var k, begin := current / CHUNK_SIZE, current % CHUNK_SIZE;
    var buf := new byte[CHUNK_SIZE](_ => 0);
    var read := file.ReadChunk(k, buf);
    if read.Err? {
      return Err(read.error);
    }
    if read.value < planned {
      return Err(NoData);
    }
    PaddedOfChunk(d, k);
    assert buf[..] == PaddedChunk(d, k);
    WindowInChunk(d, current, planned);
    r := Ok(buf[begin..begin + planned]);
  }

  /** Reads `n` bytes from `offset` on, piece by piece. */
  method ReadRange(file: VerifiedFileEditor, n: nat, offset: nat) returns (r: Result<Bytes, IoError>)
    ensures r.Ok? ==> r.value == Window(file.file.Data(), offset, n)
    ensures file.file.Readable() && (n == 0 || offset + n <= I64_MAX) ==> (r.Ok? <==> ChunksCover(file.file.Data(), n, offset)) && (r.Err? ==> r.error == NoData)
  {
    hide Window, ChunksCover, Chunk, PaddedChunk, Ranges, Piece;
    ghost var d := file.file.Data();
    var out: Bytes := [];
    ghost var done := 0;
    WindowNothing(d, offset);
    var iter := new ChunkedSizeIter(n, offset, CHUNK_SIZE);
    var next := iter.Next();
    while next.Some?
      invariant fresh(iter) && iter.alignment == CHUNK_SIZE
      invariant done <= n && out == Window(d, offset, done) && (next.None? ==> done == n)
      invariant next.Some? ==>
                  && done < n && next.value == (offset + done, Piece(n - done, offset + done, CHUNK_SIZE))
                  && iter.offset == offset + done + next.value.1 && iter.remaining == n - done - next.value.1
      invariant ChunksCover(d, n, offset) <==> ChunksCover(d, n - done, offset + done)
      decreases n - done, next.Some?
    {
      var (current, planned) := next.value;
      PieceInChunk(n - done, current);
      var piece := ReadPiece(file, current, planned);
      CoverStep(d, n - done, current);
      if piece.Err? {
        return Err(piece.error);
      }
      WindowJoin(d, offset, done, planned);
      out := out + piece.value;
      done := done + planned;
      next := iter.Next();
    }
    CoverStep(d, 0, offset + n);
    r := Ok(out);
  }

  lemma {:induction false} PieceInChunk(n: nat, offset: nat)
    ensures offset % CHUNK_SIZE + Piece(n, offset, CHUNK_SIZE) <= CHUNK_SIZE
  {
  }

  /** Reads a range of a file. Whatever size the caller passes for the file, what comes out is the stored
      bytes, and zeros past their end: stored bytes only, exactly if the range ends inside the stored
      file. With a server that serves all requests, the read fails exactly if the last chunk of the
      range holds fewer bytes than are wanted from it. */
  method ReadChunks(file: VerifiedFileEditor, fileSize: nat, offset: nat, size: nat) returns (r: Result<Bytes, IoError>)
    ensures r.Ok? ==> r.value == Window(file.file.Data(), offset, SizeToRead(fileSize, offset, size))
    ensures var d, n := file.file.Data(), SizeToRead(fileSize, offset, size);
            r.Ok? ==> (r.value == d[Min(offset, |d|)..Min(offset + n, |d|)] <==> n == 0 || offset + n <= |d|)
    ensures var d, n := file.file.Data(), SizeToRead(fileSize, offset, size);
            file.file.Readable() && fileSize <= I64_MAX ==> (r.Ok? <==> n == 0 || LastChunkSuffices(d, n, offset)) && (r.Err? ==> r.error == NoData)
  {
    hide Window, ChunksCover, LastChunkSuffices;
    ghost var d := file.file.Data();
    var n := SizeToRead(fileSize, offset, size);
    ChunksCoverIff(d, n, offset);
    CoverStep(d, 0, offset);
    OnlyStoredIff(d, offset, n);
    r := ReadRange(file, n, offset);
  }

  lemma {:induction false} WindowNothing(d: Bytes, offset: nat)
    ensures Window(d, offset, 0) == []
  {
  }

  lemma {:induction false} CoverStep(d: Bytes, n: nat, offset: nat)
    ensures n == 0 ==> ChunksCover(d, n, offset)
    ensures n > 0 ==>
              var size := Piece(n, offset, CHUNK_SIZE);
              ChunksCover(d, n, offset)
              <==> size <= |Chunk(d, offset / CHUNK_SIZE)| && ChunksCover(d, n - size, offset + size)
  {
  }

  lemma {:induction false} WindowJoin(d: Bytes, offset: nat, m: nat, n: nat)
    ensures Window(d, offset, m) + Window(d, offset + m, n) == Window(d, offset, m + n)
  {
  }

  lemma {:induction false} WindowInChunk(d: Bytes, offset: nat, n: nat)
    requires offset % CHUNK_SIZE + n <= CHUNK_SIZE
    ensures var begin := offset % CHUNK_SIZE;
            PaddedChunk(d, offset / CHUNK_SIZE)[begin..begin + n] == Window(d, offset, n)
  {
    var k, begin := offset / CHUNK_SIZE, offset % CHUNK_SIZE;
    var c, w := PaddedChunk(d, k), Window(d, offset, n);
    forall i | 0 <= i < n
      ensures c[begin + i] == w[i]
    {
      assert CHUNK_SIZE * k + (begin + i) == offset + i;
    }
  }

  /** A range inside the file is covered. */
  lemma {:induction false} InsideIsCovered(d: Bytes, n: nat, offset: nat)
    requires n == 0 || offset + n <= |d|
    ensures ChunksCover(d, n, offset)
    decreases n
  {
    if n > 0 {
      var size := Piece(n, offset, CHUNK_SIZE);
      InsideIsCovered(d, n - size, offset + size);
    }
  }

  /** Inside the file, the window is a slice. */
  lemma {:induction false} WindowInside(d: Bytes, offset: nat, size: nat)
    ensures Window(d, offset, SizeToRead(|d|, offset, size)) == d[Min(offset, |d|)..Min(offset + size, |d|)]
  {
  }

  /** The window holds stored bytes only, exactly if it ends inside the file. */
  lemma {:induction false} OnlyStoredIff(d: Bytes, offset: nat, n: nat)
    ensures Window(d, offset, n) == d[Min(offset, |d|)..Min(offset + n, |d|)] <==> n == 0 || offset + n <= |d|
  {
    assert |Window(d, offset, n)| == n;
  }

  /** An instance that reads past the end: of ten stored bytes, eight wanted from offset 8 on. */
  lemma {:induction false} ReadsPastEnd()
    ensures var d: Bytes := [7, 7, 7, 7, 7, 7, 7, 7, 7, 7];
            && SizeToRead(16, 8, 8) == 8 && LastChunkSuffices(d, 8, 8)
            && Window(d, 8, 8) == [7, 7, 0, 0, 0, 0, 0, 0]
  {
  }

  lemma {:induction false} NotDeceivedBySelf(h: HashFn, d: Bytes)
    ensures !Deceives(h, d, d)
  {
  }

  /** Runs any sequence of writes (overlapping, unaligned, past the end) and resizes on a new file, on
      a server that serves every request, then takes the digest and reads a range. The server's
      file is the abstract array, the digest is the fs-verity digest of that array computed from
      scratch, and the read is a slice of it. */
  method Execute(h: HashFn, ops: seq<Op>, offset: nat, size: nat) returns (digest: Checked<Digest>, stored: Bytes, out: Result<Bytes, IoError>)
    requires KnowsZeros(h)
    requires forall i :: 0 <= i < |ops| ==> InRange(ops[i])
    ensures stored == Final(ops)
    ensures digest == Ok(FsVerityDigest(h, Final(ops)))
    ensures out == Ok(Final(ops)[Min(offset, |Final(ops)|)..Min(offset + size, |Final(ops)|)])
  {
    var service := new FdService(map[3 := ReadWrite([])], true, true);
    var remote := new RemoteFileEditor(service, 3);
    var editor := new VerifiedFileEditor(h, remote);
    for i := 0 to |ops|
      invariant editor.h == h && editor.file == remote && fresh(editor) && fresh(editor.tree) && fresh(service)
      invariant remote.service == service && remote.fd == 3 && remote.Online()
      invariant editor.Tracks() && editor.Settled()
      invariant remote.Data() == editor.expected == Final(ops[..i]) && |editor.expected| <= I64_MAX
    {
      RunOp(editor, ops[i]);
      assert ops[..i + 1][..i] == ops[..i];
    }
    assert ops[..|ops|] == ops;
    digest := editor.CalculateFsverityDigest();
    stored := service.pool[3].content;
    var n := SizeToRead(editor.Size(), offset, size);
    InsideIsCovered(stored, n, offset);
    WindowInside(stored, offset, size);
    out := ReadChunks(editor, editor.Size(), offset, size);
  }

  /** One operation on an editor whose server is in step with it. */
  method RunOp(editor: VerifiedFileEditor, op: Op)
    requires KnowsZeros(editor.h) && InRange(op)
    requires editor.file.Online() && editor.Tracks() && editor.Settled()
    requires editor.file.Data() == editor.expected && |editor.expected| <= I64_MAX
    modifies editor, editor.tree, editor.file.service
    ensures editor.file.Online() && editor.Tracks() && editor.Settled()
    ensures editor.file.Data() == editor.expected == ApplyOp(old(editor.expected), op)
    ensures |editor.expected| <= I64_MAX
  {
    hide Splice, Resized, PaddedChunk, FileLeaves, Deceives, AcceptedBytes, CutAdopting;
    NotDeceivedBySelf(editor.h, editor.expected);
    match op
    case Write(buf, offset) =>
      HonestAcceptsAll(editor.expected, |buf|, offset);
      var r;
      ghost var applied, written;
      r, applied, written := editor.WriteAt(buf, offset);
      assert buf[..applied] == buf && buf[..written] == buf;
    case Truncate(size) =>
      if size % CHUNK_SIZE > 0 {
        CutIsTruncationIff(editor.expected, editor.expected, size);
      }
      var r := editor.Resize(size);
  }

  // ---------- A server that cannot be trusted ----------

  /** What the editor vouches for: a file, and the size it records for it. */
  datatype Vouched = Vouched(file: Bytes, size: nat)

  /** What a call did: it applied a prefix of the buffer; it resized; it did nothing; or it failed to resize
      after the leaf of the chunk to be cut was replaced. */
  datatype Effect = Prefix(n: nat) | Resizing | Nothing | LeafLost

  /** What the editor vouches for after a call, when the server held `d`. */
  function AfterCall(v: Vouched, d: Bytes, op: Op, effect: Effect): Vouched {
    match (op, effect)
    case (Write(buf, offset), Prefix(n)) =>
      Vouched(Splice(v.file, buf[..Min(n, |buf|)], offset), RecordedSize(v.size, |buf|, offset, n))
    case (Truncate(size), Resizing) =>
      Vouched(if CutsChunk(size, v.size) then CutAdopting(v.file, d, size) else Resized(v.file, size), size)
    case (Truncate(size), LeafLost) => v.(file := Spoiled(v.file, d, size))
    case _ => v
  }

  /** The effects that a reply leaves open. */
  predicate Explains(op: Op, effect: Effect, reply: Result<nat, IoError>, recorded: nat) {
    match op
    case Write(buf, _) =>
      && effect.Prefix? && effect.n <= |buf|
      && (reply.Ok? ==> reply.value == effect.n) && (reply == Err(InvalidData) ==> effect.n == 0)
    case Truncate(size) =>
      && (reply.Ok? <==> effect == Resizing)
      && (effect == LeafLost ==> CutsChunk(size, recorded)) && !effect.Prefix?
  }

  /** The reply tells the whole effect of the call: a success, or a write refused as inconsistent. */
  predicate Tells(op: Op, reply: Result<nat, IoError>) {
    reply.Ok? || (op.Write? && reply == Err(InvalidData))
  }

  /** The effect that such a reply tells. */
  function ToldBy(op: Op, reply: Result<nat, IoError>): Effect {
    if op.Truncate? then Resizing else Prefix(if reply.Ok? then reply.value else 0)
  }

  /** The effects of a run, as its replies tell them. */
  function Told(ops: seq<Op>, replies: seq<Result<nat, IoError>>): seq<Effect>
    requires |replies| == |ops|
  {
    seq(|ops|, i requires 0 <= i < |ops| => ToldBy(ops[i], replies[i]))
  }

  /** What the editor of a new file vouches for after the first `n` calls, when the server held `stored[i]` at
      call `i`. */
  function Trace(ops: seq<Op>, stored: seq<Bytes>, effects: seq<Effect>, n: nat): Vouched
    requires n <= |ops| == |stored| && n <= |effects|
  {
    if n == 0 then Vouched([], 0) else AfterCall(Trace(ops, stored, effects, n - 1), stored[n - 1], ops[n - 1], effects[n - 1])
  }

  lemma {:induction false} TraceMore(ops: seq<Op>, stored: seq<Bytes>, effects: seq<Effect>, effect: Effect, n: nat)
    requires n <= |ops| == |stored| && n <= |effects|
    ensures Trace(ops, stored, effects + [effect], n) == Trace(ops, stored, effects, n)
  {
    hide AfterCall;
    if n > 0 {
      TraceMore(ops, stored, effects, effect, n - 1);
    }
  }

  /** At call `i` the server held a chunk that differs from the one vouched for and has the same hash. */
  ghost predicate DeceivedAt(h: HashFn, ops: seq<Op>, stored: seq<Bytes>, effects: seq<Effect>, i: nat)
    requires i < |ops| == |stored| && i <= |effects|
  {
    Deceives(h, stored[i], Trace(ops, stored, effects, i).file)
  }

  ghost predicate Deceived(h: HashFn, ops: seq<Op>, stored: seq<Bytes>, effects: seq<Effect>)
    requires |effects| <= |ops| == |stored|
  {
    exists i: nat :: i < |effects| && DeceivedAt(h, ops, stored, effects, i)
  }

  /** Every reply of the run is explained by the effect of its call. */
  ghost predicate Explained(ops: seq<Op>, stored: seq<Bytes>, effects: seq<Effect>, replies: seq<Result<nat, IoError>>)
    requires |replies| == |effects| <= |ops| == |stored|
  {
    forall i :: 0 <= i < |effects| ==> Explains(ops[i], effects[i], replies[i], Trace(ops, stored, effects, i).size)
  }

  /** If every reply tells its effect, there is nothing else the run can have done. */
  lemma {:induction false} ToldIsAll(ops: seq<Op>, stored: seq<Bytes>, effects: seq<Effect>, replies: seq<Result<nat, IoError>>)
    requires |replies| == |effects| == |ops| == |stored| && Explained(ops, stored, effects, replies)
    requires forall i :: 0 <= i < |ops| ==> Tells(ops[i], replies[i])
    ensures effects == Told(ops, replies)
  {
    hide Trace;
    forall i | 0 <= i < |ops|
      ensures effects[i] == ToldBy(ops[i], replies[i])
    {
      assert Explains(ops[i], effects[i], replies[i], Trace(ops, stored, effects, i).size);
      assert Tells(ops[i], replies[i]);
    }
  }

  /** The state of an editor is that of a tree over the file vouched for, or it was deceived at some call. */
  ghost predicate Vouches(h: HashFn, ops: seq<Op>, stored: seq<Bytes>, effects: seq<Effect>,
                          leaves: seq<Digest>, size: nat, digest: Checked<Digest>)
    requires |effects| == |ops| == |stored|
  {
    var v := Trace(ops, stored, effects, |ops|);
    && size == v.size
    && (|| (&& leaves == FileLeaves(h, v.file) && |v.file| <= size
            && (|v.file| == size <= I64_MAX ==> digest == Ok(FsVerityDigest(h, v.file))))
        || Deceived(h, ops, stored, effects))
  }

  /** One more call. */
  lemma {:induction false} RunMore(h: HashFn, ops: seq<Op>, stored: seq<Bytes>, effects: seq<Effect>, replies: seq<Result<nat, IoError>>,
                effect: Effect, reply: Result<nat, IoError>)
    requires |replies| == |effects| < |ops| == |stored|
    ensures var n, v := |effects|, Trace(ops, stored, effects, |effects|);
            && Trace(ops, stored, effects + [effect], n + 1) == AfterCall(v, stored[n], ops[n], effect)
            && (Explained(ops, stored, effects, replies) && Explains(ops[n], effect, reply, v.size) ==>
                  Explained(ops, stored, effects + [effect], replies + [reply]))
            && (Deceived(h, ops, stored, effects) || Deceives(h, stored[n], v.file) ==> Deceived(h, ops, stored, effects + [effect]))
  {
    var n, more := |effects|, effects + [effect];
    hide AfterCall, Explains, Deceives;
    forall i: nat | i <= n
      ensures Trace(ops, stored, more, i) == Trace(ops, stored, effects, i)
      ensures i < n && DeceivedAt(h, ops, stored, effects, i) ==> DeceivedAt(h, ops, stored, more, i)
    {
      TraceMore(ops, stored, effects, effect, i);
    }
    assert Trace(ops, stored, more, n + 1) == AfterCall(Trace(ops, stored, more, n), stored[n], ops[n], more[n]);
    assert DeceivedAt(h, ops, stored, more, n) <==> Deceives(h, stored[n], Trace(ops, stored, effects, n).file);
  }

  /** One call on an editor, whatever its server holds and whether or not it serves the requests. */
  method CallUntrusted(editor: VerifiedFileEditor, op: Op) returns (reply: Result<nat, IoError>, ghost effect: Effect)
    requires KnowsZeros(editor.h)
    modifies editor, editor.tree, editor.file.service
    ensures Vouched(editor.expected, editor.tree.fileSize)
         == AfterCall(old(Vouched(editor.expected, editor.tree.fileSize)), old(editor.file.Data()), op, effect)
    ensures Explains(op, effect, reply, old(editor.tree.fileSize))
    ensures old(editor.Tracks()) && !Deceives(editor.h, old(editor.file.Data()), old(editor.expected)) ==> editor.Tracks()
  {
    hide Splice, Resized, FileLeaves, Deceives, AcceptedBytes, MatchedBytes, CutAdopting, Spoiled, PatchedLeaves, ResizedTree, CutLeaves;
    match op
    case Write(buf, offset) =>
      ghost var applied, written;
      reply, applied, written := editor.WriteAt(buf, offset);
      effect := Prefix(applied);
      assert buf[..Min(applied, |buf|)] == buf[..applied];
    case Truncate(size) =>
      var r := editor.Resize(size);
      reply := if r.Ok? then Ok(0) else Err(r.error);
      effect := if r.Ok? then Resizing else if editor.tree.leaves == old(editor.tree.leaves) && editor.expected == old(editor.expected) then Nothing else LeafLost;
  }

  /** The run so far, on an editor whose file is in step with the trace. */
  ghost predicate InStep(editor: VerifiedFileEditor, ops: seq<Op>, stored: seq<Bytes>, effects: seq<Effect>, replies: seq<Result<nat, IoError>>)
    requires |effects| <= |ops| == |stored|
    reads editor, editor.tree
  {
    && |replies| == |effects| && Explained(ops, stored, effects, replies)
    && Vouched(editor.expected, editor.tree.fileSize) == Trace(ops, stored, effects, |effects|)
    && (editor.Tracks() || Deceived(editor.h, ops, stored, effects))
  }

  /** The calls of `ExecuteUntrusted`: the server's file is replaced before each. */
  method RunUntrusted(editor: VerifiedFileEditor, ops: seq<Op>, stored: seq<Bytes>)
    returns (replies: seq<Result<nat, IoError>>, ghost effects: seq<Effect>)
    requires KnowsZeros(editor.h) && |stored| == |ops|
    requires editor.expected == [] && editor.tree.fileSize == 0 && editor.Tracks()
    modifies editor, editor.tree, editor.file.service
    ensures |effects| == |ops| && InStep(editor, ops, stored, effects, replies)
  {
    replies, effects := [], [];
    for i := 0 to |ops|
      invariant |effects| == i && InStep(editor, ops, stored, effects, replies)
    {
      hide Trace, Explained, AfterCall, Explains, Deceives, FileLeaves, Deceived;
      editor.file.service.pool := map[editor.file.fd := ReadWrite(stored[i])];
      assert editor.file.Data() == stored[i];
      var reply;
      ghost var effect;
      reply, effect := CallUntrusted(editor, ops[i]);
      RunMore(editor.h, ops, stored, effects, replies, effect, reply);
      replies, effects := replies + [reply], effects + [effect];
    }
  }

  /** Runs any sequence of writes and resizes on a new file against a server that may fail any request and whose
      file is replaced by arbitrary bytes before every call. What the replies report is what the editor
      vouches for; its leaves are exactly the leaves of the file so vouched for, and its digest is the
      fs-verity digest of that file once its size is right, or at some call the server deceived it. If
      every reply tells its effect, that file is determined by the replies. */
  method ExecuteUntrusted(h: HashFn, ops: seq<Op>, stored: seq<Bytes>)
    returns (replies: seq<Result<nat, IoError>>, leaves: seq<Digest>, size: nat, digest: Checked<Digest>, ghost effects: seq<Effect>)
    requires KnowsZeros(h) && |stored| == |ops|
    ensures |replies| == |ops|
    ensures (forall i :: 0 <= i < |ops| ==> Tells(ops[i], replies[i])) ==>
              Vouches(h, ops, stored, Told(ops, replies), leaves, size, digest)
    ensures |effects| == |ops| && Explained(ops, stored, effects, replies)
    ensures Vouches(h, ops, stored, effects, leaves, size, digest)
  {
    hide Trace, Explained, Deceived, FileLeaves, FsVerityDigest;
    var service := new FdService(map[3 := ReadWrite([])], false, false);
    var remote := new RemoteFileEditor(service, 3);
    var editor := new VerifiedFileEditor(h, remote);
    replies, effects := RunUntrusted(editor, ops, stored);
    leaves, size := editor.tree.leaves, editor.Size();
    digest := editor.CalculateFsverityDigest();
    if forall i :: 0 <= i < |ops| ==> Tells(ops[i], replies[i]) {
      ToldIsAll(ops, stored, effects, replies);
    }
  }
}
