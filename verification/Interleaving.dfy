/** Writers and resizers that share one editor. `write_at` takes the tree's lock once per chunk, so the
    chunks of concurrent writes, and whole resizes, interleave. This is a model of all interleavings
    over a server that does what it is asked. `LockedWrite` and `LockedResize` show that the steps under the
    lock are those of the editor, and `SoloWrite` that a write without interference is one splice.
 */
module Interleaving {
  import opened Bytes
  import opened Results
  import opened Merkle
  import opened Fsverity
  import opened Builder
  import opened Chunks
  import opened FdServer
  import opened Editor

  /** A `write_at` in progress: `done` bytes are applied. */
  datatype Writer = Writer(buf: Bytes, offset: nat, done: nat)

  datatype State = State(data: Bytes, leaves: seq<Digest>, size: nat, writers: map<nat, Writer>)

  datatype Action =
    | Begin(id: nat, buf: Bytes, offset: nat)
    | WriteNext(id: nat)
    | Return(id: nat)
    | ResizeTo(newSize: nat)

  const INIT: State := State([], [], 0, map[])

  predicate Enabled(s: State, a: Action) {
    match a
    case Begin(id, _, _) => id !in s.writers
    case WriteNext(id) => id in s.writers && s.writers[id].done < |s.writers[id].buf|
    case Return(id) => id in s.writers && s.writers[id].done == |s.writers[id].buf|
    case ResizeTo(_) => true
  }

  /** The piece a writer writes next. */
  function NextPiece(w: Writer): (src: Bytes)
    requires w.done < |w.buf|
    ensures src != [] && (w.offset + w.done) % CHUNK_SIZE + |src| <= CHUNK_SIZE && w.done + |src| <= |w.buf|
  {
    w.buf[w.done..w.done + Piece(|w.buf| - w.done, w.offset + w.done, CHUNK_SIZE)]
  }

  /** One step. A write whose chunk does not match its leaf returns early. */
  function Step(h: HashFn, s: State, a: Action): State
    requires Enabled(s, a)
  {
    match a
    case Begin(id, buf, offset) => s.(writers := s.writers[id := Writer(buf, offset, 0)])
    case Return(id) => s.(writers := s.writers - {id})
    case ResizeTo(n) =>
      s.(data := Resized(s.data, n), leaves := ResizedTree(h, s.leaves, s.size, s.data, n), size := n)
    case WriteNext(id) =>
      var w := s.writers[id];
      var src, at := NextPiece(w), w.offset + w.done;
      if Inconsistent(h, s.leaves, s.data, |src|, at) then s.(writers := s.writers - {id})
      else State(Splice(s.data, src, at),
                 WrittenLeaves(h, s.leaves, s.data, src, at),
                 Max(s.size, w.offset + |w.buf|),
                 s.writers[id := w.(done := w.done + |src|)])
  }

  /** The state after a sequence of steps, if each was possible when taken. */
  function Run(h: HashFn, actions: seq<Action>): Option<State> {
    if actions == [] then Some(INIT) else
    var before := Run(h, actions[..|actions| - 1]);
    var last := actions[|actions| - 1];
    if before.Some? && Enabled(before.value, last) then Some(Step(h, before.value, last)) else None
  }

  /** The writer has applied some, but not all, of its bytes. */
  predicate InFlight(w: Writer) {
    0 < w.done < |w.buf|
  }

  /** The leaves are those of the stored file, and the recorded size is ahead of the file only by a write
      in flight that ends exactly there. */
  ghost predicate Safe(h: HashFn, s: State) {
    && s.leaves == FileLeaves(h, s.data)
    && (forall id :: id in s.writers ==> s.writers[id].done <= |s.writers[id].buf|)
    && |s.data| <= s.size
    && (s.size > |s.data| ==>
          exists id :: id in s.writers && InFlight(s.writers[id]) && s.writers[id].offset + |s.writers[id].buf| == s.size)
  }

  /** On a consistent state no write is refused and its leaves stay those of the file. */
  lemma {:induction false} WriteKeepsLeaves(h: HashFn, d: Bytes, src: Bytes, at: nat)
    requires KnowsZeros(h)
    requires src != [] && at % CHUNK_SIZE + |src| <= CHUNK_SIZE
    ensures !Inconsistent(h, FileLeaves(h, d), d, |src|, at)
    ensures WrittenLeaves(h, FileLeaves(h, d), d, src, at) == FileLeaves(h, Splice(d, src, at))
  {
    LeavesAfterWrite(h, d, src, at);
    if at / CHUNK_SIZE >= ChunkCount(|d|) {
      ChunkPastEnd(d, at / CHUNK_SIZE);
    }
  }

  lemma {:induction false} ResizeKeepsLeaves(h: HashFn, d: Bytes, fileSize: nat, n: nat)
    requires KnowsZeros(h) && |d| <= fileSize
    ensures ResizedTree(h, FileLeaves(h, d), fileSize, d, n) == FileLeaves(h, Resized(d, n))
  {
    if CutsChunk(n, fileSize) {
      LeavesAfterCut(h, d, d, n);
      CutIsTruncationIff(d, d, n);
    } else {
      LeavesAfterResize(h, d, n);
    }
  }

  /** A step of a writer on a safe state. */
  lemma {:induction false} WriteNextSafe(h: HashFn, s: State, id: nat)
    requires KnowsZeros(h) && Safe(h, s) && Enabled(s, WriteNext(id))
    ensures Safe(h, Step(h, s, WriteNext(id)))
    ensures id in Step(h, s, WriteNext(id)).writers
  {
    hide Splice, FileLeaves, WrittenLeaves, Inconsistent;
    var w := s.writers[id];
    var src, at := NextPiece(w), w.offset + w.done;
    WriteKeepsLeaves(h, s.data, src, at);
    var s' := Step(h, s, WriteNext(id));
    if s'.size > |s'.data| {
      if s'.size == w.offset + |w.buf| {
        assert InFlight(s'.writers[id]);
      } else {
        var other :| other in s.writers && InFlight(s.writers[other]) && s.writers[other].offset + |s.writers[other].buf| == s.size;
        assert other != id;
        assert s'.writers[other] == s.writers[other];
      }
    }
  }

  /** Every step keeps the state safe. */
  lemma {:induction false} StepSafe(h: HashFn, s: State, a: Action)
    requires KnowsZeros(h) && Safe(h, s) && Enabled(s, a)
    ensures Safe(h, Step(h, s, a))
  {
    var s' := Step(h, s, a);
    match a
    case WriteNext(id) =>
      WriteNextSafe(h, s, id);
    case ResizeTo(n) =>
      ResizeKeepsLeaves(h, s.data, s.size, n);
    case Begin(id, _, _) =>
      if s.size > |s.data| {
        var other :| other in s.writers && InFlight(s.writers[other]) && s.writers[other].offset + |s.writers[other].buf| == s.size;
        assert s'.writers[other] == s.writers[other];
      }
    case Return(id) =>
      if s.size > |s.data| {
        var other :| other in s.writers && InFlight(s.writers[other]) && s.writers[other].offset + |s.writers[other].buf| == s.size;
        assert s'.writers[other] == s.writers[other];
      }
  }

  /** Interleaving safety: every state that any number of writers and resizers can reach, in any
      interleaving of their chunks, is safe. */
  lemma {:induction false} ReachableSafe(h: HashFn, actions: seq<Action>)
    requires KnowsZeros(h)
    requires Run(h, actions).Some?
    ensures Safe(h, Run(h, actions).value)
    decreases |actions|
  {
    if actions == [] {
      assert FileLeaves(h, []) == [];
    } else {
      ReachableSafe(h, actions[..|actions| - 1]);
      StepSafe(h, Run(h, actions[..|actions| - 1]).value, actions[|actions| - 1]);
    }
  }

  /** Hence, whenever no write is in flight, the recorded size is the file's and the digest of the tree is
      the fs-verity digest of the stored file. */
  lemma {:induction false} QuiescentDigest(h: HashFn, actions: seq<Action>)
    requires KnowsZeros(h)
    requires Run(h, actions).Some?
    requires var s := Run(h, actions).value;
             (forall id :: id in s.writers ==> !InFlight(s.writers[id])) && |s.leaves| * CHUNK_SIZE <= MAX_HEIGHT_SIZE
    ensures var s := Run(h, actions).value;
            && s.size == |s.data|
            && CalculateRootHash(h, s.leaves) == Ok(FileRoot(h, s.data))
            && DigestOf(h, FileRoot(h, s.data), s.size) == FsVerityDigest(h, s.data)
  {
    ReachableSafe(h, actions);
    CalculateRootHashIsRoot(h, Run(h, actions).value.leaves);
    RootHashIsFileRoot(h, Run(h, actions).value.data);
  }

  // ---------- The editor makes these steps ----------

  /** The server's file, the leaves and the recorded size are those of the state. */
  ghost predicate Mirrors(editor: VerifiedFileEditor, s: State)
    reads editor, editor.tree, editor.file.service
  {
    editor.file.Data() == s.data && editor.tree.leaves == s.leaves && editor.tree.fileSize == s.size
  }

  /** What `write_at` does under the lock for the next chunk of a writer: exactly the step of the model, refused
      exactly if the step takes the writer out. */
  method LockedWrite(editor: VerifiedFileEditor, s: State, id: nat) returns (refused: bool)
    requires KnowsZeros(editor.h) && editor.file.Online() && Mirrors(editor, s)
    requires Enabled(s, WriteNext(id)) && s.writers[id].offset + |s.writers[id].buf| <= I64_MAX
    modifies editor, editor.tree, editor.file.service
    ensures Mirrors(editor, Step(editor.h, s, WriteNext(id)))
    ensures refused <==> id !in Step(editor.h, s, WriteNext(id)).writers
  {
    hide Splice, WrittenLeaves, Inconsistent, FileLeaves, PaddedChunk;
    var w := s.writers[id];
    ghost var written;
    var r;
    r, written := editor.WriteChunk(NextPiece(w), w.offset + w.done, w.offset + |w.buf|);
    assert r.Applied? ==> NextPiece(w)[..written] == NextPiece(w);
    assert r.Refused? ==> NextPiece(w)[..written] == [];
    refused := r.Refused?;
    SpliceNothing(s.data, NextPiece(w), w.offset + w.done);
  }

  /** What `resize` does under the lock: exactly the step of the model. */
  method LockedResize(editor: VerifiedFileEditor, s: State, newSize: nat)
    requires KnowsZeros(editor.h) && editor.file.Online() && Mirrors(editor, s) && newSize <= I64_MAX
    modifies editor, editor.tree, editor.file.service
    ensures Mirrors(editor, Step(editor.h, s, ResizeTo(newSize)))
  {
    hide ResizedTree, Resized;
    var r := editor.Resize(newSize);
  }

  // ---------- A write without interference ----------

  lemma {:induction false} RunOneMore(h: HashFn, actions: seq<Action>, a: Action)
    requires Run(h, actions).Some? && Enabled(Run(h, actions).value, a)
    ensures Run(h, actions + [a]) == Some(Step(h, Run(h, actions).value, a))
  {
    assert (actions + [a])[..|actions|] == actions;
  }

  /** The chunks a writer still has to write. */
  function ChunksLeft(w: Writer, id: nat): seq<Action>
    requires w.done <= |w.buf|
    decreases |w.buf| - w.done
  {
    if w.done == |w.buf| then [] else [WriteNext(id)] + ChunksLeft(w.(done := w.done + |NextPiece(w)|), id)
  }

  /** The state once a writer is done, if nobody interferes. */
  function Completed(h: HashFn, s: State, id: nat): State
    requires id in s.writers && s.writers[id].done <= |s.writers[id].buf|
  {
    var w := s.writers[id];
    var data := Splice(s.data, w.buf[w.done..], w.offset + w.done);
    State(data, FileLeaves(h, data), if w.done == |w.buf| then s.size else Max(s.size, w.offset + |w.buf|),
          s.writers[id := w.(done := |w.buf|)])
  }

  /** One chunk brings a writer closer to its completion. */
  lemma {:induction false} CompletedStep(h: HashFn, s: State, id: nat)
    requires KnowsZeros(h) && Safe(h, s) && Enabled(s, WriteNext(id))
    ensures var s' := Step(h, s, WriteNext(id));
            && id in s'.writers && s'.writers[id] == s.writers[id].(done := s.writers[id].done + |NextPiece(s.writers[id])|)
            && s'.writers[id].done <= |s.writers[id].buf|
            && Completed(h, s', id) == Completed(h, s, id)
  {
    hide Splice, FileLeaves, WrittenLeaves, Inconsistent;
    var w := s.writers[id];
    var src, rest := NextPiece(w), w.buf[w.done..];
    WriteKeepsLeaves(h, s.data, src, w.offset + w.done);
    SpliceAppend(s.data, rest, w.offset + w.done, |src|, |rest|);
    assert rest[..|src|] == src && rest[|src|..|rest|] == w.buf[w.done + |src|..] && rest[..|rest|] == rest;
    var s' := Step(h, s, WriteNext(id));
    assert s'.writers[id := s'.writers[id].(done := |w.buf|)] == s.writers[id := w.(done := |w.buf|)];
  }

  /** Left alone, a writer writes all its remaining chunks, and the file is one splice of its remaining bytes. */
  lemma {:induction false} WriterCompletes(h: HashFn, actions: seq<Action>, id: nat)
    requires KnowsZeros(h) && Run(h, actions).Some? && id in Run(h, actions).value.writers
    requires Run(h, actions).value.writers[id].done <= |Run(h, actions).value.writers[id].buf|
    ensures Run(h, actions + ChunksLeft(Run(h, actions).value.writers[id], id)) == Some(Completed(h, Run(h, actions).value, id))
    decreases |Run(h, actions).value.writers[id].buf| - Run(h, actions).value.writers[id].done
  {
    hide Run, Step, Safe;
    var s := Run(h, actions).value;
    var w := s.writers[id];
    ReachableSafe(h, actions);
    if w.done == |w.buf| {
      assert actions + [] == actions;
      CompletedDone(h, s, id);
    } else {
      hide Completed;
      CompletedStep(h, s, id);
      RunOneMore(h, actions, WriteNext(id));
      WriterCompletes(h, actions + [WriteNext(id)], id);
      var rest := ChunksLeft(w.(done := w.done + |NextPiece(w)|), id);
      assert actions + ([WriteNext(id)] + rest) == actions + [WriteNext(id)] + rest;
    }
  }

  lemma {:induction false} CompletedDone(h: HashFn, s: State, id: nat)
    requires Safe(h, s) && id in s.writers && s.writers[id].done == |s.writers[id].buf|
    ensures Completed(h, s, id) == s
  {
    var w := s.writers[id];
    assert w.buf[w.done..] == w.buf[..0];
    SpliceNothing(s.data, w.buf, w.offset + w.done);
    assert s.writers[id := w] == s.writers;
  }

  /** A write that nobody interferes with is one splice of its whole buffer, wherever the run stands: the file and
      its leaves are those of the spliced file, the size is extended to its end, and the writer is gone. */
  lemma {:induction false} SoloWrite(h: HashFn, actions: seq<Action>, id: nat, buf: Bytes, offset: nat)
    requires KnowsZeros(h) && Run(h, actions).Some? && id !in Run(h, actions).value.writers
    ensures var s, data := Run(h, actions).value, Splice(Run(h, actions).value.data, buf, offset);
            Run(h, actions + [Begin(id, buf, offset)] + ChunksLeft(Writer(buf, offset, 0), id) + [Return(id)])
            == Some(State(data, FileLeaves(h, data), if buf == [] then s.size else Max(s.size, offset + |buf|), s.writers))
  {
    hide Splice, FileLeaves, Run;
    var s, begun := Run(h, actions).value, actions + [Begin(id, buf, offset)];
    RunOneMore(h, actions, Begin(id, buf, offset));
    WriterCompletes(h, begun, id);
    var written := begun + ChunksLeft(Writer(buf, offset, 0), id);
    assert buf[0..] == buf;
    RunOneMore(h, written, Return(id));
    assert Run(h, written).value.writers - {id} == s.writers;
  }

  // ---------- A writer that nobody overlaps ----------

  /** No other writer touches the range of writer `id`. */
  ghost predicate Alone(s: State, id: nat) {
    id in s.writers ==>
      forall other :: other in s.writers && other != id ==>
        var w, v := s.writers[id], s.writers[other];
        w.offset + |w.buf| <= v.offset || v.offset + |v.buf| <= w.offset
  }

  /** The applied bytes of the writer are in the file. */
  ghost predicate Landed(s: State, id: nat) {
    id in s.writers ==>
      var w := s.writers[id];
      w.done <= |w.buf| && forall i: nat :: i < w.done ==> At(s.data, w.offset + i) == w.buf[i]
  }

  lemma {:induction false} StepLands(h: HashFn, s: State, a: Action, id: nat)
    requires Landed(s, id) && Alone(s, id) && Enabled(s, a)
    requires id in s.writers ==> !a.ResizeTo?
    requires forall other :: other in s.writers ==> s.writers[other].done <= |s.writers[other].buf|
    ensures Landed(Step(h, s, a), id)
  {
    hide Splice, WrittenLeaves, Inconsistent;
    var s' := Step(h, s, a);
    if a.WriteNext? && id in s'.writers {
      var w, v := s'.writers[id], s.writers[a.id];
      var src, at := NextPiece(v), v.offset + v.done;
      forall i: nat | i < w.done
        ensures At(s'.data, w.offset + i) == w.buf[i]
      {
        SpliceAt(s.data, src, at, w.offset + i);
      }
    }
  }

  /** A writer that overlaps no other, in a run without resizes while it is active, finds all its
      applied bytes in the file, however the others interleave: `Return` sees the whole buffer. */
  lemma {:induction false} LoneWriterLands(h: HashFn, actions: seq<Action>, id: nat)
    requires KnowsZeros(h)
    requires Run(h, actions).Some?
    requires forall n :: 0 <= n < |actions| && Run(h, actions[..n]).Some? ==> Undisturbed(Run(h, actions[..n]).value, actions[n], id)
    ensures Landed(Run(h, actions).value, id)
    decreases |actions|
  {
    if actions != [] {
      var m := |actions| - 1;
      var before := actions[..m];
      forall n | 0 <= n < |before| && Run(h, before[..n]).Some?
        ensures Undisturbed(Run(h, before[..n]).value, before[n], id)
      {
        assert before[..n] == actions[..n];
      }
      LoneWriterLands(h, before, id);
      ReachableSafe(h, before);
      assert Undisturbed(Run(h, actions[..m]).value, actions[m], id);
      StepLands(h, Run(h, before).value, actions[m], id);
    }
  }

  ghost predicate Undisturbed(s: State, a: Action, id: nat) {
    Alone(s, id) && (id in s.writers ==> !a.ResizeTo?)
  }
}
