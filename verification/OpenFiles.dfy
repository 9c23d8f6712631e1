/** Reference-counted buffers shared by all opens of a file (`open`, `release`, `read`) or of a directory
    (`opendir`, `releasedir`) in zipfuse.

    `release` computes the decremented count but does not store it, so a count only grows while its
    buffer lives.
 */
module OpenFiles {
  import opened Bytes
  import opened Results

  type Handle = nat

  datatype OpenBuf<T> = OpenBuf(openCount: nat, buf: seq<T>)

  type OpenMap<T> = map<Handle, OpenBuf<T>>

  datatype Errno = Ebadf | Panicked

  const TWO_32: nat := 0x1_0000_0000

  /** `open`: counts up, or loads the buffer. `content` holds the decompressed files by inode. */
  function Opened<T>(open: OpenMap<T>, content: map<Handle, seq<T>>, handle: Handle): (Result<Handle, Errno>, OpenMap<T>) {
    if handle in open then
      var ofb := open[handle];
      if ofb.openCount == 0 then (Err(Ebadf), open)
      else (Ok(handle), open[handle := ofb.(openCount := (ofb.openCount + 1) % TWO_32)])
    else if handle in content then
      (Ok(handle), open[handle := OpenBuf(1, content[handle])])
    else (Err(Ebadf), open)
  }

  /** `release`: drops the buffer if the decremented count is zero. */
  function Released<T>(open: OpenMap<T>, handle: Handle): (Result<(), Errno>, OpenMap<T>) {
    if handle !in open || open[handle].openCount == 0 then (Err(Ebadf), open)
    else if open[handle].openCount - 1 == 0 then (Ok(()), open - {handle})
    else (Ok(()), open)
  }

  /** `read`: a slice of the buffer; a start past its end panics. */
  function ReadAt<T>(open: OpenMap<T>, handle: Handle, size: nat, offset: nat): Result<seq<T>, Errno> {
    if handle !in open || open[handle].openCount == 0 then Err(Ebadf) else
    var buf := open[handle].buf;
    var end := Min(offset + size, |buf|);
    if offset > end then Err(Panicked) else Ok(buf[offset..end])
  }

  // ---------- Runs ----------

  datatype Event = Open(handle: Handle) | Release(handle: Handle)

  function After<T>(content: map<Handle, seq<T>>, events: seq<Event>): OpenMap<T> {
    if events == [] then map[] else
    var open := After(content, events[..|events| - 1]);
    match events[|events| - 1]
    case Open(handle) => Opened(open, content, handle).1
    case Release(handle) => Released(open, handle).1
  }

  /** Opens of an existing file minus releases. */
  function Outstanding<T>(content: map<Handle, seq<T>>, events: seq<Event>, h: Handle): int {
    if events == [] then 0 else
    var e := events[|events| - 1];
    Outstanding(content, events[..|events| - 1], h)
    + if e == Open(h) && h in content then 1 else if e == Release(h) then -1 else 0
  }

  function Opens(events: seq<Event>, h: Handle): nat {
    if events == [] then 0 else Opens(events[..|events| - 1], h) + if events[|events| - 1] == Open(h) then 1 else 0
  }

  /** At no point of the run are there more releases of `h` than opens, and the counter never overflows. */
  ghost predicate Disciplined<T>(content: map<Handle, seq<T>>, events: seq<Event>, h: Handle) {
    && Outstanding(content, events, h) >= 0
    && Opens(events, h) < TWO_32
    && (events != [] ==> Disciplined(content, events[..|events| - 1], h))
  }

  /** At no point of the run are two opens of `h` outstanding. */
  ghost predicate NeverOverlaps<T>(content: map<Handle, seq<T>>, events: seq<Event>, h: Handle) {
    && Outstanding(content, events, h) <= 1
    && (events != [] ==> NeverOverlaps(content, events[..|events| - 1], h))
  }

  /** The buffer of `h` after a run: present, with a count between the outstanding opens and all opens,
      while an open is outstanding; and kept for good once opens have overlapped. */
  ghost predicate BufferInvariant<T>(content: map<Handle, seq<T>>, events: seq<Event>, h: Handle) {
    var open, out := After(content, events), Outstanding(content, events, h);
    && (h in open ==> h in content && open[h].buf == content[h] && 1 <= open[h].openCount <= Opens(events, h))
    && (out > 0 ==> h in open && open[h].openCount >= out)
    && (if NeverOverlaps(content, events, h) then (h in open <==> out == 1) && (h in open ==> open[h].openCount == 1)
        else h in open && open[h].openCount >= 2)
  }

  /** One event keeps the invariant. */
  lemma {:induction false} EventKeepsInvariant<T>(content: map<Handle, seq<T>>, events: seq<Event>, h: Handle)
    requires events != [] && Disciplined(content, events, h)
    requires BufferInvariant(content, events[..|events| - 1], h)
    ensures BufferInvariant(content, events, h)
  {
  }

  /** Shared-buffer safety, over all runs that release no more than they open. */
  lemma {:induction false} BuffersSafe<T>(content: map<Handle, seq<T>>, events: seq<Event>, h: Handle)
    requires Disciplined(content, events, h)
    ensures BufferInvariant(content, events, h)
    decreases |events|
  {
    if events != [] {
      BuffersSafe(content, events[..|events| - 1], h);
      EventKeepsInvariant(content, events, h);
    }
  }

  /** While an open is outstanding, reads at any offset inside the file return the right slice; a read that
      starts past the end panics. */
  lemma {:induction false} ReadWhileOpen<T>(content: map<Handle, seq<T>>, events: seq<Event>, h: Handle, size: nat, offset: nat)
    requires Disciplined(content, events, h) && Outstanding(content, events, h) > 0
    ensures h in content
    ensures ReadAt(After(content, events), h, size, offset)
         == if offset <= |content[h]| then Ok(content[h][offset..Min(offset + size, |content[h]|)]) else Err(Panicked)
  {
    BuffersSafe(content, events, h);
  }

  /** Once every open is released, the buffer is gone exactly if opens of the file never overlapped. */
  lemma {:induction false} ReclaimedIff<T>(content: map<Handle, seq<T>>, events: seq<Event>, h: Handle)
    requires Disciplined(content, events, h) && Outstanding(content, events, h) == 0
    ensures h !in After(content, events) <==> NeverOverlaps(content, events, h)
  {
    BuffersSafe(content, events, h);
  }

  /** Two overlapping opens, both released, leave the buffer behind. */
  lemma {:induction false} OverlapLeaks()
    ensures var content: map<Handle, Bytes> := map[5 := [1, 2, 3]];
            var events := [Open(5), Open(5), Release(5), Release(5)];
            Outstanding(content, events, 5) == 0 && 5 in After(content, events)
  {
    var content: map<Handle, Bytes> := map[5 := [1, 2, 3]];
    var e1, e2, e3, e4 := [Open(5)], [Open(5), Open(5)], [Open(5), Open(5), Release(5)], [Open(5), Open(5), Release(5), Release(5)];
    assert e4[..3] == e3 && e3[..2] == e2 && e2[..1] == e1 && e1[..0] == [];
    assert After(content, e1) == map[5 := OpenBuf(1, [1, 2, 3])];
    assert After(content, e2) == map[5 := OpenBuf(2, [1, 2, 3])];
    assert After(content, e3) == After(content, e2) == After(content, e4);
  }

  // ---------- The file system ----------

  /** `events` is every open and release so far, successful or not. */
  class ZipFuse {
    const content: map<Handle, Bytes>
    var openFiles: OpenMap<byte>
    ghost var events: seq<Event>

    /** The open files are what the events so far leave open. */
    ghost predicate Valid()
      reads this
    {
      openFiles == After(content, events)
    }

    constructor (content: map<Handle, Bytes>)
      ensures Valid() && this.content == content && events == []
    {
      this.content, openFiles, events := content, map[], [];
    }

    /** Opens exactly the files there are, with their content in the buffer, unless releases outnumbered
        opens before; no other handle changes. */
    method Open(inode: nat) returns (r: Result<Handle, Errno>)
      requires Valid()
      modifies this
      ensures Valid() && events == old(events) + [Event.Open(inode)]
      ensures openFiles - {inode} == old(openFiles) - {inode}
      ensures r.Ok? ==> r.value == inode && inode in openFiles
      ensures Disciplined(content, events, inode) ==>
                (r.Ok? <==> inode in content) && (r.Ok? ==> openFiles[inode].buf == content[inode])
      ensures (r, openFiles) == Opened(old(openFiles), content, inode)
    {
      var handle := inode;
      ghost var before := events;
      events := events + [Event.Open(inode)];
      assert events[..|events| - 1] == before;
      if Disciplined(content, events, inode) {
        BuffersSafe(content, before, inode);
      }
      if handle in openFiles {
        var ofb := openFiles[handle];
        if ofb.openCount == 0 {
          return Err(Ebadf);
        }
        openFiles := openFiles[handle := ofb.(openCount := (ofb.openCount + 1) % TWO_32)];
      } else {
        if inode !in content {
          return Err(Ebadf);
        }
        openFiles := openFiles[handle := OpenBuf(1, content[inode])];
      }
      r := Ok(handle);
    }

    /** Succeeds for every release that matches an open. The buffer stays, with its content, while another open
        is outstanding; after the last one it is gone exactly if opens never overlapped. */
    method Release(inode: nat) returns (r: Result<(), Errno>)
      requires Valid()
      modifies this
      ensures Valid() && events == old(events) + [Event.Release(inode)]
      ensures openFiles - {inode} == old(openFiles) - {inode}
      ensures Disciplined(content, events, inode) ==>
                && r.Ok?
                && (Outstanding(content, events, inode) > 0 ==>
                      inode in openFiles && inode in content && openFiles[inode].buf == content[inode])
                && (Outstanding(content, events, inode) == 0 ==> (inode !in openFiles <==> NeverOverlaps(content, events, inode)))
      ensures (r, openFiles) == Released(old(openFiles), inode)
    {
      var handle := inode;
      ghost var before := events;
      events := events + [Event.Release(inode)];
      assert events[..|events| - 1] == before;
      if Disciplined(content, events, inode) {
        BuffersSafe(content, before, inode);
        BuffersSafe(content, events, inode);
      }
      if handle !in openFiles || openFiles[handle].openCount < 1 {
        return Err(Ebadf);
      }
      if openFiles[handle].openCount - 1 == 0 {
        openFiles := openFiles - {handle};
      }
      r := Ok(());
    }

    /** While an open is outstanding: the slice of the file, or a panic past its end. */
    method Read(handle: Handle, size: nat, offset: nat) returns (r: Result<Bytes, Errno>)
      requires Valid()
      ensures Disciplined(content, events, handle) && Outstanding(content, events, handle) > 0 ==>
                && handle in content
                && r == if offset <= |content[handle]| then Ok(content[handle][offset..Min(offset + size, |content[handle]|)])
                        else Err(Panicked)
      ensures handle !in openFiles ==> r == Err(Ebadf)
      ensures r == ReadAt(openFiles, handle, size, offset)
    {
      if Disciplined(content, events, handle) && Outstanding(content, events, handle) > 0 {
        ReadWhileOpen(content, events, handle, size, offset);
      }
      if handle !in openFiles || openFiles[handle].openCount == 0 {
        return Err(Ebadf);
      }
      var buf := openFiles[handle].buf;
      var end := Min(offset + size, |buf|);
      if offset > end {
        return Err(Panicked);
      }
      r := Ok(buf[offset..end]);
    }
  }
}
