/** Listing a directory in zipfuse: the snapshot `opendir` takes, and the pages `readdir` serves from it. */
module Directory {
  import opened Bytes
  import opened Results
  import opened Inode
  import OpenFiles

  type Listing = seq<(Name, DirectoryEntry)>

  /** The listing holds every entry of the directory exactly once. */
  ghost predicate Lists(buf: Listing, entries: map<Name, DirectoryEntry>) {
    && |buf| == |entries|
    && (forall i :: 0 <= i < |buf| ==> buf[i].0 in entries && entries[buf[i].0] == buf[i].1)
    && (forall i, j :: 0 <= i < j < |buf| ==> buf[i].0 != buf[j].0)
    && (forall name :: name in entries ==> (name, entries[name]) in buf)
  }

  /** The snapshot taken by `opendir`, in the arbitrary order of the hash map. */
  method Snapshot(entries: map<Name, DirectoryEntry>) returns (buf: Listing)
    ensures Lists(buf, entries)
  {
    buf := [];
    var rest := entries.Keys;
    while rest != {}
      invariant rest <= entries.Keys && |buf| + |rest| == |entries.Keys|
      invariant forall i :: 0 <= i < |buf| ==> buf[i].0 in entries && buf[i].0 !in rest && entries[buf[i].0] == buf[i].1
      invariant forall i, j :: 0 <= i < j < |buf| ==> buf[i].0 != buf[j].0
      invariant forall name :: name in entries && name !in rest ==> (name, entries[name]) in buf
      decreases rest
    {
      var name :| name in rest;
      buf := buf + [(name, entries[name])];
      rest := rest - {name};
    }
  }

  /** Estimated size of a directory entry in the reply, rounded up to 8 bytes. */
  function EntrySize(name: Name, direntSize: nat): nat {
    (direntSize + |name| + 7) / 8 * 8
  }

  /** Rounding up to a multiple of 8. */
  lemma {:induction false} EntrySizeRounds(name: Name, direntSize: nat)
    ensures EntrySize(name, direntSize) % 8 == 0
    ensures direntSize + |name| <= EntrySize(name, direntSize) < direntSize + |name| + 8
  {
  }

  /** End of the page: entries are added until their estimate reaches `size`. */
  function PageEnd(buf: Listing, end: nat, estimate: nat, size: nat, direntSize: nat): (r: nat)
    requires end <= |buf|
    ensures end <= r <= |buf|
    ensures estimate < size && end < |buf| ==> end < r
    decreases |buf| - end
  {
    if estimate < size && end < |buf| then
      PageEnd(buf, end + 1, estimate + EntrySize(buf[end].0, direntSize), size, direntSize)
    else end
  }

  function Page(buf: Listing, size: nat, offset: nat, direntSize: nat): Listing
    requires offset <= |buf|
  {
    buf[offset..PageEnd(buf, offset, 0, size, direntSize)]
  }

  /** Estimated size of the entries from `start` up to `end`. */
  function TotalSize(buf: Listing, start: nat, end: nat, direntSize: nat): nat
    requires start <= end <= |buf|
    decreases end - start
  {
    if start == end then 0 else EntrySize(buf[start].0, direntSize) + TotalSize(buf, start + 1, end, direntSize)
  }

  /** A page is the shortest run of entries whose estimated size reaches the request, or all that is left. */
  lemma {:induction false} PageIsShortest(buf: Listing, start: nat, estimate: nat, size: nat, direntSize: nat, mid: nat)
    requires start <= |buf|
    ensures var end := PageEnd(buf, start, estimate, size, direntSize);
            && (end == |buf| || estimate + TotalSize(buf, start, end, direntSize) >= size)
            && (start <= mid < end ==> estimate + TotalSize(buf, start, mid, direntSize) < size)
    decreases |buf| - start
  {
    if estimate < size && start < |buf| {
      var e := EntrySize(buf[start].0, direntSize);
      PageIsShortest(buf, start + 1, estimate + e, size, direntSize, Max(mid, start + 1));
    }
  }

  /** Handle `h` is open: it has a buffer with a positive count. */
  predicate IsOpen(openDirs: OpenFiles.OpenMap<(Name, DirectoryEntry)>, h: nat) {
    h in openDirs && openDirs[h].openCount > 0
  }

  /** `readdir`: an iterator over one page of an open directory. An offset past the listing panics. */
  method ReadDir(openDirs: OpenFiles.OpenMap<(Name, DirectoryEntry)>, inode: nat, size: nat, offset: nat, direntSize: nat)
    returns (r: Result<DirIter, OpenFiles.Errno>)
    ensures r == Err(OpenFiles.Ebadf) <==> !IsOpen(openDirs, inode)
    ensures IsOpen(openDirs, inode) ==> (r.Err? <==> offset > |openDirs[inode].buf|)
    ensures r.Ok? ==> fresh(r.value) && r.value.inner == Page(openDirs[inode].buf, size, offset, direntSize)
    ensures r.Ok? ==> r.value.offset == offset && r.value.cur == 0
  {
    if !IsOpen(openDirs, inode) {
      return Err(OpenFiles.Ebadf);
    }
    var buf := openDirs[inode].buf;
    if offset > |buf| {
      return Err(OpenFiles.Errno.Panicked);
    }
    var estimate, end := 0, offset;
    while estimate < size && end < |buf|
      invariant offset <= end <= |buf|
      invariant PageEnd(buf, end, estimate, size, direntSize) == PageEnd(buf, offset, 0, size, direntSize)
    {
      estimate := estimate + EntrySize(buf[end].0, direntSize);
      end := end + 1;
    }
    var iter := new DirIter(buf[offset..end], offset);
    r := Ok(iter);
  }

  datatype DirEntry = DirEntry(ino: nat, offset: nat, kind: InodeKind, name: Name)

  class DirIter {
    const inner: Listing
    const offset: nat
    var cur: nat

    constructor (inner: Listing, offset: nat)
      ensures this.inner == inner && this.offset == offset && cur == 0
    {
      this.inner, this.offset, cur := inner, offset, 0;
    }

    /** The next entry, with the offset at which to resume after it. */
    method Next() returns (r: Option<DirEntry>)
      modifies this
      ensures r.None? <==> old(cur) >= |inner|
      ensures r.None? ==> cur == old(cur)
      ensures r.Some? ==>
                && cur == old(cur) + 1
                && inner[old(cur)] == (r.value.name, DirectoryEntry(r.value.ino, r.value.kind))
                && r.value.offset == offset + cur
    {
      if cur >= |inner| {
        return None;
      }
      var (name, entry) := inner[cur];
      cur := cur + 1;
      r := Some(DirEntry(entry.inode, offset + cur, entry.kind, name));
    }
  }

  // ---------- Paging ----------

  /** A request for a page of `size` bytes, of whose reply the caller consumes at most `take` entries. */
  datatype Request = Request(size: nat, take: nat)

  /** What the caller has consumed after some requests, resuming each at the offset of the last entry it
      consumed. */
  function Consumed(buf: Listing, offset: nat, requests: seq<Request>, direntSize: nat): Listing
    requires offset <= |buf|
    decreases |requests|
  {
    if requests == [] then [] else
    var page := Page(buf, requests[0].size, offset, direntSize);
    var n := Min(requests[0].take, |page|);
    page[..n] + Consumed(buf, offset + n, requests[1..], direntSize)
  }

  /** Paging is exact: whatever the sizes, and however much of each reply is consumed, the consumed entries
      are the listing from the start on, in order and without gap or repetition. */
  lemma {:induction false} PagingExact(buf: Listing, offset: nat, requests: seq<Request>, direntSize: nat)
    requires offset <= |buf|
    ensures var c := Consumed(buf, offset, requests, direntSize);
            offset + |c| <= |buf| && c == buf[offset..offset + |c|]
    decreases |requests|
  {
    if requests != [] {
      var n := ConsumedStep(buf, offset, requests, direntSize);
      hide Consumed;
      var c, rest := Consumed(buf, offset, requests, direntSize), Consumed(buf, offset + n, requests[1..], direntSize);
      PagingExact(buf, offset + n, requests[1..], direntSize);
      var end := offset + n + |rest|;
      assert rest == buf[offset + n..end];
      SliceJoin(buf, offset, offset + n, end);
      assert c == buf[offset..end] && end == offset + |c|;
    }
  }

  lemma {:induction false} ConsumedStep(buf: Listing, offset: nat, requests: seq<Request>, direntSize: nat) returns (n: nat)
    requires offset <= |buf| && requests != []
    ensures offset + n <= |buf|
    ensures Consumed(buf, offset, requests, direntSize)
         == buf[offset..offset + n] + Consumed(buf, offset + n, requests[1..], direntSize)
  {
    hide PageEnd;
    var page := Page(buf, requests[0].size, offset, direntSize);
    n := Min(requests[0].take, |page|);
    assert page[..n] == buf[offset..offset + n];
  }

  lemma {:induction false} SliceJoin(buf: Listing, a: nat, b: nat, c: nat)
    requires a <= b <= c <= |buf|
    ensures buf[a..b] + buf[b..c] == buf[a..c]
  {
  }

  /** Paging makes progress: every non-empty request that consumes something consumes at least one of the
      entries that are left, so as many requests as entries suffice for the whole listing. */
  lemma {:induction false} PagingProgresses(buf: Listing, offset: nat, requests: seq<Request>, direntSize: nat)
    requires offset <= |buf|
    requires forall i :: 0 <= i < |requests| ==> requests[i].size > 0 && requests[i].take > 0
    ensures |Consumed(buf, offset, requests, direntSize)| >= Min(|requests|, |buf| - offset)
    decreases |requests|
  {
    if requests != [] {
      hide PageEnd;
      var page := Page(buf, requests[0].size, offset, direntSize);
      var n := Min(requests[0].take, |page|);
      PagingProgresses(buf, offset + n, requests[1..], direntSize);
    }
  }

  /** A caller that lists a whole directory, with arbitrary non-zero request sizes, consuming an arbitrary
      non-empty part of each reply and resuming at the last offset it saw. */
  method ListAll(openDirs: OpenFiles.OpenMap<(Name, DirectoryEntry)>, inode: nat, direntSize: nat) returns (seen: Listing)
    requires IsOpen(openDirs, inode)
    ensures seen == openDirs[inode].buf
  {
    ghost var buf := openDirs[inode].buf;
    seen := [];
    var offset: nat := 0;
    while true
      invariant offset <= |buf| && seen == buf[..offset]
      decreases |buf| - offset
    {
      var size: nat :| size > 0;
      var iter := ReadDir(openDirs, inode, size, offset, direntSize);
      var it := iter.value;
      var e := it.Next();
      if e.None? {
        break;
      }
      var more: nat := *;
      while e.Some?
        invariant e.Some? ==>
                    && it.offset < e.value.offset <= |buf| && e.value.offset == it.offset + it.cur && it.cur <= |it.inner|
                    && buf[e.value.offset - 1] == (e.value.name, DirectoryEntry(e.value.ino, e.value.kind))
                    && seen == buf[..e.value.offset - 1]
        invariant e.None? ==> offset <= |buf| && seen == buf[..offset] && offset > it.offset
        decreases more, e.Some?
      {
        seen := seen + [(e.value.name, DirectoryEntry(e.value.ino, e.value.kind))];
        offset := e.value.offset;
        if more == 0 {
          e := None;
        } else {
          more := more - 1;
          e := it.Next();
        }
      }
    }
  }
}
