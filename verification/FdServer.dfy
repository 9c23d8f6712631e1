/** The file server (`FdService`) and its client (`RemoteFileEditor`), which together are the
    backend an edited file is stored on.

    The server is not trusted: nothing relates its files to what clients wrote, unless a contract
    says so. `servesReads` and `servesWrites` are false for a server whose reads, or whose writes and resizes, may
    fail with an I/O error; a write may be short in any case.
 */
module FdServer {
  import opened Bytes
  import opened Results

  const MAX_REQUESTING_DATA: int := 16384
  const I32_MAX: int := 0x7fff_ffff
  const I64_MAX: int := 0x7fff_ffff_ffff_ffff

  datatype Status = IllegalArgument | UnknownFd | InvalidOperation | ErrorIo

  datatype FdConfig = Readonly(content: Bytes) | ReadWrite(content: Bytes)

  function ValidateAndCastOffset(offset: int): Result<nat, Status> {
    if offset < 0 then Err(IllegalArgument) else Ok(offset)
  }

  function ValidateAndCastSize(size: int): Result<nat, Status> {
    if size > MAX_REQUESTING_DATA || size < 0 then Err(IllegalArgument) else Ok(size)
  }

  /** At most `maxSize` bytes from `offset` on, fewer only at the end of the file. */
  function ReadIntoBuf(content: Bytes, maxSize: nat, offset: nat): Bytes {
    var remaining := if offset < |content| then |content| - offset else 0;
    if remaining == 0 then [] else content[offset..offset + Min(remaining, maxSize)]
  }

  /** Why `writeFile` refuses a request, if it does. */
  function WriteRefusal(pool: map<int, FdConfig>, id: int, len: nat, offset: int): Option<Status> {
    if id !in pool then Some(UnknownFd)
    else if pool[id].Readonly? then Some(InvalidOperation)
    else if offset < 0 || len > I32_MAX then Some(IllegalArgument)
    else None
  }

  predicate Writable(pool: map<int, FdConfig>, fd: int) {
    fd in pool && pool[fd].ReadWrite?
  }

  class FdService {
    var pool: map<int, FdConfig>
    const servesReads: bool
    const servesWrites: bool

    constructor (pool: map<int, FdConfig>, servesReads: bool, servesWrites: bool)
      ensures this.pool == pool && this.servesReads == servesReads && this.servesWrites == servesWrites
    {
      this.pool, this.servesReads, this.servesWrites := pool, servesReads, servesWrites;
    }

    /** The part of the requested range that lies inside the file. */
    method ReadFile(id: int, offset: int, size: int) returns (r: Result<Bytes, Status>)
      ensures r == Err(IllegalArgument) <==> size < 0 || size > MAX_REQUESTING_DATA || offset < 0
      ensures r == Err(UnknownFd) <==> 0 <= size <= MAX_REQUESTING_DATA && offset >= 0 && id !in pool
      ensures r.Ok? ==>
                && size >= 0 && offset >= 0 && id in pool
                && var c := pool[id].content; r.value == c[Min(offset, |c|)..Min(offset + size, |c|)]
      ensures r.Err? && r.error != IllegalArgument && r.error != UnknownFd ==> r.error == ErrorIo && !servesReads
    {
      var size :- ValidateAndCastSize(size);
      var offset :- ValidateAndCastOffset(offset);
      if id !in pool {
        return Err(UnknownFd);
      }
      var fails: bool := *;
      if !servesReads && fails {
        return Err(ErrorIo);
      }
      r := Ok(ReadIntoBuf(pool[id].content, size, offset));
    }

    /** Writes some prefix of `buf`, at least one byte unless it is empty. */
    method WriteFile(id: int, buf: Bytes, offset: int) returns (r: Result<nat, Status>)
      modifies this
      ensures r == Err(UnknownFd) <==> id !in old(pool)
      ensures r == Err(InvalidOperation) <==> id in old(pool) && old(pool)[id].Readonly?
      ensures r == Err(IllegalArgument) <==> Writable(old(pool), id) && (offset < 0 || |buf| > I32_MAX)
      ensures r == Err(ErrorIo) ==> Writable(old(pool), id) && !(servesWrites && offset + |buf| <= I64_MAX)
      ensures r.Ok? ==>
                && Writable(old(pool), id) && offset >= 0
                && r.value <= |buf| && (r.value == 0 ==> buf == [])
                && pool == old(pool)[id := ReadWrite(Splice(old(pool)[id].content, buf[..r.value], offset))]
      ensures r.Err? ==> pool == old(pool)
    {
      var refusal := WriteRefusal(pool, id, |buf|, offset);
      if refusal.Some? {
        return Err(refusal.value);
      }
      var fails: bool := *;
      if offset + |buf| > I64_MAX || (!servesWrites && fails) {
        return Err(ErrorIo);
      }
      var k :| 0 <= k <= |buf| && (k == 0 ==> buf == []);
      pool := pool[id := ReadWrite(Splice(pool[id].content, buf[..k], offset))];
      r := Ok(k);
    }

    method Resize(id: int, size: int) returns (r: Result<(), Status>)
      modifies this
      ensures id !in old(pool) ==> r == Err(UnknownFd)
      ensures id in old(pool) && old(pool)[id].Readonly? ==> r == Err(InvalidOperation)
      ensures id in old(pool) && old(pool)[id].ReadWrite? && size < 0 ==> r == Err(IllegalArgument)
      ensures id in old(pool) && old(pool)[id].ReadWrite? && size >= 0 && servesWrites ==> r.Ok?
      ensures id in old(pool) && old(pool)[id].ReadWrite? && size >= 0 && r.Err? ==> r.error == ErrorIo
      ensures r.Ok? ==> id in old(pool) && size >= 0
      ensures r.Ok? ==> pool == old(pool)[id := ReadWrite(Resized(old(pool)[id].content, size))]
      ensures r.Err? ==> pool == old(pool)
    {
      if id !in pool {
        return Err(UnknownFd);
      }
      if pool[id].Readonly? {
        return Err(InvalidOperation);
      }
      if size < 0 {
        return Err(IllegalArgument);
      }
      var fails: bool := *;
      if !servesWrites && fails {
        return Err(ErrorIo);
      }
      pool := pool[id := ReadWrite(Resized(pool[id].content, size))];
      r := Ok(());
    }
  }

  /** Errors of the client: the server's, and its own. */
  datatype IoError = Overflow | Other | InvalidData | NoData

  /** Two pools that differ at most in the content of one read-write file. */
  ghost predicate OnlyContentOf(fd: int, before: map<int, FdConfig>, after: map<int, FdConfig>) {
    && before - {fd} == after - {fd}
    && (before == after || (Writable(before, fd) && Writable(after, fd)))
  }

  lemma {:induction false} OnlyContentReflexive(fd: int, pool: map<int, FdConfig>)
    ensures OnlyContentOf(fd, pool, pool)
  {
  }

  lemma {:induction false} OnlyContentTransitive(fd: int, a: map<int, FdConfig>, b: map<int, FdConfig>, c: map<int, FdConfig>)
    requires OnlyContentOf(fd, a, b)
    ensures OnlyContentOf(fd, b, c) ==> OnlyContentOf(fd, a, c)
    ensures Writable(a, fd) ==> Writable(b, fd)
  {
  }

  lemma {:induction false} UpdateChangesOnly(pool: map<int, FdConfig>, fd: int, config: FdConfig)
    ensures pool[fd := config] - {fd} == pool - {fd}
  {
    var l, r := pool[fd := config] - {fd}, pool - {fd};
    assert l.Keys == r.Keys;
  }

  class RemoteFileEditor {
    const service: FdService
    const fd: int

    constructor (service: FdService, fd: int)
      ensures this.service == service && this.fd == fd
    {
      this.service, this.fd := service, fd;
    }

    /** The bytes the server holds for this file. */
    ghost function Data(): Bytes
      reads service
    {
      if fd in service.pool then service.pool[fd].content else []
    }

    /** The server has the file and will serve every read that is in range. */
    ghost predicate Readable()
      reads service
    {
      service.servesReads && Writable(service.pool, fd)
    }

    /** The server has the file and will serve every write and resize that is in range. */
    ghost predicate Accepting()
      reads service
    {
      service.servesWrites && Writable(service.pool, fd)
    }

    /** The server will serve every request that is in range. */
    ghost predicate Online()
      reads service
    {
      Readable() && Accepting()
    }

    /** Fills the front of `buf` with chunk `chunkIndex` and leaves the rest of it alone. */
    method ReadChunk(chunkIndex: nat, buf: array<byte>) returns (r: Result<nat, IoError>)
      requires buf.Length == CHUNK_SIZE
      modifies buf
      ensures r.Ok? ==> r.value == |Chunk(Data(), chunkIndex)|
      ensures r.Ok? ==> buf[..] == Chunk(Data(), chunkIndex) + old(buf[r.value..])
      ensures r.Err? ==> buf[..] == old(buf[..]) && r.error == if CHUNK_SIZE * chunkIndex > I64_MAX then Overflow else Other
      ensures Readable() && CHUNK_SIZE * chunkIndex <= I64_MAX ==> r.Ok?
    {
      if chunkIndex * CHUNK_SIZE > I64_MAX {
        return Err(Overflow);
      }
      var reply := service.ReadFile(fd, chunkIndex * CHUNK_SIZE, CHUNK_SIZE);
      if reply.Err? {
        return Err(Other);
      }
      var chunk := reply.value;
      assert chunk == Chunk(Data(), chunkIndex);
      var size := Min(buf.Length, |chunk|);
      forall i | 0 <= i < size {
        buf[i] := chunk[i];
      }
      r := Ok(size);
    }

    method WriteAt(buf: Bytes, offset: nat) returns (r: Result<nat, IoError>)
      modifies service
      ensures OnlyContentOf(fd, old(service.pool), service.pool)
      ensures r.Ok? ==> r.value <= |buf| && (r.value == 0 ==> buf == [])
      ensures r.Ok? ==> Data() == Splice(old(Data()), buf[..r.value], offset)
      ensures r.Err? ==> service.pool == old(service.pool) && r.error == if offset > I64_MAX then Overflow else Other
      ensures old(Accepting()) && |buf| <= I32_MAX && offset + |buf| <= I64_MAX ==> r.Ok?
    {
      if offset > I64_MAX {
        return Err(Overflow);
      }
      var reply := service.WriteFile(fd, buf, offset);
      assert reply.Err? && reply.error != ErrorIo ==> reply.error.UnknownFd? || reply.error.InvalidOperation? || reply.error.IllegalArgument?;
      if reply.Err? {
        return Err(Other);
      }
      UpdateChangesOnly(old(service.pool), fd, service.pool[fd]);
      r := Ok(reply.value);
    }

    /** Repeats short writes until the buffer is written. `written` is how much of it reached the
        file, all of it on success. */
    method WriteAllAt(buf: Bytes, offset: nat) returns (r: Result<(), IoError>, ghost written: nat)
      modifies service
      ensures OnlyContentOf(fd, old(service.pool), service.pool)
      ensures written <= |buf| && (r.Ok? ==> written == |buf|)
      ensures r.Err? ==> r.error == if offset + written > I64_MAX then Overflow else Other
      ensures Data() == Splice(old(Data()), buf[..written], offset)
      ensures old(Accepting()) && |buf| <= I32_MAX && offset + |buf| <= I64_MAX ==> r.Ok?
    {
      hide Splice, OnlyContentOf, Writable;
      SpliceNothing(Data(), buf, offset);
      OnlyContentReflexive(fd, service.pool);
      var inputOffset, outputOffset := 0, offset;
      while inputOffset < |buf|
        invariant 0 <= inputOffset <= |buf| && outputOffset == offset + inputOffset
        invariant OnlyContentOf(fd, old(service.pool), service.pool)
        invariant Data() == Splice(old(Data()), buf[..inputOffset], offset)
      {
        ghost var cur, pool := Data(), service.pool;
        OnlyContentTransitive(fd, old(service.pool), pool, pool);
        var size := WriteAt(buf[inputOffset..], outputOffset);
        if size.Err? {
          return Err(size.error), inputOffset;
        }
        OnlyContentTransitive(fd, old(service.pool), pool, service.pool);
        ghost var more := buf[inputOffset..][..size.value];
        assert Data() == Splice(cur, more, outputOffset);
        SpliceMore(old(Data()), buf, offset, inputOffset, size.value, cur);
        inputOffset, outputOffset := inputOffset + size.value, outputOffset + size.value;
        assert Data() == Splice(old(Data()), buf[..inputOffset], offset);
      }
      return Ok(()), inputOffset;
    }

    method Resize(size: nat) returns (r: Result<(), IoError>)
      modifies service
      ensures OnlyContentOf(fd, old(service.pool), service.pool)
      ensures r.Ok? ==> Data() == Resized(old(Data()), size) && size <= I64_MAX
      ensures r.Err? ==> service.pool == old(service.pool) && r.error == if size > I64_MAX then Overflow else Other
      ensures old(Accepting()) && size <= I64_MAX ==> r.Ok?
    {
      if size > I64_MAX {
        return Err(Overflow);
      }
      var reply := service.Resize(fd, size);
      if reply.Err? {
        return Err(Other);
      }
      UpdateChangesOnly(old(service.pool), fd, service.pool[fd]);
      r := Ok(());
    }
  }
}
