/** Byte strings, files as byte strings, and 4096-byte chunks of a file.

    A file reads as zero past its end: `At` is total, and `Splice` (a write at an offset) and
    `Resized` (a truncation or extension) fill holes with zeros.
 */
module Bytes {

  newtype byte = b: int | 0 <= b < 256

  type Bytes = seq<byte>

  /** A SHA-256 sized digest. */
  type Digest = d: Bytes | |d| == 32 witness seq(32, _ => 0)

  /** The hash function: any function from byte strings to digests. Nothing below assumes that it
      is injective. */
  type HashFn = Bytes -> Digest

  const CHUNK_SIZE: nat := 4096
  const HASH_SIZE: nat := 32
  const HASHES_PER_PAGE: nat := 128
  const TWO_64: nat := 0x1_0000_0000_0000_0000

  /** The constant the program stores for the hash of a chunk of zeros. */
  const HASH_OF_4096_ZEROS: Digest := [
    0xad, 0x7f, 0xac, 0xb2, 0x58, 0x6f, 0xc6, 0xe9, 0x66, 0xc0, 0x04, 0xd7, 0xd1, 0xd1, 0x6b,
    0x02, 0x4f, 0x58, 0x05, 0xff, 0x7c, 0xb4, 0x7c, 0x7a, 0x85, 0xda, 0xbd, 0x8b, 0x48, 0x89,
    0x2c, 0xa7]

  /** The only fact assumed of the hash function: the stored constant is right. */
  ghost predicate KnowsZeros(h: HashFn) {
    h(Zeros(CHUNK_SIZE)) == HASH_OF_4096_ZEROS
  }

  /** Two distinct inputs with the same hash. */
  ghost predicate Collides(h: HashFn, a: Bytes, b: Bytes) {
    a != b && h(a) == h(b)
  }

  function Zeros(n: nat): Bytes {
    seq(n, _ => 0)
  }

  function Min(a: nat, b: nat): nat {
    if a < b then a else b
  }

  function Max(a: nat, b: nat): nat {
    if a < b then b else a
  }

  function At(d: Bytes, i: nat): byte {
    if i < |d| then d[i] else 0
  }

  /** The file after writing `buf` at `offset`. Writing nothing never extends a file. */
  function Splice(d: Bytes, buf: Bytes, offset: nat): (r: Bytes)
    ensures |r| == if buf == [] then |d| else Max(|d|, offset + |buf|)
  {
    if buf == [] then d else
    seq(Max(|d|, offset + |buf|),
        i requires 0 <= i => if offset <= i < offset + |buf| then buf[i - offset] else At(d, i))
  }

  function Resized(d: Bytes, size: nat): (r: Bytes)
    ensures |r| == size
  {
    seq(size, i requires 0 <= i => At(d, i))
  }

  /** Number of chunks that `size` bytes span. */
  function ChunkCount(size: nat): nat {
    (size + CHUNK_SIZE - 1) / CHUNK_SIZE
  }

  /** The bytes of chunk `i` that lie inside the file. */
  function Chunk(d: Bytes, i: nat): (c: Bytes)
    ensures |c| <= CHUNK_SIZE
  {
    var start := Min(CHUNK_SIZE * i, |d|);
    d[start..Min(start + CHUNK_SIZE, |d|)]
  }

  function Padded(c: Bytes): Bytes
    requires |c| <= CHUNK_SIZE
  {
    c + Zeros(CHUNK_SIZE - |c|)
  }

  /** Chunk `i` of the file, zero-filled to a whole chunk. */
  function PaddedChunk(d: Bytes, i: nat): (c: Bytes)
    ensures |c| == CHUNK_SIZE
  {
    seq(CHUNK_SIZE, j requires 0 <= j => At(d, CHUNK_SIZE * i + j))
  }

  lemma {:induction false} PaddedOfChunk(d: Bytes, i: nat)
    ensures Padded(Chunk(d, i)) == PaddedChunk(d, i)
  {
    var l, r := Padded(Chunk(d, i)), PaddedChunk(d, i);
    forall j | 0 <= j < CHUNK_SIZE
      ensures l[j] == r[j]
    {
      assert r[j] == At(d, CHUNK_SIZE * i + j);
    }
  }

  lemma {:induction false} SpliceAt(d: Bytes, buf: Bytes, offset: nat, i: nat)
    ensures At(Splice(d, buf, offset), i)
         == if offset <= i < offset + |buf| then buf[i - offset] else At(d, i)
  {
    var s := Splice(d, buf, offset);
    if buf != [] {
      assert |s| == Max(|d|, offset + |buf|);
    }
  }

  lemma {:induction false} SpliceNothing(d: Bytes, buf: Bytes, offset: nat)
    ensures Splice(d, buf[..0], offset) == d
  {
  }

  /** Two adjacent writes from one buffer are one write. */
  lemma {:induction false} SpliceAppend(d: Bytes, buf: Bytes, offset: nat, a: nat, b: nat)
    requires a <= b <= |buf|
    ensures Splice(Splice(d, buf[..a], offset), buf[a..b], offset + a) == Splice(d, buf[..b], offset)
  {
    var l, r := Splice(Splice(d, buf[..a], offset), buf[a..b], offset + a), Splice(d, buf[..b], offset);
    assert |l| == |r|;
    forall i | 0 <= i < |l|
      ensures l[i] == r[i]
    {
      SpliceAt(d, buf[..a], offset, i);
      SpliceAt(Splice(d, buf[..a], offset), buf[a..b], offset + a, i);
      SpliceAt(d, buf[..b], offset, i);
      assert l[i] == At(l, i) && r[i] == At(r, i);
    }
  }

  /** Writing `k` more bytes of the buffer after the first `a`. */
  lemma {:induction false} SpliceMore(d: Bytes, buf: Bytes, offset: nat, a: nat, k: nat, cur: Bytes)
    requires a + k <= |buf|
    requires cur == Splice(d, buf[..a], offset)
    ensures Splice(cur, buf[a..][..k], offset + a) == Splice(d, buf[..a + k], offset)
  {
    hide Splice;
    SpliceAppend(d, buf, offset, a, a + k);
    assert buf[a..][..k] == buf[a..a + k];
  }

  /** A write that stays inside chunk `k` leaves every other chunk as it was. */
  lemma {:induction false} SpliceOtherChunk(d: Bytes, src: Bytes, offset: nat, k: nat, i: nat)
    requires offset / CHUNK_SIZE == k && offset % CHUNK_SIZE + |src| <= CHUNK_SIZE
    requires i != k
    ensures PaddedChunk(Splice(d, src, offset), i) == PaddedChunk(d, i)
  {
    var l, r := PaddedChunk(Splice(d, src, offset), i), PaddedChunk(d, i);
    forall j | 0 <= j < CHUNK_SIZE
      ensures l[j] == r[j]
    {
      SpliceAt(d, src, offset, CHUNK_SIZE * i + j);
    }
  }

  /** A write that ends before chunk `i` leaves it as it was. */
  lemma {:induction false} SpliceBefore(d: Bytes, src: Bytes, offset: nat, i: nat)
    requires src == [] || offset + |src| <= CHUNK_SIZE * i
    ensures PaddedChunk(Splice(d, src, offset), i) == PaddedChunk(d, i)
  {
    var l, r := PaddedChunk(Splice(d, src, offset), i), PaddedChunk(d, i);
    forall j | 0 <= j < CHUNK_SIZE
      ensures l[j] == r[j]
    {
      SpliceAt(d, src, offset, CHUNK_SIZE * i + j);
    }
  }

  /** ... and patches the written bytes into chunk `k`. */
  lemma {:induction false} SpliceSameChunk(d: Bytes, src: Bytes, offset: nat, k: nat)
    requires offset / CHUNK_SIZE == k && offset % CHUNK_SIZE + |src| <= CHUNK_SIZE
    ensures PaddedChunk(Splice(d, src, offset), k) == Patched(PaddedChunk(d, k), src, offset % CHUNK_SIZE)
  {
    var l, r := PaddedChunk(Splice(d, src, offset), k), Patched(PaddedChunk(d, k), src, offset % CHUNK_SIZE);
    forall j | 0 <= j < CHUNK_SIZE
      ensures l[j] == r[j]
    {
      SpliceAt(d, src, offset, CHUNK_SIZE * k + j);
    }
  }

  /** `chunk` with `src` written over it at `at`. */
  function Patched(chunk: Bytes, src: Bytes, at: nat): (p: Bytes)
    requires at + |src| <= |chunk|
    ensures |p| == |chunk|
  {
    chunk[..at] + src + chunk[at + |src|..]
  }

  /** `chunk` cut at `at` and zero-filled again. */
  function CutChunk(chunk: Bytes, at: nat): Bytes
    requires at <= |chunk|
  {
    chunk[..at] + Zeros(|chunk| - at)
  }

  /** A chunk that lies past the end of the file is all zeros. */
  lemma {:induction false} ChunkPastEnd(d: Bytes, i: nat)
    requires ChunkCount(|d|) <= i
    ensures PaddedChunk(d, i) == Zeros(CHUNK_SIZE)
  {
    assert |d| <= CHUNK_SIZE * i;
    forall j | 0 <= j < CHUNK_SIZE
      ensures PaddedChunk(d, i)[j] == 0
    {
      assert PaddedChunk(d, i)[j] == At(d, CHUNK_SIZE * i + j);
    }
  }

  /** Resizing keeps every chunk that ends before the new size, and every chunk where the file
      only grows. */
  lemma {:induction false} ResizedChunk(d: Bytes, size: nat, i: nat)
    requires |d| <= size || CHUNK_SIZE * (i + 1) <= size
    ensures PaddedChunk(Resized(d, size), i) == PaddedChunk(d, i)
  {
    var l, r := PaddedChunk(Resized(d, size), i), PaddedChunk(d, i);
    forall j | 0 <= j < CHUNK_SIZE
      ensures l[j] == r[j]
    {
      assert l[j] == At(Resized(d, size), CHUNK_SIZE * i + j);
    }
  }

  /** The chunk a truncation cuts keeps its head and is zero after it. */
  lemma {:induction false} TruncatedChunk(d: Bytes, size: nat)
    ensures PaddedChunk(Resized(d, size), size / CHUNK_SIZE)
         == CutChunk(PaddedChunk(d, size / CHUNK_SIZE), size % CHUNK_SIZE)
  {
    var k := size / CHUNK_SIZE;
    var l, r := PaddedChunk(Resized(d, size), k), PaddedChunk(d, k);
    forall j | 0 <= j < CHUNK_SIZE
      ensures l[j] == if j < size % CHUNK_SIZE then r[j] else 0
    {
      assert l[j] == At(Resized(d, size), CHUNK_SIZE * k + j);
    }
  }

  /** Files of one length that agree chunk by chunk are equal. */
  lemma {:induction false} EqualByChunks(a: Bytes, b: Bytes)
    requires |a| == |b|
    requires forall i: nat :: i < ChunkCount(|a|) ==> PaddedChunk(a, i) == PaddedChunk(b, i)
    ensures a == b
  {
    forall j | 0 <= j < |a|
      ensures a[j] == b[j]
    {
      var i, r := j / CHUNK_SIZE, j % CHUNK_SIZE;
      assert j == CHUNK_SIZE * i + r && i < ChunkCount(|a|);
      assert PaddedChunk(a, i)[r] == At(a, CHUNK_SIZE * i + r);
      assert PaddedChunk(b, i)[r] == At(b, CHUNK_SIZE * i + r);
    }
  }
}
