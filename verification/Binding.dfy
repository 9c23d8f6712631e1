/** An fs-verity digest binds the whole file: equal digests mean equal files, or the proof hands
    over the place where their trees collide.
 */
module Binding {
  import opened Bytes
  import opened TreeShape
  import opened Merkle

  function Pow256(e: nat): nat {
    if e == 0 then 1 else 256 * Pow256(e - 1)
  }

  lemma {:induction false} Pow256Positive(e: nat)
    ensures Pow256(e) > 0
  {
    if e > 0 {
      Pow256Positive(e - 1);
    }
  }

  /** Byte `k` is the digit of 256^k. */
  lemma {:induction false} LittleEndianByte(n: nat, width: nat, k: nat)
    requires k < width
    ensures Pow256(k) > 0 && LittleEndian(n, width)[k] as nat == Quotient(n, Pow256(k)) % 256
    decreases width
  {
    Pow256Positive(k);
    if k > 0 {
      Pow256Positive(k - 1);
      LittleEndianByte(n / 256, width - 1, k - 1);
      assert LittleEndian(n, width)[k] == LittleEndian(n / 256, width - 1)[k - 1];
      QuotientTwice(n, 256, Pow256(k - 1));
    }
  }

  /** The number that the bytes of a field spell, the least significant first. */
  function Decoded(b: Bytes): nat {
    if b == [] then 0 else b[0] as nat + 256 * Decoded(b[1..])
  }

  /** A field of a descriptor spells the number that was put there. */
  lemma {:induction false} LittleEndianDecodes(n: nat, width: nat)
    requires n < Pow256(width)
    ensures Decoded(LittleEndian(n, width)) == n
  {
    if width > 0 {
      LittleEndianDecodes(n / 256, width - 1);
      assert LittleEndian(n, width)[1..] == LittleEndian(n / 256, width - 1);
    }
  }

  lemma {:induction false} Pow256Eight()
    ensures Pow256(2) == 0x1_0000 && Pow256(8) == TWO_64
  {
    assert Pow256(4) == 0x1_0000_0000;
  }

  /** The descriptor byte by byte: version 1, SHA-256, blocks of 2^12 bytes, no salt; the size in bytes 8 to 15, the
      least significant first; the root hash in bytes 16 to 47; and zeros everywhere else. */
  lemma {:induction false} DescriptorLayout(root: Digest, size: nat, i: nat)
    requires size < TWO_64 && i < 256
    ensures var d := Descriptor(root, size);
            && d[..4] == [1, 1, 12, 0]
            && Decoded(d[8..16]) == size
            && d[16..48] == root
            && (4 <= i < 8 || 48 <= i ==> d[i] == 0)
            && (8 <= i < 16 ==> Pow256(i - 8) > 0 && d[i] as nat == Quotient(size, Pow256(i - 8)) % 256)
  {
    var d := Descriptor(root, size);
    Pow256Eight();
    LittleEndianDecodes(size, 8);
    assert d[8..16] == LittleEndian(size, 8);
    if 8 <= i < 16 {
      LittleEndianByte(size, 8, i - 8);
      assert d[i] == LittleEndian(size, 8)[i - 8];
    }
  }

  lemma {:induction false} LittleEndianInjective(a: nat, b: nat, width: nat)
    requires a < Pow256(width) && b < Pow256(width)
    requires LittleEndian(a, width) == LittleEndian(b, width)
    ensures a == b
  {
    if width > 0 {
      var la, lb := LittleEndian(a, width), LittleEndian(b, width);
      assert la[0] == lb[0];
      assert la[1..] == LittleEndian(a / 256, width - 1) && lb[1..] == LittleEndian(b / 256, width - 1);
      LittleEndianInjective(a / 256, b / 256, width - 1);
    }
  }

  /** The descriptor encoding loses neither the root nor the size. */
  lemma {:induction false} DescriptorInjective(r1: Digest, s1: nat, r2: Digest, s2: nat)
    requires s1 < TWO_64 && s2 < TWO_64
    requires Descriptor(r1, s1) == Descriptor(r2, s2)
    ensures r1 == r2 && s1 == s2
  {
    var d1, d2 := Descriptor(r1, s1), Descriptor(r2, s2);
    assert d1[8..16] == LittleEndian(s1, 8) && d2[8..16] == LittleEndian(s2, 8);
    assert d1[16..48] == r1 && d2[16..48] == r2;
    LittleEndianInjective(s1, s2, 8);
  }

  lemma {:induction false} PageInjective(a: seq<Digest>, b: seq<Digest>)
    requires |a| == |b| <= HASHES_PER_PAGE
    requires Page(a) == Page(b)
    ensures a == b
  {
    forall s | 0 <= s < |a|
      ensures a[s] == b[s]
    {
      PageSlot(a, s);
      PageSlot(b, s);
    }
  }

  /** Page `p` of level `x` of the tree over `leaves`. */
  function TreePage(h: HashFn, leaves: seq<Digest>, x: nat, p: nat): Bytes {
    Page(PageHashes(Level(h, leaves, x), p))
  }

  /** Equal levels come from equal levels below, or the pages `p` of the two collide. */
  lemma {:induction false} LevelBinds(h: HashFn, a: seq<Digest>, b: seq<Digest>) returns (p: nat)
    requires |a| == |b|
    requires HashAllPages(h, a) == HashAllPages(h, b)
    ensures a == b || (p < LevelCount(|a|, 1) && Collides(h, Page(PageHashes(a, p)), Page(PageHashes(b, p))))
  {
    p := 0;
    if a != b {
      var i :| 0 <= i < |a| && a[i] != b[i];
      p := i / HASHES_PER_PAGE;
      var x, y := Page(PageHashes(a, p)), Page(PageHashes(b, p));
      assert HashAllPages(h, a)[p] == h(x) && HashAllPages(h, b)[p] == h(y);
      assert PageHashes(a, p)[i % HASHES_PER_PAGE] == a[i];
      assert PageHashes(b, p)[i % HASHES_PER_PAGE] == b[i];
      assert LevelCount(|a|, 1) == DivideRoundup(LevelCount(|a|, 0), HASHES_PER_PAGE);
      if x == y {
        PageInjective(PageHashes(a, p), PageHashes(b, p));
      }
    }
  }

  /** Equal roots come from equal leaves, or the pages `p` on level `x` of the two trees collide. */
  lemma {:induction false} RootBinds(h: HashFn, a: seq<Digest>, b: seq<Digest>) returns (x: nat, p: nat)
    requires |a| == |b| > 0
    requires FoldToRoot(h, a) == FoldToRoot(h, b)
    ensures a == b || (p < LevelCount(|a|, x + 1) && Collides(h, TreePage(h, a, x, p), TreePage(h, b, x, p)))
    decreases |a|
  {
    x, p := 0, 0;
    if |a| == 1 {
      assert a == [a[0]] && b == [b[0]];
    } else {
      var a', b' := HashAllPages(h, a), HashAllPages(h, b);
      if a' == b' {
        p := LevelBinds(h, a, b);
        assert Level(h, a, 0) == a && Level(h, b, 0) == b;
      } else {
        x, p := RootBinds(h, a', b');
        LevelShift(h, a, x);
        LevelShift(h, b, x);
        LevelCountAdd(|a|, 1, x + 1);
        assert LevelCount(|a|, 1) == |a'| by {
          assert LevelCount(|a|, 0) == |a|;
        }
        x := x + 1;
      }
    }
  }

  /** Equal leaves come from equal files, or the chunks `i` of the two collide. */
  lemma {:induction false} LeavesBind(h: HashFn, a: Bytes, b: Bytes) returns (i: nat)
    requires |a| == |b|
    requires FileLeaves(h, a) == FileLeaves(h, b)
    ensures a == b || (i < ChunkCount(|a|) && Collides(h, PaddedChunk(a, i), PaddedChunk(b, i)))
  {
    i := 0;
    if a != b {
      if forall k: nat :: k < ChunkCount(|a|) ==> PaddedChunk(a, k) == PaddedChunk(b, k) {
        EqualByChunks(a, b);
      } else {
        i :| i < ChunkCount(|a|) && PaddedChunk(a, i) != PaddedChunk(b, i);
        assert FileLeaves(h, a)[i] == FileLeaves(h, b)[i];
      }
    }
  }

  /** Equal digests mean equal roots and sizes, or the two descriptors collide. */
  lemma {:induction false} DescriptorBinds(h: HashFn, r1: Digest, s1: nat, r2: Digest, s2: nat)
    requires s1 < TWO_64 && s2 < TWO_64
    requires DigestOf(h, r1, s1) == DigestOf(h, r2, s2)
    ensures (r1 == r2 && s1 == s2) || Collides(h, Descriptor(r1, s1), Descriptor(r2, s2))
  {
    if Descriptor(r1, s1) == Descriptor(r2, s2) {
      DescriptorInjective(r1, s1, r2, s2);
    }
  }

  /** Where the trees of two files collide: in their descriptors, in a page, or in a chunk. */
  datatype Clash = InDescriptor | InPage(level: nat, page: nat) | InChunk(index: nat)

  /** Files `a` and `b` have different inputs with the same hash in this one place. */
  ghost predicate ClashesIn(h: HashFn, a: Bytes, b: Bytes, clash: Clash) {
    match clash
    case InDescriptor =>
      Collides(h, Descriptor(FileRoot(h, a), |a|), Descriptor(FileRoot(h, b), |b|))
    case InPage(x, p) =>
      && |a| == |b| && p < LevelCount(ChunkCount(|a|), x + 1)
      && Collides(h, TreePage(h, FileLeaves(h, a), x, p), TreePage(h, FileLeaves(h, b), x, p))
    case InChunk(i) =>
      |a| == |b| && i < ChunkCount(|a|) && Collides(h, PaddedChunk(a, i), PaddedChunk(b, i))
  }

  /** Two files (sizes in u64) with the same fs-verity digest are the same file, or their descriptors, one
      page of their trees or one of their chunks collide. */
  lemma {:induction false} DigestBinds(h: HashFn, a: Bytes, b: Bytes) returns (clash: Clash)
    requires |a| < TWO_64 && |b| < TWO_64
    requires FsVerityDigest(h, a) == FsVerityDigest(h, b)
    ensures a == b || ClashesIn(h, a, b, clash)
  {
    clash := InDescriptor;
    DescriptorBinds(h, FileRoot(h, a), |a|, FileRoot(h, b), |b|);
    if !ClashesIn(h, a, b, clash) && a != b {
      var la, lb := FileLeaves(h, a), FileLeaves(h, b);
      assert |a| > 0;
      RootHashIsFileRoot(h, a);
      RootHashIsFileRoot(h, b);
      var x, p := RootBinds(h, la, lb);
      if la != lb {
        clash := InPage(x, p);
      } else {
        var i := LeavesBind(h, a, b);
        clash := InChunk(i);
      }
    }
  }
}
