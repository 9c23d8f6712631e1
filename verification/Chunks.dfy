/** `ChunkedSizeIter`: splits a byte range at aligned boundaries. */
module Chunks {
  import opened Bytes
  import opened Results
  import opened TreeShape

  /** Bytes from `offset` to the next aligned boundary, at most `remaining`. */
  function Piece(remaining: nat, offset: nat, alignment: nat): (s: nat)
    requires alignment > 0
    ensures remaining > 0 ==> 0 < s <= remaining
  {
    Min(remaining, alignment - offset % alignment)
  }

  /** All (offset, size) pairs the iterator yields. */
  function Ranges(remaining: nat, offset: nat, alignment: nat): seq<(nat, nat)>
    requires alignment > 0
  {
    if remaining == 0 then [] else
    var s := Piece(remaining, offset, alignment);
    [(offset, s)] + Ranges(remaining - s, offset + s, alignment)
  }

  class ChunkedSizeIter {
    var remaining: nat
    var offset: nat
    const alignment: nat

    constructor (remaining: nat, offset: nat, alignment: nat)
      ensures this.remaining == remaining && this.offset == offset && this.alignment == alignment
    {
      this.remaining, this.offset, this.alignment := remaining, offset, alignment;
    }

    /** Yields the head of the remaining ranges and leaves the rest. */
    method Next() returns (r: Option<(nat, nat)>)
      requires alignment > 0
      modifies this
      ensures r.None? <==> old(remaining) == 0
      ensures r.None? ==> remaining == old(remaining) && offset == old(offset)
      ensures r.Some? ==> r.value == (old(offset), Piece(old(remaining), old(offset), alignment))
      ensures r.Some? ==> offset == old(offset) + r.value.1 && remaining == old(remaining) - r.value.1
      ensures r.Some? ==> old(Ranges(remaining, offset, alignment)) == [r.value] + Ranges(remaining, offset, alignment)
    {
      if remaining == 0 {
        return None;
      }
      var size := Min(remaining, alignment - offset % alignment);
      r := Some((offset, size));
      offset := offset + size;
      remaining := if remaining > size then remaining - size else 0;
    }
  }

  /** The pieces tile `[offset, offset + n)` in order: each starts where the one before ends, the last
      ends at `offset + n`, none is empty, none crosses an aligned boundary, and all but the first
      start on a boundary. */
  ghost predicate Tiles(ranges: seq<(nat, nat)>, n: nat, offset: nat, alignment: nat)
    requires alignment > 0
  {
    && (ranges == [] <==> n == 0)
    && (ranges != [] ==> ranges[0].0 == offset && ranges[|ranges| - 1].0 + ranges[|ranges| - 1].1 == offset + n)
    && (forall i :: 0 <= i < |ranges| ==> InOnePiece(ranges[i], alignment))
    && (forall i :: 0 <= i < |ranges| - 1 ==> Follows(ranges, i, alignment))
  }

  ghost predicate Follows(ranges: seq<(nat, nat)>, i: nat, alignment: nat)
    requires alignment > 0 && i + 1 < |ranges|
  {
    ranges[i + 1].0 == ranges[i].0 + ranges[i].1 && ranges[i + 1].0 % alignment == 0
  }

  ghost predicate InOnePiece(r: (nat, nat), alignment: nat)
    requires alignment > 0
  {
    0 < r.1 && r.0 % alignment + r.1 <= alignment
  }

  lemma {:induction false} RangesTile(n: nat, offset: nat, alignment: nat)
    requires alignment > 0
    ensures Tiles(Ranges(n, offset, alignment), n, offset, alignment)
    decreases n
  {
    if n > 0 {
      var s := Piece(n, offset, alignment);
      RangesTile(n - s, offset + s, alignment);
      NextIsAligned(offset, alignment);
      TilesCons(offset, s, Ranges(n - s, offset + s, alignment), n, alignment);
    }
  }

  lemma {:induction false} TilesCons(offset: nat, s: nat, rest: seq<(nat, nat)>, n: nat, alignment: nat)
    requires alignment > 0 && s <= n
    requires Tiles(rest, n - s, offset + s, alignment)
    requires InOnePiece((offset, s), alignment) && (s < n ==> (offset + s) % alignment == 0)
    ensures Tiles([(offset, s)] + rest, n, offset, alignment)
  {
    var all := [(offset, s)] + rest;
    forall i | 0 <= i < |all| - 1
      ensures Follows(all, i, alignment)
    {
      assert i > 0 ==> Follows(rest, i - 1, alignment);
    }
  }

  lemma {:induction false} NextIsAligned(offset: nat, alignment: nat)
    requires alignment > 0
    ensures (offset + (alignment - offset % alignment)) % alignment == 0
  {
    var q := offset / alignment;
    assert offset == alignment * q + offset % alignment;
    assert offset + (alignment - offset % alignment) == alignment * (q + 1);
    MultipleMod(alignment, q + 1);
  }

  lemma {:induction false} MultipleMod(a: nat, q: nat)
    requires a > 0
    ensures a * q % a == 0
  {
    QuotientBounds(a * q, a, q);
    QuotientBounds(a * q, a, q + 1);
    assert a * q == a * (a * q / a) + a * q % a;
  }
}
