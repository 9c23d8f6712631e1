/** The shape of an fs-verity tree: rounding division, powers of 128, and the tree height that
    the program derives from a count of leading zero bits.
 */
module TreeShape {
  import opened Bytes

  /** `divide_roundup` on mathematical integers; `DivideRoundupU64` adds the u64 width. */
  function DivideRoundup(dividend: nat, divisor: nat): nat
    requires divisor > 0
  {
    (dividend + divisor - 1) / divisor
  }

  function Pow2(e: nat): (p: nat)
    ensures p > 0
  {
    if e == 0 then 1 else 2 * Pow2(e - 1)
  }

  function Pow128(e: nat): (p: nat)
    ensures p > 0
  {
    if e == 0 then 1 else HASHES_PER_PAGE * Pow128(e - 1)
  }

  /** Number of significant bits. */
  function BitLength(n: nat): nat {
    if n == 0 then 0 else 1 + BitLength(n / 2)
  }

  /** Leading zero bits of a u64. */
  function LeadingZeros(n: nat): nat
    requires n < TWO_64
  {
    Width64();
    HighestBit(n);
    Pow2Monotone(64, if BitLength(n) > 64 then BitLength(n) - 1 else 64);
    64 - BitLength(n)
  }

  /** `log128_ceil` for a non-zero u64. */
  function Log128Ceil(n: nat): nat
    requires 0 < n < TWO_64
  {
    DivideRoundup(64 - LeadingZeros(n - 1), 7)
  }

  lemma {:induction false} Width64()
    ensures Pow2(64) == TWO_64
  {
    Pow2Plus8(0);
    Pow2Plus8(8);
    Pow2Plus8(16);
    Pow2Plus8(24);
    Pow2Plus8(32);
    Pow2Plus8(40);
    Pow2Plus8(48);
    Pow2Plus8(56);
  }

  lemma {:induction false} Pow2Plus8(e: nat)
    ensures Pow2(e + 8) == 256 * Pow2(e)
  {
    assert Pow2(e + 2) == 2 * Pow2(e + 1) && Pow2(e + 4) == 2 * Pow2(e + 3);
    assert Pow2(e + 6) == 2 * Pow2(e + 5) && Pow2(e + 8) == 2 * Pow2(e + 7);
  }

  lemma {:induction false} Pow2Add(a: nat, b: nat)
    ensures Pow2(a + b) == Pow2(a) * Pow2(b)
  {
    if a > 0 {
      Pow2Add(a - 1, b);
      assert Pow2(a + b) == 2 * Pow2(a - 1 + b);
    }
  }

  lemma {:induction false} Pow2Monotone(a: nat, b: nat)
    requires a <= b
    ensures Pow2(a) <= Pow2(b)
  {
    if a < b {
      Pow2Monotone(a, b - 1);
    }
  }

  lemma {:induction false} Pow128Monotone(a: nat, b: nat)
    requires a <= b
    ensures Pow128(a) <= Pow128(b)
  {
    if a < b {
      Pow128Monotone(a, b - 1);
    }
  }

  lemma {:induction false} Pow128IsPow2(e: nat)
    ensures Pow128(e) == Pow2(7 * e)
  {
    if e > 0 {
      Pow128IsPow2(e - 1);
      Pow2Add(7, 7 * (e - 1));
    }
  }

  /** The number of significant bits locates the highest set bit. */
  lemma {:induction false} HighestBit(n: nat)
    ensures n < Pow2(BitLength(n))
    ensures n > 0 ==> Pow2(BitLength(n) - 1) <= n
  {
    if n > 0 {
      HighestBit(n / 2);
    }
  }

  /** The leading-zeros formula is the exact rounded-up logarithm: `Log128Ceil(n)` is a height whose
      128-ary tree holds `n` pages, and every smaller height is too small. */
  lemma {:induction false} Log128CeilExact(n: nat)
    requires 0 < n < TWO_64
    ensures n <= Pow128(Log128Ceil(n))
    ensures forall e: nat :: n <= Pow128(e) <==> Log128Ceil(n) <= e
  {
    var b := BitLength(n - 1);
    HighestBit(n - 1);
    forall e: nat
      ensures n <= Pow128(e) <==> Log128Ceil(n) <= e
    {
      Pow128IsPow2(e);
      if Log128Ceil(n) <= e {
        Pow2Monotone(b, 7 * e);
      } else {
        assert 7 * e <= b - 1;
        Pow2Monotone(7 * e, b - 1);
      }
    }
  }

  /** Number of hashes on level `x` of a tree over `n` leaves: each level packs 128 into one. */
  function LevelCount(n: nat, x: nat): nat {
    if x == 0 then n else DivideRoundup(LevelCount(n, x - 1), HASHES_PER_PAGE)
  }

  /** Rounding up is the least quotient that covers the dividend. */
  lemma {:induction false} RoundupBounds(a: nat, b: nat, q: nat)
    requires b > 0
    ensures DivideRoundup(a, b) <= q <==> a <= b * q
  {
    var d := DivideRoundup(a, b);
    var r := (a + b - 1) % b;
    assert a + b - 1 == b * d + r && 0 <= r < b;
    if d <= q {
      assert b * d <= b * q;
    } else {
      assert b * (q + 1) <= b * d;
      assert b * (q + 1) == b * q + b;
    }
  }

  /** Rounding up twice is rounding up once by the product. */
  lemma {:induction false} RoundupTwice(a: nat, b: nat, c: nat)
    requires b > 0 && c > 0
    ensures b * c > 0
    ensures DivideRoundup(DivideRoundup(a, b), c) == DivideRoundup(a, b * c)
  {
    var p, q := DivideRoundup(DivideRoundup(a, b), c), DivideRoundup(a, b * c);
    assert b * (c * q) == b * c * q && b * (c * p) == b * c * p;
    RoundupBounds(a, b * c, q);
    RoundupBounds(a, b, c * q);
    RoundupBounds(DivideRoundup(a, b), c, q);
    RoundupBounds(DivideRoundup(a, b), c, p);
    RoundupBounds(a, b, c * p);
    RoundupBounds(a, b * c, p);
  }

  /** Closed form of the level sizes. */
  lemma {:induction false} LevelCountClosed(n: nat, x: nat)
    ensures LevelCount(n, x) == DivideRoundup(n, Pow128(x))
  {
    if x > 0 {
      LevelCountClosed(n, x - 1);
      RoundupTwice(n, Pow128(x - 1), HASHES_PER_PAGE);
    }
  }

  /** A level has one hash exactly when 128^x leaves cover the file. */
  lemma {:induction false} LevelCountOne(n: nat, x: nat)
    requires n > 0
    ensures LevelCount(n, x) >= 1
    ensures LevelCount(n, x) == 1 <==> n <= Pow128(x)
  {
    LevelCountClosed(n, x);
    RoundupBounds(n, Pow128(x), 0);
    RoundupBounds(n, Pow128(x), 1);
  }

  /** Levels add up: level `x + y` is level `y` above level `x`. */
  lemma {:induction false} LevelCountAdd(n: nat, x: nat, y: nat)
    ensures LevelCount(n, x + y) == LevelCount(LevelCount(n, x), y)
  {
    if y > 0 {
      LevelCountAdd(n, x, y - 1);
    }
  }

  /** Height of the hash-page tree over `n` chunks: what `merkle_tree_height` returns for a file of
      `n` chunks, `None` being the empty file. */
  function Height(n: nat): nat
    requires 0 < n < TWO_64
  {
    Log128Ceil(DivideRoundup(n, HASHES_PER_PAGE))
  }

  /** The height is exact: packing the leaves `Height + 1` times leaves one hash, the root, and
      (from two leaves up) no smaller number of packings does. */
  lemma {:induction false} HeightExact(n: nat, x: nat)
    requires 0 < n < TWO_64
    ensures LevelCount(n, x + 1) == 1 <==> Height(n) <= x
  {
    var m := DivideRoundup(n, HASHES_PER_PAGE);
    Log128CeilExact(m);
    LevelCountAdd(n, 1, x);
    assert LevelCount(n, 1) == DivideRoundup(LevelCount(n, 0), HASHES_PER_PAGE);
    LevelCountOne(m, x);
  }

  /** Ancestor on level `x` of leaf `i`: drops `x` digits in base 128. */
  function Ancestor(i: nat, x: nat): nat {
    if x == 0 then i else Ancestor(i, x - 1) / HASHES_PER_PAGE
  }

  /** Dropping digits one at a time is dividing by the power. */
  lemma {:induction false} AncestorIsQuotient(i: nat, x: nat)
    ensures Ancestor(i, x) == Quotient(i, Pow128(x))
  {
    if x > 0 {
      AncestorIsQuotient(i, x - 1);
      QuotientTwice(i, Pow128(x - 1), HASHES_PER_PAGE);
    }
  }

  /** Ancestors stay inside their levels. */
  lemma {:induction false} AncestorInRange(n: nat, i: nat, x: nat)
    requires i < n
    ensures Ancestor(i, x) < LevelCount(n, x)
  {
    if x > 0 {
      AncestorInRange(n, i, x - 1);
    }
  }

  lemma {:induction false} AncestorShrinks(i: nat, x: nat)
    ensures Ancestor(i, x) <= i
  {
    if x > 0 {
      AncestorShrinks(i, x - 1);
    }
  }

  /** Division of naturals. */
  function Quotient(a: nat, b: nat): nat
    requires b > 0
  {
    a / b
  }

  /** Rounding down is the greatest quotient that fits the dividend. */
  lemma {:induction false} QuotientBounds(a: nat, b: nat, q: nat)
    requires b > 0
    ensures q <= Quotient(a, b) <==> b * q <= a
  {
    var d := Quotient(a, b);
    assert a == b * d + a % b;
    if q <= d {
      assert b * q <= b * d;
    } else {
      assert b * (d + 1) <= b * q;
      assert b * (d + 1) == b * d + b;
    }
  }

  lemma {:induction false} QuotientTwice(a: nat, b: nat, c: nat)
    requires b > 0 && c > 0
    ensures b * c > 0
    ensures Quotient(Quotient(a, b), c) == Quotient(a, b * c)
  {
    var p, q := Quotient(Quotient(a, b), c), Quotient(a, b * c);
    assert b * (c * q) == b * c * q && b * (c * p) == b * c * p;
    QuotientBounds(a, b * c, q);
    QuotientBounds(a, b, c * q);
    QuotientBounds(Quotient(a, b), c, q);
    QuotientBounds(Quotient(a, b), c, p);
    QuotientBounds(a, b, c * p);
    QuotientBounds(a, b * c, p);
  }
}
