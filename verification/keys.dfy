/**
 The key under which `generateTIN` records a triangle as already built: the
 three point ids put in ascending order by three conditional swaps and packed
 as `a·10⁸ + b·10⁴ + c`.
 */
module TriangleKeys {

  /** The three conditional swaps of `generateTIN`, in the order they are written. */
  function Sort3(a: int, b: int, c: int): (r: (int, int, int))
    ensures r.0 <= r.1 <= r.2
    ensures IsPermutation(r, a, b, c)
  {
    var (a1, c1) := if a > c then (c, a) else (a, c);
    var (b2, c2) := if b > c1 then (c1, b) else (b, c1);
    var (a3, b3) := if a1 > b2 then (b2, a1) else (a1, b2);
    (a3, b3, c2)
  }

  /** `r` lists `a`, `b` and `c` in some order. */
  predicate IsPermutation(r: (int, int, int), a: int, b: int, c: int) {
    || r == (a, b, c) || r == (a, c, b) || r == (b, a, c)
    || r == (b, c, a) || r == (c, a, b) || r == (c, b, a)
  }

  /** The sorted triple depends only on the set of ids, not on the order they arrive in. */
  lemma Sort3OrderIndependent(a: int, b: int, c: int)
    ensures Sort3(b, a, c) == Sort3(a, b, c)
    ensures Sort3(a, c, b) == Sort3(a, b, c)
    ensures Sort3(c, b, a) == Sort3(a, b, c)
    ensures Sort3(b, c, a) == Sort3(a, b, c)
    ensures Sort3(c, a, b) == Sort3(a, b, c)
  {
  }

  /** Distinct ids sort into a strictly increasing triple. */
  lemma Sort3Strict(a: int, b: int, c: int)
    requires a != b && b != c && a != c
    ensures Sort3(a, b, c).0 < Sort3(a, b, c).1 < Sort3(a, b, c).2
  {
  }

  /** The packing constants of `generateTIN`. */
  const Shift1: int := 100000000
  const Shift2: int := 10000

  /** The key as the mathematics of the source reads it, without machine integers. */
  function Key(a: int, b: int, c: int): int {
    a * Shift1 + b * Shift2 + c
  }

  /** Ids up to 9999 fit the packing: distinct triples get distinct keys. */
  lemma KeyInjective(a: int, b: int, c: int, a': int, b': int, c': int)
    requires 0 <= b <= 9999 && 0 <= c <= 9999
    requires 0 <= b' <= 9999 && 0 <= c' <= 9999
    requires Key(a, b, c) == Key(a', b', c')
    ensures a == a' && b == b' && c == c'
  {
    assert (a - a') * Shift1 == (b' - b) * Shift2 + (c' - c);
    assert (b - b') * Shift2 == c' - c;
  }

  /** The key of a sorted triple of ids in `1..n`, `n <= 9999`, names that triple alone. */
  lemma SortedKeyDeterminesTriple(t: (int, int, int), t': (int, int, int), n: int)
    requires n <= 9999
    requires 1 <= t.0 && t.2 <= n && 1 <= t'.0 && t'.2 <= n
    requires t.0 <= t.1 <= t.2 && t'.0 <= t'.1 <= t'.2
    requires Key(t.0, t.1, t.2) == Key(t'.0, t'.1, t'.2)
    ensures t == t'
  {
    KeyInjective(t.0, t.1, t.2, t'.0, t'.1, t'.2);
  }

  // ---------------------------------------------------------------------------
  // The key as the source computes it: `int` arithmetic, widened to `long`
  // ---------------------------------------------------------------------------

  const Int32Min: int := -0x8000_0000
  const Int32Max: int := 0x7FFF_FFFF

  /** Two's-complement wrap-around of a 32-bit `int`. */
  function Wrap32(x: int): (r: int)
    ensures Int32Min <= r <= Int32Max
    ensures (r - x) % 0x1_0000_0000 == 0
  {
    (x - Int32Min) % 0x1_0000_0000 + Int32Min
  }

  lemma Wrap32Identity(x: int)
    requires Int32Min <= x <= Int32Max
    ensures Wrap32(x) == x
  {
  }

  /** A value `k` whole turns of 2³² above the `int` range wraps onto the value below. */
  lemma Wrap32Turns(x: int, k: int)
    requires Int32Min <= x - k * 0x1_0000_0000 <= Int32Max
    ensures Wrap32(x) == x - k * 0x1_0000_0000
  {
  }

  /** Sums and differences of whole turns of 2³² are whole turns. */
  lemma TurnsCombine(u: int, v: int)
    requires u % 0x1_0000_0000 == 0 && v % 0x1_0000_0000 == 0
    ensures (u + v) % 0x1_0000_0000 == 0 && (u - v) % 0x1_0000_0000 == 0
  {
    var p, q := u / 0x1_0000_0000, v / 0x1_0000_0000;
    assert u == p * 0x1_0000_0000 && v == q * 0x1_0000_0000;
    assert u + v == (p + q) * 0x1_0000_0000;
    assert u - v == (p - q) * 0x1_0000_0000;
  }

  /** The only whole number of turns of 2³² strictly between −2³² and 2³² is zero. */
  lemma SmallTurnIsZero(d: int)
    requires d % 0x1_0000_0000 == 0 && -0x1_0000_0000 < d < 0x1_0000_0000
    ensures d == 0
  {
    var q := d / 0x1_0000_0000;
    assert d == q * 0x1_0000_0000;
  }

  /** Values congruent modulo 2³² wrap to the same `int`. */
  lemma Wrap32Congruent(x: int, y: int)
    requires (x - y) % 0x1_0000_0000 == 0
    ensures Wrap32(x) == Wrap32(y)
  {
    var q := (x - y) / 0x1_0000_0000;
    assert x - Int32Min == (y - Int32Min) + q * 0x1_0000_0000;
  }

  /**
   `a * 100000000 + b * 10000 + c` evaluated in `int`: every product and sum
   wraps, and only then is the result stored in the `long` index.
   */
  function KeyAsWritten(a: int, b: int, c: int): int {
    Wrap32(Wrap32(Wrap32(a * Shift1) + Wrap32(b * Shift2)) + c)
  }

  /** Wrapping every intermediate result gives the wrap of the exact key. */
  lemma KeyAsWrittenIsWrappedKey(a: int, b: int, c: int)
    ensures KeyAsWritten(a, b, c) == Wrap32(Key(a, b, c))
  {
    var x, y := Wrap32(a * Shift1), Wrap32(b * Shift2);
    var s := Wrap32(x + y);
    TurnsCombine(x - a * Shift1, y - b * Shift2);
    TurnsCombine(s - (x + y), (x + y) - (a * Shift1 + b * Shift2));
    assert (s + c) - Key(a, b, c) == (s - (x + y)) + ((x + y) - (a * Shift1 + b * Shift2));
    Wrap32Congruent(s + c, Key(a, b, c));
  }

  /**
   While `a <= 20` and `b`, `c` are ids below 10⁴, nothing wraps and the
   computed key is the intended one.
   */
  lemma KeyAsWrittenExactForSmallIds(a: int, b: int, c: int)
    requires 0 <= a <= 20 && 0 <= b <= 9999 && 0 <= c <= 9999
    ensures KeyAsWritten(a, b, c) == Key(a, b, c)
  {
    Wrap32Identity(a * Shift1);
    Wrap32Identity(b * Shift2);
    Wrap32Identity(a * Shift1 + b * Shift2);
    Wrap32Identity(a * Shift1 + b * Shift2 + c);
  }

  /** From `a = 22` on, the intended key no longer fits in an `int` whatever `b` and `c` are. */
  lemma KeyOverflowsFrom22(a: int, b: int, c: int)
    requires a >= 22 && b >= 0 && c >= 0
    ensures Key(a, b, c) > Int32Max
  {
  }

  /**
   At `a = 21` the intended key overflows exactly when `b * 10000 + c` exceeds
   47,483,647; for a sorted triple of ids up to 9999 that is exactly `b >= 4748`.
   */
  lemma KeyOverflowsAt21(b: int, c: int)
    requires 21 <= b < c <= 9999
    ensures Key(21, b, c) > Int32Max <==> b * Shift2 + c > 47483647
    ensures Key(21, b, c) > Int32Max <==> b >= 4748
  {
  }

  /**
   Overflow alone is harmless: while both smallest ids are at most 42, the
   exact keys of sorted triples of ids up to 9999 differ by less than 2³², so
   their wrapped keys still tell the triples apart.
   */
  lemma NoCollisionBelow43(t: (int, int, int), t': (int, int, int))
    requires 1 <= t.0 <= t.1 <= t.2 <= 9999 && t.0 <= 42
    requires 1 <= t'.0 <= t'.1 <= t'.2 <= 9999 && t'.0 <= 42
    requires KeyAsWritten(t.0, t.1, t.2) == KeyAsWritten(t'.0, t'.1, t'.2)
    ensures t == t'
  {
    var k, k' := Key(t.0, t.1, t.2), Key(t'.0, t'.1, t'.2);
    KeyAsWrittenIsWrappedKey(t.0, t.1, t.2);
    KeyAsWrittenIsWrappedKey(t'.0, t'.1, t'.2);
    var w := Wrap32(k);
    assert w == Wrap32(k');
    TurnsCombine(w - k', w - k);
    assert k - k' == (w - k') - (w - k);
    assert 0 < k <= 4299999999 && 0 < k' <= 4299999999;
    SmallTurnIsZero(k - k');
    SortedKeyDeterminesTriple(t, t', 9999);
  }

  /**
   Two different sorted triples whose computed keys coincide: once the second
   triangle is built, the first is taken as existing and never built.
   */
  lemma KeyAsWrittenCollides()
    ensures Sort3(601, 600, 1) == (1, 600, 601) && Sort3(7897, 96, 44) == (44, 96, 7897)
    ensures Key(1, 600, 601) != Key(44, 96, 7897)
    ensures KeyAsWritten(1, 600, 601) == KeyAsWritten(44, 96, 7897)
  {
    KeyAsWrittenExactForSmallIds(1, 600, 601);
    Wrap32Turns(44 * Shift1, 1);
    Wrap32Identity(96 * Shift2);
    Wrap32Identity(105032704 + 960000);
    Wrap32Identity(105992704 + 7897);
  }

  /**
   The bound of `NoCollisionBelow43` is tight: a smallest id of 43 already
   meets a triple whose smallest id is 1.
   */
  lemma KeyAsWrittenCollidesAt43()
    ensures Key(1, 2, 2203) != Key(43, 9498, 9499)
    ensures KeyAsWritten(1, 2, 2203) == KeyAsWritten(43, 9498, 9499)
  {
    KeyAsWrittenExactForSmallIds(1, 2, 2203);
    Wrap32Turns(43 * Shift1, 1);
    Wrap32Identity(9498 * Shift2);
    Wrap32Identity(5032704 + 94980000);
    Wrap32Identity(100012704 + 9499);
  }
}
