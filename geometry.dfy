/** Coordinates, points and the two squared distances the priority search works with:
    point-to-point (computed in the leaf scan) and point-to-box (annBoxDistance). */
module Geometry {

  /** Every point has 128 coordinates: the leaf scan hard-codes this length. */
  const Dim: nat := 128
  /** The leaf scan splits a point into 4 blocks of 32 coordinates. */
  const Blocks: nat := 4
  const BlockLen: nat := 32
  /** Largest value of one squared coordinate difference (255 * 255). */
  const MaxSqDiff: nat := 65025
  /** Largest value a 32-bit signed ANNdist can hold. */
  const Int32Max: int := 0x7fff_ffff

  /** A coordinate of the "char" build: an unsigned byte. */
  type Coord = c: int | 0 <= c < 256

  /** A valid cutting dimension. */
  type DimIndex = d: int | 0 <= d < Dim

  /** A point (and a query point, and a corner of a box). */
  type Point = s: seq<Coord> | |s| == Dim witness seq(128, _ => 0)

  /** A candidate of the search: its squared distance (key) and its point index (info). */
  datatype KeyInfo = KeyInfo(key: int, info: nat)

  function Sq(x: int): nat
  {
    x * x
  }

  /** Sum of the squared coordinate differences over the first n coordinates. */
  function SqDistPrefix(q: Point, p: Point, n: nat): nat
    requires n <= Dim
  {
    if n == 0 then 0 else SqDistPrefix(q, p, n - 1) + Sq(q[n - 1] as int - p[n - 1] as int)
  }

  /** Squared Euclidean distance between two points: it fits in a 32-bit ANNdist. */
  function SqDist(q: Point, p: Point): (r: nat)
    ensures r <= Int32Max
  {
    SqDistPrefixBound(q, p, Dim);
    SqDistPrefix(q, p, Dim)
  }

  /** Contribution of one dimension to the distance from x to the interval [lo, hi]. */
  function Gap(x: int, lo: int, hi: int): nat
  {
    if x < lo then Sq(lo - x) else if x > hi then Sq(x - hi) else 0
  }

  /** Sum of the per-dimension gaps over the first n dimensions. */
  function BoxDistPrefix(q: Point, lo: Point, hi: Point, n: nat): nat
    requires n <= Dim
  {
    if n == 0 then 0 else BoxDistPrefix(q, lo, hi, n - 1) + Gap(q[n - 1], lo[n - 1], hi[n - 1])
  }

  /** Squared distance from q to the box [lo, hi] (annBoxDistance): it fits in a 32-bit
      ANNdist. */
  function BoxDistance(q: Point, lo: Point, hi: Point): (r: nat)
    ensures r <= Int32Max
  {
    BoxDistPrefixBound(q, lo, hi, Dim);
    BoxDistPrefix(q, lo, hi, Dim)
  }

  ghost predicate InBox(p: Point, lo: Point, hi: Point)
  {
    forall d :: 0 <= d < Dim ==> lo[d] <= p[d] <= hi[d]
  }

  lemma {:induction false} SqMono(a: int, b: int)
    requires 0 <= a <= b
    ensures Sq(a) <= Sq(b)
  {
    assert a * a <= a * b;
    assert a * b <= b * b;
  }

  /** The square of a difference of two bytes is at most 255 * 255. */
  lemma {:induction false} SqByte(x: int)
    requires -255 <= x <= 255
    ensures Sq(x) <= MaxSqDiff
  {
    if x >= 0 { SqMono(x, 255); } else { SqMono(-x, 255); }
  }

  lemma {:induction false} SqPositive(x: int)
    requires x != 0
    ensures Sq(x) > 0
  {
    if x > 0 { assert x * x >= x; } else { assert x * x >= -x; }
  }

  /** A partial sum of squared differences is zero exactly when the prefixes agree. */
  lemma {:induction false} SqDistPrefixZero(q: Point, p: Point, n: nat)
    requires n <= Dim
    ensures SqDistPrefix(q, p, n) == 0 <==> q[..n] == p[..n]
  {
    if n > 0 {
      SqDistPrefixZero(q, p, n - 1);
      var t := q[n - 1] as int - p[n - 1] as int;
      if t != 0 { SqPositive(t); }
      assert q[..n] == q[..n - 1] + [q[n - 1]] && p[..n] == p[..n - 1] + [p[n - 1]];
      if q[..n] == p[..n] {
        assert q[..n - 1] == q[..n][..n - 1] && p[..n - 1] == p[..n][..n - 1];
        assert q[n - 1] == q[..n][n - 1] && p[n - 1] == p[..n][n - 1];
      }
    }
  }

  /** A partial box distance is zero exactly when q is within the box in those dimensions. */
  lemma {:induction false} BoxDistPrefixZero(q: Point, lo: Point, hi: Point, n: nat)
    requires n <= Dim
    ensures BoxDistPrefix(q, lo, hi, n) == 0 <==> forall d :: 0 <= d < n ==> lo[d] <= q[d] <= hi[d]
  {
    if n > 0 {
      BoxDistPrefixZero(q, lo, hi, n - 1);
      var x, l, h := q[n - 1], lo[n - 1], hi[n - 1];
      if x < l { SqPositive(l - x); } else if x > h { SqPositive(x - h); }
    }
  }

  /** The distance between two points is zero exactly when they are the same point. */
  lemma SqDistZero(q: Point, p: Point)
    ensures SqDist(q, p) == 0 <==> q == p
  {
    SqDistPrefixZero(q, p, Dim);
    assert q[..Dim] == q && p[..Dim] == p;
  }

  /** The distance to a box is zero exactly when the point lies in the box. */
  lemma BoxDistanceZero(q: Point, lo: Point, hi: Point)
    ensures BoxDistance(q, lo, hi) == 0 <==> InBox(q, lo, hi)
  {
    BoxDistPrefixZero(q, lo, hi, Dim);
  }

  /** Partial sums of squared differences only grow: the leaf's early exit is admissible. */
  lemma {:induction false} SqDistPrefixMono(q: Point, p: Point, m: nat, n: nat)
    requires m <= n <= Dim
    ensures SqDistPrefix(q, p, m) <= SqDistPrefix(q, p, n)
    decreases n
  {
    if m < n {
      SqDistPrefixMono(q, p, m, n - 1);
    }
  }

  /** Every partial sum of squared byte differences fits in a 32-bit int. */
  lemma {:induction false} SqDistPrefixBound(q: Point, p: Point, n: nat)
    requires n <= Dim
    ensures SqDistPrefix(q, p, n) <= n * MaxSqDiff
    ensures SqDistPrefix(q, p, n) <= Int32Max
  {
    if n > 0 {
      SqDistPrefixBound(q, p, n - 1);
      var t := q[n - 1] as int - p[n - 1] as int;
      if t >= 0 { SqMono(t, 255); } else { SqMono(-t, 255); }
      assert Sq(t) <= MaxSqDiff;
    }
  }

  /** One dimension of a box is never farther from the query than a point inside it. */
  lemma {:induction false} GapAtMost(x: int, lo: int, hi: int, c: int)
    requires lo <= c <= hi
    ensures Gap(x, lo, hi) <= Sq(x - c)
  {
    if x < lo {
      SqMono(lo - x, c - x);
    } else if x > hi {
      SqMono(x - hi, x - c);
    }
  }

  lemma {:induction false} BoxDistPrefixLowerBound(q: Point, lo: Point, hi: Point, p: Point, n: nat)
    requires n <= Dim
    requires InBox(p, lo, hi)
    ensures BoxDistPrefix(q, lo, hi, n) <= SqDistPrefix(q, p, n)
  {
    if n > 0 {
      BoxDistPrefixLowerBound(q, lo, hi, p, n - 1);
      GapAtMost(q[n - 1], lo[n - 1], hi[n - 1], p[n - 1]);
    }
  }

  /** The box distance is a lower bound on the distance to every point in the box. */
  lemma {:induction false} BoxDistanceLowerBound(q: Point, lo: Point, hi: Point, p: Point)
    requires InBox(p, lo, hi)
    ensures BoxDistance(q, lo, hi) <= SqDist(q, p)
  {
    BoxDistPrefixLowerBound(q, lo, hi, p, Dim);
  }

  /** Two boxes that differ in dimension cd only: their distances differ by the
      difference of that one dimension's gaps (the incremental update of the search). */
  lemma {:induction false} BoxDistPrefixOneDim(q: Point, lo: Point, hi: Point, lo2: Point, hi2: Point, cd: DimIndex, n: nat)
    requires n <= Dim
    requires forall d :: 0 <= d < Dim && d != cd ==> lo2[d] == lo[d] && hi2[d] == hi[d]
    ensures BoxDistPrefix(q, lo2, hi2, n) ==
            BoxDistPrefix(q, lo, hi, n) + (if cd < n then Gap(q[cd], lo2[cd], hi2[cd]) - Gap(q[cd], lo[cd], hi[cd]) else 0)
  {
    if n > 0 {
      BoxDistPrefixOneDim(q, lo, hi, lo2, hi2, cd, n - 1);
    }
  }

  lemma {:induction false} BoxDistanceOneDim(q: Point, lo: Point, hi: Point, lo2: Point, hi2: Point, cd: DimIndex)
    requires forall d :: 0 <= d < Dim && d != cd ==> lo2[d] == lo[d] && hi2[d] == hi[d]
    ensures BoxDistance(q, lo2, hi2) == BoxDistance(q, lo, hi) + Gap(q[cd], lo2[cd], hi2[cd]) - Gap(q[cd], lo[cd], hi[cd])
  {
    BoxDistPrefixOneDim(q, lo, hi, lo2, hi2, cd, Dim);
  }

  /** Every box distance over byte coordinates fits in a 32-bit int. */
  lemma {:induction false} BoxDistPrefixBound(q: Point, lo: Point, hi: Point, n: nat)
    requires n <= Dim
    ensures BoxDistPrefix(q, lo, hi, n) <= n * MaxSqDiff
    ensures BoxDistPrefix(q, lo, hi, n) <= Int32Max
  {
    if n > 0 {
      BoxDistPrefixBound(q, lo, hi, n - 1);
      var x, l, h := q[n - 1], lo[n - 1], hi[n - 1];
      if x < l { SqMono(l - x, 255); } else if x > h { SqMono(x - h, 255); }
    }
  }
}
