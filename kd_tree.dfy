/** The prebuilt, read-only kd-tree the search walks: splitting nodes, leaves with
    buckets of point indices, and the empty-subtree sentinel KD_TRIVIAL. */
module KdTree {
  import opened Geometry

  /** A node of the tree. A splitting node carries its cutting dimension and value, the
      bounds of its cell along that dimension (cd_bnds) and its two children. */
  datatype Tree =
    | Split(cutDim: DimIndex, cutVal: Coord, loBnd: Coord, hiBnd: Coord, low: Tree, high: Tree)
    | Leaf(bkt: seq<nat>)
    | Trivial

  /** The tree object: its dimension, its points, its root and its bounding box. */
  datatype KdTree = KdTree(dim: nat, pts: seq<Point>, root: Tree, bndBoxLo: Point, bndBoxHi: Point)

  /** KD_TRIVIAL is itself a leaf, with an empty bucket. */
  predicate IsLeaf(t: Tree): (r: bool)
    ensures r <==> Size(t) == 1
  {
    !t.Split?
  }

  function Bucket(t: Tree): (r: seq<nat>)
    requires IsLeaf(t)
    ensures t.Trivial? ==> r == []
    ensures forall n {:trigger Shaped(t, n)} :: Shaped(t, n) <==> IdsInRange(r, n)
  {
    if t.Leaf? then t.bkt else []
  }

  predicate IdsInRange(b: seq<nat>, n: nat)
  {
    forall i :: 0 <= i < |b| ==> b[i] < n
  }

  /** Every bucket index addresses one of the n points. */
  ghost predicate Shaped(t: Tree, n: nat)
  {
    match t
    case Split(_, _, _, _, low, high) => Shaped(low, n) && Shaped(high, n)
    case Leaf(b) => IdsInRange(b, n)
    case Trivial => true
  }

  /** Number of nodes: the measure that bounds the search loop. */
  function Size(t: Tree): nat
  {
    match t
    case Split(_, _, _, _, low, high) => 1 + Size(low) + Size(high)
    case _ => 1
  }

  /** The size of the largest bucket in the subtree. */
  function MaxBucket(t: Tree): (r: nat)
    ensures IsLeaf(t) ==> r == |Bucket(t)|
    ensures t.Split? ==> MaxBucket(t.low) <= r && MaxBucket(t.high) <= r
  {
    match t
    case Split(_, _, _, _, low, high) =>
      var a, b := MaxBucket(low), MaxBucket(high);
      if a < b then b else a
    case Leaf(b) => |b|
    case Trivial => 0
  }

  /** The (squared distance, index) pair the leaf scan computes for each bucket entry. */
  function BucketPairs(q: Point, pts: seq<Point>, b: seq<nat>): (r: seq<KeyInfo>)
    requires IdsInRange(b, |pts|)
    ensures |r| == |b|
  {
    if b == [] then []
    else BucketPairs(q, pts, b[..|b| - 1]) + [KeyInfo(SqDist(q, pts[b[|b| - 1]]), b[|b| - 1])]
  }

  /** Scanning one more bucket entry adds its pair at the end. */
  lemma {:induction false} BucketPairsStep(q: Point, pts: seq<Point>, b: seq<nat>, i: nat)
    requires i < |b| && IdsInRange(b, |pts|)
    ensures IdsInRange(b[..i], |pts|) && IdsInRange(b[..i + 1], |pts|)
    ensures BucketPairs(q, pts, b[..i + 1]) == BucketPairs(q, pts, b[..i]) + [KeyInfo(SqDist(q, pts[b[i]]), b[i])]
  {
    assert b[..i + 1][..i] == b[..i];
  }

  /** The pairs of every point stored in the subtree. */
  function TreePairs(q: Point, pts: seq<Point>, t: Tree): seq<KeyInfo>
    requires Shaped(t, |pts|)
  {
    match t
    case Split(_, _, _, _, low, high) => TreePairs(q, pts, low) + TreePairs(q, pts, high)
    case Leaf(b) => BucketPairs(q, pts, b)
    case Trivial => []
  }

  /** t is a correctly built subtree whose cell is the box [lo, hi]: each splitting node's
      cd_bnds are the cell's bounds along its cutting dimension, the cutting value lies in
      them, the children's cells are the two halves, and every bucket point lies in its cell. */
  ghost predicate Boxed(t: Tree, lo: Point, hi: Point, pts: seq<Point>)
  {
    match t
    case Split(cd, cv, l, h, low, high) =>
      && l == lo[cd] && h == hi[cd] && l <= cv <= h
      && Boxed(low, lo, hi[cd := cv], pts)
      && Boxed(high, lo[cd := cv], hi, pts)
    case Leaf(b) =>
      forall i :: 0 <= i < |b| ==> b[i] < |pts| && InBox(pts[b[i]], lo, hi)
    case Trivial => true
  }

  lemma {:induction false} BoxedIsShaped(t: Tree, lo: Point, hi: Point, pts: seq<Point>)
    requires Boxed(t, lo, hi, pts)
    ensures Shaped(t, |pts|)
  {
    match t
    case Split(cd, cv, _, _, low, high) =>
      BoxedIsShaped(low, lo, hi[cd := cv], pts);
      BoxedIsShaped(high, lo[cd := cv], hi, pts);
    case _ =>
  }

  /** Every pair of a bucket is a point of the set at its true squared distance. */
  lemma {:induction false} BucketPairsGenuine(q: Point, pts: seq<Point>, b: seq<nat>)
    requires IdsInRange(b, |pts|)
    ensures forall i :: 0 <= i < |b| ==> BucketPairs(q, pts, b)[i] == KeyInfo(SqDist(q, pts[b[i]]), b[i])
  {
    if b != [] {
      BucketPairsGenuine(q, pts, b[..|b| - 1]);
    }
  }

  /** Every pair of a subtree is a point of the set at its true squared distance. */
  lemma {:induction false} TreePairsGenuine(q: Point, pts: seq<Point>, t: Tree)
    requires Shaped(t, |pts|)
    ensures forall x :: x in TreePairs(q, pts, t) ==> x.info < |pts| && x.key == SqDist(q, pts[x.info])
  {
    match t
    case Split(_, _, _, _, low, high) =>
      TreePairsGenuine(q, pts, low);
      TreePairsGenuine(q, pts, high);
    case Leaf(b) =>
      BucketPairsGenuine(q, pts, b);
    case Trivial =>
  }

  /** A child's cell lies inside its parent's cell, so a point in a child's cell is in the parent's. */
  lemma {:induction false} BoxedWithinCell(q: Point, t: Tree, lo: Point, hi: Point, pts: seq<Point>)
    requires Boxed(t, lo, hi, pts)
    ensures Shaped(t, |pts|)
    ensures forall x :: x in TreePairs(q, pts, t) ==> x.info < |pts| && InBox(pts[x.info], lo, hi)
  {
    BoxedIsShaped(t, lo, hi, pts);
    match t
    case Split(cd, cv, _, _, low, high) =>
      BoxedWithinCell(q, low, lo, hi[cd := cv], pts);
      BoxedWithinCell(q, high, lo[cd := cv], hi, pts);
    case Leaf(b) =>
      BucketPairsGenuine(q, pts, b);
      forall x | x in TreePairs(q, pts, t)
        ensures x.info < |pts| && InBox(pts[x.info], lo, hi)
      {
        var i :| 0 <= i < |b| && BucketPairs(q, pts, b)[i] == x;
      }
    case Trivial =>
  }

  /** The distance from the query to a node's cell bounds the distance to every point below it. */
  lemma {:induction false} BoxedLowerBound(q: Point, t: Tree, lo: Point, hi: Point, pts: seq<Point>)
    requires Boxed(t, lo, hi, pts)
    ensures Shaped(t, |pts|)
    ensures forall x :: x in TreePairs(q, pts, t) ==> BoxDistance(q, lo, hi) <= x.key
  {
    BoxedWithinCell(q, t, lo, hi, pts);
    TreePairsGenuine(q, pts, t);
    forall x | x in TreePairs(q, pts, t)
      ensures BoxDistance(q, lo, hi) <= x.key
    {
      BoxDistanceLowerBound(q, lo, hi, pts[x.info]);
    }
  }
}
