/** Priority search for the k nearest neighbours in a kd-tree: the driver annkPriSearch,
    and the handlers ann_pri_search of splitting nodes and of leaves, all working on the
    shared search state ANNprTempStore. */
module PriSearch {
  import opened Geometry
  import opened MinK
  import opened KdTree
  import opened PrQueue
  import opened PriSpec

  /** ANNprMaxErr: the squared error factor (1 + eps)^2 applied to box distances. */
  function ErrorMultiplier(eps: real): (m: real)
    ensures m >= 0.0
    ensures eps >= 0.0 ==> m >= 1.0
    ensures eps == 0.0 ==> m == 1.0
  {
    (1.0 + eps) * (1.0 + eps)
  }

  /** The inner loops of the leaf scan for one point p: the squared distance to q summed
      over 4 blocks of 32 coordinates, abandoned after the first block whose partial sum
      exceeds minDist. Either all blocks were summed and dist is the full distance, or the
      scan was abandoned at a partial sum that exceeds minDist and is at most the full
      distance. No partial sum overflows a 32-bit ANNdist. */
  method BlockedDist(q: Point, p: Point, minDist: Bound) returns (dist: int, complete: bool)
    ensures complete ==> dist == SqDist(q, p)
    ensures !complete ==> Exceeds(dist, minDist) && dist <= SqDist(q, p)
    ensures 0 <= dist <= Int32Max
  {
    dist := 0;
    var d := 0;
    while d < Blocks
      invariant 0 <= d <= Blocks
      invariant dist == SqDistPrefix(q, p, BlockLen * d)
    {
      var d2 := 0;
      while d2 < BlockLen
        invariant 0 <= d2 <= BlockLen
        invariant dist == SqDistPrefix(q, p, BlockLen * d + d2)
      {
        var c := BlockLen * d + d2;
        var diff := q[c] as int - p[c] as int;
        dist := dist + diff * diff;
        d2 := d2 + 1;
      }
      if Exceeds(dist, minDist) {
        break;
      }
      d := d + 1;
    }
    complete := d >= Blocks;
    if !complete {
      SqDistPrefixMono(q, p, BlockLen * (d + 1), Dim);
    }
    SqDistPrefixBound(q, p, Dim);
  }

  /** The bucket loop of the leaf scan: min_dist is the selector's max_key(), re-read after
      every insert; a point is inserted at its full distance when its scan completes.
      Skipping an abandoned point changes nothing, since its full distance exceeds the k-th,
      so the result is the selector after offering every bucket point in order. */
  method ScanBucket(q: Point, pts: seq<Point>, bkt: seq<nat>, s: MinKSet) returns (r: MinKSet)
    requires IdsInRange(bkt, |pts|) && Valid(s)
    ensures r == InsertAll(s, BucketPairs(q, pts, bkt))
  {
    r := s;
    var minDist := MaxKey(r);
    var i := 0;
    while i < |bkt|
      invariant 0 <= i <= |bkt|
      invariant IdsInRange(bkt[..i], |pts|)
      invariant Valid(r) && r == InsertAll(s, BucketPairs(q, pts, bkt[..i]))
      invariant minDist == MaxKey(r)
    {
      var p := pts[bkt[i]];
      var dist, complete := BlockedDist(q, p, minDist);
      ghost var x := KeyInfo(SqDist(q, p), bkt[i]);
      BucketPairsStep(q, pts, bkt, i);
      InsertAllStep(s, BucketPairs(q, pts, bkt[..i]), x);
      if complete {
        r := MinK.Insert(r, KeyInfo(dist, bkt[i]));
        minDist := MaxKey(r);
      } else {
        InsertAboveMax(r, x, dist);
      }
      i := i + 1;
    }
    assert bkt[..i] == bkt;
  }

  /** ANNprTempStore: the state every node handler of one search reads and updates. */
  class PrTempStore {
    /** ANNprMaxErr */
    const maxErr: real
    /** ANNprDim */
    const dim: nat
    /** ANNprQ */
    const q: Point
    /** ANNprPts */
    const pts: seq<Point>
    /** ANNptsVisited */
    var visited: nat
    /** ANNprBoxPQ */
    var boxPQ: seq<Entry>
    /** ANNprPointMK */
    var pointMK: MinKSet

    /** The store as annkPriSearch fills it in: the error factor, the query and points,
        no point visited, an empty selector of capacity k and the root queued at its distance. */
    constructor (eps: real, dim: nat, q: Point, pts: seq<Point>, k: nat, rootDist: int, root: Tree)
      ensures maxErr == ErrorMultiplier(eps) && this.dim == dim && this.q == q && this.pts == pts
      ensures visited == 0 && pointMK == Empty(k)
      ensures boxPQ == [Entry(rootDist, root)]
    {
      maxErr := ErrorMultiplier(eps);
      this.dim := dim;
      this.q := q;
      this.pts := pts;
      visited := 0;
      pointMK := Empty(k);
      boxPQ := PrQueue.Insert([], rootDist, root);
    }

    /** ANNkd_leaf::ann_pri_search: scans the bucket into the selector and counts its
        points as visited; nothing else in the store changes. */
    method LeafPriSearch(t: Tree, boxDist: int)
      requires IsLeaf(t) && IdsInRange(Bucket(t), |pts|) && Valid(pointMK)
      modifies this
      ensures pointMK == InsertAll(old(pointMK), BucketPairs(q, pts, Bucket(t)))
      ensures visited == old(visited) + |Bucket(t)|
      ensures boxPQ == old(boxPQ)
    {
      pointMK := ScanBucket(q, pts, Bucket(t), pointMK);
      visited := visited + |Bucket(t)|;
    }

    /** ann_pri_search on a node of either kind, as both the driver and the splitting
        node's handler call it: a splitting node's handler unless the node is a leaf
        (KD_TRIVIAL included), the leaf's handler otherwise. Either way the far entries
        of the descent from t are appended to the queue and the leaf it ends in is scanned. */
    method PriSearch(t: Tree, boxDist: int)
      requires Shaped(t, |pts|) && Valid(pointMK)
      modifies this
      decreases t, 1
      ensures boxPQ == old(boxPQ) + FarEntries(q, t, boxDist)
      ensures pointMK == InsertAll(old(pointMK), BucketPairs(q, pts, Bucket(NearLeaf(q, t))))
      ensures visited == old(visited) + |Bucket(NearLeaf(q, t))|
    {
      if !IsLeaf(t) {
        SplitPriSearch(t, boxDist);
      } else {
        LeafPriSearch(t, boxDist);
        assert FarEntries(q, t, boxDist) == [];
      }
    }

    /** ANNkd_split::ann_pri_search: queues the far child (unless it is KD_TRIVIAL) at the
        incrementally updated distance and continues in the near child with the same distance.
        The effect is that of a descent along the near path: its far entries are appended to
        the queue and the leaf it ends in is scanned. */
    method SplitPriSearch(t: Tree, boxDist: int)
      requires t.Split? && Shaped(t, |pts|) && Valid(pointMK)
      modifies this
      decreases t, 0
      ensures boxPQ == old(boxPQ) + FarEntries(q, t, boxDist)
      ensures pointMK == InsertAll(old(pointMK), BucketPairs(q, pts, Bucket(NearLeaf(q, t))))
      ensures visited == old(visited) + |Bucket(NearLeaf(q, t))|
    {
      var cutDiff := q[t.cutDim] as int - t.cutVal as int;
      var near: Tree;
      if cutDiff < 0 {
        var boxDiff := t.loBnd as int - q[t.cutDim] as int;
        if boxDiff < 0 {
          boxDiff := 0;
        }
        var newDist := boxDist + (cutDiff * cutDiff - boxDiff * boxDiff);
        assert newDist == FarDist(q, t, boxDist);
        if t.high != Trivial {
          boxPQ := PrQueue.Insert(boxPQ, newDist, t.high);
        }
        near := t.low;
      } else {
        var boxDiff := q[t.cutDim] as int - t.hiBnd as int;
        if boxDiff < 0 {
          boxDiff := 0;
        }
        var newDist := boxDist + (cutDiff * cutDiff - boxDiff * boxDiff);
        assert newDist == FarDist(q, t, boxDist);
        if t.low != Trivial {
          boxPQ := PrQueue.Insert(boxPQ, newDist, t.low);
        }
        near := t.high;
      }
      ghost var far := FarChild(q, t);
      ghost var head := if far == Trivial then [] else [Entry(FarDist(q, t, boxDist), far)];
      assert near == NearChild(q, t) && NearLeaf(q, t) == NearLeaf(q, near);
      assert boxPQ == old(boxPQ) + head;
      assert FarEntries(q, t, boxDist) == head + FarEntries(q, near, boxDist);
      PriSearch(near, boxDist);
      assert boxPQ == (old(boxPQ) + head) + FarEntries(q, near, boxDist);
      AppendAssoc(old(boxPQ), head, FarEntries(q, near, boxDist));
    }

    /** One pass of the loop of annkPriSearch: extract a closest box (entry i, of least
        key) from the queue; if its distance times maxErr reaches max_key(), report that
        the search stops; otherwise dispatch to the node's handler, which scans one leaf of
        at most bound points (the largest bucket below any queued node) and counts them.
        StepTaken gives the new queue and selector in terms of the old ones. On going on,
        the invariant holds with the leaf's points added to those seen (b), and the
        queue's weight has dropped. On
        stopping, the selector is full and unchanged, and in a correctly built tree
        (boxed) and for maxErr >= 1 no point is closer than the k-th by more than maxErr. */
    method SearchStep(ghost all: multiset<KeyInfo>, ghost seen: multiset<KeyInfo>, ghost k: nat, ghost boxed: bool,
                      ghost bound: nat)
      returns (stop: bool, ghost b: seq<KeyInfo>, ghost i: int)
      requires NonEmpty(boxPQ) && SearchInv(q, pts, all, seen, boxPQ, pointMK, k, boxed)
      requires QueueBucketsWithin(boxPQ, bound)
      modifies this
      ensures StepTaken(q, pts, maxErr, old(boxPQ), old(pointMK), i, stop, b, boxPQ, pointMK)
      ensures !stop ==> SearchInv(q, pts, all, seen + multiset(b), boxPQ, pointMK, k, boxed)
      ensures !stop ==> Weight(boxPQ) < old(Weight(boxPQ))
      ensures visited == old(visited) + |b| && |b| <= bound
      ensures !stop ==> QueueBucketsWithin(boxPQ, bound)
      ensures stop ==> b == [] && pointMK == old(pointMK) && |pointMK.mk| == k
      ensures stop && boxed && maxErr >= 1.0 ==> Approximate(pointMK, all, maxErr)
    {
      ghost var pq, s, v := boxPQ, pointMK, visited;
      assert Valid(s) && s.k == k by {
        SearchInvSeen(q, pts, all, seen, pq, s, k, boxed);
      }
      var e, rest := ExtrMin(boxPQ);
      i :| 0 <= i < |pq| && e == pq[i] && rest == pq[..i] + pq[i + 1..];
      assert IsMinAt(pq, i);
      boxPQ := rest;
      assert visited == v && pointMK == s;
      stop := Prunes(e.key, maxErr, MaxKey(pointMK));
      b := [];
      if stop {
        assert StepTaken(q, pts, maxErr, pq, s, i, stop, b, boxPQ, pointMK) by {
          assert pointMK == s && boxPQ == pq[..i] + pq[i + 1..];
        }
        if boxed && maxErr >= 1.0 {
          PruneStep(q, pts, all, seen, pq, i, s, k, maxErr);
        }
        return;
      }
      b := BucketPairs(q, pts, Bucket(NearLeaf(q, e.node)));
      ghost var next := rest + FarEntries(q, e.node, e.key);
      assert SearchInv(q, pts, all, seen + multiset(b), next, InsertAll(s, b), k, boxed) && Weight(next) < Weight(pq) by {
        ExtractStep(q, pts, all, seen, pq, i, s, k, boxed);
      }
      assert |b| == |Bucket(NearLeaf(q, e.node))| <= bound && QueueBucketsWithin(next, bound) by {
        BucketsStep(q, pq, i, bound);
      }
      assert Shaped(e.node, |pts|);
      PriSearch(e.node, e.key);
      assert StepTaken(q, pts, maxErr, pq, s, i, stop, b, boxPQ, pointMK) by {
        assert boxPQ == rest + FarEntries(q, e.node, e.key) && pointMK == InsertAll(s, b);
      }
    }

    /** The loop of annkPriSearch: while the queue is not empty and, with a cap
        (maxPtsVisited != 0), no more than maxPtsVisited points were visited, take one
        step; stop when the step's pruning test says so. Ghost results: the pairs scanned
        (seen), whether the pruning test stopped the search, and the entry it stopped at
        (last), whose key was no larger than any entry still queued. visited counts exactly the
        pairs scanned. Unless the test stopped it, the loop ended because the queue is empty
        or the cap was exceeded; and with a cap, visited overshoots it by at most one leaf,
        of at most bound points. On return the selector holds k smallest pairs seen, all
        points of the tree; when the cap is 0 or at least the number of points and the test
        did not stop the search, every point was seen; when the test did, the selector is
        full and, in a correctly built tree (boxed) and for maxErr >= 1, no point is closer
        than the k-th by more than the factor maxErr. The ghost trace records the passes:
        it is a Run from the starting queue and selector to the final ones (every pass
        extracts a least entry and tests it; only the last may stop, and it stops exactly
        when the search was pruned), the selector is the starting one with the scanned
        pairs inserted in scan order, and in a correctly built tree the boxes came out in
        order of increasing distance. */
    method Search(maxPtsVisited: nat, ghost all: multiset<KeyInfo>, ghost k: nat, ghost boxed: bool, ghost bound: nat)
      returns (ghost seen: multiset<KeyInfo>, ghost pruned: bool, ghost last: Entry, ghost trace: seq<Pass>)
      requires visited == 0 && SearchInv(q, pts, all, multiset{}, boxPQ, pointMK, k, boxed)
      requires QueueBucketsWithin(boxPQ, bound)
      modifies this
      ensures visited == |seen|
      ensures maxPtsVisited != 0 ==> visited <= maxPtsVisited + bound
      ensures !pruned ==> boxPQ == [] || (maxPtsVisited != 0 && visited > maxPtsVisited)
      ensures KSmallest(pointMK, seen) && pointMK.k == k && seen <= all
      ensures !pruned && (maxPtsVisited == 0 || |all| <= maxPtsVisited) ==> seen == all
      ensures pruned ==> |pointMK.mk| == k
      ensures pruned ==> Prunes(last.key, maxErr, MaxKey(pointMK)) && forall j :: 0 <= j < |boxPQ| ==> last.key <= boxPQ[j].key
      ensures pruned && boxed && maxErr >= 1.0 ==> Approximate(pointMK, all, maxErr)
      ensures Run(q, pts, maxErr, old(boxPQ), old(pointMK), trace, boxPQ, pointMK)
      ensures pruned == Stopped(trace)
      ensures boxed ==> KeysInOrder(trace)
      ensures pointMK == InsertAll(old(pointMK), Scanned(trace))
    {
      ghost var pq0, s0 := boxPQ, pointMK;
      seen, pruned, last, trace := multiset{}, false, Entry(0, Trivial), [];
      while NonEmpty(boxPQ) && !(maxPtsVisited != 0 && visited > maxPtsVisited)
        invariant SearchInv(q, pts, all, seen, boxPQ, pointMK, k, boxed)
        invariant !pruned && visited == |seen|
        invariant QueueBucketsWithin(boxPQ, bound)
        invariant maxPtsVisited != 0 ==> visited <= maxPtsVisited + bound
        invariant Traced(q, pts, maxErr, pq0, s0, trace, boxPQ, pointMK)
        decreases Weight(boxPQ)
      {
        ghost var pq, s := boxPQ, pointMK;
        var stop, b, i := SearchStep(all, seen, k, boxed, bound);
        trace := TraceStep(q, pts, maxErr, pq0, s0, trace, pq, s, i, stop, b, boxPQ, pointMK);
        if stop {
          SearchInvSeen(q, pts, all, seen, pq, s, k, boxed);
          StopIsLeast(q, pts, maxErr, pq, s, i, b, boxPQ, pointMK);
          pruned, last := true, pq[i];
          break;
        }
        assert |multiset(b)| == |b|;
        seen := seen + multiset(b);
      }
      RunOutcome(q, pts, maxErr, pq0, s0, trace, boxPQ, pointMK, boxed);
      if !pruned {
        SearchInvSeen(q, pts, all, seen, boxPQ, pointMK, k, boxed);
        SubMultisetSize(seen, all);
      }
    }
  }

  /** The neighbours the caller receives: the pairs (dd[i], nn_idx[i]) up to the first
      slot left at infinity. */
  function Reported(dd: seq<Bound>, nn: seq<Option<nat>>): (r: seq<KeyInfo>)
    ensures |r| <= |dd|
  {
    if |dd| == 0 || |nn| == 0 || !dd[0].Finite? || !nn[0].Some? then []
    else [KeyInfo(dd[0].value, nn[0].value)] + Reported(dd[1..], nn[1..])
  }

  /** The outputs of a selector's entries mk, padded with infinity and no index, report mk. */
  lemma {:induction false} ReportedOutputs(mk: seq<KeyInfo>, dd: seq<Bound>, nn: seq<Option<nat>>)
    requires |mk| <= |dd| == |nn|
    requires forall i :: 0 <= i < |dd| ==>
               dd[i] == (if i < |mk| then Finite(mk[i].key) else Infinite) &&
               nn[i] == (if i < |mk| then Some(mk[i].info) else None)
    ensures Reported(dd, nn) == mk
  {
    if |mk| > 0 {
      ReportedOutputs(mk[1..], dd[1..], nn[1..]);
    }
  }

  /** The copy-out loop of annkPriSearch: dd[i] = ith_smallest_key(i) and
      nn_idx[i] = ith_smallest_info(i) for i in [0, k). The slots report exactly the
      selector's entries, smallest first, and the slots past them hold infinity. */
  method ExtractResults(s: MinKSet) returns (dd: seq<Bound>, nnIdx: seq<Option<nat>>)
    requires Valid(s)
    ensures |dd| == s.k && |nnIdx| == s.k
    ensures Reported(dd, nnIdx) == s.mk
    ensures forall i :: 0 <= i < |s.mk| ==> dd[i] == Finite(s.mk[i].key) && nnIdx[i] == Some(s.mk[i].info)
    ensures forall i :: |s.mk| <= i < s.k ==> dd[i] == Infinite && nnIdx[i] == None
  {
    dd, nnIdx := [], [];
    var i := 0;
    while i < s.k
      invariant 0 <= i <= s.k && |dd| == i && |nnIdx| == i
      invariant forall j :: 0 <= j < i ==> dd[j] == IthSmallestKey(s, j) && nnIdx[j] == IthSmallestInfo(s, j)
    {
      dd := dd + [IthSmallestKey(s, i)];
      nnIdx := nnIdx + [IthSmallestInfo(s, i)];
      i := i + 1;
    }
    ReportedOutputs(s.mk, dd, nnIdx);
  }

  /** ANNkd_tree::annkPriSearch: the k (approximate) nearest neighbours of q among the
      points of the tree. Boxes are taken from the queue closest first; the search stops
      when the queue is empty, when more than maxPtsVisited points were scanned (0 meaning
      no cap), or at the first box whose distance times (1 + eps)^2 reaches the k-th
      distance found. The outputs are the selector's entries in ascending order, padded with
      infinity. Every reported neighbour is a point of the tree at its true squared
      distance, each at most once. A cap that is 0 or at least the number of points never
      stops the search early, since visited counts the points scanned; with such a cap a
      short answer holds every point, and in a correctly built tree and for eps >= 0, no point left out is closer
      than the k-th reported by more than the factor (1 + eps)^2 on squared distance
      (exactly the k nearest for eps = 0). */
  method KPriSearch(tree: KdTree, q: Point, k: nat, eps: real, maxPtsVisited: nat)
    returns (dd: seq<Bound>, nnIdx: seq<Option<nat>>)
    requires 1 <= k && tree.dim == Dim && Shaped(tree.root, |tree.pts|)
    ensures |dd| == k && |nnIdx| == k
    ensures var r := Reported(dd, nnIdx);
            && (forall i :: 0 <= i < |r| ==> dd[i] == Finite(r[i].key) && nnIdx[i] == Some(r[i].info))
            && (forall i :: |r| <= i < k ==> dd[i] == Infinite && nnIdx[i] == None)
    ensures Sorted(Reported(dd, nnIdx))
    ensures forall x :: x in Reported(dd, nnIdx) ==> x.info < |tree.pts| && x.key == SqDist(q, tree.pts[x.info])
    ensures multiset(Reported(dd, nnIdx)) <= multiset(TreePairs(q, tree.pts, tree.root))
    ensures (maxPtsVisited == 0 || |TreePairs(q, tree.pts, tree.root)| <= maxPtsVisited) && |Reported(dd, nnIdx)| < k ==>
              multiset(Reported(dd, nnIdx)) == multiset(TreePairs(q, tree.pts, tree.root))
    ensures (maxPtsVisited == 0 || |TreePairs(q, tree.pts, tree.root)| <= maxPtsVisited) && eps >= 0.0 && Boxed(tree.root, tree.bndBoxLo, tree.bndBoxHi, tree.pts) ==>
              Approximate(MinKSet(k, Reported(dd, nnIdx)), multiset(TreePairs(q, tree.pts, tree.root)), ErrorMultiplier(eps))
    ensures (maxPtsVisited == 0 || |TreePairs(q, tree.pts, tree.root)| <= maxPtsVisited) && eps == 0.0 && Boxed(tree.root, tree.bndBoxLo, tree.bndBoxHi, tree.pts) ==>
              KSmallest(MinKSet(k, Reported(dd, nnIdx)), multiset(TreePairs(q, tree.pts, tree.root)))
  {
    var pts, root := tree.pts, tree.root;
    var boxDist := BoxDistance(q, tree.bndBoxLo, tree.bndBoxHi);
    var store := new PrTempStore(eps, tree.dim, q, pts, k, boxDist, root);
    ghost var all := multiset(TreePairs(q, pts, root));
    ghost var boxed := Boxed(root, tree.bndBoxLo, tree.bndBoxHi, pts);
    SearchStart(q, pts, root, tree.bndBoxLo, tree.bndBoxHi, k);
    ghost var seen: multiset<KeyInfo>;
    ghost var pruned: bool;
    ghost var last: Entry;
    ghost var trace: seq<Pass>;
    assert QueueBucketsWithin(store.boxPQ, MaxBucket(root));
    seen, pruned, last, trace := store.Search(maxPtsVisited, all, k, boxed, MaxBucket(root));
    ghost var exhausted := !pruned && (maxPtsVisited == 0 || |all| <= maxPtsVisited);
    SearchOutcome(q, pts, root, seen, store.pointMK, store.maxErr, exhausted);
    dd, nnIdx := ExtractResults(store.pointMK);
    ApproximateOne(store.pointMK, all);
  }
}
