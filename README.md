# Priority k-nearest-neighbour search in a kd-tree (ANN 1.1, "char" build)

This project models the priority ("best-bin-first") search of the ANN library, as
built for byte coordinates with 128-dimensional points. The search runs over a
prebuilt, read-only kd-tree and proves what the search guarantees.

- **Driver.** `annkPriSearch` turns eps into the squared error factor (1 + eps)^2. It queues
  the root at the distance of the tree's bounding box, then repeatedly extracts the
  closest box. It stops when the queue is empty, when the visited-points cap is exceeded,
  or when the pruning test `box_dist * maxErr >= max_key()` holds. At the end it copies
  the k best pairs out of the bounded selector.
- **Split handler.** A splitting node queues its far child (unless that child is
  KD_TRIVIAL) at the incrementally updated distance
  `box_dist + cut_diff^2 - box_diff^2`. It then continues in the near child with the same
  distance.
- **Leaf handler (scalar path).** For each bucket point, the leaf sums the squared
  differences over 4 blocks of 32 coordinates. It abandons the point after any block whose
  partial sum exceeds the current k-th distance, and inserts points that survive into the
  selector. It counts the bucket's points as visited.

Modules:

- `Geometry` (geometry.dfy): coordinates (0..255), 128-coordinate points, the squared
  point distance and the squared point-to-box distance (`annBoxDistance`).
- `MinK` (min_k.dfy): the bounded best-k selector `ANNmin_k`, as a sorted sequence of at
  most k (key, info) pairs. `KSmallest` states that it holds k smallest pairs of what it
  has been offered.
- `KdTree` (kd_tree.dfy): the tree as a datatype (`Split`, `Leaf`, `Trivial`). It defines
  the pairs of the points below a node, and `Boxed`, a correctly built tree whose cells are
  boxes.
- `PrQueue` (pr_queue.dfy): the box queue `ANNpr_queue` as a sequence of (key, node)
  entries. `ExtrMin` removes some entry of least key.
- `PriSpec` (priority_spec.dfy): one node visit as functions (near child, far child, far
  distance, entries a descent queues, leaf it ends in), the loop invariant `SearchInv`,
  and the lemmas that carry the search's guarantees.
- `PriSearch` (kd_pr_search.dfy): the imperative code. `ANNprTempStore` is a class whose
  methods are the two node handlers, one pass of the search loop and the loop itself
  (`PrTempStore.Search`). The other loops of the file are methods with loop invariants
  too: the leaf's bucket scan (`ScanBucket`), its blocked distance (`BlockedDist`) and the
  copy-out (`ExtractResults`). The driver `KPriSearch` has no loop of its own; it calls
  these methods.

The main theorem is the contract of `PriSearch.KPriSearch`:

- Every reported neighbour is a point of the tree at its true squared distance.
- Reported neighbours come in ascending order, and no point is reported more often than
  it occurs.
- With no cap (cap 0), or a cap at least the number of points, a short answer holds
  every point.
- Under the same condition, in a correctly built tree and for eps >= 0, no point left out is closer
  than the k-th reported one by more than the factor (1 + eps)^2 on squared distance.
- Under the same cap condition and in a correctly built tree, for eps = 0 the answer is
  exactly k nearest points.

The loop `PriSearch.PrTempStore.Search` also states what the cap does. `visited` counts
exactly the points scanned. Each pass extracts an entry of least key, and the pruning
test on that key decides whether the search stops (`PriSpec.StepTaken`). The loop ends only
when the queue is empty, the cap is exceeded or the pruning test fires, and in the last
case at an entry no farther than any entry still queued. With a cap, `visited` exceeds it by at most the
largest bucket of the tree.

The loop also returns a ghost trace of its passes (`PriSpec.Pass`). The trace is a
`PriSpec.Run` from the starting queue and selector to the final ones: each pass is a
`StepTaken` that starts where the one before it ended, and no pass but the last stops. The
last pass stops exactly when the pruning test ended the search (`PriSpec.Stopped`). The
final selector is the starting one with the scanned pairs inserted in scan order
(`PriSpec.Scanned`). In a correctly built tree the boxes come out in order of increasing
distance (`PriSpec.KeysInOrder`), which is the visiting order the file's header comment
describes.

## Model

| member | source | states |
|---|---|---|
| PriSearch.KPriSearch | lib/ann_1.1_char_fast/src/kd_pr_search.cpp:95-147 | k output slots. The reported pairs are the selector's entries padded with infinity / no index. They are sorted, genuine (true squared distance of an existing point) and a sub-multiset of the tree's points. With cap 0 or a cap of at least the number of points, fewer than k results means all points. Under the same condition, with eps >= 0 and a correctly built tree, no point left out is closer than the k-th by more than (1+eps)^2. With eps = 0 the results are k smallest. |
| PriSearch.ErrorMultiplier | lib/ann_1.1_char_fast/src/kd_pr_search.cpp:100-106 | The multiplier is never negative, at least 1 for eps >= 0, and exactly 1 for eps = 0. |
| PriSearch.PrTempStore.constructor | lib/ann_1.1_char_fast/src/kd_pr_search.cpp:103-121 | The store starts with the factor (1+eps)^2, the query, the points, 0 visited, an empty selector of capacity k, and a queue holding only the root at the given distance. |
| PriSpec.SearchStart | lib/ann_1.1_char_fast/src/kd_pr_search.cpp:114-121 | The seeded state satisfies the loop invariant: every point of the tree lies below the one queued entry, nothing is seen, the empty selector holds k smallest of nothing, and the root entry is exact in a correctly built tree. |
| PriSearch.PrTempStore.Search | lib/ann_1.1_char_fast/src/kd_pr_search.cpp:123-138 | Starting from visited = 0, visited ends equal to the number of points scanned. Unless the pruning test stopped the loop, it ended because the queue is empty or because cap != 0 and visited > cap. With a cap, visited <= cap + bound, where bound is the largest bucket below any queued node. Afterwards the selector holds k smallest pairs seen, all of which are tree points. With cap 0 or a cap of at least the number of points, and no pruning stop, every point was seen. If the pruning test stopped it, it did so at an entry (last) whose key times maxErr reaches max_key() and is no larger than any key still queued; the selector is full and (boxed, maxErr >= 1) within maxErr. The ghost trace is a Run of StepTaken passes from the starting queue and selector to the final ones, in which only the last pass may stop, and it stops exactly when the search was pruned. The final selector is the starting one after offering the scanned pairs in scan order. In a correctly built tree the extracted keys never decrease. |
| PriSearch.PrTempStore.SearchStep | lib/ann_1.1_char_fast/src/kd_pr_search.cpp:125-137 | One pass, stated as StepTaken: entry i of least key is extracted, and stop holds exactly when its key times maxErr reaches the old max_key(). On stopping the queue is the old one without entry i and the selector is unchanged; on going on the queue is the old one without entry i plus the far entries of the descent from it, and the selector is the old one after offering b, the pairs of the leaf that descent ends in. Either the pruning test holds, nothing is scanned, the selector is left unchanged and full, and the approximation bound holds; or the node is dispatched, the invariant is kept with the leaf's pairs added to those seen, and the queue weight drops. visited grows by exactly the pairs scanned, which are at most bound, and every queued node keeps buckets of at most bound. |
| PriSpec.StepKeepsOrder | lib/ann_1.1_char_fast/src/kd_pr_search.cpp:43-47 | In a correctly built tree, after a pass that goes on, every queued key is at least the key just extracted, so the next extraction is no nearer. |
| PriSpec.FarEntriesAbove | lib/ann_1.1_char_fast/src/kd_pr_search.cpp:165-190 | In a correctly built subtree, every box a descent queues is at least as far as the distance the descent started from. |
| PriSpec.StepKeepsExact | lib/ann_1.1_char_fast/src/kd_pr_search.cpp:125-137 | A pass keeps every queued key equal to its own cell's box distance. |
| PriSpec.PassInOrder | lib/ann_1.1_char_fast/src/kd_pr_search.cpp:43-47 | In a correctly built tree, a pass's extracted key is no larger than any key left queued after it, and the queue stays exact. |
| PriSpec.RunInOrder | lib/ann_1.1_char_fast/src/kd_pr_search.cpp:43-47 | Over a whole run in a correctly built tree the extracted keys never decrease, the last one is no larger than any key still queued, and the queue stays exact. |
| PriSpec.KeysInOrderPairwise | lib/ann_1.1_char_fast/src/kd_pr_search.cpp:43-45 | Keys in order means ordered pairwise: no later pass extracts a nearer box than an earlier one. |
| PriSpec.NoneNearerAll | lib/ann_1.1_char_fast/src/kd_pr_search.cpp:43-45 | NoneNearer holds exactly when every queued key is at least the given key (both directions). |
| PriSpec.RunSelector | lib/ann_1.1_char_fast/src/kd_pr_search.cpp:123-137 | After a run the selector is the starting one after offering every scanned pair, pass by pass, in scan order. |
| PriSpec.RunExtend | lib/ann_1.1_char_fast/src/kd_pr_search.cpp:123-137 | A pass that starts where a run ended, after a pass that did not stop, extends the run to where the pass ends. |
| PriSpec.TraceStep | lib/ann_1.1_char_fast/src/kd_pr_search.cpp:123-137 | Appending a pass to a run that has not stopped gives a run to the pass's end state, stopped exactly when the pass stopped. |
| PriSpec.RunOutcome | lib/ann_1.1_char_fast/src/kd_pr_search.cpp:123-138 | What the loop's trace tells once it is over: the selector is the starting one with the scanned pairs inserted, and in a correctly built tree the keys came out in order. |
| MinK.InsertAllAppend | lib/ann_1.1_char_fast/src/kd_pr_search.cpp:272 | Offering xs and then ys is the same as offering xs + ys. |
| PriSpec.StopIsLeast | lib/ann_1.1_char_fast/src/kd_pr_search.cpp:128-132 | A pass that stops does so because the extracted key times maxErr reaches max_key(), at a key no larger than any entry left in the queue. |
| PriSpec.PruneStep | lib/ann_1.1_char_fast/src/kd_pr_search.cpp:128-132 | Stopping at a least entry whose key times m >= 1 reaches max_key() leaves no point outside the selector closer than the k-th by more than m. |
| PriSpec.PrunedIsApproximate | lib/ann_1.1_char_fast/src/kd_pr_search.cpp:43-52 | The doc-comment's termination argument: every unreported point was beaten by the k-th, or lies below a queued box at least the least key away, and that key times m reaches the k-th key. |
| PriSpec.ExtractStep | lib/ann_1.1_char_fast/src/kd_pr_search.cpp:125-137 | Removing entry i and descending from it keeps the invariant: each point is seen or queued exactly once, the selector holds k smallest seen, and queued keys stay exact. The queue's weight strictly decreases. |
| PriSpec.SearchInvSeen | lib/ann_1.1_char_fast/src/kd_pr_search.cpp:123-124 | Under the invariant, the seen pairs are tree points, the selector holds k smallest of them, and an empty queue means every point was seen. |
| PriSpec.SearchOutcome | lib/ann_1.1_char_fast/src/kd_pr_search.cpp:138-143 | After the loop the selector's entries are genuine tree points. If the queue ran empty, a non-full selector holds every point and any m >= 1 bound holds. |
| PriSearch.PrTempStore.PriSearch | lib/ann_1.1_char_fast/src/kd_pr_search.cpp:134-137 | Dispatch on isLeaf (KD_TRIVIAL counts as a leaf). The queue gains exactly the far entries of the near-path descent, the selector gets the near leaf's pairs, and visited grows by that leaf's bucket size. |
| PriSearch.PrTempStore.SplitPriSearch | lib/ann_1.1_char_fast/src/kd_pr_search.cpp:153-201 | Near child by the sign of cut_diff. The far child, unless KD_TRIVIAL, is queued at box_dist + cut_diff^2 - box_diff^2. The near child is searched with unchanged box_dist. The net effect is the descent's far entries appended and its one leaf scanned. |
| PriSearch.PrTempStore.LeafPriSearch | lib/ann_1.1_char_fast/src/kd_pr_search.cpp:209-318 | The selector becomes the old selector after offering every bucket pair in order. visited grows by exactly the bucket size. The queue is unchanged. |
| PriSearch.ScanBucket | lib/ann_1.1_char_fast/src/kd_pr_search.cpp:225-275 | The bucket loop with min_dist re-read after each insert equals offering every bucket point at its full distance in order; the early exit loses nothing. |
| PriSearch.BlockedDist | lib/ann_1.1_char_fast/src/kd_pr_search.cpp:239-267 | 4 x 32 blocked sum with exit after a block exceeding min_dist. Complete means the full squared distance. Abandoned means the partial sum exceeds min_dist and is at most the full distance. The sum stays within 0..2^31-1. |
| PriSearch.ExtractResults | lib/ann_1.1_char_fast/src/kd_pr_search.cpp:140-143 | k slots. dd[i] and nn_idx[i] are the i-th smallest key and info. Slots past the entries hold infinity / no index. The filled slots report exactly the selector's entries. |
| PriSearch.ReportedOutputs | lib/ann_1.1_char_fast/src/kd_pr_search.cpp:140-143 | Slots filled from the entries and padded with infinity read back as exactly those entries. |
| PriSpec.FarDistMonotone | lib/ann_1.1_char_fast/src/kd_pr_search.cpp:159-188 | When lo <= cut_val <= hi, the far child's key is never below the parent's box_dist. |
| PriSpec.SplitDistances | lib/ann_1.1_char_fast/src/kd_pr_search.cpp:157-188 | In a correctly built tree, the near half-cell's box distance equals the parent's, and the far half-cell's equals box_dist + cut_diff^2 - box_diff^2. The incremental update is exact. |
| PriSpec.FarEntriesExact | lib/ann_1.1_char_fast/src/kd_pr_search.cpp:165-190 | Every entry a descent from an exactly keyed node queues is keyed by its own cell's box distance. |
| PriSpec.FarEntries | lib/ann_1.1_char_fast/src/kd_pr_search.cpp:169-196 | A descent queues at most one entry per splitting node on its near path, never a KD_TRIVIAL node, and only nodes of the point set. |
| PriSpec.NearLeaf | lib/ann_1.1_char_fast/src/kd_pr_search.cpp:173-196 | A descent ends in exactly one leaf, with bucket indices in range and size at most the subtree's. |
| PriSpec.FarEntriesConserve | lib/ann_1.1_char_fast/src/kd_pr_search.cpp:153-197 | The subtree's points equal, as a multiset, the near leaf's bucket plus the points below the queued far entries. Nothing is lost or duplicated. |
| PriSpec.FarEntriesWeight | lib/ann_1.1_char_fast/src/kd_pr_search.cpp:123-137 | The entries a descent queues hold fewer nodes than the subtree it starts from. This is the termination measure. |
| PriSpec.EntryLowerBound | lib/ann_1.1_char_fast/src/kd_pr_search.cpp:43-52 | An exact entry's key is at most the distance of every point below it and fits in 32 bits. |
| PriSpec.QueueLowerBound | lib/ann_1.1_char_fast/src/kd_pr_search.cpp:43-52 | A lower bound on all exact queued keys bounds every point below the queue. |
| PriSpec.ExactIsApproximate | lib/ann_1.1_char_fast/src/kd_pr_search.cpp:48-52 | Holding k smallest pairs implies the factor-m bound for any m >= 1. |
| PriSpec.ApproximateOne | lib/ann_1.1_char_fast/src/kd_pr_search.cpp:48-52 | The factor-1 bound is exactly "k smallest" (both directions). |
| PriSpec.PrunedBound | lib/ann_1.1_char_fast/src/kd_pr_search.cpp:131-132 | If every pair not yet seen is at least b and b * m >= max_key(), the selector is within m of all pairs. |
| KdTree.BoxedLowerBound | lib/ann_1.1_char_fast/src/kd_pr_search.cpp:43-48 | A cell's box distance is at most the squared distance of every point below the node. |
| KdTree.TreePairsGenuine | lib/ann_1.1_char_fast/src/kd_pr_search.cpp:234-239 | Every pair of a subtree names a point of the set at its true squared distance. |
| KdTree.BucketPairsGenuine | lib/ann_1.1_char_fast/src/kd_pr_search.cpp:234-239 | The i-th bucket pair is (squared distance of point bkt[i], bkt[i]). |
| KdTree.BoxedWithinCell | lib/ann_1.1_char_fast/src/kd_pr_search.cpp:43-48 | Every point below a correctly built node lies in its cell. |
| Geometry.SqDistPrefixMono | lib/ann_1.1_char_fast/src/kd_pr_search.cpp:258-267 | Partial sums of squared differences never decrease, so abandoning a point after a partial sum exceeds min_dist is admissible. |
| Geometry.SqDistPrefixBound | lib/ann_1.1_char_fast/src/kd_pr_search.cpp:258-262 | Every partial sum is at most n * 255^2 and fits a 32-bit signed ANNdist. |
| Geometry.BoxDistanceLowerBound | lib/ann_1.1_char_fast/src/kd_pr_search.cpp:117-118 | The box distance is at most the squared distance to any point in the box. |
| Geometry.BoxDistanceOneDim | lib/ann_1.1_char_fast/src/kd_pr_search.cpp:65-70 | Boxes that differ in one dimension have distances that differ by that dimension's gap difference only. |
| Geometry.BoxDistPrefixBound | lib/ann_1.1_char_fast/src/kd_pr_search.cpp:117-118 | The box distance fits a 32-bit signed ANNdist. |
| MinK.Insert | lib/ann_1.1_char_fast/src/kd_pr_search.cpp:272 | The selector stays sorted with capacity k. Not full: the pair is added. Full and smaller than the max: the max is evicted. Full and not smaller: unchanged (ties at the max are not inserted). |
| MinK.MaxKey | lib/ann_1.1_char_fast/src/kd_pr_search.cpp:225 | Infinity exactly while fewer than k entries are held; otherwise the largest held key. |
| MinK.InsertSorted | lib/ann_1.1_char_fast/src/kd_pr_search.cpp:272 | Placing the pair adds exactly it (length +1, multiset + {x}). |
| MinK.InsertSortedSorted | lib/ann_1.1_char_fast/src/kd_pr_search.cpp:272 | Placing the pair keeps the entries sorted. |
| MinK.InsertAboveMax | lib/ann_1.1_char_fast/src/kd_pr_search.cpp:264-266 | Offering a pair whose distance exceeds a finite max_key() leaves the selector unchanged, so skipping an abandoned point is the same as inserting it. |
| MinK.InsertKeepsKSmallest | lib/ann_1.1_char_fast/src/kd_pr_search.cpp:272-273 | One insert keeps "holds k smallest of what was offered". |
| MinK.InsertAllKeepsKSmallest | lib/ann_1.1_char_fast/src/kd_pr_search.cpp:234-274 | A whole bucket of inserts keeps "holds k smallest of what was offered". |
| MinK.EvictionKSmallest | lib/ann_1.1_char_fast/src/kd_pr_search.cpp:272 | Evicting the max for a smaller pair keeps k smallest. |
| MinK.IgnoredKSmallest | lib/ann_1.1_char_fast/src/kd_pr_search.cpp:272 | Ignoring a pair no smaller than the max keeps k smallest. |
| MinK.NotFullHoldsAll | lib/ann_1.1_char_fast/src/kd_pr_search.cpp:140-143 | A selector that is not full holds every pair it was offered. |
| MinK.EmptyKSmallest | lib/ann_1.1_char_fast/src/kd_pr_search.cpp:114 | A fresh selector holds k smallest of nothing. |
| PriSpec.BucketsStep | lib/ann_1.1_char_fast/src/kd_pr_search.cpp:125-137 | Extracting entry i and descending from it scans a leaf of at most bound points, and every entry left in or added to the queue still has no bucket larger than bound. |
| PriSpec.NearLeafBucket | lib/ann_1.1_char_fast/src/kd_pr_search.cpp:173-196 | The leaf a descent ends in has at most as many points as the largest bucket of the subtree. |
| PriSpec.FarEntriesBuckets | lib/ann_1.1_char_fast/src/kd_pr_search.cpp:169-190 | Every node a descent queues has no bucket larger than the largest bucket of the subtree it starts from. |
| KdTree.MaxBucket | lib/ann_1.1_char_fast/src/kd_pr_search.cpp:234-317 | The largest bucket below a node: at a leaf exactly its n_pts, at a splitting node at least each child's. |
| PriSpec.CutDiff | lib/ann_1.1_char_fast/src/kd_pr_search.cpp:157 | cut_diff lies in -255..255 and is negative exactly when the query's coordinate is below cut_val (left of the cutting plane). |
| PriSpec.NearChild | lib/ann_1.1_char_fast/src/kd_pr_search.cpp:159-196 | The near child is one of the two children and a strictly smaller subtree. |
| PriSpec.FarChild | lib/ann_1.1_char_fast/src/kd_pr_search.cpp:169-190 | The far child is the other child: low when the near one is high and the reverse; a strictly smaller subtree. |
| PriSpec.BoxDiff | lib/ann_1.1_char_fast/src/kd_pr_search.cpp:160-183 | box_diff is at most 255; it is 0 when the query lies within the cell's bounds along the cutting dimension; when cut_val lies within those bounds it is at most abs(cut_diff). |
| PriSpec.FarDist | lib/ann_1.1_char_fast/src/kd_pr_search.cpp:165-187 | new_dist differs from box_dist by at most 255^2 in either direction. |
| PriSpec.Prunes | lib/ann_1.1_char_fast/src/kd_pr_search.cpp:131 | The test never fires while max_key() is infinite; for m >= 1 it always fires when box_dist is at least a finite max_key() >= 0; for m = 1 it fires exactly when box_dist >= max_key(). |
| Geometry.SqDist | lib/ann_1.1_char_fast/src/kd_pr_search.cpp:258-262 | The leaf's full squared distance fits in a 32-bit signed ANNdist. |
| Geometry.SqDistZero | lib/ann_1.1_char_fast/src/kd_pr_search.cpp:258-270 | The squared distance is zero exactly for the query point itself, which is therefore inserted at distance 0. |
| Geometry.BoxDistance | lib/ann_1.1_char_fast/src/kd_pr_search.cpp:118 | The root's box distance fits in a 32-bit signed ANNdist. |
| Geometry.BoxDistanceZero | lib/ann_1.1_char_fast/src/kd_pr_search.cpp:118 | The box distance is zero exactly when the query lies in the bounding box. |
| MinK.Empty | lib/ann_1.1_char_fast/src/kd_pr_search.cpp:114 | A fresh selector has capacity k, is valid for k >= 1, and its max_key() is infinite. |
| MinK.IthSmallestKey | lib/ann_1.1_char_fast/src/kd_pr_search.cpp:141 | Finite exactly for i below the number of entries held; never above a finite max_key(); for i = k - 1 it is max_key(). |
| MinK.IthSmallestInfo | lib/ann_1.1_char_fast/src/kd_pr_search.cpp:142 | An index exactly when the i-th key is finite, and that (key, index) pair is held by the selector. |
| MinK.InsertResultKSmallest | lib/ann_1.1_char_fast/src/kd_pr_search.cpp:272 | Any selector with Insert's contract (added when not full, max evicted for a smaller pair, unchanged otherwise) keeps k smallest. |
| MinK.NotFullKSmallest | lib/ann_1.1_char_fast/src/kd_pr_search.cpp:272 | Adding a pair to a selector that is not full keeps k smallest of what was offered. |
| PrQueue.NonEmpty | lib/ann_1.1_char_fast/src/kd_pr_search.cpp:123 | non_empty() holds exactly when the queue still holds some node. |
| KdTree.IsLeaf | lib/ann_1.1_char_fast/src/kd_pr_search.cpp:134 | isLeaf holds exactly for single-node trees: a leaf or KD_TRIVIAL. |
| KdTree.Bucket | lib/ann_1.1_char_fast/src/kd_pr_search.cpp:134 | KD_TRIVIAL dispatches as a leaf with an empty bucket; a leaf's bucket indices are in range exactly when the leaf is correctly built. |
| PrQueue.ExtrMin | lib/ann_1.1_char_fast/src/kd_pr_search.cpp:128 | Returns an entry of least key and the queue with exactly that one occurrence removed. |
| PrQueue.Insert | lib/ann_1.1_char_fast/src/kd_pr_search.cpp:121 | The queue gains exactly the one entry. |
| PrQueue.RemoveAt | lib/ann_1.1_char_fast/src/kd_pr_search.cpp:128 | Removing an entry removes its node's weight and its points from the queue's totals. |

## Left out

- `__ANN_L1_FAST__` path (lines 220-222, 277-312): SSE intrinsics with an L1 metric,
  disabled in this build.
- Prefetch loop (lines 227-232): a hardware hint with no effect on results.
- Dead code (lines 241-255): the `#if 0` per-coordinate loop and its self-match test. Since
  the self-match test is also commented out at line 270, zero-distance points are
  inserted like any other.
- Commented-out globals and performance counters (lines 79-89, 199-200, 315-316).
- `new`/`delete` of the selector and queue (lines 114, 120, 145-146): the selector and
  queue are fresh values in the store. The queue capacity `n_pts` is not modelled; the
  queue is unbounded.
- `ANNmin_k`, `ANNpr_queue`, `annBoxDistance` and the kd node classes are declared in
  headers that are not part of this model. They are modelled from how this file uses them.
  The null-info value of `ith_smallest_info` past the entries becomes `None`.
- PrQueue.ExtrMin: returns some entry of least key. The heap's tie order is not
  modelled, so no determinism or idempotence property of the search is stated.
- PriSearch.ErrorMultiplier: eps and the multiplier are exact reals, not IEEE doubles.
  The pruning test at line 131 is therefore modelled without rounding.
- PriSearch.KPriSearch: requires `tree.dim == 128`. The leaf hard-codes a stride of 128
  (lines 229, 237) whatever `ANNprDim` is; the model makes that an explicit precondition.
- PriSearch.KPriSearch: requires k >= 1. The behaviour of `ANNmin_k` for k = 0 lives in a
  header that is not part of this model.
- PriSearch.KPriSearch: the completeness and approximation guarantees are proved only
  with cap 0 or a cap of at least the number of points. With a smaller cap the search may
  end early and only the genuine, sorted, sub-multiset properties are stated, together with
  the loop's exit condition and overshoot bound. Neither the doc-comment nor the code
  promises more for that case.
- PriSpec.Prunes / PriSearch.KPriSearch: the `max_key()` / `ith_smallest_key` sentinel
  (PQ_INF) is modelled as a true infinity, so the pruning test never fires on a selector
  that is not full. The header defining it is not part of this model. With a finite
  sentinel such as a 32-bit INT_MAX, a box distance up to 128 * 255^2 = 8,323,200 times
  (1+eps)^2 >= about 258 reaches it, so the test could fire on a non-full selector and a
  short answer would then not hold every point. The model makes three other assumptions
  about headers it does not have: ANNcoord is an unsigned byte (`Geometry.Coord`),
  ANNdist is a 32-bit signed int (`Geometry.Int32Max`), and the global `ANNmaxPtsVisited`
  is the `maxPtsVisited` parameter of `KPriSearch`.
- PriSearch.ExtractResults / PriSearch.KPriSearch: `dd` and `nn_idx` are arrays the caller
  owns and the copy-out loop (lines 140-143) writes in place. The model returns them as
  fresh sequences of length k, so it does not capture writing into caller storage, its
  aliasing with other data, or what the arrays held before.
- PriSpec.FarDist: new_dist (lines 165 and 185) is proved to fit a 32-bit signed ANNdist only in
  correctly built trees, where it is a cell's box distance (`PriSpec.EntryLowerBound`).
  For an arbitrary tree the model's integers are unbounded, so keys that repeated
  updates would push outside 32 bits are not wrapped.
- PriSearch.PrTempStore.Search: the ghost result `seen` (the pairs scanned, as a
  multiset) is not proved equal to the pairs of `Scanned(trace)`. The selector is tied to
  the trace (`pointMK == InsertAll(old(pointMK), Scanned(trace))`), and `seen` is tied to
  the tree and to `visited`, but the two records are kept separately.
- PriSearch.BlockedDist: integers are unbounded in the model; instead, every sum is proved to
  fit a 32-bit signed ANNdist, so no wrap-around can occur.
- The parameter comment at line 100 calls eps "ignored", but line 106 uses it; the model
  follows the code. No caller-error checks (k <= 0, negative eps, dimension mismatch)
  exist in the code, and none are modelled.
- Cell bounds of a split node are checked against its cell only in correctly built trees
  (`Boxed`). Tree construction is not part of this model.
