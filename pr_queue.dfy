/** The priority queue of boxes (ANNpr_queue): (squared box distance, node) entries;
    extr_min removes an entry of least key, ties broken arbitrarily. */
module PrQueue {
  import opened Geometry
  import opened KdTree

  datatype Entry = Entry(key: int, node: Tree)

  /** insert(kv, inf). */
  function Insert(pq: seq<Entry>, key: int, node: Tree): (r: seq<Entry>)
    ensures multiset(r) == multiset(pq) + multiset{Entry(key, node)}
  {
    pq + [Entry(key, node)]
  }

  /** non_empty(). */
  predicate NonEmpty(pq: seq<Entry>): (r: bool)
    ensures r <==> Weight(pq) > 0
  {
    |pq| > 0
  }

  predicate IsMinAt(pq: seq<Entry>, i: int)
  {
    0 <= i < |pq| && forall j :: 0 <= j < |pq| ==> pq[i].key <= pq[j].key
  }

  lemma {:induction false} MinExists(pq: seq<Entry>)
    requires pq != []
    ensures exists i :: IsMinAt(pq, i)
  {
    if |pq| > 1 {
      MinExists(pq[1..]);
      var i :| IsMinAt(pq[1..], i);
      if pq[0].key <= pq[1..][i].key {
        assert IsMinAt(pq, 0);
      } else {
        assert IsMinAt(pq, i + 1);
      }
    } else {
      assert IsMinAt(pq, 0);
    }
  }

  /** extr_min(kv, inf): some entry of least key, and the queue without it. */
  method ExtrMin(pq: seq<Entry>) returns (e: Entry, rest: seq<Entry>)
    requires NonEmpty(pq)
    ensures e in pq
    ensures forall j :: 0 <= j < |pq| ==> e.key <= pq[j].key
    ensures exists i :: 0 <= i < |pq| && e == pq[i] && rest == pq[..i] + pq[i + 1..]
  {
    MinExists(pq);
    var i :| IsMinAt(pq, i);
    e := pq[i];
    rest := pq[..i] + pq[i + 1..];
  }

  /** Total number of tree nodes still reachable from the queue. */
  function Weight(pq: seq<Entry>): nat
  {
    if pq == [] then 0 else Weight(pq[..|pq| - 1]) + Size(pq[|pq| - 1].node)
  }

  ghost predicate AllShaped(pq: seq<Entry>, n: nat)
  {
    forall i :: 0 <= i < |pq| ==> Shaped(pq[i].node, n)
  }

  /** The pairs of every point in the subtrees the queue holds. */
  ghost function QueuePairs(q: Point, pts: seq<Point>, pq: seq<Entry>): multiset<KeyInfo>
    requires AllShaped(pq, |pts|)
  {
    if pq == [] then multiset{}
    else QueuePairs(q, pts, pq[..|pq| - 1]) + multiset(TreePairs(q, pts, pq[|pq| - 1].node))
  }

  lemma {:induction false} WeightAppend(a: seq<Entry>, b: seq<Entry>)
    ensures Weight(a + b) == Weight(a) + Weight(b)
    decreases |b|
  {
    if b == [] {
      assert a + b == a;
    } else {
      var b' := b[..|b| - 1];
      assert (a + b)[..|a + b| - 1] == a + b';
      WeightAppend(a, b');
    }
  }

  /** Associativity of queue concatenation, over fresh variables so the solver never
      unfolds the queue's definition while doing it. */
  lemma AppendAssoc(a: seq<Entry>, b: seq<Entry>, c: seq<Entry>)
    ensures (a + b) + c == a + (b + c)
  {
  }

  lemma {:induction false} QueuePairsAppend(q: Point, pts: seq<Point>, a: seq<Entry>, b: seq<Entry>)
    requires AllShaped(a, |pts|) && AllShaped(b, |pts|)
    ensures AllShaped(a + b, |pts|)
    ensures QueuePairs(q, pts, a + b) == QueuePairs(q, pts, a) + QueuePairs(q, pts, b)
    decreases |b|
  {
    if b == [] {
      assert a + b == a;
    } else {
      var b' := b[..|b| - 1];
      assert (a + b)[..|a + b| - 1] == a + b';
      QueuePairsAppend(q, pts, a, b');
    }
  }

  /** Taking entry i out of the queue takes its node's weight and its points with it. */
  lemma {:induction false} RemoveAt(q: Point, pts: seq<Point>, pq: seq<Entry>, i: int)
    requires 0 <= i < |pq| && AllShaped(pq, |pts|)
    ensures AllShaped(pq[..i] + pq[i + 1..], |pts|)
    ensures Weight(pq) == Weight(pq[..i] + pq[i + 1..]) + Size(pq[i].node)
    ensures QueuePairs(q, pts, pq) == QueuePairs(q, pts, pq[..i] + pq[i + 1..]) + multiset(TreePairs(q, pts, pq[i].node))
  {
    var a, b := pq[..i], pq[i + 1..];
    assert pq == (a + [pq[i]]) + b;
    WeightAppend(a + [pq[i]], b);
    WeightAppend(a, [pq[i]]);
    WeightAppend(a, b);
    assert Weight([pq[i]]) == Size(pq[i].node) by {
      assert [pq[i]][..0] == [];
    }
    QueuePairsAppend(q, pts, a + [pq[i]], b);
    QueuePairsAppend(q, pts, a, [pq[i]]);
    QueuePairsAppend(q, pts, a, b);
    assert QueuePairs(q, pts, [pq[i]]) == multiset(TreePairs(q, pts, pq[i].node)) by {
      assert [pq[i]][..0] == [];
    }
  }
}
