/** The bounded best-k selector (ANNmin_k): at most k (key, info) pairs held in
    ascending key order; once full, a new pair evicts the largest one only when its
    key is strictly smaller, so ties at the maximum are not inserted. */
module MinK {
  import opened Geometry

  datatype Option<T> = None | Some(value: T)

  /** A key or the selector's "infinity" sentinel. */
  datatype Bound = Finite(value: int) | Infinite

  /** `d > b`, where nothing exceeds the infinity sentinel. */
  predicate Exceeds(d: int, b: Bound)
  {
    b.Finite? && d > b.value
  }

  ghost predicate Sorted(s: seq<KeyInfo>)
  {
    forall i, j :: 0 <= i < j < |s| ==> s[i].key <= s[j].key
  }

  /** The selector of capacity k; mk holds its entries, smallest key first. */
  datatype MinKSet = MinKSet(k: nat, mk: seq<KeyInfo>)

  ghost predicate Valid(s: MinKSet)
  {
    1 <= s.k && |s.mk| <= s.k && Sorted(s.mk)
  }

  /** A fresh selector for the k closest points (`new ANNmin_k(k)`). */
  function Empty(k: nat): (r: MinKSet)
    ensures r.k == k
    ensures 1 <= k ==> Valid(r) && MaxKey(r).Infinite?
  {
    MinKSet(k, [])
  }

  /** Places x after every entry whose key is at most x's key, shifting larger entries up. */
  function InsertSorted(s: seq<KeyInfo>, x: KeyInfo): (r: seq<KeyInfo>)
    ensures |r| == |s| + 1
    ensures multiset(r) == multiset(s) + multiset{x}
  {
    if s == [] || s[|s| - 1].key <= x.key then
      s + [x]
    else
      assert s == s[..|s| - 1] + [s[|s| - 1]];
      InsertSorted(s[..|s| - 1], x) + [s[|s| - 1]]
  }

  /** Keys bounded by b stay bounded by b after inserting a key bounded by b. */
  lemma {:induction false} InsertSortedBelow(s: seq<KeyInfo>, x: KeyInfo, b: int)
    requires forall i :: 0 <= i < |s| ==> s[i].key <= b
    requires x.key <= b
    ensures forall i :: 0 <= i < |InsertSorted(s, x)| ==> InsertSorted(s, x)[i].key <= b
  {
    var r := InsertSorted(s, x);
    forall i | 0 <= i < |r|
      ensures r[i].key <= b
    {
      assert r[i] in multiset(r);
      if r[i] != x {
        assert r[i] in multiset(s);
        var j :| 0 <= j < |s| && s[j] == r[i];
      }
    }
  }

  lemma {:induction false} InsertSortedSorted(s: seq<KeyInfo>, x: KeyInfo)
    requires Sorted(s)
    ensures Sorted(InsertSorted(s, x))
  {
    if s != [] && s[|s| - 1].key > x.key {
      var front, last := s[..|s| - 1], s[|s| - 1];
      InsertSortedSorted(front, x);
      InsertSortedBelow(front, x, last.key);
    }
  }

  /** insert(kv, inf): add the pair, keeping at most k entries. */
  function Insert(s: MinKSet, x: KeyInfo): (r: MinKSet)
    requires Valid(s)
    ensures Valid(r) && r.k == s.k && |r.mk| == if |s.mk| < s.k then |s.mk| + 1 else s.k
    ensures |s.mk| < s.k ==> multiset(r.mk) == multiset(s.mk) + multiset{x}
    ensures |s.mk| == s.k && x.key < s.mk[s.k - 1].key ==>
              multiset(r.mk) == multiset(s.mk) - multiset{s.mk[s.k - 1]} + multiset{x}
    ensures |s.mk| == s.k && x.key >= s.mk[s.k - 1].key ==> r == s
  {
    var ins := InsertSorted(s.mk, x);
    InsertSortedSorted(s.mk, x);
    if |ins| > s.k then
      assert |s.mk| == s.k;
      assert s.mk == s.mk[..s.k - 1] + [s.mk[s.k - 1]];
      MinKSet(s.k, ins[..s.k])
    else
      MinKSet(s.k, ins)
  }

  /** max_key(): the k-th smallest key, or infinity while fewer than k entries are held. */
  function MaxKey(s: MinKSet): (r: Bound)
    requires Valid(s)
    ensures r.Infinite? <==> |s.mk| < s.k
    ensures r.Finite? ==> forall i :: 0 <= i < |s.mk| ==> s.mk[i].key <= r.value
    ensures r.Finite? ==> exists i :: 0 <= i < |s.mk| && s.mk[i].key == r.value
  {
    if |s.mk| == s.k then Finite(s.mk[s.k - 1].key) else Infinite
  }

  /** ith_smallest_key(i), infinity past the entries held. */
  function IthSmallestKey(s: MinKSet, i: nat): (r: Bound)
    ensures r.Finite? <==> i < |s.mk|
    ensures Valid(s) && r.Finite? && MaxKey(s).Finite? ==> r.value <= MaxKey(s).value
    ensures Valid(s) && i + 1 == s.k ==> r == MaxKey(s)
  {
    if i < |s.mk| then Finite(s.mk[i].key) else Infinite
  }

  /** ith_smallest_info(i), nothing past the entries held. */
  function IthSmallestInfo(s: MinKSet, i: nat): (r: Option<nat>)
    ensures r.Some? <==> IthSmallestKey(s, i).Finite?
    ensures r.Some? ==> KeyInfo(IthSmallestKey(s, i).value, r.value) in s.mk
  {
    if i < |s.mk| then Some(s.mk[i].info) else None
  }

  /** The selector after inserting xs in order. */
  function InsertAll(s: MinKSet, xs: seq<KeyInfo>): (r: MinKSet)
    requires Valid(s)
    ensures Valid(r) && r.k == s.k
  {
    if xs == [] then s else Insert(InsertAll(s, xs[..|xs| - 1]), xs[|xs| - 1])
  }

  /** Inserting one more pair after xs is one more insert. */
  lemma {:induction false} InsertAllStep(s: MinKSet, xs: seq<KeyInfo>, x: KeyInfo)
    requires Valid(s)
    ensures InsertAll(s, xs + [x]) == Insert(InsertAll(s, xs), x)
  {
    assert (xs + [x])[..|xs|] == xs;
  }

  /** Inserting xs and then ys is inserting xs + ys. */
  lemma {:induction false} InsertAllAppend(s: MinKSet, xs: seq<KeyInfo>, ys: seq<KeyInfo>)
    requires Valid(s)
    ensures InsertAll(s, xs + ys) == InsertAll(InsertAll(s, xs), ys)
  {
    if ys == [] {
      assert xs + ys == xs;
    } else {
      var init, y := ys[..|ys| - 1], ys[|ys| - 1];
      assert ys == init + [y];
      assert xs + ys == (xs + init) + [y];
      InsertAllAppend(s, xs, init);
      InsertAllStep(s, xs + init, y);
      InsertAllStep(InsertAll(s, xs), init, y);
    }
  }

  /** A pair whose key exceeds max_key() of a full selector leaves it unchanged. */
  lemma {:induction false} InsertAboveMax(s: MinKSet, x: KeyInfo, b: int)
    requires Valid(s) && Exceeds(b, MaxKey(s)) && b <= x.key
    ensures Insert(s, x) == s
  {
  }

  /** s holds k smallest pairs of `all`: its entries come from `all`, and every pair of
      `all` left out is at least as large as the largest entry, which needs s to be full. */
  ghost predicate KSmallest(s: MinKSet, all: multiset<KeyInfo>)
  {
    && Valid(s)
    && multiset(s.mk) <= all
    && forall y :: y in all - multiset(s.mk) ==> |s.mk| == s.k && s.mk[s.k - 1].key <= y.key
  }

  lemma {:induction false} EmptyKSmallest(k: nat)
    requires 1 <= k
    ensures KSmallest(Empty(k), multiset{})
  {
  }

  lemma {:induction false} SortedBelowLast(s: seq<KeyInfo>, z: KeyInfo)
    requires Sorted(s) && z in s
    ensures z.key <= s[|s| - 1].key
  {
  }

  /** A selector that is not full holds every pair seen. */
  lemma {:induction false} NotFullHoldsAll(s: MinKSet, all: multiset<KeyInfo>)
    requires KSmallest(s, all) && |s.mk| < s.k
    ensures all == multiset(s.mk)
  {
    var m := multiset(s.mk);
    forall y
      ensures all[y] == m[y]
    {
      assert (all - m)[y] == 0;
    }
  }

  /** A selector that was not full and gained x holds everything seen plus x. */
  lemma {:induction false} NotFullKSmallest(s: MinKSet, r: MinKSet, all: multiset<KeyInfo>, x: KeyInfo)
    requires KSmallest(s, all) && |s.mk| < s.k
    requires Valid(r) && r.k == s.k && multiset(r.mk) == multiset(s.mk) + multiset{x}
    ensures KSmallest(r, all + multiset{x})
  {
    NotFullHoldsAll(s, all);
    assert (all + multiset{x}) - multiset(r.mk) == multiset{};
  }

  /** After an eviction every entry is at most the evicted maximum. */
  lemma {:induction false} EvictedBoundsEntries(ms: seq<KeyInfo>, rs: seq<KeyInfo>, x: KeyInfo)
    requires Sorted(ms) && ms != [] && x.key < ms[|ms| - 1].key
    requires multiset(rs) == multiset(ms) - multiset{ms[|ms| - 1]} + multiset{x}
    ensures forall i :: 0 <= i < |rs| ==> rs[i].key <= ms[|ms| - 1].key
  {
    forall i | 0 <= i < |rs|
      ensures rs[i].key <= ms[|ms| - 1].key
    {
      var z := rs[i];
      assert z in multiset(rs);
      if z != x {
        assert z in multiset(ms);
        SortedBelowLast(ms, z);
      }
    }
  }

  /** Multiset bookkeeping of an eviction: what is left out afterwards is what was
      left out before, plus the evicted entry. */
  lemma {:induction false} LeftOutAfterEviction(all: multiset<KeyInfo>, m: multiset<KeyInfo>, x: KeyInfo, last: KeyInfo, b: int)
    requires last in m
    requires forall y :: y in all - m ==> last.key <= y.key
    requires b <= last.key
    ensures forall y :: y in (all + multiset{x}) - (m - multiset{last} + multiset{x}) ==> b <= y.key
  {
    var rm := m - multiset{last} + multiset{x};
    forall y | y in (all + multiset{x}) - rm
      ensures b <= y.key
    {
      if y != last {
        assert rm[y] == m[y] + (if y == x then 1 else 0);
        assert (all - m)[y] > 0;
      }
    }
  }

  /** A full selector r that lost s's largest entry and gained a smaller x holds k
      smallest pairs of `all` plus x. */
  lemma {:induction false} EvictionKSmallest(s: MinKSet, r: MinKSet, all: multiset<KeyInfo>, x: KeyInfo)
    requires KSmallest(s, all) && |s.mk| == s.k && x.key < s.mk[s.k - 1].key
    requires Valid(r) && r.k == s.k && |r.mk| == r.k
    requires multiset(r.mk) == multiset(s.mk) - multiset{s.mk[s.k - 1]} + multiset{x}
    ensures KSmallest(r, all + multiset{x})
  {
    var m, last := multiset(s.mk), s.mk[s.k - 1];
    assert last in m;
    EvictedBoundsEntries(s.mk, r.mk, x);
    SubsetAfterEviction(all, m, x, last);
    LeftOutAfterEviction(all, m, x, last, r.mk[r.k - 1].key);
  }

  lemma {:induction false} SubsetAfterEviction(all: multiset<KeyInfo>, m: multiset<KeyInfo>, x: KeyInfo, last: KeyInfo)
    requires last in m && m <= all
    ensures m - multiset{last} + multiset{x} <= all + multiset{x}
  {
  }

  /** A full selector still holds k smallest pairs after one more pair no smaller
      than its largest entry is seen. */
  lemma {:induction false} IgnoredKSmallest(s: MinKSet, all: multiset<KeyInfo>, x: KeyInfo)
    requires KSmallest(s, all) && |s.mk| == s.k && x.key >= s.mk[s.k - 1].key
    ensures KSmallest(s, all + multiset{x})
  {
    var m := multiset(s.mk);
    assert m <= all + multiset{x};
    forall y | y in (all + multiset{x}) - m
      ensures s.mk[s.k - 1].key <= y.key
    {
      if y != x {
        assert (all + multiset{x})[y] == all[y];
        assert (all - m)[y] > 0;
      }
    }
  }

  /** Whatever r results from inserting x into s, as Insert's contract describes it,
      holds k smallest pairs of `all` plus x. */
  lemma {:induction false} InsertResultKSmallest(s: MinKSet, r: MinKSet, all: multiset<KeyInfo>, x: KeyInfo)
    requires KSmallest(s, all)
    requires Valid(r) && r.k == s.k && |r.mk| == if |s.mk| < s.k then |s.mk| + 1 else s.k
    requires |s.mk| < s.k ==> multiset(r.mk) == multiset(s.mk) + multiset{x}
    requires |s.mk| == s.k && x.key < s.mk[s.k - 1].key ==>
               multiset(r.mk) == multiset(s.mk) - multiset{s.mk[s.k - 1]} + multiset{x}
    requires |s.mk| == s.k && x.key >= s.mk[s.k - 1].key ==> r == s
    ensures KSmallest(r, all + multiset{x})
  {
    if |s.mk| < s.k {
      NotFullKSmallest(s, r, all, x);
    } else if x.key < s.mk[s.k - 1].key {
      EvictionKSmallest(s, r, all, x);
    } else {
      IgnoredKSmallest(s, all, x);
    }
  }

  /** One insertion keeps the selector holding the k smallest pairs seen. */
  lemma {:induction false} InsertKeepsKSmallest(s: MinKSet, all: multiset<KeyInfo>, x: KeyInfo)
    requires KSmallest(s, all)
    ensures KSmallest(Insert(s, x), all + multiset{x})
  {
    InsertResultKSmallest(s, Insert(s, x), all, x);
  }

  /** Any sequence of insertions keeps the selector holding the k smallest pairs seen. */
  lemma {:induction false} InsertAllKeepsKSmallest(s: MinKSet, all: multiset<KeyInfo>, xs: seq<KeyInfo>)
    requires KSmallest(s, all)
    ensures KSmallest(InsertAll(s, xs), all + multiset(xs))
  {
    if xs == [] {
      assert all + multiset(xs) == all;
    } else {
      var front, last := xs[..|xs| - 1], xs[|xs| - 1];
      assert xs == front + [last];
      assert all + multiset(xs) == all + multiset(front) + multiset{last};
      InsertAllKeepsKSmallest(s, all, front);
      InsertKeepsKSmallest(InsertAll(s, front), all + multiset(front), last);
    }
  }
}
