/** Orders in which `n` workers, each pushing its own `k` consecutive values, can get them pushed. */
module PushOrder {

  /** The values from `a` up to `b`. */
  function Range(a: int, b: int): seq<int>
    decreases b - a
  {
    if a >= b then [] else Range(a, b - 1) + [b - 1]
  }

  /** The values among `order` that belong to worker `w`, in order. */
  function Mine(order: seq<int>, w: nat, k: nat): seq<int> {
    if order == [] then []
    else
      var v := order[|order| - 1];
      Mine(order[..|order| - 1], w, k) + (if w * k <= v < (w + 1) * k then [v] else [])
  }

  /** Every value belongs to one of `n` workers, and each worker's values occur in its own order. */
  ghost predicate Complete(order: seq<int>, n: nat, k: nat) {
    && (forall v <- order :: 0 <= v < n * k)
    && forall w: nat :: w < n ==> Mine(order, w, k) == Range(w * k, (w + 1) * k)
  }

  lemma {:induction false} RangeCounts(a: int, b: int, v: int)
    ensures multiset(Range(a, b))[v] == if a <= v < b then 1 else 0
    decreases b - a
  {
    if a < b {
      RangeCounts(a, b - 1, v);
    }
  }

  lemma {:induction false} MineCounts(order: seq<int>, w: nat, k: nat, v: int)
    requires w * k <= v < (w + 1) * k
    ensures multiset(Mine(order, w, k))[v] == multiset(order)[v]
  {
    if order != [] {
      MineCounts(order[..|order| - 1], w, k, v);
      assert order == order[..|order| - 1] + [order[|order| - 1]];
    }
  }

  lemma OwnerOf(v: int, n: nat, k: nat) returns (w: nat)
    requires 0 <= v < n * k
    ensures w < n && w * k <= v < (w + 1) * k
  {
    w := v / k;
    assert v == k * w + v % k;
    if w >= n {
      MulMonotone(n, w, k);
    }
  }

  lemma MulMonotone(a: nat, b: nat, k: nat)
    requires a <= b
    ensures a * k <= b * k
  {
  }

  lemma {:induction false} RangeAt(a: int, b: int, j: nat)
    ensures |Range(a, b)| == (if a < b then b - a else 0) && (j < |Range(a, b)| ==> Range(a, b)[j] == a + j)
    decreases b - a
  {
    if a < b {
      RangeAt(a, b - 1, j);
    }
  }

  /** Of two values of the same worker the smaller one comes first. */
  ghost predicate OwnOrder(order: seq<int>, n: nat, k: nat) {
    forall w: nat, i: nat, j: nat :: w < n && i < j < |order| && IsOf(order[i], w, k) && IsOf(order[j], w, k) ==>
      order[i] < order[j]
  }

  predicate IsOf(v: int, w: nat, k: nat) { w * k <= v < (w + 1) * k }

  predicate Ascending(s: seq<int>) { forall i, j :: 0 <= i < j < |s| ==> s[i] < s[j] }

  lemma {:induction false} MineAscending(order: seq<int>, w: nat, k: nat, i: nat, j: nat)
    requires Ascending(Mine(order, w, k)) && i < j < |order| && IsOf(order[i], w, k) && IsOf(order[j], w, k)
    ensures order[i] < order[j]
  {
    var n := |order| - 1;
    var front, all := Mine(order[..n], w, k), Mine(order, w, k);
    assert front <= all;
    if j < n {
      assert Ascending(front);
      MineAscending(order[..n], w, k, i, j);
    } else {
      MineHolds(order[..n], w, k, i);
      var l :| 0 <= l < |front| && front[l] == order[i];
      assert all[l] == order[i] && all[|front|] == order[j];
    }
  }

  lemma {:induction false} MineHolds(order: seq<int>, w: nat, k: nat, i: nat)
    requires i < |order| && IsOf(order[i], w, k)
    ensures order[i] in Mine(order, w, k)
  {
    var n := |order| - 1;
    if i < n {
      MineHolds(order[..n], w, k, i);
    }
  }

  lemma RangeAscending(a: int, b: int)
    ensures Ascending(Range(a, b))
  {
    forall i, j | 0 <= i < j < |Range(a, b)| ensures Range(a, b)[i] < Range(a, b)[j] {
      RangeAt(a, b, i);
      RangeAt(a, b, j);
    }
  }

  lemma CompleteKeepsOrder(order: seq<int>, n: nat, k: nat)
    requires Complete(order, n, k)
    ensures OwnOrder(order, n, k)
  {
    forall w: nat, i: nat, j: nat | w < n && i < j < |order| && IsOf(order[i], w, k) && IsOf(order[j], w, k)
      ensures order[i] < order[j]
    {
      RangeAscending(w * k, (w + 1) * k);
      MineAscending(order, w, k, i, j);
    }
  }

  /** A complete order visits every value from 0 to `n * k` exactly once. */
  lemma CompleteIsPermutation(order: seq<int>, n: nat, k: nat)
    requires Complete(order, n, k)
    ensures |order| == n * k && forall v :: multiset(order)[v] == if 0 <= v < n * k then 1 else 0
  {
    hide Complete, Range;
    forall v: int ensures multiset(order)[v] == multiset(Range(0, n * k))[v] {
      CompleteCounts(order, n, k, v);
    }
    assert multiset(order) == multiset(Range(0, n * k));
    RangeLength(0, n * k);
    assert |multiset(order)| == |order| && |multiset(Range(0, n * k))| == |Range(0, n * k)|;
    forall v: int ensures multiset(order)[v] == if 0 <= v < n * k then 1 else 0 {
      RangeCounts(0, n * k, v);
    }
  }

  lemma CompleteCounts(order: seq<int>, n: nat, k: nat, v: int)
    requires Complete(order, n, k)
    ensures multiset(order)[v] == multiset(Range(0, n * k))[v]
  {
    RangeCounts(0, n * k, v);
    if 0 <= v < n * k {
      var w := OwnerOf(v, n, k);
      MineCounts(order, w, k, v);
      RangeCounts(w * k, (w + 1) * k, v);
    } else {
      assert v in multiset(order) ==> v in order;
    }
  }

  lemma {:induction false} RangeLength(a: int, b: int)
    requires a <= b
    ensures |Range(a, b)| == b - a
    decreases b - a
  {
    if a < b {
      RangeLength(a, b - 1);
    }
  }

  /** Pushing a value of worker `w` extends its own values and leaves the others' alone. */
  lemma MineAfterPush(order: seq<int>, v: int, w: nat, k: nat)
    requires w * k <= v < (w + 1) * k
    ensures Mine(order + [v], w, k) == Mine(order, w, k) + [v]
    ensures forall u: nat :: u != w ==> Mine(order + [v], u, k) == Mine(order, u, k)
  {
    assert (order + [v])[..|order|] == order;
    forall u: nat | u != w ensures !(u * k <= v < (u + 1) * k) {
      if u < w {
        MulMonotone(u + 1, w, k);
      } else {
        MulMonotone(w + 1, u, k);
      }
    }
  }

  lemma ValueBound(w: nat, n: nat, k: nat, v: int)
    requires w < n && w * k <= v < (w + 1) * k
    ensures 0 <= v < n * k
  {
    MulMonotone(w + 1, n, k);
  }
}
