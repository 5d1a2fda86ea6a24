/** The comparison function of the sort and what `qsort` makes of it: a 32-bit difference orders some
    sets of integers and misleads the sort on all others. */
module SortCompare {
  import opened Integers
  import opened SortMerge

  /** `cmp`: a difference, computed in 32 bits. */
  function Cmp(a: Int32, b: Int32): Int32 {
    var d := a as int - b as int;
    if d >= INT_HALF then d - 2 * INT_HALF else if d < -INT_HALF then d + 2 * INT_HALF else d
  }

  /** The comparison tells the order exactly for numbers less than 2^31 apart. */
  lemma CmpOrdersExactly(a: Int32, b: Int32)
    ensures ((Cmp(a, b) < 0 <==> a < b) && (Cmp(a, b) == 0 <==> a == b))
       <==> -INT_HALF <= a as int - b as int < INT_HALF
  {
  }

  /** All differences fit in 32 bits. */
  predicate Comparable(s: seq<Int32>) {
    forall x <- s, y <- s :: x as int - y as int < INT_HALF
  }

  /** To the comparison function the elements never decrease from one to the next. */
  predicate InCmpOrder(s: seq<Int32>) {
    forall i :: 0 < i < |s| ==> Cmp(s[i - 1], s[i]) <= 0
  }

  /** What the program may expect of `qsort`: the same elements, and, where the comparison does not
      contradict itself, in its order. */
  ghost predicate IsQSort(qsort: seq<Int32> -> seq<Int32>) {
    forall s: seq<Int32> :: multiset(qsort(s)) == multiset(s) && (Comparable(s) ==> InCmpOrder(qsort(s)))
  }

  lemma QSorted(qsort: seq<Int32> -> seq<Int32>, s: seq<Int32>)
    requires IsQSort(qsort)
    ensures multiset(qsort(s)) == multiset(s) && |qsort(s)| == |s|
    ensures Comparable(s) ==> Sorted(qsort(s))
  {
    var r := qsort(s);
    assert |multiset(r)| == |multiset(s)|;
    if Comparable(s) {
      SameComparable(s, r);
      CmpOrderSorts(r);
    }
  }

  lemma SameMembers(s: seq<Int32>, r: seq<Int32>)
    requires multiset(s) == multiset(r)
    ensures forall x: Int32 :: x in s <==> x in r
  {
    assert forall x: Int32 :: x in s <==> x in multiset(s);
    assert forall x: Int32 :: x in r <==> x in multiset(r);
  }

  lemma OneWay(s: seq<Int32>, r: seq<Int32>)
    requires forall x: Int32 :: x in r ==> x in s
    ensures Comparable(s) ==> Comparable(r)
  {
  }

  lemma SameComparable(s: seq<Int32>, r: seq<Int32>)
    requires multiset(s) == multiset(r)
    ensures Comparable(s) <==> Comparable(r)
  {
    SameMembers(s, r);
    hide Comparable;
    OneWay(s, r);
    OneWay(r, s);
  }

  /** Comparable elements that never decrease for the comparison are sorted. */
  lemma {:induction false} CmpOrderSorts(r: seq<Int32>)
    requires Comparable(r) && InCmpOrder(r)
    ensures Sorted(r)
  {
    var n := |r| - 1;
    if n > 0 {
      var front := r[..n];
      assert forall x <- front :: x in r;
      assert Cmp(r[n - 1], r[n]) <= 0 && r[n - 1] in r && r[n] in r;
      CmpOrderSorts(front);
      hide Sorted, InCmpOrder;
      SortedOneMore(front, r[n]);
      assert r == front + [r[n]];
    }
  }

  lemma SortedOneMore(front: seq<Int32>, last: Int32)
    requires Sorted(front) && front != [] && front[|front| - 1] <= last
    ensures Sorted(front + [last])
  {
  }

  // ---------------------------------------------------------------------------------------------
  // Elements too far apart
  // ---------------------------------------------------------------------------------------------

  /** Sorted elements that span 2^31 or more, turned so that a part from the top comes first, never
      decrease for the comparison. The turn is at a gap of more than 2^31, if there is one. */
  lemma Turned(o: seq<Int32>, k: nat) returns (r: seq<Int32>)
    requires Sorted(o) && 0 < k < |o| && o[0] < o[k] && o[|o| - 1] as int - o[0] as int >= INT_HALF
    requires forall i :: 0 < i < |o| && i != k ==> o[i] as int - o[i - 1] as int <= INT_HALF
    ensures multiset(r) == multiset(o) && InCmpOrder(r) && !Sorted(r)
  {
    r := o[k..] + o[..k];
    var n := |o| - k;
    assert o == o[..k] + o[k..];
    forall i | 0 < i < |r| ensures Cmp(r[i - 1], r[i]) <= 0 {
      if i < n {
        assert r[i] == o[k + i] && r[i - 1] == o[k + i - 1];
      } else if i == n {
        assert r[i] == o[0] && r[i - 1] == o[|o| - 1];
      } else {
        assert r[i] == o[i - n] && r[i - 1] == o[i - n - 1];
      }
    }
    assert r[0] == o[k] && r[n] == o[0];
  }

  lemma TurningPoint(o: seq<Int32>) returns (k: nat)
    requires Sorted(o) && |o| >= 2 && o[|o| - 1] as int - o[0] as int >= INT_HALF
    ensures 0 < k < |o| && o[0] < o[k]
    ensures forall i :: 0 < i < |o| && i != k ==> o[i] as int - o[i - 1] as int <= INT_HALF
  {
    if i :| 0 < i < |o| && o[i] as int - o[i - 1] as int > INT_HALF {
      k := i;
      assert o[0] <= o[i - 1];
      forall j | 0 < j < |o| && j != i ensures o[j] as int - o[j - 1] as int <= INT_HALF {
        if j < i {
          assert o[0] <= o[j - 1] && o[j] <= o[i - 1] && o[i] <= o[|o| - 1];
        } else {
          assert o[0] <= o[i - 1] && o[i] <= o[j - 1] && o[j] <= o[|o| - 1];
        }
      }
    } else {
      k := |o| - 1;
    }
  }

  lemma FarApart(s: seq<Int32>) returns (r: seq<Int32>)
    requires !Comparable(s)
    ensures multiset(r) == multiset(s) && InCmpOrder(r) && !Sorted(r)
  {
    var o := Arrange(s);
    ArrangeSorts(s);
    assert |multiset(o)| == |multiset(s)|;
    SameComparable(s, o);
    assert |o| >= 2;
    if o[|o| - 1] as int - o[0] as int < INT_HALF {
      SortedSpan(o);
    }
    var k := TurningPoint(o);
    r := Turned(o, k);
  }

  lemma SortedSpan(o: seq<Int32>)
    requires Sorted(o) && o != [] && o[|o| - 1] as int - o[0] as int < INT_HALF
    ensures Comparable(o)
  {
    forall x, y | x in o && y in o ensures x as int - y as int < INT_HALF {
      var i :| 0 <= i < |o| && o[i] == x;
      var j :| 0 <= j < |o| && o[j] == y;
      assert o[0] <= o[j] && o[i] <= o[|o| - 1];
    }
  }

  /** The comparison sorts a set of integers, whatever way it is used, if and only if all their
      differences fit in 32 bits. */
  lemma CmpSortsExactly(s: seq<Int32>)
    ensures (forall r: seq<Int32> :: multiset(r) == multiset(s) && InCmpOrder(r) ==> Sorted(r)) <==> Comparable(s)
  {
    if Comparable(s) {
      forall r: seq<Int32> | multiset(r) == multiset(s) && InCmpOrder(r) ensures Sorted(r) {
        SameComparable(s, r);
        CmpOrderSorts(r);
      }
    } else {
      var r := FarApart(s);
    }
  }

  /** Two integers in the wrong order that the comparison takes to be in the right one. */
  lemma TwoFarApart()
    ensures InCmpOrder([0x7fff_ffff, -0x8000_0000]) && !Sorted([0x7fff_ffff, -0x8000_0000])
  {
    var s: seq<Int32> := [0x7fff_ffff, -0x8000_0000];
    assert s[0] > s[1];
  }

  // ---------------------------------------------------------------------------------------------
  // The whole sort
  // ---------------------------------------------------------------------------------------------

  const SEGMENT_SIZE: nat := 10000

  /** What `merge_sort` makes of a list of integers, with a given `qsort`. */
  function SortWith(s: seq<Int32>, qsort: seq<Int32> -> seq<Int32>): seq<Int32>
    decreases |s|
  {
    if |s| <= SEGMENT_SIZE then qsort(s)
    else Merge(SortWith(s[..|s| / 2], qsort), SortWith(s[|s| / 2..], qsort))
  }

  /** In each of the segments that are sorted in memory the differences fit in 32 bits. */
  predicate LeavesComparable(s: seq<Int32>)
    decreases |s|
  {
    if |s| <= SEGMENT_SIZE then Comparable(s)
    else LeavesComparable(s[..|s| / 2]) && LeavesComparable(s[|s| / 2..])
  }

  /** The sort loses nothing, and sorts when its segments are comparable. */
  lemma {:induction false} SortWithSorts(s: seq<Int32>, qsort: seq<Int32> -> seq<Int32>)
    requires IsQSort(qsort)
    ensures multiset(SortWith(s, qsort)) == multiset(s) && |SortWith(s, qsort)| == |s|
    ensures LeavesComparable(s) ==> Sorted(SortWith(s, qsort))
    decreases |s|
  {
    hide Comparable, Sorted, Merge, IsQSort;
    if |s| <= SEGMENT_SIZE {
      QSorted(qsort, s);
    } else {
      var a, b := s[..|s| / 2], s[|s| / 2..];
      SortWithSorts(a, qsort);
      SortWithSorts(b, qsort);
      MergePermutes(SortWith(a, qsort), SortWith(b, qsort));
      MergeSortsExactly(SortWith(a, qsort), SortWith(b, qsort));
      HalvesCount(s, |s| / 2);
    }
  }

  /** A `qsort` that keeps to the comparison on every input, and is misled wherever it can be. */
  ghost function Misled(s: seq<Int32>): (r: seq<Int32>)
    ensures multiset(r) == multiset(s) && InCmpOrder(r) && (Sorted(r) ==> Comparable(s))
  {
    if Comparable(s) then
      ArrangeSorts(s);
      SortedInCmpOrder(s, Arrange(s));
      Arrange(s)
    else
      CmpSortsExactly(s);
      var r: seq<Int32> :| multiset(r) == multiset(s) && InCmpOrder(r) && !Sorted(r);
      r
  }

  lemma SortedInCmpOrder(s: seq<Int32>, r: seq<Int32>)
    requires Comparable(s) && multiset(r) == multiset(s) && Sorted(r)
    ensures InCmpOrder(r)
  {
    SameComparable(s, r);
    forall i | 0 < i < |r| ensures Cmp(r[i - 1], r[i]) <= 0 {
      assert r[i - 1] in r && r[i] in r;
    }
  }

  lemma {:induction false} MisledFails(s: seq<Int32>)
    requires !LeavesComparable(s)
    ensures !Sorted(SortWith(s, Misled))
    decreases |s|
  {
    hide Sorted, Merge, Comparable;
    if |s| > SEGMENT_SIZE {
      var a, b := s[..|s| / 2], s[|s| / 2..];
      if !LeavesComparable(a) {
        MisledFails(a);
      } else {
        MisledFails(b);
      }
      MergeSortsExactly(SortWith(a, Misled), SortWith(b, Misled));
    }
  }

  /** `merge_sort` sorts a list of integers, whatever `qsort` the library has, if and only if in each
      segment that is sorted in memory all differences fit in 32 bits. */
  lemma SortsExactly(s: seq<Int32>)
    ensures (forall qsort :: IsQSort(qsort) ==> Sorted(SortWith(s, qsort))) <==> LeavesComparable(s)
  {
    if LeavesComparable(s) {
      forall qsort | IsQSort(qsort) ensures Sorted(SortWith(s, qsort)) {
        SortWithSorts(s, qsort);
      }
    } else {
      MisledFails(s);
      assert IsQSort(Misled);
    }
  }
}
