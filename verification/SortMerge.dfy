/** Merging two integer sequences in chunks, without any file. */
module SortMerge {
  import opened Integers

  /** The merge of two sequences; of equal elements the left one comes first. */
  function Merge(a: seq<Int32>, b: seq<Int32>): (m: seq<Int32>)
    ensures |m| == |a| + |b|
    decreases |a| + |b|
  {
    if a == [] then b
    else if b == [] then a
    else if a[0] <= b[0] then [a[0]] + Merge(a[1..], b)
    else [b[0]] + Merge(a, b[1..])
  }

  predicate Sorted(s: seq<int>) { forall i, j :: 0 <= i < j < |s| ==> s[i] <= s[j] }

  lemma {:induction false} MergePermutes(a: seq<Int32>, b: seq<Int32>)
    ensures multiset(Merge(a, b)) == multiset(a) + multiset(b)
    decreases |a| + |b|
  {
    if a != [] && b != [] {
      HeadCounts(Merge(a, b));
      if a[0] <= b[0] {
        MergePermutes(a[1..], b);
        TakeLeft(a, b);
        HeadCounts(a);
      } else {
        MergePermutes(a, b[1..]);
        TakeRight(a, b);
        HeadCounts(b);
      }
    }
  }

  lemma HeadCounts(s: seq<Int32>)
    requires s != []
    ensures multiset(s) == multiset{s[0]} + multiset(s[1..])
  {
    assert s == [s[0]] + s[1..];
  }

  lemma HalvesCount(s: seq<Int32>, k: nat)
    requires k <= |s|
    ensures multiset(s) == multiset(s[..k]) + multiset(s[k..])
  {
    assert s == s[..k] + s[k..];
  }

  lemma {:induction false} MergeSorts(a: seq<Int32>, b: seq<Int32>)
    requires Sorted(a) && Sorted(b)
    ensures Sorted(Merge(a, b))
    decreases |a| + |b|
  {
    hide Merge, Sorted;
    if a == [] || b == [] {
      OneEmpty(a, b);
    } else if a[0] <= b[0] {
      TailSorted(a);
      MergeSorts(a[1..], b);
      MergePermutes(a[1..], b);
      TakeLeft(a, b);
      HeadAtMost(a, b);
      SortedCons(a[0], Merge(a[1..], b), a[1..], b);
    } else {
      TailSorted(b);
      MergeSorts(a, b[1..]);
      MergePermutes(a, b[1..]);
      TakeRight(a, b);
      HeadAtMost(b, a);
      SortedCons(b[0], Merge(a, b[1..]), a, b[1..]);
    }
  }

  /** The smaller head is at most every other element of both lists. */
  lemma HeadAtMost(a: seq<Int32>, b: seq<Int32>)
    requires Sorted(a) && Sorted(b) && a != [] && b != [] && a[0] <= b[0]
    ensures forall x: Int32 :: x in a[1..] || x in b ==> a[0] <= x
  {
    assert a[0] <= b[0];
    assert forall j :: 0 <= j < |b| ==> b[0] <= b[j];
  }

  lemma SortedCons(head: Int32, m: seq<Int32>, a: seq<Int32>, b: seq<Int32>)
    requires Sorted(m) && multiset(m) == multiset(a) + multiset(b)
    requires forall x: Int32 :: x in a || x in b ==> head <= x
    ensures Sorted([head] + m)
  {
    forall j | 0 <= j < |m| ensures head <= m[j] {
      assert m[j] in multiset(m);
      assert m[j] in multiset(a) + multiset(b);
      assert m[j] in a || m[j] in b;
    }
  }

  /** A merge is sorted if and only if both its inputs are. */
  lemma {:induction false} MergeSortsExactly(a: seq<Int32>, b: seq<Int32>)
    ensures Sorted(Merge(a, b)) <==> Sorted(a) && Sorted(b)
    decreases |a| + |b|
  {
    hide Merge, Sorted;
    if Sorted(a) && Sorted(b) {
      MergeSorts(a, b);
    } else if a == [] || b == [] {
      OneEmpty(a, b);
    } else if Sorted(Merge(a, b)) {
      var m := Merge(a, b);
      TailSorted(m);
      if a[0] <= b[0] {
        TakeLeft(a, b);
        MergeSortsExactly(a[1..], b);
        MergePermutes(a[1..], b);
        HeadBefore(m, a, multiset(a[1..]) + multiset(b));
      } else {
        TakeRight(a, b);
        MergeSortsExactly(a, b[1..]);
        MergePermutes(a, b[1..]);
        HeadBefore(m, b, multiset(a) + multiset(b[1..]));
      }
    }
  }

  lemma OneEmpty(a: seq<Int32>, b: seq<Int32>)
    requires a == [] || b == []
    ensures Sorted(Merge(a, b)) <==> Sorted(a) && Sorted(b)
  {
  }

  lemma TailSorted(m: seq<Int32>)
    requires m != [] && Sorted(m)
    ensures Sorted(m[1..])
  {
  }

  /** The head of a sorted list is before whatever its tail holds. */
  lemma HeadBefore(m: seq<Int32>, s: seq<Int32>, rest: multiset<Int32>)
    requires m != [] && s != [] && Sorted(m) && m[0] == s[0] && multiset(m[1..]) == rest
    requires Sorted(s[1..]) && forall x <- s[1..] :: x in rest
    ensures Sorted(s)
  {
    forall j | 0 < j < |s| ensures s[0] <= s[j] {
      assert s[1..][j - 1] in rest;
      var i :| 0 <= i < |m[1..]| && m[1..][i] == s[j];
      assert m[0] <= m[i + 1];
    }
    forall i, j | 0 < i < j < |s| ensures s[i] <= s[j] {
      assert s[1..][i - 1] <= s[1..][j - 1];
    }
  }

  /** A sorted permutation. */
  function Arrange(s: seq<Int32>): (r: seq<Int32>)
    ensures |r| == |s|
    decreases |s|
  {
    if |s| <= 1 then s else Merge(Arrange(s[..|s| / 2]), Arrange(s[|s| / 2..]))
  }

  lemma {:induction false} ArrangeSorts(s: seq<Int32>)
    ensures Sorted(Arrange(s)) && multiset(Arrange(s)) == multiset(s)
    decreases |s|
  {
    if |s| > 1 {
      var a, b := s[..|s| / 2], s[|s| / 2..];
      ArrangeSorts(a);
      ArrangeSorts(b);
      MergeSorts(Arrange(a), Arrange(b));
      MergePermutes(Arrange(a), Arrange(b));
      hide Merge, Sorted;
      HalvesCount(s, |s| / 2);
    }
  }

  /** The merging loop has taken `i` elements of `l` and `j` of `r` and has put out `out`. */
  ghost predicate Merging(l: seq<Int32>, r: seq<Int32>, i: nat, j: nat, out: seq<Int32>)
    decreases i + j
  {
    i <= |l| && j <= |r| && |out| == i + j &&
    (i + j == 0 ||
     (i > 0 && j < |r| && l[i - 1] <= r[j] && out[i + j - 1] == l[i - 1] && Merging(l, r, i - 1, j, out[..i + j - 1])) ||
     (j > 0 && i < |l| && l[i] > r[j - 1] && out[i + j - 1] == r[j - 1] && Merging(l, r, i, j - 1, out[..i + j - 1])))
  }

  /** Whatever follows the two chunks: merging everything starts with what the loop put out, and goes
      on with the unconsumed rests. Nothing need be sorted. */
  lemma {:induction false} MergingIsMerge(l: seq<Int32>, r: seq<Int32>, i: nat, j: nat, out: seq<Int32>,
                                          x: seq<Int32>, y: seq<Int32>)
    requires Merging(l, r, i, j, out)
    ensures Merge(l + x, r + y) == out + Merge(l[i..] + x, r[j..] + y)
    decreases i + j
  {
    hide Merge;
    if i + j == 0 {
      assert l[0..] == l && r[0..] == r;
      assert out + Merge(l + x, r + y) == Merge(l + x, r + y);
    } else {
      var front, last := out[..i + j - 1], out[i + j - 1];
      if i > 0 && j < |r| && l[i - 1] <= r[j] && last == l[i - 1] && Merging(l, r, i - 1, j, front) {
        MergingIsMerge(l, r, i - 1, j, front, x, y);
        TakeLeft(l[i - 1..] + x, r[j..] + y);
        assert (l[i - 1..] + x)[1..] == l[i..] + x;
      } else {
        MergingIsMerge(l, r, i, j - 1, front, x, y);
        TakeRight(l[i..] + x, r[j - 1..] + y);
        assert (r[j - 1..] + y)[1..] == r[j..] + y;
      }
      assert out == front + [last];
      var rest := Merge(l[i..] + x, r[j..] + y);
      assert front + ([last] + rest) == front + [last] + rest;
    }
  }

  lemma TakeLeft(a: seq<Int32>, b: seq<Int32>)
    requires a != [] && b != [] && a[0] <= b[0]
    ensures Merge(a, b) == [a[0]] + Merge(a[1..], b)
  {
  }

  lemma TakeRight(a: seq<Int32>, b: seq<Int32>)
    requires a != [] && b != [] && a[0] > b[0]
    ensures Merge(a, b) == [b[0]] + Merge(a, b[1..])
  {
  }

  /** What is written is sorted and at most every unconsumed element, and together with the unconsumed
      rests it holds the elements of both inputs. */
  ghost predicate MergedSoFar(a: seq<Int32>, b: seq<Int32>, written: seq<Int32>, restA: seq<Int32>, restB: seq<Int32>) {
    && Sorted(written)
    && (forall w <- written, e: Int32 :: e in restA || e in restB ==> w <= e)
    && multiset(written) + multiset(restA) + multiset(restB) == multiset(a) + multiset(b)
  }

  /** After any number of rounds on sorted inputs. */
  lemma MergedPrefix(a: seq<Int32>, b: seq<Int32>, written: seq<Int32>, restA: seq<Int32>, restB: seq<Int32>)
    requires Sorted(a) && Sorted(b) && Merge(a, b) == written + Merge(restA, restB)
    ensures MergedSoFar(a, b, written, restA, restB)
  {
    MergeSorts(a, b);
    MergePermutes(a, b);
    MergePermutes(restA, restB);
    var rest := Merge(restA, restB);
    SortedParts(written, rest);
    hide Merge, Sorted;
    PartsOfMerge(multiset(a) + multiset(b), written, rest, restA, restB);
  }

  lemma PartsOfMerge(all: multiset<Int32>, written: seq<Int32>, rest: seq<Int32>, restA: seq<Int32>, restB: seq<Int32>)
    requires multiset(written + rest) == all && multiset(rest) == multiset(restA) + multiset(restB)
    ensures multiset(written) + multiset(restA) + multiset(restB) == all
    ensures forall e: Int32 :: e in restA || e in restB ==> e in rest
  {
    assert multiset(written + rest) == multiset(written) + multiset(rest);
    forall e: Int32 | e in restA || e in restB ensures e in rest {
      assert e in multiset(restA) + multiset(restB);
    }
  }

  lemma SortedParts(written: seq<Int32>, rest: seq<Int32>)
    requires Sorted(written + rest)
    ensures Sorted(written) && forall w <- written, e: Int32 :: e in rest ==> w <= e
  {
    var m := written + rest;
    assert forall i :: 0 <= i < |written| ==> m[i] == written[i];
    forall w, e: Int32 | w in written && e in rest ensures w <= e {
      var i :| 0 <= i < |written| && written[i] == w;
      var j :| 0 <= j < |rest| && rest[j] == e;
      assert m[i] <= m[|written| + j];
    }
  }
}
