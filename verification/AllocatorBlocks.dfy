/** The block list of the in-file allocator: signed block sizes (positive: in use, negative: free)
    that tile an array of words, and the abstract operations on it. */
module AllocatorBlocks {

  function Abs(n: int): nat { if n < 0 then -n else n }

  /** Words covered by blocks `bs`, headers included. */
  function Total(bs: seq<int>): nat {
    if bs == [] then 0 else Abs(bs[0]) + Total(bs[1..])
  }

  /** Where block `k` starts. */
  function Offset(bs: seq<int>, k: nat): nat
    requires k <= |bs|
  {
    Total(bs[..k])
  }

  /** Headers in `cells` from word `i` on are exactly `bs`, each at the start of its block. */
  ghost predicate Covers(cells: seq<int>, i: nat, bs: seq<int>)
    decreases |bs|
  {
    bs == [] ||
    (i < |cells| && cells[i] == bs[0] && bs[0] != 0 && Covers(cells, i + Abs(bs[0]), bs[1..]))
  }

  /** The words of the file and its block list. */
  datatype Heap = Heap(cells: seq<int>, blocks: seq<int>)
  {
    /** The headers tile the file exactly and no header is zero. */
    ghost predicate Valid() {
      Covers(cells, 0, blocks) && Total(blocks) == |cells|
    }
  }

  lemma {:induction false} TotalConcat(xs: seq<int>, ys: seq<int>)
    ensures Total(xs + ys) == Total(xs) + Total(ys)
  {
    if xs == [] {
      assert xs + ys == ys;
    } else {
      assert (xs + ys)[1..] == xs[1..] + ys;
      TotalConcat(xs[1..], ys);
    }
  }

  lemma {:induction false} CoversConcat(cells: seq<int>, i: nat, xs: seq<int>, ys: seq<int>)
    ensures Covers(cells, i, xs + ys) <==> Covers(cells, i, xs) && Covers(cells, i + Total(xs), ys)
    decreases |xs|
  {
    if xs == [] {
      assert xs + ys == ys;
    } else {
      assert (xs + ys)[1..] == xs[1..] + ys;
      CoversConcat(cells, i + Abs(xs[0]), xs[1..], ys);
    }
  }

  /** Headers survive changes outside the blocks they describe. */
  lemma {:induction false} CoversFrame(before: seq<int>, after: seq<int>, i: nat, bs: seq<int>)
    requires Covers(before, i, bs) && |before| == |after| && i + Total(bs) <= |before|
    requires forall x :: i <= x < i + Total(bs) ==> before[x] == after[x]
    ensures Covers(after, i, bs)
    decreases |bs|
  {
    if bs != [] {
      CoversFrame(before, after, i + Abs(bs[0]), bs[1..]);
    }
  }

  /** The blocks before `lo`, from `lo` to `hi`, and from `hi` on. */
  lemma Split(bs: seq<int>, lo: nat, hi: nat)
    requires lo <= hi <= |bs|
    ensures bs == bs[..lo] + bs[lo..hi] + bs[hi..]
    ensures Offset(bs, hi) == Offset(bs, lo) + Total(bs[lo..hi])
    ensures Total(bs) == Offset(bs, hi) + Total(bs[hi..])
  {
    hide Total;
    assert bs[..hi] == bs[..lo] + bs[lo..hi];
    assert bs == bs[..hi] + bs[hi..];
    TotalConcat(bs[..lo], bs[lo..hi]);
    TotalConcat(bs[..hi], bs[hi..]);
  }

  lemma CoversSplit(cells: seq<int>, bs: seq<int>, lo: nat, hi: nat)
    requires lo <= hi <= |bs|
    ensures Covers(cells, 0, bs) <==>
              Covers(cells, 0, bs[..lo]) && Covers(cells, Offset(bs, lo), bs[lo..hi]) &&
              Covers(cells, Offset(bs, hi), bs[hi..])
  {
    Split(bs, lo, hi);
    CoversConcat(cells, 0, bs[..lo] + bs[lo..hi], bs[hi..]);
    CoversConcat(cells, 0, bs[..lo], bs[lo..hi]);
    TotalConcat(bs[..lo], bs[lo..hi]);
  }

  /** The header of block `k` is where the block starts, and the block lies inside the file. */
  lemma HeaderAt(h: Heap, k: nat)
    requires h.Valid() && k < |h.blocks|
    ensures Offset(h.blocks, k) + Abs(h.blocks[k]) == Offset(h.blocks, k + 1) <= |h.cells|
    ensures Offset(h.blocks, k) < |h.cells| && h.cells[Offset(h.blocks, k)] == h.blocks[k] != 0
  {
    var bs := h.blocks;
    CoversSplit(h.cells, bs, k, k + 1);
    Split(bs, k, k + 1);
    assert bs[k..k + 1] == [bs[k]];
    assert Total([bs[k]]) == Abs(bs[k]) + Total([]);
  }

  lemma OffsetMonotone(bs: seq<int>, j: nat, k: nat)
    requires j <= k <= |bs|
    ensures Offset(bs, j) <= Offset(bs, k)
  {
    Split(bs, j, k);
  }

  /** Different blocks start at different places. */
  lemma OffsetInjective(h: Heap, j: nat, k: nat)
    requires h.Valid() && j < |h.blocks| && k <= |h.blocks| && Offset(h.blocks, j) == Offset(h.blocks, k)
    ensures j == k
  {
    if j < k {
      HeaderAt(h, j);
      OffsetMonotone(h.blocks, j + 1, k);
    } else if k < j {
      HeaderAt(h, k);
      OffsetMonotone(h.blocks, k + 1, j);
    }
  }

  // ---------------------------------------------------------------------------------------------
  // First fit
  // ---------------------------------------------------------------------------------------------

  /** Blocks `lo` to `hi` are adjacent free blocks with at least `size` words. */
  ghost predicate Fit(bs: seq<int>, lo: nat, hi: nat, size: nat) {
    lo < hi <= |bs| && (forall k :: lo <= k < hi ==> bs[k] < 0) && Total(bs[lo..hi]) >= size
  }

  /** The run that first fit takes: it starts a maximal run of free blocks, no fitting run starts
      before it, and it ends as soon as it is large enough. */
  ghost predicate IsFirstFit(bs: seq<int>, lo: nat, hi: nat, size: nat) {
    && Fit(bs, lo, hi, size)
    && (lo > 0 ==> bs[lo - 1] > 0)
    && !Fit(bs, lo, hi - 1, size)
    && forall l: nat, r: nat :: Fit(bs, l, r, size) ==> lo <= l
  }

  lemma FirstFitUnique(bs: seq<int>, lo: nat, hi: nat, lo': nat, hi': nat, size: nat)
    requires size > 0 && forall b <- bs :: b != 0
    requires IsFirstFit(bs, lo, hi, size) && IsFirstFit(bs, lo', hi', size)
    ensures lo == lo' && hi == hi'
  {
    if hi < hi' {
      Longer(bs, lo, hi, hi' - 1, size);
    } else if hi' < hi {
      Longer(bs, lo, hi', hi - 1, size);
    }
  }

  lemma Longer(bs: seq<int>, lo: nat, hi: nat, hi': nat, size: nat)
    requires Fit(bs, lo, hi, size) && hi <= hi' <= |bs| && forall k :: lo <= k < hi' ==> bs[k] < 0
    ensures Fit(bs, lo, hi', size)
  {
    Split(bs[lo..hi'], 0, hi - lo);
    assert bs[lo..hi'][..hi - lo] == bs[lo..hi];
    assert bs[lo..hi'][0..hi - lo] == bs[lo..hi];
  }

  // ---------------------------------------------------------------------------------------------
  // Operations on the block list
  // ---------------------------------------------------------------------------------------------

  /** Putting a block of `size` words at the start of the run `lo..hi`. */
  function Place(bs: seq<int>, lo: nat, hi: nat, size: nat): seq<int>
    requires lo <= hi <= |bs|
  {
    var gap := Total(bs[lo..hi]);
    bs[..lo] + [size] + (if size < gap then [size - gap] else []) + bs[hi..]
  }

  function Allocated(h: Heap, lo: nat, hi: nat, size: nat): (r: Heap)
    requires lo <= hi <= |h.blocks| && Offset(h.blocks, lo) + size <= |h.cells| && size > 0
    requires size < Total(h.blocks[lo..hi]) ==> Offset(h.blocks, lo) + size < |h.cells|
    ensures |r.cells| == |h.cells|
  {
    var start, gap := Offset(h.blocks, lo), Total(h.blocks[lo..hi]);
    var cells := if size < gap then h.cells[start + size := size - gap] else h.cells;
    Heap(cells[start := size], Place(h.blocks, lo, hi, size))
  }

  /** The first block from `k` on that is in use, or the end. */
  function FreeRunEnd(bs: seq<int>, k: nat): (hi: nat)
    requires k <= |bs|
    ensures k <= hi <= |bs| && (forall j :: k <= j < hi ==> bs[j] < 0) && (hi < |bs| ==> bs[hi] >= 0)
    decreases |bs| - k
  {
    if k < |bs| && bs[k] < 0 then FreeRunEnd(bs, k + 1) else k
  }

  /** Freeing block `k`: it and the free blocks right behind it become one free block. */
  function Merge(bs: seq<int>, k: nat): seq<int>
    requires k < |bs|
  {
    var hi := FreeRunEnd(bs, k + 1);
    bs[..k] + [-(Total(bs[k..hi]) as int)] + bs[hi..]
  }

  function Freed(h: Heap, k: nat): (r: Heap)
    requires k < |h.blocks| && Offset(h.blocks, k) < |h.cells|
    ensures |r.cells| == |h.cells|
  {
    var size: int := Total(h.blocks[k..FreeRunEnd(h.blocks, k + 1)]);
    Heap(h.cells[Offset(h.blocks, k) := -size], Merge(h.blocks, k))
  }

  /** Replacing the blocks `lo..hi` by blocks of the same total keeps the heap valid. */
  lemma ReplaceValid(h: Heap, cells: seq<int>, lo: nat, hi: nat, middle: seq<int>)
    requires h.Valid() && lo <= hi <= |h.blocks| && |cells| == |h.cells|
    requires Covers(cells, Offset(h.blocks, lo), middle) && Total(middle) == Total(h.blocks[lo..hi])
    requires forall x :: 0 <= x < |cells| && !(Offset(h.blocks, lo) <= x < Offset(h.blocks, hi)) ==> cells[x] == h.cells[x]
    ensures Heap(cells, h.blocks[..lo] + middle + h.blocks[hi..]).Valid()
  {
    hide Total, Covers;
    var bs := h.blocks;
    Split(bs, lo, hi);
    Untouched(h, cells, lo, hi);
    CoversConcat(cells, 0, bs[..lo], middle);
    CoversConcat(cells, 0, bs[..lo] + middle, bs[hi..]);
    TotalConcat(bs[..lo], middle);
    TotalConcat(bs[..lo] + middle, bs[hi..]);
  }

  lemma Untouched(h: Heap, cells: seq<int>, lo: nat, hi: nat)
    requires h.Valid() && lo <= hi <= |h.blocks| && |cells| == |h.cells|
    requires forall x :: 0 <= x < |cells| && !(Offset(h.blocks, lo) <= x < Offset(h.blocks, hi)) ==> cells[x] == h.cells[x]
    ensures Covers(cells, 0, h.blocks[..lo]) && Covers(cells, Offset(h.blocks, hi), h.blocks[hi..])
  {
    CoversSplit(h.cells, h.blocks, lo, hi);
    Split(h.blocks, lo, hi);
    CoversFrame(h.cells, cells, 0, h.blocks[..lo]);
    CoversFrame(h.cells, cells, Offset(h.blocks, hi), h.blocks[hi..]);
  }

  lemma CoversTwo(cells: seq<int>, i: nat, a: int, b: int)
    requires a != 0 && b != 0 && i + Abs(a) < |cells| && cells[i] == a && cells[i + Abs(a)] == b
    ensures Covers(cells, i, [a, b]) && Total([a, b]) == Abs(a) + Abs(b)
  {
    CoversOne(cells, i + Abs(a), b);
    assert [a, b][1..] == [b];
  }

  lemma CoversOne(cells: seq<int>, i: nat, a: int)
    requires a != 0 && i < |cells| && cells[i] == a
    ensures Covers(cells, i, [a]) && Total([a]) == Abs(a)
  {
    assert [a][1..] == [];
    assert Covers(cells, i + Abs(a), []);
  }

  lemma AllocatedValid(h: Heap, lo: nat, hi: nat, size: nat)
    requires h.Valid() && Fit(h.blocks, lo, hi, size) && size > 0
    ensures Offset(h.blocks, lo) + Total(h.blocks[lo..hi]) == Offset(h.blocks, hi) <= |h.cells|
    ensures Allocated(h, lo, hi, size).Valid()
  {
    var bs := h.blocks;
    Split(bs, lo, hi);
    var start, gap := Offset(bs, lo), Total(bs[lo..hi]);
    var r := Allocated(h, lo, hi, size);
    if size < gap {
      CoversTwo(r.cells, start, size, size - gap);
      ReplaceValid(h, r.cells, lo, hi, [size, size - gap]);
      assert r.blocks == bs[..lo] + [size, size - gap] + bs[hi..];
    } else {
      CoversOne(r.cells, start, size);
      ReplaceValid(h, r.cells, lo, hi, [size]);
      assert r.blocks == bs[..lo] + [size] + bs[hi..];
    }
  }

  lemma FreedValid(h: Heap, k: nat)
    requires h.Valid() && k < |h.blocks|
    ensures Offset(h.blocks, k) < |h.cells| && Freed(h, k).Valid()
  {
    HeaderAt(h, k);
    var hi := FreeRunEnd(h.blocks, k + 1);
    var size: int := Total(h.blocks[k..hi]);
    assert h.blocks[k..hi][0] == h.blocks[k];
    Split(h.blocks, k, hi);
    CoversOne(Freed(h, k).cells, Offset(h.blocks, k), -size);
    ReplaceValid(h, Freed(h, k).cells, k, hi, [-size]);
  }
}
