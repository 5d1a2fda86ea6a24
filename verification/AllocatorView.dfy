/** What the user of the in-file allocator sees: live pointers with their payloads. */
module AllocatorView {
  import opened AllocatorBlocks

  /** Block `k` is in use, and `p` is the word after its header. */
  ghost predicate PointsTo(h: Heap, k: nat, p: int) {
    k < |h.blocks| && h.blocks[k] > 0 && Offset(h.blocks, k) + 1 == p
  }

  ghost predicate IsLive(h: Heap, p: int) {
    exists k :: PointsTo(h, k, p)
  }

  /** The words behind pointer `p`, as many as its header says. */
  function Payload(cells: seq<int>, p: int): seq<int> {
    if 0 < p <= |cells| && 0 <= cells[p - 1] - 1 <= |cells| - p then cells[p..p + cells[p - 1] - 1] else []
  }

  ghost function View(h: Heap): map<int, seq<int>> {
    map p | 0 < p <= |h.cells| && IsLive(h, p) :: Payload(h.cells, p)
  }

  lemma LivePayload(h: Heap, k: nat, p: int)
    requires h.Valid() && PointsTo(h, k, p)
    ensures 0 < p <= |h.cells| && p in View(h)
    ensures p - 1 + h.blocks[k] == Offset(h.blocks, k + 1) <= |h.cells|
    ensures h.cells[p - 1] == h.blocks[k]
    ensures View(h)[p] == h.cells[p..Offset(h.blocks, k + 1)]
  {
    HeaderAt(h, k);
  }

  lemma LiveIndex(h: Heap, p: int) returns (k: nat)
    requires p in View(h)
    ensures PointsTo(h, k, p)
  {
    k :| PointsTo(h, k, p);
  }

  /** Live payloads are pairwise disjoint, and no payload contains a header. */
  lemma PayloadsDisjoint(h: Heap, p: int, q: int)
    requires h.Valid() && p in View(h) && q in View(h) && p < q
    ensures p + |View(h)[p]| <= q - 1
  {
    var j: nat :| PointsTo(h, j, p);
    var k: nat :| PointsTo(h, k, q);
    LivePayload(h, j, p);
    LivePayload(h, k, q);
    if k <= j {
      OffsetMonotone(h.blocks, k, j);
    } else {
      OffsetMonotone(h.blocks, j + 1, k);
    }
  }

  /** `t` is `h` with the blocks `lo..hi` replaced by `middle`, and words changed only there. */
  ghost predicate Replaced(h: Heap, t: Heap, lo: nat, hi: nat, middle: seq<int>) {
    && h.Valid() && t.Valid() && lo <= hi <= |h.blocks| && |t.cells| == |h.cells|
    && t.blocks == h.blocks[..lo] + middle + h.blocks[hi..]
    && Total(middle) == Total(h.blocks[lo..hi])
    && forall x :: 0 <= x < |h.cells| && !(Offset(h.blocks, lo) <= x < Offset(h.blocks, hi)) ==> t.cells[x] == h.cells[x]
  }

  lemma ReplacedBack(h: Heap, t: Heap, lo: nat, hi: nat, middle: seq<int>)
    requires Replaced(h, t, lo, hi, middle)
    ensures Replaced(t, h, lo, lo + |middle|, h.blocks[lo..hi])
    ensures Offset(t.blocks, lo) == Offset(h.blocks, lo)
    ensures Offset(t.blocks, lo + |middle|) == Offset(h.blocks, hi)
  {
    var m := lo + |middle|;
    Split(h.blocks, lo, hi);
    Split(t.blocks, lo, m);
    assert t.blocks[..lo] == h.blocks[..lo] && t.blocks[lo..m] == middle && t.blocks[m..] == h.blocks[hi..];
  }

  /** A block outside the replaced ones stays where it was. */
  lemma KeptBlock(h: Heap, t: Heap, lo: nat, hi: nat, middle: seq<int>, k: nat) returns (k': nat)
    requires Replaced(h, t, lo, hi, middle) && k < |h.blocks| && !(lo <= k < hi)
    ensures k' < |t.blocks| && t.blocks[k'] == h.blocks[k] && Offset(t.blocks, k') == Offset(h.blocks, k)
  {
    hide Total, Covers;
    if k < lo {
      k' := k;
      assert t.blocks[..k] == h.blocks[..k];
    } else {
      k' := k - hi + lo + |middle|;
      ReplacedBack(h, t, lo, hi, middle);
      Split(h.blocks, hi, k);
      Split(t.blocks, lo + |middle|, k');
      assert t.blocks[lo + |middle|..k'] == h.blocks[hi..k];
    }
  }

  /** A live block outside the replaced ones stays live with the same payload. */
  lemma KeptLive(h: Heap, t: Heap, lo: nat, hi: nat, middle: seq<int>, p: int)
    requires Replaced(h, t, lo, hi, middle) && p in View(h)
    requires !(Offset(h.blocks, lo) <= p - 1 < Offset(h.blocks, hi))
    ensures p in View(t) && View(t)[p] == View(h)[p]
  {
    hide Total, Covers;
    var k: nat :| PointsTo(h, k, p);
    hide View, IsLive;
    LivePayload(h, k, p);
    HeaderAt(h, k);
    if k < lo {
      OffsetMonotone(h.blocks, k + 1, lo);
    } else if k < hi {
      OffsetMonotone(h.blocks, lo, k);
      OffsetMonotone(h.blocks, k + 1, hi);
      assert false;
    } else {
      OffsetMonotone(h.blocks, hi, k);
    }
    var k' := KeptBlock(h, t, lo, hi, middle, k);
    assert PointsTo(t, k', p);
    LivePayload(t, k', p);
    HeaderAt(t, k');
  }

  /** A live pointer whose header is in the blocks `lo..hi` belongs to one of them. */
  lemma LiveInside(h: Heap, lo: nat, hi: nat, p: int) returns (k: nat)
    requires h.Valid() && lo <= hi <= |h.blocks| && p in View(h)
    requires Offset(h.blocks, lo) <= p - 1 < Offset(h.blocks, hi)
    ensures lo <= k < hi && PointsTo(h, k, p)
  {
    k :| PointsTo(h, k, p);
    if k < lo {
      HeaderAt(h, k);
      OffsetMonotone(h.blocks, k + 1, lo);
    } else if k >= hi {
      OffsetMonotone(h.blocks, hi, k);
    }
  }

  /** Outside the replaced blocks the user sees no difference. */
  lemma SameElsewhere(h: Heap, t: Heap, lo: nat, hi: nat, middle: seq<int>)
    requires Replaced(h, t, lo, hi, middle)
    ensures forall q :: !(Offset(h.blocks, lo) <= q - 1 < Offset(h.blocks, hi)) ==>
              (q in View(h) <==> q in View(t)) && (q in View(h) ==> View(t)[q] == View(h)[q])
  {
    hide Total, Covers, View, IsLive;
    ReplacedBack(h, t, lo, hi, middle);
    forall q | !(Offset(h.blocks, lo) <= q - 1 < Offset(h.blocks, hi))
      ensures (q in View(h) <==> q in View(t)) && (q in View(h) ==> View(t)[q] == View(h)[q])
    {
      if q in View(h) {
        KeptLive(h, t, lo, hi, middle, q);
      }
      if q in View(t) {
        KeptLive(t, h, lo, lo + |middle|, h.blocks[lo..hi], q);
      }
    }
  }

  /** Allocating adds one pointer, new to the user, with a payload of the requested words, and
      changes no other payload. */
  lemma ViewAllocated(h: Heap, lo: nat, hi: nat, size: nat)
    requires h.Valid() && Fit(h.blocks, lo, hi, size) && size > 0
    ensures Offset(h.blocks, lo) + size <= |h.cells|
    ensures size < Total(h.blocks[lo..hi]) ==> Offset(h.blocks, lo) + size < |h.cells|
    ensures var t := Allocated(h, lo, hi, size);
            var p := Offset(h.blocks, lo) + 1;
            t.Valid() && p !in View(h) && View(t) == View(h)[p := t.cells[p..p + size - 1]]
  {
    AllocatedValid(h, lo, hi, size);
    var t := Allocated(h, lo, hi, size);
    var gap := Total(h.blocks[lo..hi]);
    var middle: seq<int> := if size < gap then [size, size - gap] else [size];
    if size < gap {
      CoversTwo(t.cells, Offset(h.blocks, lo), size, size - gap);
    } else {
      CoversOne(t.cells, Offset(h.blocks, lo), size);
    }
    assert Replaced(h, t, lo, hi, middle);
    ViewAllocatedFrom(h, t, lo, hi, middle, size);
  }

  lemma ViewAllocatedFrom(h: Heap, t: Heap, lo: nat, hi: nat, middle: seq<int>, size: nat)
    requires Replaced(h, t, lo, hi, middle) && Fit(h.blocks, lo, hi, size) && size > 0
    requires |middle| > 0 && middle[0] == size && forall j :: 0 < j < |middle| ==> middle[j] < 0
    requires Offset(h.blocks, lo) + size <= Offset(h.blocks, hi) <= |h.cells|
    ensures var p := Offset(h.blocks, lo) + 1;
            p !in View(h) && View(t) == View(h)[p := t.cells[p..p + size - 1]]
  {
    hide Total, Covers, Payload, View, IsLive;
    var p, end := Offset(h.blocks, lo) + 1, Offset(h.blocks, hi);
    ReplacedBack(h, t, lo, hi, middle);
    SameElsewhere(h, t, lo, hi, middle);
    assert t.blocks[lo] == size && PointsTo(t, lo, p);
    LivePayload(t, lo, p);
    HeaderAt(t, lo);
    forall q: int | p - 1 <= q - 1 < end
      ensures q !in View(h) && (q in View(t) <==> q == p)
    {
      if q in View(h) {
        var k := LiveInside(h, lo, hi, q);
      }
      if q in View(t) {
        var k := LiveInside(t, lo, lo + |middle|, q);
        assert t.blocks[k] == middle[k - lo];
      }
    }
  }

  /** Freeing removes exactly the freed pointer and changes no other payload. */
  lemma ViewFreed(h: Heap, k: nat, p: int)
    requires h.Valid() && PointsTo(h, k, p) && Offset(h.blocks, k) < |h.cells|
    ensures Freed(h, k).Valid() && View(Freed(h, k)) == View(h) - {p}
  {
    FreedValid(h, k);
    var hi := FreeRunEnd(h.blocks, k + 1);
    var size: int := Total(h.blocks[k..hi]);
    assert [-size][1..] == [];
    Split(h.blocks, k, hi);
    assert Replaced(h, Freed(h, k), k, hi, [-size]);
    ViewFreedFrom(h, Freed(h, k), k, hi, p, size);
  }

  lemma ViewFreedFrom(h: Heap, t: Heap, k: nat, hi: nat, p: int, size: int)
    requires Replaced(h, t, k, hi, [-size]) && PointsTo(h, k, p) && k < hi && size >= 0
    requires forall j :: k < j < hi ==> h.blocks[j] < 0
    ensures View(t) == View(h) - {p}
  {
    hide Total, Covers, Payload, View, IsLive;
    ReplacedBack(h, t, k, hi, [-size]);
    SameElsewhere(h, t, k, hi, [-size]);
    LivePayload(h, k, p);
    HeaderAt(h, k);
    OffsetMonotone(h.blocks, k + 1, hi);
    forall q: int | p - 1 <= q - 1 < Offset(h.blocks, hi)
      ensures q !in View(t) && (q in View(h) <==> q == p)
    {
      if q in View(h) {
        var j := LiveInside(h, k, hi, q);
      }
      if q in View(t) {
        var j := LiveInside(t, k, k + 1, q);
      }
    }
  }

  /** A write inside a live payload changes that payload only; the block list stays. */
  lemma ViewWritten(h: Heap, p: int, i: nat, v: int)
    requires h.Valid() && p in View(h) && i < |View(h)[p]| && p + i < |h.cells|
    ensures var t := Heap(h.cells[p + i := v], h.blocks);
            t.Valid() && View(t) == View(h)[p := View(h)[p][i := v]]
  {
    hide Heap.Valid, View;
    var k := LiveIndex(h, p);
    LivePayload(h, k, p);
    var t := Heap(h.cells[p + i := v], h.blocks);
    WrittenValid(h, p, i, v);
    forall q
      ensures q in View(h) ==>
        q in View(t) && View(t)[q] == if q == p then View(h)[q][i := v] else View(h)[q]
      ensures q in View(t) ==> q in View(h)
    {
      if q in View(h) {
        WrittenPayload(h, t, p, i, v, q);
      }
      if q in View(t) {
        var j := LiveIndex(t, q);
        LivePayload(h, j, q);
      }
    }
  }

  lemma WrittenPayload(h: Heap, t: Heap, p: int, i: nat, v: int, q: int)
    requires h.Valid() && t.Valid() && p in View(h) && q in View(h) && i < |View(h)[p]| && p + i < |h.cells|
    requires t == Heap(h.cells[p + i := v], h.blocks)
    ensures q in View(t) && View(t)[q] == if q == p then View(h)[q][i := v] else View(h)[q]
  {
    hide Total, Covers, Payload, View, IsLive;
    var j := LiveIndex(h, q);
    LivePayload(h, j, q);
    LivePayload(t, j, q);
    if q < p {
      PayloadsDisjoint(h, q, p);
    } else if q > p {
      PayloadsDisjoint(h, p, q);
    }
  }

  lemma WrittenValid(h: Heap, p: int, i: nat, v: int)
    requires h.Valid() && p in View(h) && i < |View(h)[p]| && p + i < |h.cells|
    ensures Heap(h.cells[p + i := v], h.blocks).Valid()
  {
    hide Total, Covers, Payload;
    var t := Heap(h.cells[p + i := v], h.blocks);
    var k: nat :| PointsTo(h, k, p);
    LivePayload(h, k, p);
    var bs := h.blocks;
    CoversSplit(h.cells, bs, k, k + 1);
    Split(bs, k, k + 1);
    assert bs[k..k + 1] == [bs[k]];
    CoversOne(t.cells, Offset(bs, k), bs[k]);
    assert Covers(t.cells, 0, bs[..k]) by { CoversFrame(h.cells, t.cells, 0, bs[..k]); }
    assert Covers(t.cells, Offset(bs, k + 1), bs[k + 1..]) by {
      CoversFrame(h.cells, t.cells, Offset(bs, k + 1), bs[k + 1..]);
    }
    CoversSplit(t.cells, bs, k, k + 1);
  }

  // ---------------------------------------------------------------------------------------------
  // Conservation
  // ---------------------------------------------------------------------------------------------

  function UsedWords(bs: seq<int>): nat {
    if bs == [] then 0 else (if bs[0] > 0 then bs[0] else 0) + UsedWords(bs[1..])
  }

  function FreeWords(bs: seq<int>): nat {
    if bs == [] then 0 else (if bs[0] < 0 then -bs[0] else 0) + FreeWords(bs[1..])
  }

  /** Words in use and free words add up to the file. */
  lemma {:induction false} UsedPlusFree(bs: seq<int>)
    ensures UsedWords(bs) + FreeWords(bs) == Total(bs)
  {
    if bs != [] {
      UsedPlusFree(bs[1..]);
    }
  }

  /** When nothing is live, all blocks are free and together make up the whole file. */
  lemma NothingLive(h: Heap)
    requires h.Valid() && View(h) == map[] && h.cells != []
    ensures Fit(h.blocks, 0, |h.blocks|, |h.cells|)
  {
    forall k | 0 <= k < |h.blocks| ensures h.blocks[k] < 0 {
      HeaderAt(h, k);
      if h.blocks[k] > 0 {
        assert PointsTo(h, k, Offset(h.blocks, k) + 1);
        LivePayload(h, k, Offset(h.blocks, k) + 1);
      }
    }
    assert h.blocks[0..|h.blocks|] == h.blocks;
  }
}
