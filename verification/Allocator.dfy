/** The in-file memory allocator: `my_malloc` and `my_free` over one array of 32-bit words, and what
    every run of them keeps. */
module Allocator {
  import opened Wrappers
  import opened Integers
  import opened AllocatorBlocks
  import opened AllocatorView

  const SIZE_T: int := 0x1_0000_0000_0000_0000

  /** The words a request needs: its bytes divided by the word size, rounded up. */
  function WordsFor(bytes: nat): nat { (bytes + 3) / 4 }

  /** `align_bytes`: computed in `size_t`, returned as a 32-bit signed number. */
  function AlignBytes(bytes: nat): Int32 {
    if bytes == 0 then 0 else ToInt32((bytes - 1) / 4 + 1)
  }

  /** The rounding is exact precisely for requests of fewer than 2^31 words. */
  lemma AlignBytesExact(bytes: nat)
    ensures AlignBytes(bytes) == WordsFor(bytes) <==> WordsFor(bytes) < INT_HALF
  {
    assert bytes > 0 ==> (bytes - 1) / 4 + 1 == WordsFor(bytes);
  }

  /** The words `my_malloc` looks for: the aligned size and a header, in `size_t` again. */
  function Wanted(bytes: nat): nat { (AlignBytes(bytes) + 1) % SIZE_T }

  // ---------------------------------------------------------------------------------------------
  // First fit, as the loop computes it
  // ---------------------------------------------------------------------------------------------

  datatype Gap = Gap(lo: nat, hi: nat)

  /** The first fit among the runs that end at block `k` or later, when blocks `lo..k` are a run. */
  function Search(bs: seq<int>, lo: nat, k: nat, size: nat): (r: Option<Gap>)
    requires lo <= k <= |bs|
    ensures r.Some? ==> r.value.lo < r.value.hi <= |bs|
    decreases |bs| - k
  {
    if k == |bs| then None
    else if bs[k] > 0 then Search(bs, k + 1, k + 1, size)
    else if Total(bs[lo..k + 1]) >= size then Some(Gap(lo, k + 1))
    else Search(bs, lo, k + 1, size)
  }

  /** A fitting run does not reach back over a block in use, so a longer run fits as well. */
  lemma RunContains(bs: seq<int>, lo: nat, l: nat, r: nat, size: nat)
    requires Fit(bs, l, r, size) && lo < r && (lo > 0 ==> bs[lo - 1] > 0)
    ensures lo <= l && Total(bs[lo..r]) >= size
  {
    if l < lo {
      assert false;
    }
    hide Total;
    Split(bs[lo..r], l - lo, r - lo);
    assert bs[lo..r][l - lo..r - lo] == bs[l..r];
    assert bs[lo..r][..r - lo] == bs[lo..r];
  }

  /** The search is sound and complete: it finds the first fit, and fails only when no run of
      adjacent free blocks is large enough. */
  lemma {:induction false} SearchFindsFirstFit(bs: seq<int>, lo: nat, k: nat, size: nat)
    requires lo <= k <= |bs| && size > 0 && forall b <- bs :: b != 0
    requires (forall j :: lo <= j < k ==> bs[j] < 0) && (lo > 0 ==> bs[lo - 1] > 0)
    requires forall l: nat, r: nat :: Fit(bs, l, r, size) ==> r > k
    ensures var g := Search(bs, lo, k, size);
            if g.Some? then IsFirstFit(bs, g.value.lo, g.value.hi, size)
            else forall l: nat, r: nat :: !Fit(bs, l, r, size)
    decreases |bs| - k
  {
    hide Total;
    if k < |bs| {
      assert bs[k] in bs;
      forall l: nat, r: nat | Fit(bs, l, r, size)
        ensures bs[k] < 0 ==> lo <= l && (r == k + 1 ==> Total(bs[lo..k + 1]) >= size)
        ensures bs[k] > 0 ==> r > k + 1
      {
        if bs[k] < 0 {
          RunContains(bs, lo, l, r, size);
        }
      }
      if bs[k] > 0 {
        SearchFindsFirstFit(bs, k + 1, k + 1, size);
      } else if Total(bs[lo..k + 1]) < size {
        SearchFindsFirstFit(bs, lo, k + 1, size);
      }
    }
  }

  // ---------------------------------------------------------------------------------------------
  // The operations as functions of the heap
  // ---------------------------------------------------------------------------------------------

  /** `my_malloc`. The first branch after zero is the one a request of 2^32 - 1 words (modulo 2^32)
      takes: the size wraps around to zero, and so does the first header. */
  function Malloc(h: Heap, bytes: nat): (r: (Heap, Option<int>))
    requires h.Valid() && h.cells != []
  {
    if bytes == 0 then (h, None)
    else if Wanted(bytes) == 0 then (h.(cells := h.cells[0 := 0]), Some(1))
    else
      var g := Search(h.blocks, 0, 0, Wanted(bytes));
      if g.None? then (h, None)
      else
        FoundFits(h, Wanted(bytes));
        var Gap(lo, hi) := g.value;
        (Allocated(h, lo, hi, Wanted(bytes)), Some(Offset(h.blocks, lo) + 1))
  }

  lemma FoundFits(h: Heap, size: nat)
    requires h.Valid() && size > 0
    ensures var g := Search(h.blocks, 0, 0, size);
            if g.Some? then
              IsFirstFit(h.blocks, g.value.lo, g.value.hi, size) &&
              Offset(h.blocks, g.value.lo) + Total(h.blocks[g.value.lo..g.value.hi]) <= |h.cells|
            else forall l: nat, r: nat :: !Fit(h.blocks, l, r, size)
  {
    hide Total, Covers;
    forall b | b in h.blocks ensures b != 0 {
      var k: nat :| k < |h.blocks| && h.blocks[k] == b;
      HeaderAt(h, k);
    }
    SearchFindsFirstFit(h.blocks, 0, 0, size);
    var g := Search(h.blocks, 0, 0, size);
    if g.Some? {
      AllocatedValid(h, g.value.lo, g.value.hi, size);
    }
  }

  lemma WantedZero(bytes: nat)
    ensures Wanted(bytes) == 0 <==> AlignBytes(bytes) == -1
  {
  }

  /** Without the header of the first block the headers no longer tile the file. */
  lemma ZeroHeaderBreaks(h: Heap)
    requires h.Valid() && h.cells != []
    ensures !h.(cells := h.cells[0 := 0]).Valid()
  {
  }

  /** Whether a block starts right before `p`. */
  ghost predicate IsBoundary(h: Heap, p: int) {
    exists k: nat :: k < |h.blocks| && Offset(h.blocks, k) + 1 == p
  }

  ghost function BlockOf(h: Heap, p: int): (k: nat)
    requires h.Valid() && IsBoundary(h, p)
    ensures k < |h.blocks| && Offset(h.blocks, k) + 1 == p && Offset(h.blocks, k) < |h.cells|
    ensures h.cells[Offset(h.blocks, k)] == h.blocks[k] != 0
  {
    var k: nat :| k < |h.blocks| && Offset(h.blocks, k) + 1 == p;
    HeaderAt(h, k);
    k
  }

  /** `my_free` of a pointer into the file; a block that is free already is left alone. */
  ghost function Free(h: Heap, p: int): Heap
    requires h.Valid() && IsBoundary(h, p)
  {
    var k := BlockOf(h, p);
    if h.blocks[k] < 0 then h else Freed(h, k)
  }

  // ---------------------------------------------------------------------------------------------
  // The allocator object
  // ---------------------------------------------------------------------------------------------

  class SwapFile {
    var words: array<Int32>
    ghost var blocks: seq<int>

    ghost function State(): Heap
      reads this, words
    {
      Heap(words[..], blocks)
    }

    ghost predicate Valid()
      reads this, words
    {
      State().Valid() && 0 < words.Length < INT_HALF
    }

    /** `myalloc_initialize`: one free block spans the zeroed file. */
    constructor (words: array<Int32>)
      requires 0 < words.Length < INT_HALF
      modifies words
      ensures Valid() && this.words == words && View(State()) == map[]
      ensures State() == Initial(words.Length)
      ensures words[0] == -words.Length && forall j :: 0 < j < words.Length ==> words[j] == 0
    {
      this.words := words;
      blocks := [-words.Length];
      new;
      for i := 0 to words.Length
        invariant this.words == words && blocks == [-words.Length]
        invariant forall j :: 0 <= j < i ==> words[j] == 0
      {
        words[i] := 0;
      }
      words[0] := -words.Length;
      assert words[..] == Initial(words.Length).cells;
      InitialValid(words.Length);
    }

    /** `find_first_empty_gap`, for a positive size: the start and length of the first fit. */
    method FindFirstEmptyGap(size: nat) returns (index: int, gapSize: nat)
      requires Valid() && size > 0
      ensures var g := Search(blocks, 0, 0, size);
              if g.None? then index == -1
              else index == Offset(blocks, g.value.lo) && gapSize == Total(blocks[g.value.lo..g.value.hi])
    {
      hide Covers, Total;
      TotalGrows(blocks, 0, 0);
      gapSize := 0;
      var maxGap: nat := 0;
      var i := 0;
      ghost var lo, k: nat := 0, 0;
      while i < words.Length
        invariant lo <= k <= |blocks| && i == Offset(blocks, k) && maxGap == Total(blocks[lo..k])
        invariant Search(blocks, lo, k, size) == Search(blocks, 0, 0, size)
        invariant i <= words.Length && (k == |blocks| <==> i == words.Length)
        decreases |blocks| - k
      {
        EndOfBlocks(State(), k);
        var shift: int := words[i];
        TotalGrows(blocks, lo, k);
        Split(blocks, lo, k);
        if shift > 0 {
          maxGap := 0;
          lo := k + 1;
          TotalGrows(blocks, lo, lo);
        } else {
          shift := shift * -1;
          if shift + maxGap >= size {
            return i - maxGap, shift + maxGap;
          }
          maxGap := maxGap + shift;
        }
        i := i + shift;
        k := k + 1;
      }
      return -1, 0;
    }

    method MyMalloc(bytes: nat) returns (p: Option<int>)
      requires Valid()
      modifies words, this`blocks
      ensures words == old(words)
      ensures (State(), p) == Malloc(old(State()), bytes)
      ensures Valid() <==> bytes == 0 || AlignBytes(bytes) != -1
      ensures bytes == 0 ==> p == None && State() == old(State())
    {
      if bytes == 0 { return None; }
      hide Heap.Valid, Search;
      WantedZero(bytes);
      var size := Wanted(bytes);
      var index, gapSize: int := 0, 0;
      ghost var before := State();
      if size != 0 {
        FoundFits(before, size);
        index, gapSize := FindFirstEmptyGap(size);
      }
      if index == -1 { return None; }
      ghost var g := Search(blocks, 0, 0, size);
      if size != 0 {
        AllocatedValid(before, g.value.lo, g.value.hi, size);
        if size < gapSize {
          words[index + size] := -(gapSize - size);
        }
        words[index] := size;
        blocks := Place(blocks, g.value.lo, g.value.hi, size);
        assert State() == Allocated(before, g.value.lo, g.value.hi, size);
      } else {
        words[index] := size;
        ZeroHeaderBreaks(before);
        assert State() == before.(cells := before.cells[0 := 0]);
      }
      return Some(index + 1);
    }

    /** `my_free`; a pointer outside the file ends the program, which is `ok == false` here. */
    method MyFree(p: Option<int>) returns (ok: bool)
      requires Valid()
      requires p.Some? && 0 <= p.value < words.Length ==> IsBoundary(State(), p.value)
      modifies words, this`blocks
      ensures Valid() && words == old(words)
      ensures ok == (p.Some? && 0 <= p.value < words.Length)
      ensures State() == if ok then Free(old(State()), p.value) else old(State())
    {
      if p.None? || p.value >= words.Length || p.value < 0 { return false; }
      ghost var before := State();
      ghost var k := BlockOf(before, p.value);
      var start := p.value - 1;
      if words[start] <= 0 { return true; }
      var emptySpace := SpaceFrom(start, k);
      FreedValid(before, k);
      words[start] := -emptySpace;
      blocks := Merge(blocks, k);
      assert State() == Freed(before, k);
      return true;
    }

    /** The loop of `my_free`: the block at `start` and the free blocks right behind it. */
    method SpaceFrom(start: int, ghost k: nat) returns (emptySpace: int)
      requires Valid() && k < |blocks| && blocks[k] > 0 && start == Offset(blocks, k)
      ensures emptySpace == Total(blocks[k..FreeRunEnd(blocks, k + 1)]) <= words.Length
    {
      hide Covers, Total;
      EndOfBlocks(State(), k);
      TotalGrows(blocks, k, k);
      ghost var hi := k + 1;
      emptySpace := words[start];
      while start + emptySpace < words.Length && words[start + emptySpace] < 0
        invariant k < hi <= |blocks| && emptySpace == Total(blocks[k..hi])
        invariant start + emptySpace == Offset(blocks, hi) <= words.Length
        invariant start + emptySpace == words.Length <==> hi == |blocks|
        invariant FreeRunEnd(blocks, hi) == FreeRunEnd(blocks, k + 1)
        decreases |blocks| - hi
      {
        EndOfBlocks(State(), hi);
        TotalGrows(blocks, k, hi);
        emptySpace := emptySpace + -words[start + emptySpace];
        hi := hi + 1;
      }
      EndOfBlocks(State(), hi);
    }
  }

  /** Adding block `k` to the run of blocks from `lo` on. */
  lemma TotalGrows(bs: seq<int>, lo: nat, k: nat)
    requires lo <= k <= |bs|
    ensures lo == k ==> Total(bs[lo..k]) == 0
    ensures k < |bs| ==> Total(bs[lo..k + 1]) == Total(bs[lo..k]) + Abs(bs[k])
    ensures lo == 0 ==> Total(bs[lo..k]) == Offset(bs, k)
  {
    assert lo == 0 ==> bs[lo..k] == bs[..k];
    if k < |bs| {
      TotalConcat(bs[lo..k], [bs[k]]);
      assert bs[lo..k + 1] == bs[lo..k] + [bs[k]];
      assert [bs[k]][1..] == [];
    }
  }

  /** Block `k` and the start of the next one. */
  lemma EndOfBlocks(h: Heap, k: nat)
    requires h.Valid() && k <= |h.blocks|
    ensures k < |h.blocks| ==>
              Offset(h.blocks, k) < |h.cells| && h.cells[Offset(h.blocks, k)] == h.blocks[k] != 0 &&
              Offset(h.blocks, k + 1) == Offset(h.blocks, k) + Abs(h.blocks[k])
    ensures k < |h.blocks| ==> (k + 1 == |h.blocks| <==> Offset(h.blocks, k + 1) == |h.cells|)
    ensures k == |h.blocks| ==> Offset(h.blocks, k) == |h.cells|
    ensures k < |h.blocks| ==> Offset(h.blocks, k + 1) <= |h.cells|
  {
    hide Covers;
    assert h.blocks[..|h.blocks|] == h.blocks;
    if k < |h.blocks| {
      HeaderAt(h, k);
      if k + 1 < |h.blocks| {
        HeaderAt(h, k + 1);
      }
    }
  }

  function Initial(n: nat): Heap
    requires n > 0
  {
    var header: int := -(n as int);
    Heap([header] + seq(n - 1, _ => 0), [header])
  }

  lemma InitialValid(n: nat)
    requires n > 0
    ensures Initial(n).Valid() && View(Initial(n)) == map[]
  {
    CoversOne(Initial(n).cells, 0, -(n as int));
  }
}
