/** What every run of the allocator keeps, for a client that frees only live pointers and writes only
    inside live payloads. */
module AllocatorRuns {
  import opened Wrappers
  import opened Integers
  import opened AllocatorBlocks
  import opened AllocatorView
  import opened Allocator

  /** What a client does: it asks for memory, frees a live pointer, or writes a payload word. */
  datatype Op = Ask(bytes: nat) | Release(p: int) | Store(p: int, i: nat, v: Int32)

  /** The one kind of request that breaks the headers is left out, and so is freeing a pointer to
      no words at the very end of the file, which `my_free` refuses. */
  ghost predicate Legal(h: Heap, op: Op) {
    match op
    case Ask(bytes) => bytes == 0 || AlignBytes(bytes) != -1
    case Release(p) => p in View(h) && p < |h.cells|
    case Store(p, i, _) => p in View(h) && i < |View(h)[p]|
  }

  ghost predicate InRange(h: Heap) { h.Valid() && 0 < |h.cells| < INT_HALF }

  /** The allocator's heap after one client operation. */
  ghost function Perform(h: Heap, op: Op): Heap
    requires InRange(h) && Legal(h, op)
  {
    match op
    case Ask(bytes) => Malloc(h, bytes).0
    case Release(p) => LiveIsBoundary(h, p); Free(h, p)
    case Store(p, i, v) => LiveIsBoundary(h, p); h.(cells := h.cells[p + i := v])
  }

  lemma LiveIsBoundary(h: Heap, p: int)
    requires h.Valid() && p in View(h)
    ensures IsBoundary(h, p) && p + |View(h)[p]| <= |h.cells| && 0 < p
  {
    var k := LiveIndex(h, p);
    LivePayload(h, k, p);
  }

  /** Requests below 2^31 words, where the size computation is exact. */
  predicate Small(op: Op) { op.Ask? ==> WordsFor(op.bytes) < INT_HALF }

  /** The words a request asks for, or, `cut`, what is left of them in a 32-bit number. */
  function Words(bytes: nat, cut: bool): int { if cut then AlignBytes(bytes) else WordsFor(bytes) }

  /** The pointer that the allocator gives to the client, if any. */
  ghost function Answer(h: Heap, op: Op): Option<int>
    requires InRange(h) && Legal(h, op)
  {
    match op
    case Ask(bytes) => Malloc(h, bytes).1
    case _ => None
  }

  /** A simple heap: pointers with their payloads, and nothing about where the blocks lie. Asking gives
      a new pointer with the words asked for, or nothing and no change; asking for zero bytes gives
      nothing. */
  ghost predicate ClientStep(before: map<int, seq<int>>, op: Op, answer: Option<int>, after: map<int, seq<int>>, cut: bool) {
    match op
    case Ask(bytes) =>
      if answer.None? then after == before
      else
        && bytes > 0 && answer.value !in before && answer.value in after
        && |after[answer.value]| == Words(bytes, cut) && after == before[answer.value := after[answer.value]]
    case Release(p) => p in before && after == before - {p}
    case Store(p, i, v) => p in before && i < |before[p]| && after == before[p := before[p][i := v]]
  }

  /** A request that succeeds adds one pointer, with as many words as the 32-bit size says. */
  lemma Granted(h: Heap, bytes: nat) returns (p: int, payload: seq<int>)
    requires InRange(h) && bytes > 0 && AlignBytes(bytes) != -1 && Malloc(h, bytes).1.Some?
    ensures var t := Malloc(h, bytes).0;
            && Malloc(h, bytes).1 == Some(p) && p !in View(h) && View(t) == View(h)[p := payload]
            && |payload| == AlignBytes(bytes) && InRange(t) && |t.cells| == |h.cells|
  {
    hide View, Heap.Valid;
    Outcome(h, bytes);
    var size := Wanted(bytes);
    FoundFits(h, size);
    var Gap(lo, hi) := Search(h.blocks, 0, 0, size).value;
    ViewAllocated(h, lo, hi, size);
    p := Offset(h.blocks, lo) + 1;
    payload := Malloc(h, bytes).0.cells[p..p + size - 1];
    if AlignBytes(bytes) < -1 {
      TooLarge(h, size);
      assert false;
    }
  }

  /** One operation: the headers still tile the file, and the user sees one step of the simple heap,
      with exactly the words asked for when the request is small. */
  lemma PerformRefines(h: Heap, op: Op)
    requires InRange(h) && Legal(h, op)
    ensures InRange(Perform(h, op)) && |Perform(h, op).cells| == |h.cells|
    ensures ClientStep(View(h), op, Answer(h, op), View(Perform(h, op)), true)
    ensures Small(op) ==> ClientStep(View(h), op, Answer(h, op), View(Perform(h, op)), false)
  {
    hide View, Heap.Valid;
    match op
    case Ask(bytes) =>
      AlignBytesExact(bytes);
      if bytes > 0 && Malloc(h, bytes).1.Some? {
        var p, payload := Granted(h, bytes);
      } else {
        assert Perform(h, op) == h;
      }
    case Release(p) =>
      LiveIsBoundary(h, p);
      var k := BlockOf(h, p);
      var j := LiveIndex(h, p);
      OffsetInjective(h, j, k);
      ViewFreed(h, k, p);
    case Store(p, i, v) =>
      LiveIsBoundary(h, p);
      ViewWritten(h, p, i, v);
  }

  /** `t` is reached from `h` by the operations `ops`, all of them legal when made. */
  ghost predicate Runs(h: Heap, ops: seq<Op>, t: Heap)
    decreases |ops|
  {
    if ops == [] then h == t
    else InRange(h) && Legal(h, ops[0]) && Runs(Perform(h, ops[0]), ops[1..], t)
  }

  /** The run of the simple heap on the same operations. */
  ghost predicate ClientRuns(before: map<int, seq<int>>, ops: seq<Op>, answers: seq<Option<int>>,
                             after: map<int, seq<int>>, cut: bool)
    decreases |ops|
  {
    |answers| == |ops| &&
    if ops == [] then before == after
    else exists next :: ClientStep(before, ops[0], answers[0], next, cut) && ClientRuns(next, ops[1..], answers[1..], after, cut)
  }

  /** What the allocator answers along a run. */
  ghost function Answers(h: Heap, ops: seq<Op>, t: Heap): (answers: seq<Option<int>>)
    requires Runs(h, ops, t)
    ensures |answers| == |ops|
    decreases |ops|
  {
    if ops == [] then [] else [Answer(h, ops[0])] + Answers(Perform(h, ops[0]), ops[1..], t)
  }

  /** Every run from any valid heap: the headers tile the file exactly, words in use and free words
      total the file, and the user cannot tell the allocator from the simple heap, which hands out
      exactly what is asked for when all requests of the run are small. */
  lemma {:induction false} RunsRefine(h: Heap, ops: seq<Op>, t: Heap)
    requires InRange(h) && Runs(h, ops, t)
    ensures InRange(t) && |t.cells| == |h.cells|
    ensures UsedWords(t.blocks) + FreeWords(t.blocks) == |h.cells|
    ensures ClientRuns(View(h), ops, Answers(h, ops, t), View(t), true)
    ensures (forall op <- ops :: Small(op)) ==> ClientRuns(View(h), ops, Answers(h, ops, t), View(t), false)
    decreases |ops|
  {
    hide View, Legal, Perform, ClientStep, Small, Answer;
    UsedPlusFree(t.blocks);
    if ops != [] {
      assert ops[0] in ops;
      PerformRefines(h, ops[0]);
      RunsRefine(Perform(h, ops[0]), ops[1..], t);
      assert Answers(h, ops, t)[1..] == Answers(Perform(h, ops[0]), ops[1..], t);
    }
  }

  /** No operation of a run changes the payload of a live block that the client itself neither
      frees nor writes. */
  lemma {:induction false} RunsPreserve(h: Heap, ops: seq<Op>, t: Heap, p: int)
    requires InRange(h) && Runs(h, ops, t) && p in View(h)
    requires forall op <- ops :: !(op.Release? && op.p == p) && !(op.Store? && op.p == p)
    ensures p in View(t) && View(t)[p] == View(h)[p]
    decreases |ops|
  {
    hide View, Legal, Perform;
    if ops != [] {
      PerformRefines(h, ops[0]);
      assert ops[0] in ops;
      var next := Perform(h, ops[0]);
      assert p in View(next) && View(next)[p] == View(h)[p];
      RunsPreserve(next, ops[1..], t, p);
    }
  }

  // ---------------------------------------------------------------------------------------------
  // When a request succeeds
  // ---------------------------------------------------------------------------------------------

  lemma {:induction false} FitBounded(h: Heap, lo: nat, hi: nat, size: nat)
    requires h.Valid() && Fit(h.blocks, lo, hi, size)
    ensures size <= |h.cells|
  {
    hide Total, Covers;
    Split(h.blocks, lo, hi);
    OffsetMonotone(h.blocks, hi, |h.blocks|);
    assert h.blocks[..|h.blocks|] == h.blocks;
  }

  /** No run of adjacent free blocks has `size` words, header included. */
  ghost predicate NoRoom(h: Heap, size: nat) {
    forall lo: nat, hi: nat :: !Fit(h.blocks, lo, hi, size)
  }

  /** A nonzero request fails exactly when there is no room, for every request below 2^31 words.
      Beyond that the size is truncated, and it fails as it should only when the truncated size is
      negative other than -1, or when there is no room for the truncated size either. */
  lemma MallocFailsExactly(h: Heap, bytes: nat)
    requires InRange(h) && bytes > 0
    ensures (Malloc(h, bytes).1 == None <==> NoRoom(h, WordsFor(bytes) + 1))
       <==> (WordsFor(bytes) < INT_HALF
             || AlignBytes(bytes) < -1
             || (AlignBytes(bytes) >= 0 && NoRoom(h, AlignBytes(bytes) + 1)))
  {
    hide View, Heap.Valid;
    var w, a := WordsFor(bytes), AlignBytes(bytes);
    AlignBytesExact(bytes);
    Outcome(h, bytes);
    if w >= INT_HALF {
      TooLarge(h, w + 1);
    }
    if a < -1 {
      TooLarge(h, Wanted(bytes));
    }
  }

  lemma TooLarge(h: Heap, size: nat)
    requires h.Valid() && size > |h.cells|
    ensures NoRoom(h, size)
  {
    hide Heap.Valid;
    forall lo: nat, hi: nat ensures !Fit(h.blocks, lo, hi, size) {
      if Fit(h.blocks, lo, hi, size) {
        FitBounded(h, lo, hi, size);
      }
    }
  }

  lemma Outcome(h: Heap, bytes: nat)
    requires InRange(h) && bytes > 0
    ensures Wanted(bytes) == 0 <==> AlignBytes(bytes) == -1
    ensures AlignBytes(bytes) >= 0 ==> Wanted(bytes) == AlignBytes(bytes) + 1
    ensures AlignBytes(bytes) < -1 ==> Wanted(bytes) > INT_HALF
    ensures Wanted(bytes) != 0 ==>
      (Malloc(h, bytes).1 == None <==> NoRoom(h, Wanted(bytes)))
  {
    hide View, Heap.Valid;
    if Wanted(bytes) != 0 {
      FoundFits(h, Wanted(bytes));
      var g := Search(h.blocks, 0, 0, Wanted(bytes));
      if g.Some? {
        assert Fit(h.blocks, g.value.lo, g.value.hi, Wanted(bytes));
      }
    }
  }

  /** A request for zero bytes gets nothing, and nothing changes. */
  lemma ZeroBytes(h: Heap)
    requires InRange(h)
    ensures Malloc(h, 0).1 == None && Malloc(h, 0).0 == h
  {
  }

  /** The words of a request are the fewest that hold its bytes. */
  lemma WordsHoldBytes(bytes: nat)
    ensures 4 * WordsFor(bytes) >= bytes && (bytes > 0 ==> 4 * (WordsFor(bytes) - 1) < bytes)
    ensures bytes == 0 ==> WordsFor(bytes) == 0
  {
  }

  /** A block that is freed becomes one free block with all free blocks behind it, up to the next block
      in use or the end; all other blocks stay. */
  lemma FreeMerges(h: Heap, k: nat)
    requires InRange(h) && k < |h.blocks| && h.blocks[k] > 0
    ensures IsBoundary(h, Offset(h.blocks, k) + 1)
    ensures var t := Free(h, Offset(h.blocks, k) + 1); exists hi :: MergedUpTo(h, t, k, hi)
  {
    hide Total, Covers, Heap.Valid, MergedUpTo;
    HeaderAt(h, k);
    var p := Offset(h.blocks, k) + 1;
    assert IsBoundary(h, p);
    OffsetInjective(h, BlockOf(h, p), k);
    assert Free(h, p) == Freed(h, k);
    FreedParts(h, k);
    assert MergedUpTo(h, Free(h, p), k, FreeRunEnd(h.blocks, k + 1));
  }

  /** In `t` the blocks from `k` up to `hi` of `h` are one free block; `k` was in use, the others free,
      and `hi` is in use or the end. */
  ghost predicate MergedUpTo(h: Heap, t: Heap, k: nat, hi: nat) {
    && k < hi <= |h.blocks|
    && (forall j :: k < j < hi ==> h.blocks[j] < 0) && (hi < |h.blocks| ==> h.blocks[hi] > 0)
    && |t.blocks| == k + 1 + |h.blocks| - hi
    && t.blocks[..k] == h.blocks[..k] && t.blocks[k + 1..] == h.blocks[hi..]
    && t.blocks[k] == Offset(h.blocks, k) - Offset(h.blocks, hi)
    && Offset(h.blocks, k) < |t.cells| && t.cells[Offset(h.blocks, k)] == t.blocks[k]
  }

  lemma FreedParts(h: Heap, k: nat)
    requires h.Valid() && k < |h.blocks| && h.blocks[k] > 0
    ensures Offset(h.blocks, k) < |h.cells|
    ensures MergedUpTo(h, Freed(h, k), k, FreeRunEnd(h.blocks, k + 1))
  {
    hide Total, Covers, Heap.Valid, Offset, FreeRunEnd;
    HeaderAt(h, k);
    var hi := FreeRunEnd(h.blocks, k + 1);
    assert Offset(h.blocks, hi) == Offset(h.blocks, k) + Total(h.blocks[k..hi]) by { Split(h.blocks, k, hi); }
    if hi < |h.blocks| {
      HeaderAt(h, hi);
    }
    var size: int := Total(h.blocks[k..hi]);
    Spliced(h.blocks, k, -size, hi);
  }

  lemma Spliced(bs: seq<int>, k: nat, x: int, hi: nat)
    requires k < hi <= |bs|
    ensures var r := bs[..k] + [x] + bs[hi..];
            |r| == k + 1 + |bs| - hi && r[..k] == bs[..k] && r[k] == x && r[k + 1..] == bs[hi..]
  {
  }

  /** Freeing a pointer again before the block is handed out anew changes nothing. */
  lemma FreeTwice(h: Heap, p: int)
    requires InRange(h) && IsBoundary(h, p)
    ensures var t := Free(h, p); InRange(t) && IsBoundary(t, p) && Free(t, p) == t
  {
    hide Total, Covers;
    var k := BlockOf(h, p);
    if h.blocks[k] > 0 {
      FreedValid(h, k);
      var t := Freed(h, k);
      assert t.blocks[..k] == h.blocks[..k];
      assert PointsAt(t, k, p);
      HeaderAt(t, k);
      OffsetInjective(t, BlockOf(t, p), k);
    }
  }

  ghost predicate PointsAt(h: Heap, k: nat, p: int) { k < |h.blocks| && Offset(h.blocks, k) + 1 == p }

  /** A request keeps the headers tiling the file if and only if its number of words is not 2^32 - 1
      modulo 2^32. Those requests zero the first header and hand out the word behind it, whether or
      not that block is free. */
  lemma ValidExactly(h: Heap, bytes: nat)
    requires InRange(h)
    ensures Malloc(h, bytes).0.Valid() <==> bytes == 0 || AlignBytes(bytes) != -1
    ensures AlignBytes(bytes) == -1 <==> WordsFor(bytes) % 0x1_0000_0000 == 0xffff_ffff
    ensures AlignBytes(bytes) == -1 ==> Malloc(h, bytes).1 == Some(1)
  {
    hide Heap.Valid;
    WantedZero(bytes);
    if bytes > 0 && AlignBytes(bytes) == -1 {
      ZeroHeaderBreaks(h);
    } else if bytes > 0 {
      Outcome(h, bytes);
      if Malloc(h, bytes).1.Some? {
        var p, payload := Granted(h, bytes);
      } else {
        assert Malloc(h, bytes).0 == h;
      }
    }
  }

  /** The smallest request that destroys the first header. */
  lemma HugeRequestCorrupts(h: Heap)
    requires InRange(h)
    ensures Malloc(h, 4 * 0xffff_ffff).1 == Some(1)
    ensures !Malloc(h, 4 * 0xffff_ffff).0.Valid()
  {
    ValidExactly(h, 4 * 0xffff_ffff);
  }

  /** Of the requests that keep the headers, exactly those do what they are asked for that are small,
      or that find nothing: their size cut to 32 bits is negative, or there is no room for it. */
  lemma AskedForExactly(h: Heap, bytes: nat)
    requires InRange(h) && bytes > 0 && AlignBytes(bytes) != -1
    ensures ClientStep(View(h), Ask(bytes), Malloc(h, bytes).1, View(Malloc(h, bytes).0), false)
       <==> (WordsFor(bytes) < INT_HALF
             || AlignBytes(bytes) < -1
             || NoRoom(h, AlignBytes(bytes) + 1))
  {
    hide View, Heap.Valid;
    AlignBytesExact(bytes);
    Outcome(h, bytes);
    if AlignBytes(bytes) < -1 {
      TooLarge(h, Wanted(bytes));
    }
    if Malloc(h, bytes).1.Some? {
      var p, payload := Granted(h, bytes);
    }
  }

  /** A request of 2^32 + 1 words succeeds in any file with a free block of two words, and gets one. */
  lemma TruncatedRequest(h: Heap)
    requires InRange(h) && !NoRoom(h, 2)
    ensures var bytes := 4 * 0x1_0000_0001;
            var t := Malloc(h, bytes).0;
            && (exists p :: Malloc(h, bytes).1 == Some(p) && p in View(t) && |View(t)[p]| == 1)
            && !ClientStep(View(h), Ask(bytes), Malloc(h, bytes).1, View(t), false)
  {
    hide View, Heap.Valid;
    var bytes := 4 * 0x1_0000_0001;
    assert AlignBytes(bytes) == 1;
    Outcome(h, bytes);
    AskedForExactly(h, bytes);
    var p, payload := Granted(h, bytes);
  }

  /** When a request that keeps the headers succeeds, it takes the lowest maximal run with enough room
      for its size. */
  lemma MallocTakesFirstFit(h: Heap, bytes: nat)
    requires InRange(h) && bytes > 0 && AlignBytes(bytes) != -1 && Malloc(h, bytes).1.Some?
    ensures AlignBytes(bytes) >= 0
    ensures var size := AlignBytes(bytes) + 1;
            exists lo: nat, hi: nat :: IsFirstFit(h.blocks, lo, hi, size) &&
              Malloc(h, bytes).1 == Some(Offset(h.blocks, lo) + 1)
  {
    hide View, Heap.Valid;
    Outcome(h, bytes);
    var p, payload := Granted(h, bytes);
    FoundFits(h, Wanted(bytes));
    var g := Search(h.blocks, 0, 0, Wanted(bytes)).value;
    assert IsFirstFit(h.blocks, g.lo, g.hi, AlignBytes(bytes) + 1);
  }

  /** Once everything allocated is freed, in whatever order, the whole file is available again: a
      request for all its words but one succeeds, at the start, and a larger one does not. What counts
      is the size in 32 bits, which below 2^31 words is the size asked for. */
  lemma AllFreedThenWhole(h: Heap, ops: seq<Op>, t: Heap, bytes: nat)
    requires InRange(h) && Runs(h, ops, t) && View(t) == map[] && bytes > 0
    ensures InRange(t) && Malloc(t, bytes).1 == if -1 <= AlignBytes(bytes) <= |h.cells| - 1 then Some(1) else None
    ensures WordsFor(bytes) < INT_HALF ==>
              Malloc(t, bytes).1 == if WordsFor(bytes) <= |h.cells| - 1 then Some(1) else None
  {
    hide View, Runs, ClientRuns, Heap.Valid;
    RunsRefine(h, ops, t);
    AlignBytesExact(bytes);
    Outcome(t, bytes);
    if AlignBytes(bytes) != -1 {
      var size := Wanted(bytes);
      NothingLive(t);
      FoundFits(t, size);
      var g := Search(t.blocks, 0, 0, size);
      if size <= |t.cells| {
        assert Fit(t.blocks, 0, |t.blocks|, size);
        assert g.value.lo == 0;
        assert Offset(t.blocks, 0) == 0 by { TotalGrows(t.blocks, 0, 0); }
      } else {
        TooLarge(t, size);
      }
    }
  }

  /** When a run starts without empty payloads and its requests are small, every live pointer can be
      freed at its end. */
  lemma {:induction false} LiveCanBeReleased(h: Heap, ops: seq<Op>, t: Heap, p: int)
    requires InRange(h) && Runs(h, ops, t) && (forall op <- ops :: Small(op)) && NoneEmpty(View(h))
    requires p in View(t)
    ensures Legal(t, Release(p)) && NoneEmpty(View(t))
    decreases |ops|
  {
    if ops == [] {
      LiveIsBoundary(t, p);
    } else {
      assert ops[0] in ops;
      PerformRefines(h, ops[0]);
      hide View, Heap.Valid;
      StepKeepsNoneEmpty(View(h), ops[0], Answer(h, ops[0]), View(Perform(h, ops[0])));
      LiveCanBeReleased(Perform(h, ops[0]), ops[1..], t, p);
    }
  }

  ghost predicate NoneEmpty(view: map<int, seq<int>>) { forall p <- view :: view[p] != [] }

  lemma StepKeepsNoneEmpty(before: map<int, seq<int>>, op: Op, answer: Option<int>, after: map<int, seq<int>>)
    requires NoneEmpty(before) && ClientStep(before, op, answer, after, false)
    ensures NoneEmpty(after)
  {
  }
}
