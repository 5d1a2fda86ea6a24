/** The external merge sort: recursion over part of a file, two shared temporary files, and a merge in
    chunks that seeks back over what it did not consume. */
module ExternalSort {
  import opened Octets
  import opened Integers
  import opened Sequences
  import opened SortBytes
  import opened SortMerge
  import opened SortCompare
  import opened SortFiles

  /** Buffers of a given size needed for `n` elements. */
  function Buffers(n: nat): nat { (n + BUFFER_SIZE - 1) / BUFFER_SIZE }

  /** The fewest buffers that hold `n` elements. */
  lemma BuffersHold(n: nat)
    ensures n <= 10000 * Buffers(n) < n + 10000
  {
  }

  /** `merge`: takes from both chunks until one of them is used up. */
  method MergeChunks(l: array<Int32>, n1: nat, r: array<Int32>, n2: nat, arr: array<Int32>)
    returns (k: nat, left: nat, right: nat)
    requires n1 <= l.Length && n2 <= r.Length && n1 + n2 <= arr.Length && arr != l && arr != r
    modifies arr
    ensures left <= n1 && right <= n2 && k == left + right && (left == n1 || right == n2)
    ensures Merging(l[..n1], r[..n2], left, right, arr[..k])
  {
    var j, i := 0, 0;
    k := 0;
    while i < n1 && j < n2
      invariant i <= n1 && j <= n2 && k == i + j
      invariant Merging(l[..n1], r[..n2], i, j, arr[..k])
      decreases n1 + n2 - i - j
    {
      ghost var out := arr[..k];
      if l[i] <= r[j] {
        arr[k] := l[i];
        i := i + 1;
      } else {
        arr[k] := r[j];
        j := j + 1;
      }
      k := k + 1;
      assert arr[..k][..k - 1] == out;
    }
    left, right := i, j;
  }

  /** `merge_files`: writes the merge of the first `size1` and `size2` integers of two files. A round
      uses up a whole chunk of one of them, so there are no more rounds than chunks. */
  method MergeFiles(fd1: File, size1: nat, fd2: File, size2: nat, out: File, mainBuffer: array<Byte>)
    returns (ghost rounds: nat)
    requires fd1 != fd2 && fd1 != out && fd2 != out && mainBuffer.Length == BUFFER_SIZE
    requires 4 * size1 <= |fd1.data| && 4 * size2 <= |fd2.data|
    requires ByteCount(size1) == 4 * size1 && ByteCount(size2) == 4 * size2
    modifies fd1`pos, fd2`pos, out, mainBuffer
    ensures out.data
         == Overwrite(old(out.data), old(out.pos),
                      Bytes(Merge(Ints(fd1.data[..4 * size1]), Ints(fd2.data[..4 * size2]))))
    ensures rounds <= Buffers(size1) + Buffers(size2)
  {
    hide Overwrite, Merge, Ints, Bytes, Advanced, ByteCount, Buffers;
    ghost var a, b := Ints(fd1.data[..4 * size1]), Ints(fd2.data[..4 * size2]);
    ghost var p, before := out.pos, out.data;
    SmallerCount(size1, size1);
    SmallerCount(size2, size2);
    var left1, left2;
    ghost var written;
    left1, left2, written, rounds := MergeRounds(fd1, size1, fd2, size2, out);
    FinishMerge(before, p, written, a, b, size1 - left1, size2 - left2);
    RestOf(fd1.data, size1, left1);
    RestOf(fd2.data, size2, left2);
    SmallerCount(size1, left1);
    SmallerCount(size2, left2);
    CopyRest(fd1, left1, fd2, left2, out, mainBuffer);
  }

  /** The rounds of `merge_files`: at any time, what is written followed by the merge of the rests is
      the merge of the inputs. */
  method MergeRounds(fd1: File, size1: nat, fd2: File, size2: nat, out: File)
    returns (left1: nat, left2: nat, ghost written: seq<Int32>, ghost rounds: nat)
    requires fd1 != fd2 && fd1 != out && fd2 != out
    requires 4 * size1 <= |fd1.data| && 4 * size2 <= |fd2.data| && size1 < INT_HALF && size2 < INT_HALF
    modifies fd1`pos, fd2`pos, out
    ensures left1 <= size1 && left2 <= size2 && (left1 == 0 || left2 == 0)
    ensures fd1.pos == 4 * (size1 - left1) && fd2.pos == 4 * (size2 - left2)
    ensures var a, b := Ints(fd1.data[..4 * size1]), Ints(fd2.data[..4 * size2]);
            Advanced(a, b, size1 - left1, size2 - left2, written)
    ensures out.data == Overwrite(old(out.data), old(out.pos), Bytes(written))
    ensures out.pos == old(out.pos) + 4 * |written|
    ensures rounds + Buffers(left1) + Buffers(left2) <= Buffers(size1) + Buffers(size2)
  {
    hide Overwrite, Merge, Ints, Bytes, Merging, Buffers, Advanced;
    ghost var a, b := Ints(fd1.data[..4 * size1]), Ints(fd2.data[..4 * size2]);
    ghost var p, before := out.pos, out.data;
    written, rounds := [], 0;
    Move(fd1, 0);
    Move(fd2, 0);
    var buff1 := new Int32[BUFFER_SIZE];
    var buff2 := new Int32[BUFFER_SIZE];
    var buffOut := new Int32[BUFFER_SIZE * 2];
    left1, left2 := size1, size2;
    StartWriting(before, p, a, b);
    while left1 > 0 && left2 > 0
      invariant left1 <= size1 && left2 <= size2
      invariant fd1.pos == 4 * (size1 - left1) && fd2.pos == 4 * (size2 - left2)
      invariant Advanced(a, b, size1 - left1, size2 - left2, written)
      invariant out.data == Overwrite(before, p, Bytes(written)) && out.pos == p + 4 * |written|
      invariant rounds + Buffers(left1) + Buffers(left2) <= Buffers(size1) + Buffers(size2)
      decreases left1 + left2
      modifies fd1`pos, fd2`pos, out, buff1, buff2, buffOut
    {
      var taken1, taken2;
      ghost var more;
      taken1, taken2, more := MergeRound(fd1, left1, fd2, left2, out, buff1, buff2, buffOut);
      RoundAdvances(fd1.data, size1, left1, fd2.data, size2, left2, taken1, taken2, written, more);
      WriteMore(before, p, written, more);
      left1, left2 := left1 - taken1, left2 - taken2;
      written := written + more;
      rounds := rounds + 1;
    }
  }

  /** `i` and `j` elements of the inputs are merged into `written`: what is still to come is the merge
      of the rests, and if the inputs are sorted, `written` is sorted and at most every element of the
      rests, and holds with them the elements of both inputs. */
  ghost predicate Advanced(a: seq<Int32>, b: seq<Int32>, i: int, j: int, written: seq<Int32>) {
    && 0 <= i <= |a| && 0 <= j <= |b|
    && Merge(a, b) == written + Merge(a[i..], b[j..])
    && (Sorted(a) && Sorted(b) ==> MergedSoFar(a, b, written, a[i..], b[j..]))
  }

  lemma MergedRound(a: seq<Int32>, b: seq<Int32>, written: seq<Int32>, restA: seq<Int32>, restB: seq<Int32>)
    requires Merge(a, b) == written + Merge(restA, restB)
    ensures Sorted(a) && Sorted(b) ==> MergedSoFar(a, b, written, restA, restB)
  {
    if Sorted(a) && Sorted(b) {
      MergedPrefix(a, b, written, restA, restB);
    }
  }

  /** One round: a chunk of each file is read and merged, the files seek back over what was not
      taken, and what was taken is written. */
  method MergeRound(fd1: File, left1: nat, fd2: File, left2: nat, out: File,
                    buff1: array<Int32>, buff2: array<Int32>, buffOut: array<Int32>)
    returns (taken1: nat, taken2: nat, ghost more: seq<Int32>)
    requires fd1 != fd2 && fd1 != out && fd2 != out
    requires buff1 != buff2 && buff1 != buffOut && buff2 != buffOut
    requires buff1.Length == buff2.Length == BUFFER_SIZE && buffOut.Length == 2 * BUFFER_SIZE
    requires 0 < left1 < INT_HALF && 0 < left2 < INT_HALF
    requires fd1.pos + 4 * left1 <= |fd1.data| && fd2.pos + 4 * left2 <= |fd2.data|
    modifies fd1`pos, fd2`pos, out, buff1, buff2, buffOut
    ensures var p1, p2 := Min(left1, BUFFER_SIZE), Min(left2, BUFFER_SIZE);
            && taken1 <= p1 && taken2 <= p2 && (taken1 == p1 || taken2 == p2)
            && fd1.pos == old(fd1.pos) + 4 * taken1 && fd2.pos == old(fd2.pos) + 4 * taken2
            && Merging(Ints(fd1.data[old(fd1.pos)..old(fd1.pos) + 4 * p1]),
                       Ints(fd2.data[old(fd2.pos)..old(fd2.pos) + 4 * p2]), taken1, taken2, more)
    ensures |more| == taken1 + taken2 && out.pos == old(out.pos) + 4 * |more|
    ensures out.data == Overwrite(old(out.data), old(out.pos), Bytes(more))
  {
    hide Overwrite, Merge, Ints, Bytes, Merging;
    var p1, p2 := Min(left1, BUFFER_SIZE), Min(left2, BUFFER_SIZE);
    ReadInts(fd1, buff1, p1);
    ReadInts(fd2, buff2, p2);
    var merged;
    merged, taken1, taken2 := MergeChunks(buff1, p1, buff2, p2, buffOut);
    SeekBackExact(p1 - taken1);
    SeekBackExact(p2 - taken2);
    fd1.pos := fd1.pos + SeekBack(p1 - taken1);
    fd2.pos := fd2.pos + SeekBack(p2 - taken2);
    more := buffOut[..merged];
    WriteInts(out, buffOut, merged);
  }

  /** The end of `merge_files`: whatever one file has left over is copied. */
  method CopyRest(fd1: File, left1: nat, fd2: File, left2: nat, out: File, mainBuffer: array<Byte>)
    requires fd1 != out && fd2 != out && mainBuffer.Length == BUFFER_SIZE && (left1 == 0 || left2 == 0)
    requires fd1.pos + 4 * left1 <= |fd1.data| && fd2.pos + 4 * left2 <= |fd2.data|
    requires ByteCount(left1) == 4 * left1 && ByteCount(left2) == 4 * left2
    modifies fd1`pos, fd2`pos, out, mainBuffer
    ensures out.data == Overwrite(old(out.data), old(out.pos),
                                  if left2 > 0 then fd2.data[old(fd2.pos)..old(fd2.pos) + 4 * left2]
                                  else fd1.data[old(fd1.pos)..old(fd1.pos) + 4 * left1])
  {
    if left1 > 0 || left2 > 0 {
      var lastFd, lastSize := fd1, left1;
      if left2 > 0 {
        lastFd, lastSize := fd2, left2;
      }
      CopyFileSegment(lastFd, out, ByteCount(lastSize), mainBuffer);
    } else {
      OverwriteNothing(out.data, out.pos);
    }
  }

  lemma SmallerCount(n: nat, m: nat)
    requires ByteCount(n) == 4 * n && m <= n
    ensures ByteCount(m) == 4 * m && n < INT_HALF
  {
    ByteCountExact(n);
    ByteCountExact(m);
  }

  lemma StartWriting(before: seq<Byte>, p: nat, a: seq<Int32>, b: seq<Int32>)
    ensures Overwrite(before, p, Bytes([])) == before
    ensures Advanced(a, b, 0, 0, [])
  {
    assert a[0..] == a && b[0..] == b;
    assert Merge(a, b) == [] + Merge(a[0..], b[0..]);
    MergedRound(a, b, [], a[0..], b[0..]);
  }

  /** The chunk read from integer `i` on is that part of the input. */
  lemma ChunkOf(data: seq<Byte>, size: nat, i: nat, n: nat)
    requires 4 * size <= |data| && i + n <= size
    ensures Ints(data[4 * i..4 * i + 4 * n]) == Ints(data[..4 * size])[i..i + n]
  {
    hide Ints;
    var input := data[..4 * size];
    assert input[4 * i..4 * (i + n)] == data[4 * i..4 * i + 4 * n];
    IntsSlice(input, i, i + n);
  }

  /** The bytes left in a file are those of the rest of its input. */
  lemma RestOf(data: seq<Byte>, size: nat, left: nat)
    requires 4 * size <= |data| && left <= size
    ensures Bytes(Ints(data[..4 * size])[size - left..]) == data[4 * (size - left)..4 * size]
  {
    hide Ints, Bytes;
    ChunkOf(data, size, size - left, left);
    var part := data[4 * (size - left)..4 * size];
    assert Ints(data[..4 * size])[size - left..] == Ints(data[..4 * size])[size - left..size];
    BytesInts(part);
  }

  /** When one file is used up, copying the rest of the other completes the merge. */
  lemma FinishMerge(before: seq<Byte>, p: nat, written: seq<Int32>, a: seq<Int32>, b: seq<Int32>, i: nat, j: nat)
    requires Advanced(a, b, i, j, written) && (i == |a| || j == |b|)
    ensures Overwrite(Overwrite(before, p, Bytes(written)), p + 4 * |written|, Bytes(if j < |b| then b[j..] else a[i..]))
         == Overwrite(before, p, Bytes(Merge(a, b)))
  {
    hide Overwrite, Merge, Bytes, Sorted, MergedSoFar;
    MergeRest(a, b, i, j);
    WriteMore(before, p, written, if j < |b| then b[j..] else a[i..]);
  }

  lemma MergeRest(a: seq<Int32>, b: seq<Int32>, i: nat, j: nat)
    requires i <= |a| && j <= |b| && (i == |a| || j == |b|)
    ensures Merge(a[i..], b[j..]) == if j < |b| then b[j..] else a[i..]
  {
  }

  /** What a round puts out continues the merge of the whole inputs. */
  lemma RoundMerges(a: seq<Int32>, b: seq<Int32>, i: nat, j: nat, p1: nat, p2: nat, taken1: nat, taken2: nat,
                    written: seq<Int32>, out: seq<Int32>)
    requires i + p1 <= |a| && j + p2 <= |b| && taken1 <= p1 && taken2 <= p2
    requires Advanced(a, b, i, j, written)
    requires Merging(a[i..i + p1], b[j..j + p2], taken1, taken2, out)
    ensures Advanced(a, b, i + taken1, j + taken2, written + out)
  {
    hide Merge, Merging, Sorted, MergedSoFar;
    MergingIsMerge(a[i..i + p1], b[j..j + p2], taken1, taken2, out, a[i + p1..], b[j + p2..]);
    TwoParts(a, i, i + p1, taken1);
    TwoParts(b, j, j + p2, taken2);
    Regroup(written, out, Merge(a[i + taken1..], b[j + taken2..]));
    MergedRound(a, b, written + out, a[i + taken1..], b[j + taken2..]);
  }

  /** The same, from the bytes that were read; and the round has used up a buffer. */
  lemma RoundAdvances(data1: seq<Byte>, size1: nat, left1: nat, data2: seq<Byte>, size2: nat, left2: nat,
                      taken1: nat, taken2: nat, written: seq<Int32>, more: seq<Int32>)
    requires 0 < left1 <= size1 && 0 < left2 <= size2 && 4 * size1 <= |data1| && 4 * size2 <= |data2|
    requires var p1, p2 := Min(left1, BUFFER_SIZE), Min(left2, BUFFER_SIZE);
             && taken1 <= p1 && taken2 <= p2 && (taken1 == p1 || taken2 == p2)
             && Merging(Ints(data1[4 * (size1 - left1)..4 * (size1 - left1) + 4 * p1]),
                        Ints(data2[4 * (size2 - left2)..4 * (size2 - left2) + 4 * p2]), taken1, taken2, more)
    requires var a, b := Ints(data1[..4 * size1]), Ints(data2[..4 * size2]);
             Advanced(a, b, size1 - left1, size2 - left2, written)
    ensures var a, b := Ints(data1[..4 * size1]), Ints(data2[..4 * size2]);
            Advanced(a, b, size1 - (left1 - taken1), size2 - (left2 - taken2), written + more)
    ensures Buffers(left1 - taken1) + Buffers(left2 - taken2) + 1 <= Buffers(left1) + Buffers(left2)
  {
    hide Advanced, Merging, Ints;
    var p1, p2 := Min(left1, BUFFER_SIZE), Min(left2, BUFFER_SIZE);
    ChunkOf(data1, size1, size1 - left1, p1);
    ChunkOf(data2, size2, size2 - left2, p2);
    RoundMerges(Ints(data1[..4 * size1]), Ints(data2[..4 * size2]), size1 - left1, size2 - left2, p1, p2,
                taken1, taken2, written, more);
    BuffersUsed(left1, left2, p1, p2, taken1, taken2);
  }

  lemma TwoParts<T>(s: seq<T>, i: nat, k: nat, taken: nat)
    requires i + taken <= k <= |s|
    ensures s[i..k] + s[k..] == s[i..] && s[i..k][taken..] + s[k..] == s[i + taken..]
  {
  }

  lemma BuffersUsed(left1: nat, left2: nat, p1: nat, p2: nat, taken1: nat, taken2: nat)
    requires left1 > 0 && left2 > 0 && p1 == Min(left1, BUFFER_SIZE) && p2 == Min(left2, BUFFER_SIZE)
    requires taken1 <= p1 && taken2 <= p2 && (taken1 == p1 || taken2 == p2)
    ensures Buffers(left1 - taken1) + Buffers(left2 - taken2) + 1 <= Buffers(left1) + Buffers(left2)
  {
  }

  lemma WriteMore(before: seq<Byte>, p: nat, written: seq<Int32>, more: seq<Int32>)
    ensures Overwrite(Overwrite(before, p, Bytes(written)), p + 4 * |written|, Bytes(more))
         == Overwrite(before, p, Bytes(written + more))
  {
    hide Overwrite, Bytes;
    OverwriteConcat(before, p, Bytes(written), Bytes(more));
    BytesConcat(written, more);
  }

  // ---------------------------------------------------------------------------------------------
  // The recursion
  // ---------------------------------------------------------------------------------------------

  /** The library's `qsort`, whatever it is: the buffer becomes what it makes of its contents. */
  method QSort(buffer: array<Int32>, qsort: seq<Int32> -> seq<Int32>)
    requires IsQSort(qsort)
    modifies buffer
    ensures buffer[..] == qsort(old(buffer[..]))
  {
    var arranged := qsort(buffer[..]);
    QSorted(qsort, buffer[..]);
    forall i | 0 <= i < buffer.Length {
      buffer[i] := arranged[i];
    }
    assert buffer[..] == arranged;
  }

  /** Integers `left` to `right` of a file. */
  function Segment(data: seq<Byte>, left: nat, right: nat): seq<Int32>
    requires left <= right && 4 * right <= |data|
  {
    Ints(data[4 * left..4 * right])
  }

  /** The integers of a part of a file, as they lie in its bytes. */
  lemma SegmentAt(data: seq<Byte>, left: nat, right: nat, i: nat)
    requires left + i < right && 4 * right <= |data|
    ensures var at := 4 * (left + i);
            Segment(data, left, right)[i] ==
              data[at] as int + 0x100 * (data[at + 1] as int) + 0x1_0000 * (data[at + 2] as int)
              + 0x100_0000 * (data[at + 3] as int) - if data[at + 3] >= 0x80 then 0x1_0000_0000 else 0
  {
    hide Ints;
    IntAt(data[4 * left..4 * right], i);
  }

  /** `before` with the integers from `left` on replaced by `ns`. */
  function Replaced(before: seq<Byte>, left: nat, ns: seq<Int32>): seq<Byte> {
    Overwrite(before, 4 * left, Bytes(ns))
  }

  /** The integers written stand where they were written, and all else is as it was. */
  lemma ReplacedParts(before: seq<Byte>, left: nat, right: nat, ns: seq<Int32>)
    requires left <= right && 4 * right <= |before| && |ns| == right - left
    ensures var after := Replaced(before, left, ns);
            && |after| == |before| && Segment(after, left, right) == ns
            && after[..4 * left] == before[..4 * left] && after[4 * right..] == before[4 * right..]
  {
    var bs := Bytes(ns);
    OverwriteInside(before, 4 * left, bs);
    hide Overwrite, Bytes, Ints;
    var after := before[..4 * left] + bs + before[4 * right..];
    assert after[4 * left..4 * right] == bs;
    assert after[..4 * left] == before[..4 * left] && after[4 * right..] == before[4 * right..];
    IntsBytes(ns);
  }

  /** `sort_file_segment`: read, sort, seek to where it was, write. */
  method SortFileSegment(fd: File, buffSize: nat, qsort: seq<Int32> -> seq<Int32>)
    requires fd.pos % 4 == 0 && fd.pos + 4 * buffSize <= |fd.data| && IsQSort(qsort)
    modifies fd
    ensures var left := old(fd.pos) / 4;
            fd.data == Replaced(old(fd.data), left, qsort(Segment(old(fd.data), left, left + buffSize)))
  {
    hide Overwrite, Bytes, Ints, IsQSort;
    var buffer := new Int32[buffSize];
    var curr := fd.pos;
    ghost var before, left := fd.data, fd.pos / 4;
    ReadInts(fd, buffer, buffSize);
    assert buffer[..buffSize] == buffer[..];
    assert curr == 4 * left && before[curr..curr + 4 * buffSize] == before[4 * left..4 * (left + buffSize)];
    QSort(buffer, qsort);
    Move(fd, curr / 4);
    assert buffer[..buffSize] == buffer[..];
    WriteInts(fd, buffer, buffSize);
  }

  /** `merge_sort`: the integers from `left` to `right` become what the sort of lists makes of them, and
      the rest of the file stays, whatever the temporary files hold before or during the recursion.
      The halves of the part must have byte counts that fit in an `int`. */
  method MergeSort(fd: File, left: nat, right: nat, t1: File, t2: File, mainBuffer: array<Byte>,
                   qsort: seq<Int32> -> seq<Int32>)
    requires fd != t1 && fd != t2 && t1 != t2 && mainBuffer.Length == BUFFER_SIZE && IsQSort(qsort)
    requires left <= right && 4 * right <= |fd.data| && CountsFit(right - left)
    modifies fd, t1, t2, mainBuffer
    ensures fd.data == Replaced(old(fd.data), left, SortWith(Segment(old(fd.data), left, right), qsort))
    decreases right - left
  {
    hide IsQSort, CountsFit, Replaced, Segment, SortWith;
    ghost var d0 := fd.data;
    SegmentLength(d0, left, right);
    if right - left <= SEGMENT_SIZE {
      LeafSort(Segment(d0, left, right), qsort);
      Move(fd, left);
      SortFileSegment(fd, right - left, qsort);
    } else {
      var mid := left + (right - left) / 2;
      HalvesFit(right - left);
      MergeSort(fd, left, mid, t1, t2, mainBuffer, qsort);
      ghost var d1 := fd.data;
      FirstHalfSorted(d0, left, mid, right, qsort);
      MergeSort(fd, mid, right, t1, t2, mainBuffer, qsort);
      BothHalves(d0, d1, fd.data, left, mid, right, qsort);
      MergeHalves(fd, left, mid, right, t1, t2, mainBuffer);
    }
  }

  /** The halves are in range for the copies, all the way down: fewer than 2^29 integers each. */
  ghost predicate CountsFit(n: nat) {
    n <= SEGMENT_SIZE || n - n / 2 < 0x2000_0000
  }

  lemma HalvesFit(n: nat)
    requires CountsFit(n) && n > SEGMENT_SIZE
    ensures CountsFit(n / 2) && CountsFit(n - n / 2)
    ensures ByteCount(n / 2) == 4 * (n / 2) && ByteCount(n - n / 2) == 4 * (n - n / 2)
  {
    ByteCountExact(n / 2);
    ByteCountExact(n - n / 2);
  }

  lemma SegmentLength(data: seq<Byte>, left: nat, right: nat)
    requires left <= right && 4 * right <= |data|
    ensures |Segment(data, left, right)| == right - left
  {
  }

  lemma LeafSort(s: seq<Int32>, qsort: seq<Int32> -> seq<Int32>)
    requires |s| <= SEGMENT_SIZE
    ensures SortWith(s, qsort) == qsort(s)
  {
  }

  /** The copies to the temporary files and the merge back. */
  method MergeHalves(fd: File, left: nat, mid: nat, right: nat, t1: File, t2: File, mainBuffer: array<Byte>)
    requires fd != t1 && fd != t2 && t1 != t2 && mainBuffer.Length == BUFFER_SIZE
    requires left <= mid <= right && 4 * right <= |fd.data|
    requires ByteCount(mid - left) == 4 * (mid - left) && ByteCount(right - mid) == 4 * (right - mid)
    modifies fd, t1, t2, mainBuffer
    ensures var d := old(fd.data);
            fd.data == Replaced(d, left, Merge(Segment(d, left, mid), Segment(d, mid, right)))
  {
    hide Overwrite, Bytes, Ints, Merge, ByteCount;
    Move(t1, 0);
    Move(t2, 0);
    Move(fd, left);
    CopyFileSegment(fd, t1, ByteCount(mid - left), mainBuffer);
    OverwriteAtStart(old(t1.data), fd.data[4 * left..4 * mid]);
    Move(fd, mid);
    CopyFileSegment(fd, t2, ByteCount(right - mid), mainBuffer);
    OverwriteAtStart(old(t2.data), fd.data[4 * mid..4 * right]);
    Move(fd, left);
    ghost var rounds := MergeFiles(t1, mid - left, t2, right - mid, fd, mainBuffer);
  }

  /** A part of the file and its halves. */
  lemma SegmentHalves(data: seq<Byte>, left: nat, mid: nat, right: nat)
    requires left <= mid <= right && 4 * right <= |data|
    ensures Segment(data, left, right)[..mid - left] == Segment(data, left, mid)
    ensures Segment(data, left, right)[mid - left..] == Segment(data, mid, right)
    ensures |Segment(data, left, right)| == right - left
  {
    hide Ints;
    var bs, k, n := data[4 * left..4 * right], mid - left, right - left;
    var whole := Ints(bs);
    IntsLength(bs, n);
    IntsSlice(bs, 0, k);
    IntsSlice(bs, k, n);
    SliceOfSlice(data, 4 * left, 4 * right, 0, 4 * k);
    SliceOfSlice(data, 4 * left, 4 * right, 4 * k, 4 * n);
    assert whole[..k] == whole[0..k] && whole[k..] == whole[k..n];
  }

  lemma SliceOfSlice<T>(s: seq<T>, i: nat, j: nat, p: nat, q: nat)
    requires i <= j <= |s| && p <= q <= j - i
    ensures s[i..j][p..q] == s[i + p..i + q]
  {
    forall k | 0 <= k < q - p ensures s[i..j][p..q][k] == s[i + p..i + q][k] {
      assert s[i..j][p..q][k] == s[i..j][p + k] == s[i + (p + k)];
    }
  }

  /** Sorting the first half leaves the second one as it was. */
  lemma FirstHalfSorted(d0: seq<Byte>, left: nat, mid: nat, right: nat, qsort: seq<Int32> -> seq<Int32>)
    requires left <= mid <= right && 4 * right <= |d0| && IsQSort(qsort)
    ensures var x := SortWith(Segment(d0, left, mid), qsort);
            var d1 := Replaced(d0, left, x);
            && |x| == mid - left && |d1| == |d0| && Segment(d1, mid, right) == Segment(d0, mid, right)
  {
    hide SortWith, IsQSort, Replaced, Ints;
    var x := SortWith(Segment(d0, left, mid), qsort);
    SegmentLength(d0, left, mid);
    SortWithSorts(Segment(d0, left, mid), qsort);
    ReplacedParts(d0, left, mid, x);
    var d1 := Replaced(d0, left, x);
    assert d1[4 * mid..4 * right] == d1[4 * mid..][..4 * (right - mid)];
    assert d0[4 * mid..4 * right] == d0[4 * mid..][..4 * (right - mid)];
  }

  /** After both recursive calls the halves are what sorting makes of the original ones, and writing
      their merge over them completes the sort of the whole part. */
  lemma BothHalves(d0: seq<Byte>, d1: seq<Byte>, d2: seq<Byte>, left: nat, mid: nat, right: nat,
                   qsort: seq<Int32> -> seq<Int32>)
    requires left <= mid <= right && 4 * right <= |d0| && IsQSort(qsort)
    requires right - left > SEGMENT_SIZE && mid == left + (right - left) / 2
    requires d1 == Replaced(d0, left, SortWith(Segment(d0, left, mid), qsort)) && |d1| == |d0|
    requires d2 == Replaced(d1, mid, SortWith(Segment(d0, mid, right), qsort))
    ensures |d2| == |d0|
    ensures Replaced(d2, left, Merge(Segment(d2, left, mid), Segment(d2, mid, right)))
         == Replaced(d0, left, SortWith(Segment(d0, left, right), qsort))
  {
    hide SortWith, IsQSort, Overwrite, Bytes, Segment, Merge, Sorted, LeavesComparable;
    var a, b := Segment(d0, left, mid), Segment(d0, mid, right);
    var x, y := SortWith(a, qsort), SortWith(b, qsort);
    SegmentHalves(d0, left, mid, right);
    HalvesSorted(Segment(d0, left, right), mid - left, qsort);
    SegmentLength(d0, left, mid);
    SegmentLength(d0, mid, right);
    SortWithSorts(a, qsort);
    SortWithSorts(b, qsort);
    WriteMore(d0, 4 * left, x, y);
    WrittenHalves(d0, d2, left, mid, right, x, y);
  }

  lemma HalvesSorted(s: seq<Int32>, k: nat, qsort: seq<Int32> -> seq<Int32>)
    requires |s| > SEGMENT_SIZE && k == |s| / 2
    ensures SortWith(s, qsort) == Merge(SortWith(s[..k], qsort), SortWith(s[k..], qsort))
  {
  }

  lemma WrittenHalves(d0: seq<Byte>, d2: seq<Byte>, left: nat, mid: nat, right: nat, x: seq<Int32>, y: seq<Int32>)
    requires left <= mid <= right && 4 * right <= |d0| && |x| == mid - left && |y| == right - mid
    requires d2 == Replaced(d0, left, x + y)
    ensures |d2| == |d0| && Segment(d2, left, mid) == x && Segment(d2, mid, right) == y
    ensures Replaced(d2, left, Merge(x, y)) == Replaced(d0, left, Merge(x, y))
  {
    hide Replaced, Segment, Merge;
    ReplacedParts(d0, left, right, x + y);
    SegmentHalves(d2, left, mid, right);
    ReplacedAgain(d0, left, right, x + y, Merge(x, y));
  }

  lemma ReplacedAgain(d0: seq<Byte>, left: nat, right: nat, first: seq<Int32>, second: seq<Int32>)
    requires left <= right && 4 * right <= |d0| && |first| == |second| == right - left
    ensures Replaced(Replaced(d0, left, first), left, second) == Replaced(d0, left, second)
  {
    var d2 := Replaced(d0, left, first);
    ReplacedParts(d0, left, right, first);
    OverwriteInside(d0, 4 * left, Bytes(second));
    OverwriteInside(d2, 4 * left, Bytes(second));
  }

  // ---------------------------------------------------------------------------------------------
  // What the sort does to a file
  // ---------------------------------------------------------------------------------------------

  /** For every file and every part of it: the sort keeps the integers of the part and every other
      byte of the file, and it sorts the part, whatever `qsort` the library has, if and only if the
      differences in each segment that is sorted in memory fit in 32 bits. */
  lemma FileSortedExactly(before: seq<Byte>, left: nat, right: nat)
    requires left <= right && 4 * right <= |before|
    ensures forall qsort | IsQSort(qsort) ::
              var after := Replaced(before, left, SortWith(Segment(before, left, right), qsort));
              && |after| == |before|
              && after[..4 * left] == before[..4 * left] && after[4 * right..] == before[4 * right..]
              && multiset(Segment(after, left, right)) == multiset(Segment(before, left, right))
    ensures (forall qsort | IsQSort(qsort) ::
              var after := Replaced(before, left, SortWith(Segment(before, left, right), qsort));
              |after| == |before| && Sorted(Segment(after, left, right)))
            <==> LeavesComparable(Segment(before, left, right))
  {
    hide Replaced, Segment, Sorted, SortWith, IsQSort, LeavesComparable;
    var s := Segment(before, left, right);
    SegmentLength(before, left, right);
    forall qsort | IsQSort(qsort)
      ensures |SortWith(s, qsort)| == |s| && multiset(SortWith(s, qsort)) == multiset(s)
      ensures var after := Replaced(before, left, SortWith(s, qsort));
              && |after| == |before| && Segment(after, left, right) == SortWith(s, qsort)
              && after[..4 * left] == before[..4 * left] && after[4 * right..] == before[4 * right..]
    {
      SortWithSorts(s, qsort);
      ReplacedParts(before, left, right, SortWith(s, qsort));
    }
    SortsExactly(s);
  }
}
