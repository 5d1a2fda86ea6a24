/** Reading, writing and copying files through system calls that may transfer fewer bytes than asked. */
module SortFiles {
  import opened Octets
  import opened Integers
  import opened SortBytes

  const BUFFER_SIZE: nat := 10000

  function Min(a: int, b: int): int { if a < b then a else b }

  /** An open file: its bytes and the seek position. */
  class File {
    var data: seq<Byte>
    var pos: nat
  }

  /** `read`: at least one byte when there is one and one is wanted, at most what is wanted. */
  method SysRead(fd: File, buffer: array<Byte>, at: nat, want: nat) returns (n: nat)
    requires at + want <= buffer.Length
    modifies fd`pos, buffer
    ensures n <= want && fd.pos == old(fd.pos) + n && (n > 0 ==> fd.pos <= |fd.data|)
    ensures n == 0 <==> want == 0 || old(fd.pos) >= |fd.data|
    ensures forall i :: 0 <= i < buffer.Length ==>
              buffer[i] == if at <= i < at + n then fd.data[old(fd.pos) + i - at] else old(buffer[i])
  {
    if want == 0 || fd.pos >= |fd.data| { return 0; }
    assert 1 <= want && fd.pos + 1 <= |fd.data|;
    n :| 1 <= n <= want && fd.pos + n <= |fd.data|;
    var p, data := fd.pos, fd.data;
    forall i | at <= i < at + n {
      buffer[i] := data[p + i - at];
    }
    fd.pos := fd.pos + n;
  }

  /** `write`: at least one of the bytes wanted, at the seek position. */
  method SysWrite(fd: File, buffer: array<Byte>, at: nat, want: nat) returns (n: nat)
    requires at + want <= buffer.Length
    modifies fd
    ensures n <= want && (n == 0 ==> want == 0) && fd.pos == old(fd.pos) + n
    ensures fd.data == Overwrite(old(fd.data), old(fd.pos), buffer[at..at + n])
  {
    if want == 0 { return 0; }
    n :| 1 <= n <= want;
    fd.data := Overwrite(fd.data, fd.pos, buffer[at..at + n]);
    fd.pos := fd.pos + n;
  }

  /** `read_bytes`: everything wanted, or all there is. */
  method ReadBytes(fd: File, buffer: array<Byte>, want: nat) returns (got: nat)
    requires want <= buffer.Length
    modifies fd`pos, buffer
    ensures got == (if old(fd.pos) + want <= |fd.data| then want
                    else if old(fd.pos) <= |fd.data| then |fd.data| - old(fd.pos) else 0)
    ensures fd.pos == old(fd.pos) + got
    ensures got > 0 ==> buffer[..got] == fd.data[old(fd.pos)..old(fd.pos) + got]
  {
    got := 0;
    ghost var p := fd.pos;
    while got < want
      invariant got <= want && fd.pos == p + got && (got > 0 ==> fd.pos <= |fd.data|)
      invariant forall i :: 0 <= i < got ==> buffer[i] == fd.data[p + i]
      decreases want - got
    {
      var n := SysRead(fd, buffer, got, want - got);
      if n == 0 { return got; }
      got := got + n;
    }
  }

  /** `write_bytes`: everything, in as many pieces as it takes. */
  method WriteBytes(fd: File, buffer: array<Byte>, want: nat)
    requires want <= buffer.Length
    modifies fd
    ensures fd.data == Overwrite(old(fd.data), old(fd.pos), buffer[..want]) && fd.pos == old(fd.pos) + want
  {
    var written := 0;
    ghost var p, before := fd.pos, fd.data;
    while written < want
      invariant written <= want && fd.pos == p + written
      invariant fd.data == Overwrite(before, p, buffer[..written])
      decreases want - written
    {
      var n := SysWrite(fd, buffer, written, want - written);
      OverwriteConcat(before, p, buffer[..written], buffer[written..written + n]);
      assert buffer[..written] + buffer[written..written + n] == buffer[..written + n];
      written := written + n;
    }
  }

  /** The byte count of `n` integers, as an `int`. */
  function ByteCount(n: nat): Int32 { ToInt32(4 * n) }

  /** The conversion is exact for fewer than 2^29 integers, and from there up to 2^30 gives a negative
      count. */
  lemma ByteCountExact(n: nat)
    ensures ByteCount(n) == 4 * n <==> n < 0x2000_0000
    ensures 0x2000_0000 <= n < 0x4000_0000 ==> ByteCount(n) < 0
  {
  }

  /** `copy_file_segment`: byte blocks of the size of the main buffer. The loop only ends for a count
      that is not negative. */
  method CopyFileSegment(source: File, target: File, count: Int32, mainBuffer: array<Byte>)
    requires count >= 0
    requires source != target && source.pos + count <= |source.data| && mainBuffer.Length == BUFFER_SIZE
    modifies source`pos, target, mainBuffer
    ensures source.pos == old(source.pos) + count && target.pos == old(target.pos) + count
    ensures target.data
         == Overwrite(old(target.data), old(target.pos), source.data[old(source.pos)..old(source.pos) + count])
  {
    hide Overwrite;
    ghost var p, q, before := source.pos, target.pos, target.data;
    ghost var done := 0;
    assert source.data[p..p] == [];
    OverwriteNothing(before, q);
    var left: int := count;
    while left != 0
      invariant 0 <= left && left + done == count && source.pos == p + done && target.pos == q + done
      invariant target.data == Overwrite(before, q, source.data[p..p + done])
      decreases left
    {
      var step := Min(BUFFER_SIZE, left);
      var got := ReadBytes(source, mainBuffer, step);
      WriteBytes(target, mainBuffer, step);
      CopyStep(before, q, source.data, p, done, step);
      left, done := left - step, done + step;
    }
  }

  lemma OverwriteNothing(data: seq<Byte>, pos: nat)
    ensures Overwrite(data, pos, []) == data
  {
  }

  lemma CopyStep(before: seq<Byte>, q: nat, data: seq<Byte>, p: nat, done: nat, step: nat)
    requires p + done + step <= |data|
    ensures Overwrite(Overwrite(before, q, data[p..p + done]), q + done, data[p + done..p + done + step])
         == Overwrite(before, q, data[p..p + done + step])
  {
    hide Overwrite;
    OverwriteConcat(before, q, data[p..p + done], data[p + done..p + done + step]);
    assert data[p..p + done] + data[p + done..p + done + step] == data[p..p + done + step];
  }

  // ---------------------------------------------------------------------------------------------
  // Integer buffers
  // ---------------------------------------------------------------------------------------------

  /** `move`: seeking to an integer of the file. */
  method Move(fd: File, offset: nat)
    modifies fd`pos
    ensures fd.pos == 4 * offset
  {
    fd.pos := 4 * offset;
  }

  /** Reading `count` integers into a buffer of integers. */
  method ReadInts(fd: File, buffer: array<Int32>, count: nat)
    requires count <= buffer.Length && fd.pos + 4 * count <= |fd.data|
    modifies fd`pos, buffer
    ensures fd.pos == old(fd.pos) + 4 * count
    ensures buffer[..count] == Ints(fd.data[old(fd.pos)..old(fd.pos) + 4 * count])
  {
    var bytes := new Byte[4 * count];
    ghost var part := fd.data[fd.pos..fd.pos + 4 * count];
    var got := ReadBytes(fd, bytes, 4 * count);
    assert bytes[..] == part;
    for i := 0 to count
      invariant buffer[..i] == Ints(part)[..i]
      modifies buffer
    {
      IntsSlice(part, i, i + 1);
      assert bytes[4 * i..4 * i + 4] == part[4 * i..4 * (i + 1)];
      OneInt(part[4 * i..4 * (i + 1)]);
      buffer[i] := IntOf(bytes[4 * i..4 * i + 4]);
      assert Ints(part)[..i + 1] == Ints(part)[..i] + Ints(part)[i..i + 1];
      assert buffer[..i + 1] == buffer[..i] + [buffer[i]];
    }
    assert Ints(part)[..count] == Ints(part);
  }

  lemma OneInt(bs: seq<Byte>)
    requires |bs| == 4
    ensures Ints(bs) == [IntOf(bs)]
  {
    assert bs[..4] == bs && Ints(bs[4..]) == [];
  }

  /** Writing `count` integers of a buffer. */
  method WriteInts(fd: File, buffer: array<Int32>, count: nat)
    requires count <= buffer.Length
    modifies fd
    ensures fd.data == Overwrite(old(fd.data), old(fd.pos), Bytes(buffer[..count]))
    ensures fd.pos == old(fd.pos) + 4 * count
  {
    var bytes := new Byte[4 * count];
    var encoded := Bytes(buffer[..count]);
    forall i | 0 <= i < 4 * count {
      bytes[i] := encoded[i];
    }
    assert bytes[..4 * count] == encoded;
    assert buffer[..count] == old(buffer[..count]);
    WriteBytes(fd, bytes, 4 * count);
  }

  const SIZE_T: int := 0x1_0000_0000_0000_0000

  /** The offset of the seek back over `n` unconsumed integers: the negated count becomes unsigned
      before it is multiplied, and the product is taken as signed. */
  function SeekBack(n: int): int {
    var u := (-n) % SIZE_T * 4 % SIZE_T;
    if u < SIZE_T / 2 then u else u - SIZE_T
  }

  lemma SeekBackExact(n: nat)
    requires n < 0x8000_0000
    ensures SeekBack(n) == -4 * n
  {
    if n > 0 {
      var m: int := n;
      assert (-m) % SIZE_T == SIZE_T - m;
      assert (SIZE_T - m) * 4 == SIZE_T * 3 + (SIZE_T - 4 * m);
      assert (SIZE_T - m) * 4 % SIZE_T == SIZE_T - 4 * m;
    }
  }
}
