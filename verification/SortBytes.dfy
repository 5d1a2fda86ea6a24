/** Files of native integers (`sizeof(int)` is 4): 32-bit little-endian words as bytes, and overwriting part of a file. */
module SortBytes {
  import opened Octets
  import opened Integers
  import opened Sequences

  function Unsigned(b0: int, b1: int, b2: int, b3: int): int {
    b0 + 0x100 * b1 + 0x1_0000 * b2 + 0x100_0000 * b3
  }

  function IntOf(bs: seq<Byte>): Int32
    requires |bs| == 4
  {
    var u := Unsigned(bs[0], bs[1], bs[2], bs[3]);
    if u < INT_HALF then u else u - 2 * INT_HALF
  }

  function BytesOf(n: Int32): (bs: seq<Byte>)
    ensures |bs| == 4
  {
    var u := if n < 0 then n + 2 * INT_HALF else n;
    [u % 0x100, u / 0x100 % 0x100, u / 0x1_0000 % 0x100, u / 0x100_0000]
  }

  /** The integers in `bs`; a rest of fewer than four bytes is not read. */
  function Ints(bs: seq<Byte>): (ns: seq<Int32>)
    ensures |ns| == |bs| / 4
  {
    if |bs| < 4 then [] else [IntOf(bs[..4])] + Ints(bs[4..])
  }

  function Bytes(ns: seq<Int32>): (bs: seq<Byte>)
    ensures |bs| == 4 * |ns|
  {
    if ns == [] then [] else BytesOf(ns[0]) + Bytes(ns[1..])
  }

  /** Four bytes are an integer in two's complement, the lowest byte first. */
  lemma IntOfFour(bs: seq<Byte>)
    requires |bs| == 4
    ensures IntOf(bs) == bs[0] as int + 0x100 * (bs[1] as int) + 0x1_0000 * (bs[2] as int) + 0x100_0000 * (bs[3] as int)
                         - if bs[3] >= 0x80 then 0x1_0000_0000 else 0
  {
  }

  lemma IntOfBytesOf(n: Int32)
    ensures IntOf(BytesOf(n)) == n
  {
    var u := if n < 0 then n + 2 * INT_HALF else n;
    assert u == u % 0x100 + 0x100 * (u / 0x100);
    assert u / 0x100 == u / 0x100 % 0x100 + 0x100 * (u / 0x1_0000);
    assert u / 0x1_0000 == u / 0x1_0000 % 0x100 + 0x100 * (u / 0x100_0000);
  }

  lemma BytesOfIntOf(bs: seq<Byte>)
    requires |bs| == 4
    ensures BytesOf(IntOf(bs)) == bs
  {
    var b0: int, b1: int, b2: int, b3: int := bs[0], bs[1], bs[2], bs[3];
    UnsignedDigits(b0, b1, b2, b3);
    assert bs == [bs[0], bs[1], bs[2], bs[3]];
  }

  lemma UnsignedDigits(b0: int, b1: int, b2: int, b3: int)
    requires 0 <= b0 < 0x100 && 0 <= b1 < 0x100 && 0 <= b2 < 0x100 && 0 <= b3 < 0x100
    ensures var u := Unsigned(b0, b1, b2, b3);
            && 0 <= u < 2 * INT_HALF && u % 0x100 == b0 && u / 0x100 % 0x100 == b1
            && u / 0x1_0000 % 0x100 == b2 && u / 0x100_0000 == b3
  {
    var u := Unsigned(b0, b1, b2, b3);
    assert u / 0x100 == b1 + 0x100 * b2 + 0x1_0000 * b3;
    assert u / 0x1_0000 == b2 + 0x100 * b3;
  }

  lemma {:induction false} IntsBytes(ns: seq<Int32>)
    ensures Ints(Bytes(ns)) == ns
  {
    if ns != [] {
      IntOfBytesOf(ns[0]);
      IntsBytes(ns[1..]);
      assert Bytes(ns)[..4] == BytesOf(ns[0]) && Bytes(ns)[4..] == Bytes(ns[1..]);
    }
  }

  lemma {:induction false} BytesInts(bs: seq<Byte>)
    requires |bs| % 4 == 0
    ensures Bytes(Ints(bs)) == bs
  {
    if |bs| >= 4 {
      BytesOfIntOf(bs[..4]);
      BytesInts(bs[4..]);
    }
  }

  lemma IntsFirst(a: seq<Byte>)
    ensures |a| >= 4 ==> Ints(a) == [IntOf(a[..4])] + Ints(a[4..])
    ensures Ints([]) == []
  {
  }

  lemma {:induction false} IntsConcat(a: seq<Byte>, b: seq<Byte>)
    requires |a| % 4 == 0
    ensures Ints(a + b) == Ints(a) + Ints(b)
  {
    hide Ints, IntOf;
    IntsFirst(a);
    if a == [] {
      assert a + b == b && [] + Ints(b) == Ints(b);
    } else {
      IntsConcat(a[4..], b);
      IntsFirst(a + b);
      Regroup([IntOf(a[..4])], Ints(a[4..]), Ints(b));
      assert (a + b)[..4] == a[..4] && (a + b)[4..] == a[4..] + b;
    }
  }

  lemma {:induction false} BytesConcat(a: seq<Int32>, b: seq<Int32>)
    ensures Bytes(a + b) == Bytes(a) + Bytes(b)
  {
    if a == [] {
      assert a + b == b;
    } else {
      BytesConcat(a[1..], b);
      assert (a + b)[1..] == a[1..] + b;
      Regroup(BytesOf(a[0]), Bytes(a[1..]), Bytes(b));
    }
  }

  /** Part of the integers of a file lies in the same part of its bytes. */
  lemma IntsSlice(bs: seq<Byte>, i: nat, j: nat)
    requires i <= j && 4 * j <= |bs|
    ensures Ints(bs[4 * i..4 * j]) == Ints(bs)[i..j]
  {
    hide Ints;
    var x, y, z := bs[..4 * i], bs[4 * i..4 * j], bs[4 * j..];
    Parts(bs, 4 * i, 4 * j);
    IntsLength(x, i);
    IntsLength(y, j - i);
    IntsOfParts(x, y, z);
  }

  /** Integer `i` is made of the bytes from `4 * i` on. */
  lemma IntAt(bs: seq<Byte>, i: nat)
    requires 4 * i + 4 <= |bs|
    ensures Ints(bs)[i] == bs[4 * i] as int + 0x100 * (bs[4 * i + 1] as int) + 0x1_0000 * (bs[4 * i + 2] as int)
                           + 0x100_0000 * (bs[4 * i + 3] as int) - if bs[4 * i + 3] >= 0x80 then 0x1_0000_0000 else 0
  {
    var four := bs[4 * i..4 * (i + 1)];
    IntsSlice(bs, i, i + 1);
    IntsFirst(four);
    IntOfFour(four);
    hide Ints, IntOf;
    assert four[..4] == four;
    assert Ints(four)[0] == Ints(bs)[i..i + 1][0];
  }

  lemma IntsLength(bs: seq<Byte>, n: nat)
    requires |bs| == 4 * n
    ensures |bs| % 4 == 0 && |Ints(bs)| == n
  {
  }

  lemma Parts<T>(s: seq<T>, p: nat, q: nat)
    requires p <= q <= |s|
    ensures s == s[..p] + (s[p..q] + s[q..])
  {
  }

  lemma IntsOfParts(x: seq<Byte>, y: seq<Byte>, z: seq<Byte>)
    requires |x| % 4 == 0 && |y| % 4 == 0
    ensures Ints(x + (y + z))[|Ints(x)|..|Ints(x)| + |Ints(y)|] == Ints(y)
  {
    hide Ints;
    IntsConcat(x, y + z);
    IntsConcat(y, z);
    Middle(Ints(x), Ints(y), Ints(z));
  }

  lemma Middle<T>(x: seq<T>, y: seq<T>, z: seq<T>)
    ensures (x + (y + z))[|x|..|x| + |y|] == y
  {
  }

  // ---------------------------------------------------------------------------------------------
  // Overwriting
  // ---------------------------------------------------------------------------------------------

  /** The file `data` after writing `bs` at `pos`: it grows as needed, with zeros in a gap. */
  function Overwrite(data: seq<Byte>, pos: nat, bs: seq<Byte>): (r: seq<Byte>)
    ensures bs != [] && pos + |bs| <= |data| ==> |r| == |data|
    ensures bs != [] && pos + |bs| > |data| ==> |r| == pos + |bs|
  {
    if bs == [] then data
    else
      var padded := if pos <= |data| then data else data + Zeros(pos - |data|);
      padded[..pos] + bs + (if pos + |bs| <= |data| then data[pos + |bs|..] else [])
  }

  /** Writing in pieces is writing at once. */
  lemma OverwriteConcat(data: seq<Byte>, pos: nat, a: seq<Byte>, b: seq<Byte>)
    ensures Overwrite(Overwrite(data, pos, a), pos + |a|, b) == Overwrite(data, pos, a + b)
  {
    if a == [] {
      assert a + b == b;
    } else if b == [] {
      assert a + b == a;
    } else {
      var d1 := Overwrite(data, pos, a);
      assert d1[..pos + |a|] == d1[..pos] + a;
      if pos + |a| + |b| <= |data| {
        assert d1[pos + |a| + |b|..] == data[pos + |a| + |b|..];
      }
    }
  }

  lemma OverwriteInside(data: seq<Byte>, pos: nat, bs: seq<Byte>)
    requires pos + |bs| <= |data|
    ensures Overwrite(data, pos, bs) == data[..pos] + bs + data[pos + |bs|..]
    ensures |Overwrite(data, pos, bs)| == |data|
  {
    if bs == [] {
      assert data == data[..pos] + [] + data[pos..];
    }
  }

  lemma OverwriteAtStart(data: seq<Byte>, bs: seq<Byte>)
    ensures |Overwrite(data, 0, bs)| >= |bs| && Overwrite(data, 0, bs)[..|bs|] == bs
  {
  }
}
