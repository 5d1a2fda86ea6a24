/** The Internet checksum of RFC 1071, as the ping program computes it on a little-endian machine. */
module InternetChecksum {
  import opened Octets


  /** The 16-bit word at the start of `b`; a last odd byte is a word of its own. */
  function First(b: seq<Byte>): (w: int)
    requires b != []
    ensures 0 <= w < 0x1_0000
  {
    if |b| == 1 then b[0] else b[0] + 0x100 * (b[1] as int)
  }

  function Rest(b: seq<Byte>): (rest: seq<Byte>)
    requires b != []
    ensures |rest| < |b|
  {
    if |b| == 1 then [] else b[2..]
  }

  // ---------------------------------------------------------------------------------------------
  // The specification
  // ---------------------------------------------------------------------------------------------

  /** One's complement addition: the carry out of the top comes back in at the bottom. */
  function OnesAdd(x: int, y: int): int {
    if x + y >= 0x1_0000 then x + y - 0x1_0000 + 1 else x + y
  }

  /** The one's complement sum of all words of `b`. */
  function OnesSum(b: seq<Byte>): (s: int)
    ensures 0 <= s < 0x1_0000
    decreases |b|
  {
    if b == [] then 0 else OnesAdd(First(b), OnesSum(Rest(b)))
  }

  // ---------------------------------------------------------------------------------------------
  // The program
  // ---------------------------------------------------------------------------------------------

  /** The sum of all words of `b`, carries and all. */
  function Total(b: seq<Byte>): (t: nat)
    ensures t <= (|b| + 1) / 2 * 0xFFFF
    decreases |b|
  {
    if b == [] then 0 else First(b) + Total(Rest(b))
  }

  /** The two folds of the 32-bit sum, and the complement cut to 16 bits. */
  function Finish(sum: nat): (result: nat)
    ensures result < 0x1_0000
  {
    var once := sum / 0x1_0000 + sum % 0x1_0000;
    var twice := once + once / 0x1_0000;
    0xFFFF - twice % 0x1_0000
  }

  /** What an unsigned 32-bit variable keeps of `v`. */
  function Low32(v: nat): (low: nat)
    ensures low < 0x1_0000_0000
  {
    v % 0x1_0000_0000
  }

  /** `checksum`, whose accumulator has 32 bits. */
  function ChecksumOf(b: seq<Byte>): (result: nat)
    ensures result < 0x1_0000
  {
    Finish(Low32(Total(b)))
  }

  method Checksum(b: seq<Byte>) returns (result: nat)
    ensures result == ChecksumOf(b)
    ensures |b| <= 131074 ==> result == 0xFFFF - OnesSum(b)
  {
    hide Total, OnesSum, Low32;
    var sum: nat, len, buf := 0, |b|, 0;
    assert b[0..] == b;
    while len > 1
      invariant 0 <= len <= |b| && buf == |b| - len && buf % 2 == 0
      invariant sum < 0x1_0000_0000 && Low32(sum + Total(b[buf..])) == Low32(Total(b))
    {
      TotalFrom(b, buf);
      Wrapped(sum, First(b[buf..]), Total(b[buf + 2..]));
      sum := Low32(sum + (b[buf] + 0x100 * (b[buf + 1] as int)));
      buf, len := buf + 2, len - 2;
    }
    TotalFrom(b, buf);
    LowOfSmall(sum);
    if len == 1 {
      sum := Low32(sum + b[buf]);
    }
    var folded := sum / 0x1_0000 + sum % 0x1_0000;
    folded := folded + folded / 0x1_0000;
    result := 0xFFFF - folded % 0x1_0000;
    if |b| <= 131074 {
      DeferredCarries(b);
    }
  }

  // ---------------------------------------------------------------------------------------------
  // Proofs
  // ---------------------------------------------------------------------------------------------

  /** The one's complement number that stands for `t`: zero only for zero itself. */
  function Canonical(t: nat): (c: int)
    ensures 0 <= c < 0x1_0000 && (c == 0 <==> t == 0)
  {
    if t == 0 then 0 else (t - 1) % 0xFFFF + 1
  }

  lemma CanonicalIsUnique(t: nat, c: int, q: int)
    requires t == q * 0xFFFF + c && 0 <= c < 0x1_0000 && (c == 0 <==> t == 0)
    ensures Canonical(t) == c
  {
    if t > 0 {
      Remainder(t - 1, q, c - 1);
    }
  }

  lemma Remainder(v: int, q: int, r: int)
    requires v == q * 0xFFFF + r && 0 <= r < 0xFFFF
    ensures v % 0xFFFF == r
  {
  }

  lemma {:induction false} OnesSumIsCanonical(b: seq<Byte>)
    ensures OnesSum(b) == Canonical(Total(b))
    decreases |b|
  {
    if b != [] {
      var t := Total(Rest(b));
      OnesSumIsCanonical(Rest(b));
      if t == 0 {
        CanonicalIsUnique(Total(b), OnesSum(b), 0);
      } else {
        var q := (t - 1) / 0xFFFF;
        CanonicalIsUnique(Total(b), OnesSum(b), if First(b) + OnesSum(Rest(b)) >= 0x1_0000 then q + 1 else q);
      }
    }
  }

  lemma FoldIsCanonical(sum: nat)
    requires sum < 0x1_0000_0000
    ensures Finish(sum) == 0xFFFF - Canonical(sum)
  {
    var high, low := sum / 0x1_0000, sum % 0x1_0000;
    if high + low < 0x1_0000 {
      CanonicalIsUnique(sum, high + low, high);
    } else {
      CanonicalIsUnique(sum, high + low - 0x1_0000 + 1, high + 1);
    }
  }

  lemma TotalFrom(b: seq<Byte>, buf: nat)
    requires buf <= |b|
    ensures Total(b[buf..]) ==
            if buf == |b| then 0
            else if buf == |b| - 1 then First(b[buf..])
            else First(b[buf..]) + Total(b[buf + 2..])
  {
    if buf < |b| - 1 {
      assert Rest(b[buf..]) == b[buf + 2..];
    }
  }

  lemma LowOfSmall(v: nat)
    requires v < 0x1_0000_0000
    ensures Low32(v) == v
  {
  }

  /** Wrapping early does not change the wrapped sum. */
  lemma Wrapped(x: nat, y: nat, z: nat)
    ensures Low32(Low32(x + y) + z) == Low32(x + (y + z))
  {
  }

  /** Adding all words first and the carries at the end gives the one's complement sum, for up to
      65537 words. */
  lemma DeferredCarries(b: seq<Byte>)
    requires |b| <= 131074
    ensures Total(b) < 0x1_0000_0000
    ensures ChecksumOf(b) == 0xFFFF - OnesSum(b)
  {
    hide OnesSum, Total, Finish, Canonical;
    OnesSumIsCanonical(b);
    FoldIsCanonical(Total(b));
  }

  lemma LostCarries(t: nat, q: nat, low: nat)
    requires t == q * 0x1_0000_0000 + low && low < 0x1_0000_0000 && 0 < q < 0xFFFF
    ensures Canonical(t) != Canonical(low)
  {
    if low > 0 && Canonical(t) == Canonical(low) {
      Remainder(t - 1 - (low - 1), q * 0x1_0001, q);
      var x, y := (t - 1) / 0xFFFF, (low - 1) / 0xFFFF;
      Remainder(t - 1 - (low - 1), x - y, 0);
    }
  }

  /** The one's complement sum is the plain sum modulo 2^16 - 1, and zero only when all words are. */
  lemma SumModulo(b: seq<Byte>)
    ensures OnesSum(b) % 0xFFFF == Total(b) % 0xFFFF
    ensures OnesSum(b) == 0 <==> Total(b) == 0
  {
    OnesSumIsCanonical(b);
    CanonicalModulo(Total(b));
  }

  lemma CanonicalModulo(t: nat)
    ensures Canonical(t) % 0xFFFF == t % 0xFFFF
  {
    if t > 0 {
      var q := (t - 1) / 0xFFFF;
      if Canonical(t) == 0xFFFF {
        Remainder(t, q + 1, 0);
      } else {
        Remainder(t, q, Canonical(t));
      }
    }
  }

  const EXAMPLE: seq<Byte> := [0x00, 0x01, 0xf2, 0x03, 0xf4, 0xf5, 0xf6, 0xf7]

  /** The eight bytes of the example in section 3 of RFC 1071, whose sum has a carry. */
  lemma StandardExample()
    ensures ChecksumOf(EXAMPLE) == 0xFFFF - 0xf2dd
  {
    hide Total;
    ExampleTotal();
  }

  lemma ExampleTotal()
    ensures Total(EXAMPLE) == 0x1f2dc
  {
    TotalFrom(EXAMPLE, 0);
    TotalFrom(EXAMPLE, 2);
    TotalFrom(EXAMPLE, 4);
    TotalFrom(EXAMPLE, 6);
    TotalFrom(EXAMPLE, 8);
    assert EXAMPLE[0..] == EXAMPLE;
  }

  /** A last odd byte counts like the byte followed by a zero. */
  lemma {:induction false} OddTail(b: seq<Byte>)
    requires |b| % 2 == 1
    ensures Total(b + [0]) == Total(b) && OnesSum(b + [0]) == OnesSum(b) && ChecksumOf(b + [0]) == ChecksumOf(b)
    decreases |b|
  {
    if |b| == 1 {
      assert Rest(b + [0]) == [] && Rest(b) == [];
    } else {
      OddTail(b[2..]);
      assert Rest(b + [0]) == b[2..] + [0] && Rest(b) == b[2..];
    }
  }

  /** For any length that an `int` can give, the program computes the checksum of the standard exactly
      when the sum of the words fits in 32 bits. */
  lemma CorrectExactlyWhenItFits(b: seq<Byte>)
    requires |b| < 0x8000_0000
    ensures ChecksumOf(b) == 0xFFFF - OnesSum(b) <==> Total(b) < 0x1_0000_0000
  {
    hide OnesSum, Total, Finish, Canonical;
    var t := Total(b);
    OnesSumIsCanonical(b);
    FoldIsCanonical(Low32(t));
    if t >= 0x1_0000_0000 {
      LostCarries(t, t / 0x1_0000_0000, Low32(t));
    }
  }

  function AllOnes(words: nat): (b: seq<Byte>)
    ensures |b| == 2 * words
  {
    if words == 0 then [] else [255, 255] + AllOnes(words - 1)
  }

  lemma {:induction false} TotalOfAllOnes(words: nat)
    ensures Total(AllOnes(words)) == words * 0xFFFF
  {
    if words > 0 {
      TotalOfAllOnes(words - 1);
      assert Rest(AllOnes(words)) == AllOnes(words - 1);
    }
  }

  /** With one word more than 65537 the sum can overflow. */
  lemma LimitIsTight()
    ensures ChecksumOf(AllOnes(65538)) != 0xFFFF - OnesSum(AllOnes(65538))
  {
    hide AllOnes, Total, OnesSum, ChecksumOf;
    TotalOfAllOnes(65538);
    CorrectExactlyWhenItFits(AllOnes(65538));
  }

  // ---------------------------------------------------------------------------------------------
  // Verifying
  // ---------------------------------------------------------------------------------------------

  /** The buffer with the word at `at` replaced. */
  function WithWord(b: seq<Byte>, at: nat, w: int): (r: seq<Byte>)
    requires at % 2 == 0 && at + 1 < |b| && 0 <= w < 0x1_0000
    ensures |r| == |b|
  {
    b[at := w % 0x100][at + 1 := w / 0x100]
  }

  function WordAt(b: seq<Byte>, at: nat): int
    requires at + 1 < |b|
  {
    b[at] + 0x100 * (b[at + 1] as int)
  }

  lemma {:induction false} TotalWithWord(b: seq<Byte>, at: nat, w: int)
    requires at % 2 == 0 && at + 1 < |b| && 0 <= w < 0x1_0000
    ensures Total(WithWord(b, at, w)) == Total(b) - WordAt(b, at) + w
    decreases at
  {
    if at == 0 {
      assert Rest(WithWord(b, at, w)) == Rest(b);
    } else {
      TotalWithWord(Rest(b), at - 2, w);
      assert Rest(WithWord(b, at, w)) == WithWord(Rest(b), at - 2, w);
    }
  }

  /** Storing the checksum in a field that was zero makes the checksum of the whole zero. */
  lemma StoredChecksumVerifies(b: seq<Byte>, at: nat)
    requires at % 2 == 0 && at + 1 < |b| <= 131074 && WordAt(b, at) == 0
    ensures ChecksumOf(WithWord(b, at, ChecksumOf(b))) == 0
  {
    hide OnesSum, Total;
    var stored := WithWord(b, at, ChecksumOf(b));
    TotalWithWord(b, at, ChecksumOf(b));
    DeferredCarries(b);
    DeferredCarries(stored);
    OnesSumIsCanonical(b);
    OnesSumIsCanonical(stored);
    var c := Canonical(Total(b));
    var q := if Total(b) == 0 then 0 else (Total(b) - 1) / 0xFFFF;
    assert Total(b) == q * 0xFFFF + c;
    CanonicalIsUnique(Total(stored), 0xFFFF, q);
  }

  /** A buffer that verifies stops doing so when one word is changed, unless the change is between the
      two one's complement zeros beside some other nonzero word. */
  lemma ChangedWordIsNoticed(b: seq<Byte>, at: nat, w: int)
    requires at % 2 == 0 && at + 1 < |b| <= 131074 && 0 <= w < 0x1_0000 && ChecksumOf(b) == 0
    ensures ChecksumOf(WithWord(b, at, w)) == 0 <==>
              || w == WordAt(b, at)
              || (w == 0xFFFF && WordAt(b, at) == 0)
              || (w == 0 && WordAt(b, at) == 0xFFFF && Total(b) > 0xFFFF)
  {
    hide OnesSum, Total, ChecksumOf, Canonical, WithWord;
    var changed := WithWord(b, at, w);
    TotalWithWord(b, at, w);
    DeferredCarries(b);
    DeferredCarries(changed);
    OnesSumIsCanonical(b);
    OnesSumIsCanonical(changed);
    VerifiesWhenDivisible(Total(b));
    VerifiesWhenDivisible(Total(changed));
    SameRemainder(Total(b), WordAt(b, at), w);
  }

  lemma SameRemainder(t: int, was: int, now: int)
    requires t % 0xFFFF == 0 && 0 <= was <= 0xFFFF && 0 <= now <= 0xFFFF
    ensures (t - was + now) % 0xFFFF == 0 <==> now == was || (was == 0 && now == 0xFFFF) || (was == 0xFFFF && now == 0)
  {
    var q := t / 0xFFFF;
    if now >= was {
      Remainder(t - was + now, if now - was == 0xFFFF then q + 1 else q, (now - was) % 0xFFFF);
    } else {
      Remainder(t - was + now, q - 1, (now - was + 0xFFFF) % 0xFFFF);
    }
  }

  lemma VerifiesWhenDivisible(t: nat)
    ensures Canonical(t) == 0xFFFF <==> t > 0 && t % 0xFFFF == 0
  {
  }

  // ---------------------------------------------------------------------------------------------
  // The ping packet
  // ---------------------------------------------------------------------------------------------

  /** The packet structure; the checksum field is 32 bits wide, of which ICMP uses the first 16. */
  class IcmpPacket {
    var kind: Byte
    var code: Byte
    var checksum: nat
    var data: seq<Byte>

    constructor ()
      ensures Valid()
    {
      kind, code, checksum, data := 0, 0, 0, [0, 0, 0, 0];
    }

    ghost predicate Valid()
      reads this
    {
      checksum < 0x1_0000_0000 && |data| == 4
    }

    /** The packet as it lies in memory. */
    function Bytes(): (b: seq<Byte>)
      requires Valid()
      reads this
    {
      var field: seq<Byte> := [checksum % 0x100, checksum / 0x100 % 0x100, checksum / 0x1_0000 % 0x100, checksum / 0x100_0000];
      [kind, code] + field + data
    }

    /** `make_ping_icmp_packet`: an echo request that verifies, its upper half of the checksum zero. */
    method MakePing()
      requires Valid()
      modifies this
      ensures Valid() && kind == 8 && code == 0 && data == [1, 1, 1, 1] && checksum == 0xFDF5
      ensures ChecksumOf(Bytes()) == 0
    {
      hide ChecksumOf, OnesSum;
      kind := 8;
      code := 0;
      checksum := 0;
      data := [1, 1, 1, 1];
      assert Bytes() == UNSTAMPED;
      checksum := Checksum(Bytes());
      PingChecksum();
      assert Bytes() == [8, 0, 0xF5, 0xFD, 0, 0, 1, 1, 1, 1];
    }
  }

  const UNSTAMPED: seq<Byte> := [8, 0, 0, 0, 0, 0, 1, 1, 1, 1]

  lemma PingTotal()
    ensures Total(UNSTAMPED) == 0x20A
  {
    TotalFrom(UNSTAMPED, 2);
    TotalFrom(UNSTAMPED, 4);
    TotalFrom(UNSTAMPED, 6);
    TotalFrom(UNSTAMPED, 8);
    TotalFrom(UNSTAMPED, 10);
    assert Rest(UNSTAMPED) == UNSTAMPED[2..];
  }

  /** The checksum of the ping packet, and that the packet verifies with it in place. */
  lemma PingChecksum()
    ensures ChecksumOf(UNSTAMPED) == 0xFDF5
    ensures ChecksumOf([8, 0, 0xF5, 0xFD, 0, 0, 1, 1, 1, 1]) == 0
  {
    hide Total, OnesSum;
    PingTotal();
    StoredChecksumVerifies(UNSTAMPED, 2);
    assert ChecksumOf(UNSTAMPED) == 0xFDF5;
    hide ChecksumOf;
    assert [8, 0, 0xF5, 0xFD, 0, 0, 1, 1, 1, 1] == WithWord(UNSTAMPED, 2, 0xFDF5);
  }
}
