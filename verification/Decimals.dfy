/** Decimal numerals of natural numbers. */
module Decimals {

  predicate IsDigit(c: char) { '0' <= c <= '9' }

  predicate IsNumeral(s: string) {
    s != "" && forall c <- s :: IsDigit(c)
  }

  type Numeral = s: string | IsNumeral(s) witness "0"

  /** The value of a digit string in base ten, most significant digit first. */
  function Decimal(digits: string): int
    requires forall c <- digits :: IsDigit(c)
  {
    if digits == "" then 0
    else 10 * Decimal(digits[..|digits| - 1]) + (digits[|digits| - 1] as int - '0' as int)
  }

  /** The numeral of `n` without leading zeros, as `%d` prints it. */
  function Digits(n: nat): (s: Numeral)
    ensures Decimal(s) == n
  {
    var d := [(n % 10 + '0' as int) as char];
    if n < 10 then assert Decimal("") == 0; assert d[..0] == ""; d
    else
      var s := Digits(n / 10) + d;
      assert s[..|s| - 1] == Digits(n / 10);
      s
  }

  function Power10(k: nat): nat { if k == 0 then 1 else 10 * Power10(k - 1) }

  lemma {:induction false} DigitsBelowPower(v: nat, k: nat)
    requires k >= 1 && v < Power10(k)
    ensures |Digits(v)| <= k
    decreases k
  {
    PowerOne();
    if v >= 10 {
      DigitsBelowPower(v / 10, k - 1);
    }
  }

  lemma PowerOne()
    ensures Power10(1) == 10
  {
  }

  lemma NextSquare(m: nat)
    ensures (m + 1) * (m + 1) == m * m + 2 * m + 1 && m <= m * m
  {
  }

  lemma {:induction false} SquareBelowPower(n: nat)
    requires n >= 1
    ensures n <= n * n < Power10(n)
  {
    if n == 1 {
      PowerOne();
    } else {
      SquareBelowPower(n - 1);
      NextSquare(n - 1);
      NextSquare(n);
    }
  }

  /** A number has at most as many digits as its value, and its square has, too. */
  lemma FewDigits(n: nat)
    requires n >= 1
    ensures |Digits(n)| <= n && |Digits(n * n)| <= n
  {
    SquareBelowPower(n);
    DigitsBelowPower(n, n);
    DigitsBelowPower(n * n, n);
  }

  /** The value of a numeral digit by digit: each digit counts ten times the one behind it. */
  lemma {:induction false} DecimalConcat(a: string, b: string)
    requires (forall c <- a :: IsDigit(c)) && forall c <- b :: IsDigit(c)
    ensures forall c <- a + b :: IsDigit(c)
    ensures Decimal(a + b) == Decimal(a) * Power10(|b|) + Decimal(b)
    decreases |b|
  {
    assert forall c <- a + b :: c in a || c in b;
    if b == "" {
      assert a + b == a;
      assert Power10(0) == 1;
    } else {
      var n := |b| - 1;
      assert forall c <- b[..n] :: c in b;
      DecimalConcat(a, b[..n]);
      assert (a + b)[..|a + b| - 1] == a + b[..n];
      TenTimes(Decimal(a), Power10(n));
    }
  }

  lemma TenTimes(x: int, y: int)
    ensures x * (10 * y) == 10 * (x * y)
  {
  }

  lemma DecimalOfDigit(c: char)
    requires IsDigit(c)
    ensures Decimal([c]) == c as int - 48
  {
    assert [c][..0] == "" && Decimal("") == 0;
  }

  /** `%d` writes no leading zeros. */
  lemma {:induction false} NoLeadingZero(n: nat)
    ensures |Digits(n)| > 1 ==> Digits(n)[0] != '0'
    decreases n
  {
    if n >= 10 {
      NoLeadingZero(n / 10);
      if n / 10 < 10 {
        assert Digits(n)[0] == Digits(n / 10)[0];
      }
    }
  }

  /** Larger numbers have numerals that are at least as long. */
  lemma {:induction false} DigitsMonotone(m: nat, n: nat)
    requires m <= n
    ensures |Digits(m)| <= |Digits(n)|
    decreases n
  {
    if n >= 10 {
      if m >= 10 {
        DigitsMonotone(m / 10, n / 10);
      }
    }
  }
}
