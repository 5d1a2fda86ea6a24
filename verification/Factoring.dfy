/** The Python extension that factors a number by trial division. */
module Factoring {
  import opened Primes

  datatype Outcome = NegativeNumber | PrimeText | Factors(primes: seq<int>)

  function Product(ns: seq<int>): int {
    if ns == [] then 1 else ns[0] * Product(ns[1..])
  }

  /** Primes that never decrease. */
  ghost predicate PrimesInOrder(ns: seq<int>) {
    && (forall p <- ns :: IsPrime(p))
    && forall i, j :: 0 <= i < j < |ns| ==> ns[i] <= ns[j]
  }

  ghost predicate Divides(d: int, n: int)
    requires d >= 1
  {
    n % d == 0
  }

  // ---------------------------------------------------------------------------------------------
  // Divisors
  // ---------------------------------------------------------------------------------------------

  lemma MultipleDivides(d: int, k: int)
    requires d >= 1
    ensures Divides(d, k * d) && k * d / d == k
  {
    var r := k * d % d;
    var x := k - k * d / d;
    assert x * d == r;
    if x != 0 {
      NoSmallMultiple(x, d);
    }
  }

  lemma NoSmallMultiple(x: int, d: int)
    requires d >= 1 && x != 0
    ensures x * d < 0 || x * d >= d
  {
    if x >= 1 {
      assert x * d >= d;
    }
  }

  /** Whatever divides two numbers divides their combinations. */
  lemma Combination(d: int, x: int, y: int, k: int)
    requires d >= 1 && Divides(d, x) && Divides(d, y)
    ensures Divides(d, x - k * y)
  {
    var a, b := x / d, y / d;
    assert x - k * y == (a - k * b) * d by {
      assert k * (b * d) == (k * b) * d;
    }
    MultipleDivides(d, a - k * b);
  }

  /** Euclid: a prime that divides a product divides one of the factors. */
  lemma {:induction false} PrimeDividesFactor(p: int, a: int, b: int)
    requires IsPrime(p) && a >= 0 && Divides(p, a * b)
    ensures Divides(p, a) || Divides(p, b)
    decreases a
  {
    hide Divides;
    if a >= p {
      LessOnce(p, a, b);
      PrimeDividesFactor(p, a - p, b);
      MultipleDivides(p, 1);
      if Divides(p, a - p) {
        Combination(p, a - p, p, -1);
      }
    } else if a >= 2 {
      NoDivisorBelow(p, a);
      RemainderInstead(p, a, b);
      PrimeDividesFactor(p, p % a, b);
    } else {
      MultipleDivides(p, 0);
      assert a == 1 ==> a * b == b;
    }
  }

  lemma NoDivisorBelow(p: int, a: int)
    requires IsPrime(p) && 2 <= a < p
    ensures 0 < p % a < p && !Divides(p, p % a)
  {
    assert p % a != 0;
  }

  lemma LessOnce(p: int, a: int, b: int)
    requires p >= 1 && Divides(p, a * b)
    ensures Divides(p, (a - p) * b)
  {
    hide Divides;
    MultipleDivides(p, b);
    Combination(p, a * b, b * p, 1);
    assert (a - p) * b == a * b - 1 * (b * p);
  }

  lemma RemainderInstead(p: int, a: int, b: int)
    requires p >= 1 && a >= 1 && Divides(p, a * b)
    ensures Divides(p, p % a * b)
  {
    hide Divides;
    MultipleDivides(p, b);
    Combination(p, b * p, a * b, p / a);
    RemainderTimes(p, a, b);
  }

  lemma RemainderTimes(p: int, a: int, b: int)
    requires a >= 1
    ensures p % a * b == b * p - p / a * (a * b)
  {
    var q := p / a;
    assert p % a == p - q * a;
    assert (p - q * a) * b == p * b - (q * a) * b;
    assert (q * a) * b == q * (a * b);
  }

  /** The least divisor from two on is prime. */
  lemma LeastDivisorIsPrime(n: int, i: int)
    requires i >= 2 && Divides(i, n) && forall d :: 2 <= d < i ==> n % d != 0
    ensures IsPrime(i)
  {
    forall d | 2 <= d < i ensures i % d != 0 {
      if i % d == 0 {
        DividesOn(d, i, n);
      }
    }
  }

  lemma DividesOn(d: int, i: int, n: int)
    requires d >= 1 && i >= 1 && Divides(d, i) && Divides(i, n)
    ensures Divides(d, n)
  {
    var a, b := i / d, n / i;
    assert n == (b * a) * d by {
      assert b * (a * d) == (b * a) * d;
    }
    MultipleDivides(d, b * a);
  }

  // ---------------------------------------------------------------------------------------------
  // Products
  // ---------------------------------------------------------------------------------------------

  lemma {:induction false} ProductAppend(ns: seq<int>, m: int)
    ensures Product(ns + [m]) == Product(ns) * m
  {
    if ns == [] {
      assert Product([m]) == m * Product([m][1..]);
    } else {
      ProductAppend(ns[1..], m);
      assert (ns + [m])[1..] == ns[1..] + [m];
      assert ns[0] * (Product(ns[1..]) * m) == (ns[0] * Product(ns[1..])) * m;
    }
  }

  lemma {:induction false} ProductPositive(ns: seq<int>)
    requires forall p <- ns :: IsPrime(p)
    ensures Product(ns) >= 1 && (ns != [] ==> Product(ns) >= 2)
  {
    if ns != [] {
      ProductPositive(ns[1..]);
      assert ns[0] in ns;
      assert ns[0] * Product(ns[1..]) >= ns[0];
    }
  }

  lemma PrimeDividesPrime(p: int, q: int)
    requires IsPrime(p) && IsPrime(q) && Divides(p, q)
    ensures p == q
  {
  }

  /** A prime that divides a product of primes is one of them. */
  lemma {:induction false} PrimeInProduct(p: int, ns: seq<int>)
    requires IsPrime(p) && (forall q <- ns :: IsPrime(q)) && Divides(p, Product(ns))
    ensures p in ns
  {
    if ns != [] {
      assert ns[0] in ns;
      PrimeDividesFactor(p, ns[0], Product(ns[1..]));
      if Divides(p, ns[0]) {
        PrimeDividesPrime(p, ns[0]);
      } else {
        PrimeInProduct(p, ns[1..]);
      }
    }
  }

  /** A number has only one list of primes in order that multiply to it. */
  lemma {:induction false} FactorsAreUnique(ms: seq<int>, ns: seq<int>)
    requires PrimesInOrder(ms) && PrimesInOrder(ns) && Product(ms) == Product(ns)
    ensures ms == ns
  {
    hide IsPrime, Product, PrimesInOrder;
    AtLeastTwo(ms);
    AtLeastTwo(ns);
    if ms != [] && ns != [] {
      FirstIsLeast(ms, ns);
      FirstIsLeast(ns, ms);
      var p := ms[0];
      PrimeIn(ms);
      PrimeIn(ns);
      CancelFirst(p, Product(ms[1..]), Product(ns[1..]));
      FactorsAreUnique(ms[1..], ns[1..]);
      assert ms == [p] + ms[1..] && ns == [p] + ns[1..];
    }
  }

  lemma AtLeastTwo(ns: seq<int>)
    requires PrimesInOrder(ns)
    ensures if ns == [] then Product(ns) == 1 else Product(ns) >= 2
  {
    ProductPositive(ns);
  }

  lemma CancelFirst(p: int, x: int, y: int)
    requires p >= 1 && p * x == p * y
    ensures x == y
  {
    MultipleDivides(p, x);
    MultipleDivides(p, y);
  }

  lemma PrimeIn(ns: seq<int>)
    requires PrimesInOrder(ns) && ns != []
    ensures IsPrime(ns[0]) && ns[0] >= 2 && PrimesInOrder(ns[1..])
    ensures Product(ns) == ns[0] * Product(ns[1..])
  {
    assert ns[0] in ns;
  }

  lemma FirstIsLeast(ms: seq<int>, ns: seq<int>)
    requires PrimesInOrder(ms) && PrimesInOrder(ns) && Product(ms) == Product(ns) && ms != [] && ns != []
    ensures ns[0] <= ms[0]
  {
    assert ms[0] in ms;
    MultipleDivides(ms[0], Product(ms[1..]));
    PrimeInProduct(ms[0], ns);
  }

  /** A product of two or more primes is not prime. */
  lemma CompositeIsNotPrime(ns: seq<int>)
    requires PrimesInOrder(ns) && |ns| >= 2
    ensures !IsPrime(Product(ns))
  {
    hide IsPrime;
    PrimeIn(ns);
    ProductPositive(ns[1..]);
    ProperDivisor(ns[0], Product(ns[1..]));
  }

  lemma ProperDivisor(p: int, k: int)
    requires p >= 2 && k >= 2
    ensures !IsPrime(p * k)
  {
    MultipleDivides(p, k);
    assert p * k == p + p * (k - 1);
    assert p * (k - 1) >= p;
    assert (p * k) % p == 0;
  }

  // ---------------------------------------------------------------------------------------------
  // The program
  // ---------------------------------------------------------------------------------------------

  /** `factor_out`: every divisor in turn is divided out as often as it goes, while the number that
      bounds the search shrinks. */
  method FactorOut(number: int) returns (r: Outcome)
    ensures r == NegativeNumber <==> number < 0
    ensures r == PrimeText <==> number == 0 || number == 1 || IsPrime(number)
    ensures r.Factors? ==> PrimesInOrder(r.primes) && Product(r.primes) == number && |r.primes| >= 2
  {
    if number < 0 {
      return NegativeNumber;
    }
    hide IsPrime, Product, PrimesInOrder;
    var n, primes := number, [];
    var i := 2;
    ProductOfFew(primes);
    while i <= n
      invariant i >= 2 && (number == 0 ==> n == 0 && primes == [])
      invariant number >= 1 ==> Searching(number, n, primes, i)
      decreases n - i
    {
      ghost var start := n;
      while n % i == 0
        decreases n
        invariant n <= start && Searching(number, n, primes, i)
      {
        DividedOut(number, n, primes, i);
        n := n / i;
        primes := primes + [i];
      }
      NextDivisor(number, n, primes, i);
      i := i + 1;
    }
    if number > 0 {
      NothingLeft(number, n, primes, i);
    }
    if |primes| <= 1 {
      return PrimeText;
    }
    return Factors(primes);
  }

  /** What holds while the program looks for divisors from `i` on: the list and what is left of the
      number multiply to the number, and what is left has no divisor below `i`. */
  ghost predicate Searching(number: int, n: int, primes: seq<int>, i: int) {
    && n >= 1 && i >= 2
    && Product(primes) * n == number
    && PrimesInOrder(primes) && (forall p <- primes :: p <= i)
    && forall d :: 2 <= d < i ==> n % d != 0
  }

  lemma ProductOfFew(primes: seq<int>)
    requires |primes| <= 1
    ensures Product(primes) == if primes == [] then 1 else primes[0]
    ensures primes == [] ==> PrimesInOrder(primes)
  {
  }

  /** Moving a divisor from the number to the list keeps the product, and the smaller number has no
      new divisors. */
  lemma DividedOut(number: int, n: int, primes: seq<int>, i: int)
    requires Searching(number, n, primes, i) && Divides(i, n)
    ensures Searching(number, n / i, primes + [i], i) && n / i < n
  {
    hide Product, IsPrime;
    var k := n / i;
    Quotient(n, i);
    ProductAppend(primes, i);
    assert (Product(primes) * i) * k == Product(primes) * (k * i);
    forall d | 2 <= d < i ensures k % d != 0 {
      if k % d == 0 {
        DividesOn(d, k, n);
      }
    }
    LeastDivisorIsPrime(n, i);
    assert forall j :: 0 <= j < |primes| ==> primes[j] in primes;
  }

  lemma Quotient(n: int, i: int)
    requires n >= 1 && i >= 2 && Divides(i, n)
    ensures 1 <= n / i < n && n / i * i == n && Divides(n / i, n)
  {
    MultipleDivides(n / i, i);
  }

  lemma NextDivisor(number: int, n: int, primes: seq<int>, i: int)
    requires Searching(number, n, primes, i) && !Divides(i, n)
    ensures Searching(number, n, primes, i + 1)
  {
  }

  /** When the divisors have passed what is left, nothing is left. */
  lemma NothingLeft(number: int, n: int, primes: seq<int>, i: int)
    requires Searching(number, n, primes, i) && n < i
    ensures PrimesInOrder(primes) && Product(primes) == number
    ensures |primes| <= 1 <==> number == 1 || IsPrime(number)
  {
    MultipleDivides(n, 1);
    assert Divides(n, n);
    assert n == 1;
    ProductPositive(primes);
    if |primes| <= 1 {
      ProductOfFew(primes);
      assert primes != [] ==> primes[0] in primes;
    } else {
      CompositeIsNotPrime(primes);
    }
  }
}
