/** The square spiral of the numbers from 1 to Square(n): rows of numbers and the walk through them. */
module SpiralShape {

  /** The number in row `r` and column `c` of the spiral of side `n`: clockwise from the top left
      corner along the outer ring, then the spiral inside it. */
  function NumberAt(n: nat, r: int, c: int): (v: int)
    requires 0 <= r < n && 0 <= c < n
    ensures v >= 1
    decreases n
  {
    if r == 0 then c + 1
    else if c == n - 1 then n + r
    else if r == n - 1 then 3 * n - 2 - c
    else if c == 0 then 4 * n - 3 - r
    else NumberAt(n - 2, r - 1, c - 1) + 4 * n - 4
  }

  function Square(n: nat): int { n * n }

  /** Where the number `v` is. */
  function CellOf(n: nat, v: int): (cell: (int, int))
    requires 1 <= v <= Square(n)
    ensures 0 <= cell.0 < n && 0 <= cell.1 < n
    decreases n
  {
    if v <= n then (0, v - 1)
    else if v <= 2 * n - 1 then (v - n, n - 1)
    else if v <= 3 * n - 2 then (n - 1, 3 * n - 2 - v)
    else if v <= 4 * n - 4 then (4 * n - 3 - v, 0)
    else
      InnerSquare(n);
      var inner := CellOf(n - 2, v - (4 * n - 4));
      (inner.0 + 1, inner.1 + 1)
  }

  lemma InnerSquare(n: nat)
    requires n >= 2
    ensures Square(n) == Square(n - 2) + 4 * n - 4
  {
  }

  /** The cells and the numbers from 1 to n * n correspond one to one. */
  lemma {:induction false} CellOfNumber(n: nat, r: int, c: int)
    requires 0 <= r < n && 0 <= c < n
    ensures 1 <= NumberAt(n, r, c) <= Square(n) && CellOf(n, NumberAt(n, r, c)) == (r, c)
    decreases n
  {
    hide Square;
    if 0 < r < n - 1 && 0 < c < n - 1 {
      CellOfNumber(n - 2, r - 1, c - 1);
      var v := NumberAt(n - 2, r - 1, c - 1);
      assert NumberAt(n, r, c) == v + 4 * n - 4;
      InnerSquare(n);
      InsideTheRing(n, v + 4 * n - 4);
    } else {
      OnTheRing(n, r, c);
    }
  }

  lemma OnTheRing(n: nat, r: int, c: int)
    requires 0 <= r < n && 0 <= c < n && (r == 0 || r == n - 1 || c == 0 || c == n - 1)
    ensures 1 <= NumberAt(n, r, c) <= Square(n) && CellOf(n, NumberAt(n, r, c)) == (r, c)
  {
    hide Square;
    SideSquare(n);
  }

  lemma SmallSquares()
    ensures Square(0) == 0 && Square(1) == 1
  {
  }

  lemma SideSquare(n: nat)
    requires n >= 1
    ensures n <= Square(n) && (n >= 2 ==> 4 * n - 4 <= Square(n))
  {
    if n >= 2 {
      InnerSquare(n);
      assert (n - 2) * (n - 2) >= 0;
    }
  }

  lemma {:induction false} NumberOfCell(n: nat, v: int)
    requires 1 <= v <= Square(n)
    ensures var cell := CellOf(n, v); NumberAt(n, cell.0, cell.1) == v
    decreases n
  {
    hide Square;
    SmallSquares();
    if v > n && v > 2 * n - 1 && v > 3 * n - 2 && v > 4 * n - 4 {
      InnerSquare(n);
      NumberOfCell(n - 2, v - (4 * n - 4));
    }
  }

  /** Two cells share an edge. */
  predicate Adjacent(a: (int, int), b: (int, int)) {
    (a.0 == b.0 && (a.1 - b.1 == 1 || b.1 - a.1 == 1)) || (a.1 == b.1 && (a.0 - b.0 == 1 || b.0 - a.0 == 1))
  }

  /** Consecutive numbers sit in cells that share an edge. */
  lemma {:induction false} WalkIsConnected(n: nat, v: int)
    requires 1 <= v && v + 1 <= Square(n)
    ensures Adjacent(CellOf(n, v), CellOf(n, v + 1))
    decreases n
  {
    hide Square;
    SmallSquares();
    if n >= 2 && v > 4 * n - 4 {
      InnerSquare(n);
      WalkIsConnected(n - 2, v - (4 * n - 4));
      InsideTheRing(n, v);
      InsideTheRing(n, v + 1);
      hide CellOf;
      StillAdjacent(CellOf(n - 2, v - (4 * n - 4)), CellOf(n - 2, v - (4 * n - 4) + 1));
    } else if v == 4 * n - 4 {
      IntoTheInnerSpiral(n);
    } else {
      AlongTheRing(n, v);
    }
  }

  function OneIn(cell: (int, int)): (int, int) {
    (cell.0 + 1, cell.1 + 1)
  }

  lemma InsideTheRing(n: nat, v: int)
    requires n >= 2 && 4 * n - 4 < v <= Square(n)
    ensures 1 <= v - (4 * n - 4) <= Square(n - 2)
    ensures CellOf(n, v) == OneIn(CellOf(n - 2, v - (4 * n - 4)))
  {
    InnerSquare(n);
    hide Square;
  }

  lemma StillAdjacent(a: (int, int), b: (int, int))
    requires Adjacent(a, b)
    ensures Adjacent(OneIn(a), OneIn(b))
  {
  }

  lemma AlongTheRing(n: nat, v: int)
    requires 1 <= v && v + 1 <= Square(n) && v + 1 <= 4 * n - 4
    ensures Adjacent(CellOf(n, v), CellOf(n, v + 1))
  {
    hide Square;
  }

  /** The step from the end of the outer ring to the start of the spiral inside it. */
  lemma IntoTheInnerSpiral(n: nat)
    requires n >= 2 && 4 * n - 4 + 1 <= Square(n)
    ensures Adjacent(CellOf(n, 4 * n - 4), CellOf(n, 4 * n - 4 + 1))
  {
    hide Square;
    SmallSquares();
    InnerSquare(n);
    SideSquare(n - 2);
  }

  // ---------------------------------------------------------------------------------------------
  // The spiral inside `k` rings
  // ---------------------------------------------------------------------------------------------

  /** How many numbers the outer `k` rings take. */
  function RingNumbers(n: nat, k: nat): int
    requires 2 * k <= n + 1
  {
    if k == 0 then 0 else RingNumbers(n, k - 1) + 4 * (n - 2 * (k - 1)) - 4
  }

  lemma {:induction false} RingNumbersAre(n: nat, k: nat)
    requires 2 * k <= n + 1
    ensures RingNumbers(n, k) == 4 * k * (n - k)
  {
    if k > 0 {
      RingNumbersAre(n, k - 1);
      assert 4 * k * (n - k) == 4 * (k - 1) * (n - (k - 1)) + 4 * (n - 2 * (k - 1)) - 4;
    }
  }

  lemma OuterRing(m: nat, i: nat)
    requires i < m
    ensures NumberAt(m, 0, i) == 1 + i && NumberAt(m, i, m - 1) == m + i
    ensures m > 1 ==> NumberAt(m, m - 1, m - 1 - i) == 2 * m - 1 + i
    ensures i < m - 1 ==> NumberAt(m, m - 1 - i, 0) == 3 * m - 2 + i
  {
  }

  /** The numbers of ring `k`: along the top to the right, down the right side, along the bottom to the
      left, and up the left side. */
  lemma Clockwise(n: nat, k: nat, i: nat)
    requires 2 * k < n && i < n - 2 * k
    ensures NumberAt(n, k, k + i) == 4 * k * (n - k) + 1 + i
    ensures NumberAt(n, k + i, n - k - 1) == 4 * k * (n - k) + (n - 2 * k) + i
    ensures n - 2 * k > 1 ==> NumberAt(n, n - k - 1, n - k - 1 - i) == 4 * k * (n - k) + 2 * (n - 2 * k) - 1 + i
    ensures i < n - 2 * k - 1 ==> NumberAt(n, n - k - 1 - i, k) == 4 * k * (n - k) + 3 * (n - 2 * k) - 2 + i
  {
    hide NumberAt, RingNumbers;
    OuterRing(n - 2 * k, i);
    RingNumbersAre(n, k);
    InsideRings(n, k, k, k + i);
    InsideRings(n, k, k + i, n - k - 1);
    InsideRings(n, k, n - k - 1, n - k - 1 - i);
    InsideRings(n, k, n - k - 1 - i, k);
  }

  /** Inside `k` rings the numbers go on as in a smaller spiral. */
  lemma {:induction false} InsideRings(n: nat, k: nat, r: int, c: int)
    requires 2 * k < n && k <= r < n - k && k <= c < n - k
    ensures NumberAt(n, r, c) == NumberAt(n - 2 * k, r - k, c - k) + RingNumbers(n, k)
    decreases k
  {
    if k > 0 {
      InsideRings(n, k - 1, r, c);
    }
  }
}
