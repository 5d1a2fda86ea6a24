/** The program that writes the number spiral into a mapped file, four lines of cells a ring. */
module Spiral {
  import opened Decimals
  import opened SpiralShape

  /** Where character `k` of the cell in row `r` and column `c` lies: rows of `n` cells of width `w`,
      each row ended by a newline. */
  function Pos(n: nat, w: nat, r: int, c: int, k: int): int {
    r * (n * w + 1) + c * w + k
  }

  /** Character `k` of a cell that shows the number `v`, right-justified. */
  function CellChar(w: nat, v: nat, k: nat): char {
    var digits := Digits(v);
    if k + |digits| < w || k >= w || |digits| > w then ' ' else digits[k - (w - |digits|)]
  }

  /** The file shows the numbers of the spiral in the cells `done`, and blanks in the others. */
  ghost predicate Shows(file: seq<char>, n: nat, w: nat, done: set<(int, int)>) {
    && |file| == n * (n * w + 1)
    && (forall r: nat, c: nat, k: nat :: r < n && c < n && k < w ==> CellShows(file, n, w, done, r, c, k))
    && forall r: nat :: r < n ==> NewlineAt(file, n, w, r)
  }

  ghost predicate CellShows(file: seq<char>, n: nat, w: nat, done: set<(int, int)>, r: nat, c: nat, k: nat)
    requires r < n && c < n
  {
    var p := Pos(n, w, r, c, k);
    0 <= p < |file| && file[p] == if (r, c) in done then CellChar(w, NumberAt(n, r, c), k) else ' '
  }

  ghost predicate NewlineAt(file: seq<char>, n: nat, w: nat, r: nat) {
    var p := Pos(n, w, r, n, 0);
    0 <= p < |file| && file[p] == '\n'
  }

  // ---------------------------------------------------------------------------------------------
  // Positions
  // ---------------------------------------------------------------------------------------------

  lemma Distribute(a: int, b: int, m: int)
    ensures (a + b) * m == a * m + b * m
  {
  }

  /** Larger factors make products that differ by at least the other factor. */
  lemma Apart(a: int, b: int, m: nat)
    requires a < b
    ensures a * m + m <= b * m
  {
    var d := b - a - 1;
    assert (a + (1 + d)) * m == a * m + (1 + d) * m by { Distribute(a, 1 + d, m); }
    assert (1 + d) * m == m + d * m by { Distribute(1, d, m); }
    assert d * m >= 0;
  }

  /** Quotient and remainder are unique. */
  lemma Unique(a: int, x: int, b: int, y: int, m: int)
    requires m > 0 && 0 <= x < m && 0 <= y < m && a * m + x == b * m + y
    ensures a == b && x == y
  {
    if a < b {
      Apart(a, b, m);
    } else if b < a {
      Apart(b, a, m);
    }
  }

  lemma ColumnBound(n: nat, w: nat, c: int, k: int)
    requires (0 <= c < n && 0 <= k < w) || (c == n && k == 0)
    ensures 0 <= c * w + k < n * w + 1 && (c < n ==> c * w + k < n * w)
  {
    if c < n {
      Apart(c, n, w);
    }
    if 0 < c {
      Apart(0, c, w);
    }
  }

  /** Different characters of the text lie at different places, inside the file. */
  lemma PosInjective(n: nat, w: nat, r: int, c: int, k: int, r': int, c': int, k': int)
    requires (0 <= c < n && 0 <= k < w) || (c == n && k == 0)
    requires (0 <= c' < n && 0 <= k' < w) || (c' == n && k' == 0)
    requires Pos(n, w, r, c, k) == Pos(n, w, r', c', k')
    ensures r == r' && (c < n && c' < n ==> c == c' && k == k') && (c == n <==> c' == n)
  {
    ColumnBound(n, w, c, k);
    ColumnBound(n, w, c', k');
    Unique(r, c * w + k, r', c' * w + k', n * w + 1);
    if c < n && c' < n {
      Unique(c, k, c', k', w);
    }
  }

  lemma PosInside(n: nat, w: nat, r: int, c: int, k: int)
    requires 0 <= r < n && ((0 <= c < n && 0 <= k < w) || (c == n && k == 0))
    ensures 0 <= Pos(n, w, r, c, k) < n * (n * w + 1)
  {
    ColumnBound(n, w, c, k);
    Apart(r, n, n * w + 1);
    if 0 < r {
      Apart(0, r, n * w + 1);
    }
  }

  // ---------------------------------------------------------------------------------------------
  // Writing
  // ---------------------------------------------------------------------------------------------

  /** The first loop of `write_spiral`: blanks, and a newline at the end of each row. */
  method Blank(file: array<char>, n: nat, w: nat)
    requires file.Length == n * (n * w + 1)
    modifies file
    ensures Shows(file[..], n, w, {})
  {
    for i := 0 to file.Length
      invariant forall j :: 0 <= j < i ==> file[j] == if j % (n * w + 1) == n * w then '\n' else ' '
    {
      file[i] := ' ';
      if i % (n * w + 1) == n * w {
        file[i] := '\n';
      }
    }
    forall r: nat, c: nat, k: nat | r < n && c < n && k < w ensures CellShows(file[..], n, w, {}, r, c, k) {
      PosInside(n, w, r, c, k);
      ColumnBound(n, w, c, k);
      Remainder(r, c * w + k, n * w + 1);
    }
    forall r: nat | r < n ensures NewlineAt(file[..], n, w, r) {
      PosInside(n, w, r, n, 0);
      Remainder(r, n * w, n * w + 1);
    }
  }

  lemma Remainder(a: nat, x: nat, m: nat)
    requires x < m
    ensures (a * m + x) % m == x
  {
    var v := a * m + x;
    Unique(v / m, v % m, a, x, m);
  }

  /** `strncpy` of a numeral. */
  method Copy(file: array<char>, at: int, digits: string)
    requires 0 <= at && at + |digits| <= file.Length
    modifies file
    ensures forall j :: 0 <= j < file.Length ==>
              file[j] == if at <= j < at + |digits| then digits[j - at] else old(file[j])
  {
    for i := 0 to |digits|
      invariant forall j :: 0 <= j < file.Length ==>
                  file[j] == if at <= j < at + i then digits[j - at] else old(file[j])
    {
      file[at + i] := digits[i];
    }
  }

  /** Writing the numeral of a cell right-justified into it shows the cell; a cell that is shown
      already stays as it is. */
  lemma CellWritten(before: seq<char>, after: seq<char>, n: nat, w: nat, done: set<(int, int)>, r: nat, c: nat, v: nat)
    requires Shows(before, n, w, done) && r < n && c < n && NumberAt(n, r, c) == v && |Digits(v)| <= w
    requires |after| == |before|
    requires var at := Pos(n, w, r, c, 0) + w - |Digits(v)|;
             forall j :: 0 <= j < |after| ==>
               after[j] == if at <= j < at + |Digits(v)| then Digits(v)[j - at] else before[j]
    ensures Shows(after, n, w, done + {(r, c)})
  {
    hide Digits, NumberAt;
    var at := Pos(n, w, r, c, 0) + w - |Digits(v)|;
    forall r': nat, c': nat, k': nat | r' < n && c' < n && k' < w
      ensures CellShows(after, n, w, done + {(r, c)}, r', c', k')
    {
      assert CellShows(before, n, w, done, r', c', k');
      var p := Pos(n, w, r', c', k');
      if at <= p < at + |Digits(v)| {
        PosInjective(n, w, r, c, p - Pos(n, w, r, c, 0), r', c', k');
      } else if (r', c') == (r, c) {
        assert p == Pos(n, w, r, c, 0) + k';
      }
    }
    forall r': nat | r' < n ensures NewlineAt(after, n, w, r') {
      assert NewlineAt(before, n, w, r');
      var p := Pos(n, w, r', n, 0);
      if at <= p < at + |Digits(v)| {
        PosInjective(n, w, r, c, p - Pos(n, w, r, c, 0), r', n, 0);
      }
    }
  }

  ghost function Members(line: seq<(int, int)>): set<(int, int)> {
    set cell | cell in line
  }

  /** The cells of a line, as the program steps through them. */
  ghost predicate IsLine(n: nat, w: nat, begin: int, step: int, beginValue: int, line: seq<(int, int)>) {
    forall i :: 0 <= i < |line| ==> OnLine(n, w, begin, step, beginValue, line[i], i)
  }

  /** Cell number `i` of a line. */
  ghost predicate OnLine(n: nat, w: nat, begin: int, step: int, beginValue: int, cell: (int, int), i: int) {
    && 0 <= cell.0 < n && 0 <= cell.1 < n
    && NumberAt(n, cell.0, cell.1) == beginValue + i
    && Pos(n, w, cell.0, cell.1, 0) == begin + i * step
  }

  /** `write_line`: consecutive numbers into the cells of a line. */
  method WriteLine(file: array<char>, begin: int, step: int, cellSize: nat, count: nat, beginValue: int,
                   ghost n: nat, ghost done: set<(int, int)>, ghost line: seq<(int, int)>)
    requires ShowsIfWide(file[..], n, cellSize, done) && |line| == count && cellSize >= 1
    requires IsLine(n, cellSize, begin, step, beginValue, line)
    modifies file
    ensures ShowsIfWide(file[..], n, cellSize, done + Members(line))
  {
    hide Shows, Digits, Square;
    assert done + Members(line[..0]) == done;
    for i := 0 to count
      invariant ShowsIfWide(file[..], n, cellSize, done + Members(line[..i]))
    {
      ghost var before := file[..];
      ghost var r: nat, c: nat := line[i].0, line[i].1;
      CellOfNumber(n, r, c);
      var digits := Digits(i + beginValue);
      var len := |digits|;
      CellInside(n, cellSize, r, c);
      Copy(file, begin + i * step + (cellSize - len), digits);
      if Wide(n, cellSize) {
        DigitsMonotone(i + beginValue, Square(n));
        CellWritten(before, file[..], n, cellSize, done + Members(line[..i]), r, c, i + beginValue);
      }
      assert line[..i + 1] == line[..i] + [(r, c)];
      assert done + Members(line[..i]) + {(r, c)} == done + Members(line[..i + 1]);
    }
    assert line[..count] == line;
  }

  /** Every number of the spiral has room in the columns of a cell. */
  predicate Wide(n: nat, w: nat) { |Digits(Square(n))| <= w }

  /** In cells that are too narrow the numerals run into each other. */
  ghost predicate ShowsIfWide(file: seq<char>, n: nat, w: nat, done: set<(int, int)>) {
    |file| == n * (n * w + 1) && (Wide(n, w) ==> Shows(file, n, w, done))
  }

  /** A numeral that ends where its cell ends lies inside the file, even when it is wider than the cell. */
  lemma CellInside(n: nat, w: nat, r: nat, c: nat)
    requires r < n && c < n && w >= 1
    ensures var len := |Digits(NumberAt(n, r, c))|;
            0 <= Pos(n, w, r, c, 0) + (w - len) && Pos(n, w, r, c, 0) + w <= n * (n * w + 1)
  {
    hide Digits, NumberAt;
    ShortNumeral(n, r, c);
    EndOfCell(n, w, r, c);
  }

  /** No numeral is longer than what comes before the end of its cell when cells have one column. */
  lemma ShortNumeral(n: nat, r: nat, c: nat)
    requires r < n && c < n
    ensures |Digits(NumberAt(n, r, c))| <= if r == 0 then c + 1 else n
  {
    hide Digits, NumberAt, Square;
    if r == 0 {
      FirstRow(n, c);
      FewDigits(c + 1);
    } else {
      CellOfNumber(n, r, c);
      DigitsMonotone(NumberAt(n, r, c), Square(n));
      SquareIs(n);
      FewDigits(n);
    }
  }

  lemma EndOfCell(n: nat, w: nat, r: nat, c: nat)
    requires r < n && c < n && w >= 1
    ensures (if r == 0 then c + 1 else n) <= Pos(n, w, r, c, 0) + w <= n * (n * w + 1)
  {
    PosInside(n, w, r, c, w - 1);
    Distribute(c, 1, w);
    if r == 0 {
      AtLeastOnce(c + 1, w);
    } else {
      AtLeastOnce(n, w);
      AtLeastOnce(r, n * w + 1);
      ColumnBound(n, w, c, 0);
    }
  }

  lemma FirstRow(n: nat, c: nat)
    requires c < n
    ensures NumberAt(n, 0, c) == c + 1
  {
  }

  lemma SquareIs(n: nat)
    ensures Square(n) == n * n
  {
  }

  lemma AtLeastOnce(a: nat, w: nat)
    requires w >= 1
    ensures a * w >= a && (a >= 1 ==> a * w >= w)
  {
    if a >= 1 {
      Apart(0, a, w);
    }
    if w >= 2 {
      Apart(1, w, a);
    }
  }

  // ---------------------------------------------------------------------------------------------
  // Rings
  // ---------------------------------------------------------------------------------------------

  /** The cells outside the square that `k` rings leave. */
  ghost function Outside(n: nat, k: nat): set<(int, int)> {
    set r, c | 0 <= r < n && 0 <= c < n && !Within(n, k, r, c) :: (r, c)
  }

  predicate Within(n: nat, k: nat, r: int, c: int) {
    k <= r < n - k && k <= c < n - k
  }

  ghost function Cells(n: nat): set<(int, int)> {
    set r, c | 0 <= r < n && 0 <= c < n :: (r, c)
  }

  ghost function Top(n: nat, k: nat): (side: seq<(int, int)>)
    requires 2 * k < n
    ensures |side| == n - 2 * k
  {
    seq(n - 2 * k, i => (k, k + i))
  }

  ghost function Right(n: nat, k: nat): (side: seq<(int, int)>)
    requires 2 * k < n
    ensures |side| == n - 2 * k - 1
  {
    seq(n - 2 * k - 1, i => (k + 1 + i, n - k - 1))
  }

  ghost function Bottom(n: nat, k: nat): (side: seq<(int, int)>)
    requires 2 * k < n
    ensures |side| == n - 2 * k - 1
  {
    seq(n - 2 * k - 1, i => (n - k - 1, n - k - 2 - i))
  }

  /** The left side starts with the corner that ends the bottom. */
  ghost function Left(n: nat, k: nat): (side: seq<(int, int)>)
    requires 2 * k < n
    ensures |side| == n - 2 * k - 1
  {
    seq(n - 2 * k - 1, i => (n - k - 1 - i, k))
  }

  lemma Ring(n: nat, k: nat)
    requires 2 * k < n
    ensures Outside(n, k) + Members(Top(n, k)) + Members(Right(n, k))
            + Members(Bottom(n, k)) + Members(Left(n, k)) == Outside(n, k + 1)
  {
    forall r, c | (r, c) in Outside(n, k + 1) && (r, c) !in Outside(n, k)
      ensures (r, c) in Top(n, k) || (r, c) in Right(n, k) || (r, c) in Bottom(n, k) || (r, c) in Left(n, k)
    {
      if r == k {
        assert Top(n, k)[c - k] == (r, c);
      } else if c == n - k - 1 {
        assert Right(n, k)[r - k - 1] == (r, c);
      } else if r == n - k - 1 {
        assert Bottom(n, k)[n - k - 2 - c] == (r, c);
      } else {
        assert Left(n, k)[n - k - 1 - r] == (r, c);
      }
    }
  }

  /** One row down is a file row further, one column right a cell further. */
  lemma PosMoves(n: nat, w: nat, fw: int, r: int, c: int, dr: int, dc: int)
    requires fw == n * w + 1
    ensures Pos(n, w, r + dr, c + dc, 0) == Pos(n, w, r, c, 0) + dr * fw + dc * w
  {
    Distribute(r, dr, n * w + 1);
    Distribute(c, dc, w);
  }

  lemma TopIsLine(n: nat, w: nat, fw: int, k: nat)
    requires 2 * k < n && fw == n * w + 1
    ensures IsLine(n, w, Pos(n, w, k, k, 0), w, 1 + RingNumbers(n, k), Top(n, k))
  {
    forall i | 0 <= i < |Top(n, k)|
      ensures OnLine(n, w, Pos(n, w, k, k, 0), w, 1 + RingNumbers(n, k), Top(n, k)[i], i)
    {
      hide Pos;
      InsideRings(n, k, k, k + i);
      PosMoves(n, w, fw, k, k, 0, i);
    }
  }

  lemma RightIsLine(n: nat, w: nat, k: nat, len: int, fw: int)
    requires len == n - 2 * k >= 1 && fw == n * w + 1
    ensures IsLine(n, w, Pos(n, w, k, k, 0) + (len - 1) * w + fw, fw, 1 + RingNumbers(n, k) + len, Right(n, k))
  {
    forall i | 0 <= i < |Right(n, k)|
      ensures OnLine(n, w, Pos(n, w, k, k, 0) + (len - 1) * w + fw, fw, 1 + RingNumbers(n, k) + len, Right(n, k)[i], i)
    {
      hide Pos;
      InsideRings(n, k, k + 1 + i, n - k - 1);
      PosMoves(n, w, fw, k, k, 1 + i, len - 1);
      Distribute(1, i, fw);
    }
  }

  lemma BottomIsLine(n: nat, w: nat, k: nat, len: int, fw: int)
    requires len == n - 2 * k >= 1 && fw == n * w + 1
    ensures IsLine(n, w, Pos(n, w, k, k, 0) + (len - 2) * w + fw * (len - 1), 0 - w,
                   1 + RingNumbers(n, k) + len * 2 - 1, Bottom(n, k))
  {
    forall i | 0 <= i < |Bottom(n, k)|
      ensures OnLine(n, w, Pos(n, w, k, k, 0) + (len - 2) * w + fw * (len - 1), 0 - w,
                     1 + RingNumbers(n, k) + len * 2 - 1, Bottom(n, k)[i], i)
    {
      hide Pos;
      InsideRings(n, k, n - k - 1, n - k - 2 - i);
      PosMoves(n, w, fw, k, k, len - 1, len - 2 - i);
      assert (len - 2 - i) * w == (len - 2) * w + i * (0 - w) by {
        Distribute(len - 2, -i, w);
        Opposite(i, w);
      }
    }
  }

  lemma LeftIsLine(n: nat, w: nat, k: nat, len: int, fw: int)
    requires len == n - 2 * k >= 1 && fw == n * w + 1
    ensures IsLine(n, w, Pos(n, w, k, k, 0) + fw * (len - 1), 0 - fw, 1 + RingNumbers(n, k) + len * 3 - 3, Left(n, k))
  {
    forall i | 0 <= i < |Left(n, k)|
      ensures OnLine(n, w, Pos(n, w, k, k, 0) + fw * (len - 1), 0 - fw, 1 + RingNumbers(n, k) + len * 3 - 3, Left(n, k)[i], i)
    {
      hide Pos;
      InsideRings(n, k, n - k - 1 - i, k);
      PosMoves(n, w, fw, k, k, len - 1 - i, 0);
      assert (len - 1 - i) * fw == (len - 1) * fw + i * (0 - fw) by {
        Distribute(len - 1, -i, fw);
        Opposite(i, fw);
      }
    }
  }

  lemma Opposite(a: int, b: int)
    ensures (-a) * b == a * (0 - b)
  {
  }

  lemma NothingOutside(n: nat, w: nat)
    ensures Outside(n, 0) == {} && Pos(n, w, 0, 0, 0) == 0
  {
  }

  lemma AllOutside(n: nat, k: nat)
    requires n <= 2 * k
    ensures Outside(n, k) == Cells(n)
  {
  }

  // ---------------------------------------------------------------------------------------------
  // The text
  // ---------------------------------------------------------------------------------------------

  /** The number `v`, right-justified in `w` columns. */
  function Cell(w: nat, v: nat): string {
    var digits := Digits(v);
    seq(if |digits| <= w then w - |digits| else 0, i => ' ') + digits
  }

  /** The first `c` cells of row `r`. */
  function Row(n: nat, w: nat, r: nat, c: nat): string
    requires r < n && c <= n
  {
    if c == 0 then "" else Row(n, w, r, c - 1) + Cell(w, NumberAt(n, r, c - 1))
  }

  /** The first `r` rows of the spiral of side `n`, each ended by a newline. */
  function Rows(n: nat, w: nat, r: nat): string
    requires r <= n
  {
    if r == 0 then "" else Rows(n, w, r - 1) + Row(n, w, r - 1, n) + "\n"
  }

  /** A cell of the file holds the text of its number. */
  lemma ShowsCell(file: seq<char>, n: nat, w: nat, r: nat, c: nat)
    requires Shows(file, n, w, Cells(n)) && r < n && c < n && |Digits(Square(n))| <= w
    ensures 0 <= Pos(n, w, r, c, 0) <= Pos(n, w, r, c, 0) + w == Pos(n, w, r, c + 1, 0) <= |file|
    ensures file[Pos(n, w, r, c, 0)..Pos(n, w, r, c + 1, 0)] == Cell(w, NumberAt(n, r, c))
  {
    hide Digits, NumberAt;
    CellOfNumber(n, r, c);
    var v: nat := NumberAt(n, r, c);
    DigitsMonotone(v, Square(n));
    PosInside(n, w, r, c, 0);
    PosInside(n, w, r, c, w - 1);
    PosMoves(n, w, n * w + 1, r, c, 0, 1);
    var p := Pos(n, w, r, c, 0);
    assert |Cell(w, v)| == w;
    forall k: nat | k < w ensures file[p + k] == Cell(w, v)[k] {
      assert CellShows(file, n, w, Cells(n), r, c, k);
    }
  }

  lemma {:induction false} ShowsRow(file: seq<char>, n: nat, w: nat, r: nat, c: nat)
    requires Shows(file, n, w, Cells(n)) && r < n && c <= n && |Digits(Square(n))| <= w
    ensures 0 <= Pos(n, w, r, 0, 0) <= Pos(n, w, r, c, 0) <= |file|
    ensures file[Pos(n, w, r, 0, 0)..Pos(n, w, r, c, 0)] == Row(n, w, r, c)
  {
    hide Shows, Digits, Cell, NumberAt, Pos;
    if c == 0 {
      ShowsCell(file, n, w, r, 0);
    } else {
      ShowsRow(file, n, w, r, c - 1);
      ShowsCell(file, n, w, r, c - 1);
    }
  }

  /** A file that shows the whole spiral holds its text and nothing else. */
  lemma {:induction false} ShowsRows(file: seq<char>, n: nat, w: nat, r: nat)
    requires Shows(file, n, w, Cells(n)) && r <= n && |Digits(Square(n))| <= w
    ensures 0 <= Pos(n, w, r, 0, 0) <= |file| && file[..Pos(n, w, r, 0, 0)] == Rows(n, w, r)
    ensures r == n ==> file == Rows(n, w, n)
  {
    hide Digits, Row;
    if r > 0 {
      ShowsRows(file, n, w, r - 1);
      ShowsRow(file, n, w, r - 1, n);
      assert NewlineAt(file, n, w, r - 1);
      PosMoves(n, w, n * w + 1, r - 1, 0, 1, 0);
      var from, to := Pos(n, w, r - 1, 0, 0), Pos(n, w, r - 1, n, 0);
      assert file[..to + 1] == file[..from] + file[from..to] + [file[to]];
    }
  }

  // ---------------------------------------------------------------------------------------------
  // Cells that are too narrow
  // ---------------------------------------------------------------------------------------------

  /** A row takes at least `w` columns for each cell, and more if a numeral has no room in its cell. */
  lemma {:induction false} RowLength(n: nat, w: nat, r: nat, c: nat, wide: nat)
    requires r < n && c <= n && wide < n && |Digits(NumberAt(n, r, wide))| > w
    ensures |Row(n, w, r, c)| >= c * w + if c > wide then 1 else 0
  {
    hide Digits, NumberAt;
    if c > 0 {
      RowLength(n, w, r, c - 1, wide);
      Distribute(c - 1, 1, w);
    }
  }

  lemma {:induction false} RowAtLeast(n: nat, w: nat, r: nat, c: nat)
    requires r < n && c <= n
    ensures |Row(n, w, r, c)| >= c * w
  {
    hide Digits, NumberAt;
    if c > 0 {
      RowAtLeast(n, w, r, c - 1);
      Distribute(c - 1, 1, w);
    }
  }

  lemma {:induction false} RowsLength(n: nat, w: nat, r: nat, high: nat, wide: nat)
    requires r <= n && high < n && wide < n && |Digits(NumberAt(n, high, wide))| > w
    ensures |Rows(n, w, r)| >= r * (n * w + 1) + if r > high then 1 else 0
  {
    hide Digits, NumberAt, Row;
    if r > 0 {
      RowsLength(n, w, r - 1, high, wide);
      Distribute(r - 1, 1, n * w + 1);
      if r - 1 == high {
        RowLength(n, w, high, n, wide);
      } else {
        RowAtLeast(n, w, r - 1, n);
      }
    }
  }

  /** When some number has no room, the text of the spiral is longer than the file. */
  lemma TooNarrow(n: nat, w: nat)
    requires n >= 1 && !Wide(n, w)
    ensures |Rows(n, w, n)| > n * (n * w + 1)
  {
    hide Digits, NumberAt, CellOf, Rows;
    assert Square(n) >= 1 by { SideSquare(n); }
    NumberOfCell(n, Square(n));
    var cell := CellOf(n, Square(n));
    RowsLength(n, w, n, cell.0, cell.1);
  }

  /** `write_spiral`, with at least one column a cell: every write is inside the file, and the file ends
      up as the text of the spiral if and only if every number has room in its cell. */
  method WriteSpiral(file: array<char>, n: nat, w: nat)
    requires file.Length == n * (n * w + 1) && (n >= 1 ==> w >= 1)
    modifies file
    ensures n >= 1 ==> (file[..] == Rows(n, w, n) <==> |Digits(n * n)| <= w)
    ensures n == 0 ==> file[..] == Rows(n, w, n)
    ensures |Digits(n * n)| <= w ==> Laid(file[..], n, w)
  {
    hide Rows, ShowsIfWide, Wide, IsLine, Digits, NumberAt, Pos, Outside, Top, Right, Bottom, Left;
    Blank(file, n, w);
    StartBlank(file[..], n, w);
    var value := 1;
    var fileWidth := n * w + 1;
    var at := 0;
    var len: int := n;
    ghost var k: nat := 0;
    assert Outside(n, 0) == {} && Pos(n, w, 0, 0, 0) == 0 by { NothingOutside(n, w); }
    while len > 0
      invariant 2 * k <= n + 1 && len == n - 2 * k
      invariant value == 1 + RingNumbers(n, k) && at == Pos(n, w, k, k, 0)
      invariant ShowsIfWide(file[..], n, w, Outside(n, k))
      decreases len
    {
      TopIsLine(n, w, fileWidth, k);
      RightIsLine(n, w, k, len, fileWidth);
      BottomIsLine(n, w, k, len, fileWidth);
      LeftIsLine(n, w, k, len, fileWidth);
      ghost var done := Outside(n, k);
      WriteLine(file, at, w, w, len, value, n, done, Top(n, k));
      done := done + Members(Top(n, k));
      WriteLine(file, at + (len - 1) * w + fileWidth, fileWidth, w, len - 1, value + len, n, done, Right(n, k));
      done := done + Members(Right(n, k));
      WriteLine(file, at + (len - 2) * w + fileWidth * (len - 1), 0 - w, w, len - 1, value + len * 2 - 1, n, done, Bottom(n, k));
      done := done + Members(Bottom(n, k));
      WriteLine(file, at + fileWidth * (len - 1), 0 - fileWidth, w, len - 1, value + len * 3 - 3, n, done, Left(n, k));
      Ring(n, k);
      PosMoves(n, w, fileWidth, k, k, 1, 1);
      at := at + (fileWidth + w);
      value := value + (len * 4 - 4);
      len := len - 2;
      k := k + 1;
    }
    AllOutside(n, k);
    SpiralText(file[..], n, w);
  }

  /** Character by character: row `r` takes `n * w + 1` characters, the last one a newline, and column `c`
      of it `w` characters, the number right-justified in blanks. */
  ghost predicate Laid(file: seq<char>, n: nat, w: nat) {
    && |file| == n * (n * w + 1)
    && (forall r: nat :: r < n ==> EndsRow(file, n, w, r))
    && forall r: nat, c: nat, k: nat :: r < n && c < n && k < w ==> Holds(file, n, w, r, c, k)
  }

  ghost predicate EndsRow(file: seq<char>, n: nat, w: nat, r: nat) {
    var at := r * (n * w + 1) + n * w;
    0 <= at < |file| && file[at] == '\n'
  }

  ghost predicate Holds(file: seq<char>, n: nat, w: nat, r: nat, c: nat, k: nat)
    requires r < n && c < n && k < w
  {
    var at, digits := r * (n * w + 1) + c * w + k, Digits(NumberAt(n, r, c));
    && 0 <= at < |file| && |digits| <= w
    && file[at] == if k < w - |digits| then ' ' else digits[k - (w - |digits|)]
  }

  lemma ShowsLaid(file: seq<char>, n: nat, w: nat)
    requires Shows(file, n, w, Cells(n)) && Wide(n, w)
    ensures Laid(file, n, w)
  {
    hide Digits, NumberAt, Square;
    forall r: nat, c: nat, k: nat | r < n && c < n && k < w ensures Holds(file, n, w, r, c, k) {
      assert CellShows(file, n, w, Cells(n), r, c, k);
      CellOfNumber(n, r, c);
      DigitsMonotone(NumberAt(n, r, c), Square(n));
    }
    forall r: nat | r < n ensures EndsRow(file, n, w, r) {
      assert NewlineAt(file, n, w, r);
    }
  }

  lemma StartBlank(file: seq<char>, n: nat, w: nat)
    requires Shows(file, n, w, {})
    ensures ShowsIfWide(file, n, w, {})
  {
  }

  lemma SpiralText(file: seq<char>, n: nat, w: nat)
    requires ShowsIfWide(file, n, w, Cells(n))
    ensures n >= 1 ==> (file == Rows(n, w, n) <==> |Digits(n * n)| <= w)
    ensures n == 0 ==> file == Rows(n, w, n)
    ensures |Digits(n * n)| <= w ==> Laid(file, n, w)
  {
    hide Rows, Digits, Shows, Laid;
    SquareIs(n);
    if Wide(n, w) {
      ShowsLaid(file, n, w);
      ShowsRows(file, n, w, n);
    } else if n >= 1 {
      TooNarrow(n, w);
    } else {
      NothingToWrite(w);
    }
  }

  lemma NothingToWrite(w: nat)
    ensures Rows(0, w, 0) == ""
  {
  }
}
