/** One concrete solved diagonal grid, given by a formula on the coordinates so that its rules
    can be proved without listing the 81 digits.  Writing a row as 3a + b and a column as
    3x + y (a, b, x, y in 0..2), the cell holds digit number 3((b + x) mod 3) + (a + b + y) mod 3.
    A1 holds 1, A2 holds 2 and G2 holds 1, which is what the early-stop board needs. */
module SampleGrid {
  import opened Units
  import opened Boards
  import opened Reduction

  function Mod3(n: nat): nat
    requires n < 9
  {
    if n >= 6 then n - 6 else if n >= 3 then n - 3 else n
  }

  /** The band (block of three rows or columns) a coordinate lies in. */
  function Band(n: nat): nat
  {
    if n < 3 then 0 else if n < 6 then 1 else 2
  }

  lemma BandDiv(n: nat)
    requires n < 9
    ensures Band(n) == n / 3
  {
  }

  /** Four coordinates below 3: a band and an offset for a row and for a column. */
  predicate Small(a: nat, b: nat, x: nat, y: nat)
  {
    a < 3 && b < 3 && x < 3 && y < 3
  }

  function Code(a: nat, b: nat, x: nat, y: nat): nat
    requires Small(a, b, x, y)
  {
    3 * Mod3(b + x) + Mod3(a + b + y)
  }

  /** The position, in "123456789", of the digit the sample grid puts in cell c. */
  function SampleIndex(c: Cell): nat
  {
    Code(Band(c.row), c.row - 3 * Band(c.row), Band(c.col), c.col - 3 * Band(c.col))
  }

  /** The digit at position n of "123456789". */
  function DigitChar(n: nat): char
    requires n < 9
  {
    (n + '1' as int) as char
  }

  lemma DigitCharIsDigit(n: nat)
    requires n < 9
    ensures DigitChar(n) in Digits()
  {
    assert Digits()[n] == DigitChar(n);
  }

  function SampleSolution(): Solution
  {
    map c | c in AllCells() :: DigitChar(SampleIndex(c))
  }

  /** The coordinates of c split into band and offset. */
  lemma SampleCoordinates(c: Cell) returns (a: nat, b: nat, x: nat, y: nat)
    ensures Small(a, b, x, y)
    ensures c.row == 3 * a + b && c.col == 3 * x + y && a == Band(c.row) && x == Band(c.col)
    ensures SampleIndex(c) == Code(a, b, x, y)
  {
    a, x := Band(c.row), Band(c.col);
    b, y := c.row - 3 * a, c.col - 3 * x;
  }

  /** The same split, related to the division Aligned uses. */
  lemma SampleBands(c: Cell) returns (a: nat, b: nat, x: nat, y: nat)
    ensures Small(a, b, x, y)
    ensures c.row == 3 * a + b && c.col == 3 * x + y && a == c.row / 3 && x == c.col / 3
    ensures SampleIndex(c) == Code(a, b, x, y)
  {
    a, b, x, y := SampleCoordinates(c);
    BandDiv(c.row);
    BandDiv(c.col);
  }

  /** Codes whose high or low parts differ are different. */
  lemma CodeDiffers(a: nat, b: nat, x: nat, y: nat, a': nat, b': nat, x': nat, y': nat)
    requires Small(a, b, x, y) && Small(a', b', x', y')
    requires Mod3(b + x) != Mod3(b' + x') || Mod3(a + b + y) != Mod3(a' + b' + y')
    ensures Code(a, b, x, y) != Code(a', b', x', y')
  {
  }

  lemma Mod3Distinct(u: nat, v: nat, w: nat)
    requires u < 6 && v < 3 && w < 3 && v != w
    ensures Mod3(u + v) != Mod3(u + w)
  {
  }

  lemma DiagonalDistinct(a: nat, b: nat, a': nat, b': nat)
    requires a < 3 && b < 3 && a' < 3 && b' < 3 && (a != a' || b != b')
    ensures Mod3(b + a) != Mod3(b' + a') || Mod3(a + b + b) != Mod3(a' + b' + b')
  {
  }

  /** Two different cells of a row get different codes. */
  lemma RowCodes(a: nat, b: nat, x: nat, y: nat, a': nat, b': nat, x': nat, y': nat)
    requires Small(a, b, x, y) && Small(a', b', x', y')
    requires a == a' && b == b' && (x != x' || y != y')
    ensures Code(a, b, x, y) != Code(a', b', x', y')
  {
    if x != x' {
      Mod3Distinct(b, x, x');
    } else {
      Mod3Distinct(a + b, y, y');
    }
    CodeDiffers(a, b, x, y, a', b', x', y');
  }

  /** Two different cells of a column get different codes. */
  lemma ColumnCodes(a: nat, b: nat, x: nat, y: nat, a': nat, b': nat, x': nat, y': nat)
    requires Small(a, b, x, y) && Small(a', b', x', y')
    requires x == x' && y == y' && (a != a' || b != b')
    ensures Code(a, b, x, y) != Code(a', b', x', y')
  {
    if b != b' {
      Mod3Distinct(x, b, b');
      assert Mod3(b + x) != Mod3(b' + x');
    } else {
      Mod3Distinct(b + y, a, a');
      assert a + b + y == b + y + a && a' + b' + y' == b + y + a';
    }
    CodeDiffers(a, b, x, y, a', b', x', y');
  }

  /** Two different cells of a square that are not in one row get different codes. */
  lemma SquareCodes(a: nat, b: nat, x: nat, y: nat, a': nat, b': nat, x': nat, y': nat)
    requires Small(a, b, x, y) && Small(a', b', x', y')
    requires a == a' && x == x' && b != b'
    ensures Code(a, b, x, y) != Code(a', b', x', y')
  {
    Mod3Distinct(x, b, b');
    assert Mod3(b + x) != Mod3(b' + x');
    CodeDiffers(a, b, x, y, a', b', x', y');
  }

  /** Two different cells of the diagonal A1..I9 get different codes. */
  lemma DiagonalCodes(a: nat, b: nat, x: nat, y: nat, a': nat, b': nat, x': nat, y': nat)
    requires Small(a, b, x, y) && Small(a', b', x', y')
    requires a == x && b == y && a' == x' && b' == y' && (a != a' || b != b')
    ensures Code(a, b, x, y) != Code(a', b', x', y')
  {
    DiagonalDistinct(a, b, a', b');
    CodeDiffers(a, b, x, y, a', b', x', y');
  }

  /** Two cells of the diagonal A9..I1 in different bands get different codes. */
  lemma AntiDiagonalCodes(a: nat, b: nat, x: nat, y: nat, a': nat, b': nat, x': nat, y': nat)
    requires Small(a, b, x, y) && Small(a', b', x', y')
    requires x == 2 - a && y == 2 - b && x' == 2 - a' && y' == 2 - b' && a != a'
    ensures Code(a, b, x, y) != Code(a', b', x', y')
  {
    Mod3Distinct(2, a, a');
    assert a + b + y == 2 + a && a' + b' + y' == 2 + a';
    CodeDiffers(a, b, x, y, a', b', x', y');
  }

  /** Two different cells sharing a row, a column, a square or a diagonal get different codes. */
  lemma SampleIndexAligned(c: Cell, p: Cell)
    requires Aligned(c, p)
    ensures SampleIndex(c) != SampleIndex(p)
  {
    var a, b, x, y := SampleBands(c);
    var a', b', x', y' := SampleBands(p);
    if a == a' && b == b' {
      RowCodes(a, b, x, y, a', b', x', y');
    } else if x == x' && y == y' {
      ColumnCodes(a, b, x, y, a', b', x', y');
    } else if a == a' && x == x' {
      SquareCodes(a, b, x, y, a', b', x', y');
    } else if p.row == p.col && c.row == c.col {
      DiagonalCodes(a, b, x, y, a', b', x', y');
    } else {
      AntiDiagonalCodes(a, b, x, y, a', b', x', y');
    }
  }

  lemma SampleAt(c: Cell)
    ensures c in SampleSolution() && SampleIndex(c) < 9
    ensures SampleSolution()[c] == DigitChar(SampleIndex(c))
  {
    AllCellsComplete(c);
  }

  /** The sample grid is a solved diagonal Sudoku. */
  lemma SampleIsSolution()
    ensures IsSolution(SampleSolution())
  {
    var s := SampleSolution();
    forall c: Cell ensures c in s && s[c] in Digits() {
      SampleAt(c);
      DigitCharIsDigit(SampleIndex(c));
    }
    forall c, p | p in Peers(c) ensures s[c] != s[p] {
      PeersByPosition(c, p);
      SampleIndexAligned(c, p);
      SampleAt(c);
      SampleAt(p);
    }
    forall k | 0 <= k < |UnitList()| ensures AllDifferent(s, UnitList()[k]) && AllDigits(s, UnitList()[k]) {
      UnitOfPeersDiffering(s, k);
    }
  }

  /** The cell c holds the digit of code n. */
  lemma SampleCell(c: Cell, n: nat)
    requires SampleIndex(c) == n
    ensures c in SampleSolution() && n < 9 && SampleSolution()[c] == DigitChar(n)
  {
    SampleAt(c);
  }

  /** The codes of A1, A2 and G2. */
  lemma SampleIndexA1(c: Cell)
    requires c == Cell(0, 0)
    ensures SampleIndex(c) == 0
  {
    var a, b, x, y := SampleCoordinates(c);
  }

  lemma SampleIndexA2(c: Cell)
    requires c == Cell(0, 1)
    ensures SampleIndex(c) == 1
  {
    var a, b, x, y := SampleCoordinates(c);
  }

  lemma SampleIndexG2(c: Cell)
    requires c == Cell(6, 1)
    ensures SampleIndex(c) == 0
  {
    var a, b, x, y := SampleCoordinates(c);
  }

  /** A1 holds 1. */
  lemma SampleA1(c: Cell)
    requires c == Cell(0, 0)
    ensures c in SampleSolution() && SampleSolution()[c] == '1'
  {
    var n := SampleIndex(c);
    SampleIndexA1(c);
    SampleCell(c, n);
    assert DigitChar(n) == '1';
  }

  /** A2 holds 2. */
  lemma SampleA2(c: Cell)
    requires c == Cell(0, 1)
    ensures c in SampleSolution() && SampleSolution()[c] == '2'
  {
    var n := SampleIndex(c);
    SampleIndexA2(c);
    SampleCell(c, n);
    assert DigitChar(n) == '2';
  }

  /** G2 holds 1. */
  lemma SampleG2(c: Cell)
    requires c == Cell(6, 1)
    ensures c in SampleSolution() && SampleSolution()[c] == '1'
  {
    var n := SampleIndex(c);
    SampleIndexG2(c);
    SampleCell(c, n);
    assert DigitChar(n) == '1';
  }
}
