/** The fixed geometry of a diagonal Sudoku: the 81 cells, the 29 units and the peers
    of each cell (solution.py, lines 8-16).  A cell name such as 'C7' is the pair
    (row, column) = (2, 6); the lexicographic order of names is the order of these pairs. */
module Units {

  type Index = i: int | 0 <= i < 9

  datatype Cell = Cell(row: Index, col: Index)

  /** `boxes`: every cell, in row-major order ('A1', 'A2', ..., 'I9'). */
  function AllCells(): seq<Cell> {
    seq(81, k requires 0 <= k < 81 => Cell(k / 9, k % 9))
  }

  function RowUnits(): seq<seq<Cell>> {
    seq(9, r requires 0 <= r < 9 => seq(9, c requires 0 <= c < 9 => Cell(r, c)))
  }

  function ColumnUnits(): seq<seq<Cell>> {
    seq(9, c requires 0 <= c < 9 => seq(9, r requires 0 <= r < 9 => Cell(r, c)))
  }

  /** The 3x3 squares, band by band ('ABC', 'DEF', 'GHI') and stack by stack, each in row-major order. */
  function SquareUnits(): seq<seq<Cell>> {
    seq(9, b requires 0 <= b < 9 =>
      seq(9, k requires 0 <= k < 9 => Cell(3 * (b / 3) + k / 3, 3 * (b % 3) + k % 3)))
  }

  /** 'A1', 'B2', ..., 'I9' and 'A9', 'B8', ..., 'I1'. */
  function DiagonalUnits(): seq<seq<Cell>> {
    [seq(9, i requires 0 <= i < 9 => Cell(i, i)), seq(9, i requires 0 <= i < 9 => Cell(i, 8 - i))]
  }

  function UnitList(): seq<seq<Cell>> {
    RowUnits() + ColumnUnits() + SquareUnits() + DiagonalUnits()
  }

  /** Which unit k is, stated on coordinates: rows 0-8, columns 9-17, squares 18-26, diagonals 27-28. */
  predicate InUnit(k: nat, c: Cell)
  {
    if k < 9 then c.row == k
    else if k < 18 then c.col == k - 9
    else if k < 27 then c.row / 3 == (k - 18) / 3 && c.col / 3 == (k - 18) % 3
    else if k == 27 then c.row == c.col
    else k == 28 && c.row + c.col == 8
  }

  /** Every cell of the grid appears in the cell order exactly once. */
  lemma AllCellsComplete(c: Cell)
    ensures |AllCells()| == 81
    ensures AllCells()[9 * c.row + c.col] == c
    ensures c in AllCells()
    ensures forall i, j :: 0 <= i < j < 81 ==> AllCells()[i] != AllCells()[j]
  {
    assert AllCells()[9 * c.row + c.col] == c;
  }

  /** The i-th cell of unit k, computed from the coordinates. */
  function UnitCell(k: nat, i: Index): Cell
    requires k < 29
  {
    if k < 9 then Cell(k, i)
    else if k < 18 then Cell(i, k - 9)
    else if k < 27 then Cell(3 * ((k - 18) / 3) + i / 3, 3 * ((k - 18) % 3) + i % 3)
    else if k == 27 then Cell(i, i)
    else Cell(i, 8 - i)
  }

  /** The unit list has 29 units of nine cells each, laid out as UnitCell says. */
  lemma UnitListAt(k: nat)
    requires k < 29
    ensures |UnitList()| == 29 && |UnitList()[k]| == 9
    ensures forall i: Index :: UnitList()[k][i] == UnitCell(k, i)
  {
    var rows, cols, squares, diagonals := RowUnits(), ColumnUnits(), SquareUnits(), DiagonalUnits();
    assert UnitList() == rows + cols + squares + diagonals;
    if k < 9 {
      assert UnitList()[k] == rows[k];
    } else if k < 18 {
      assert UnitList()[k] == cols[k - 9];
    } else if k < 27 {
      assert UnitList()[k] == squares[k - 18];
    } else {
      assert UnitList()[k] == diagonals[k - 27];
    }
  }

  /** The nine cells of a unit are distinct. */
  lemma UnitCellsDistinct(k: nat, i: Index, j: Index)
    requires k < 29 && i != j
    ensures UnitCell(k, i) != UnitCell(k, j)
  {
    if 18 <= k < 27 {
      assert 3 * (i / 3) + i % 3 == i && 3 * (j / 3) + j % 3 == j;
    }
  }

  /** The position in square b of a cell of that square. */
  lemma SquarePosition(b: nat, c: Cell)
    requires b < 9 && c.row / 3 == b / 3 && c.col / 3 == b % 3
    ensures UnitCell(18 + b, 3 * (c.row % 3) + c.col % 3) == c
  {
    var i := 3 * (c.row % 3) + c.col % 3;
    assert i / 3 == c.row % 3 && i % 3 == c.col % 3;
  }

  /** Every position of unit k holds a cell InUnit(k, _) describes. */
  lemma UnitCellInUnit(k: nat, i: Index)
    requires k < 29
    ensures InUnit(k, UnitCell(k, i))
  {
    if 18 <= k < 27 {
      var b := k - 18;
      assert (3 * (b / 3) + i / 3) / 3 == b / 3 && (3 * (b % 3) + i % 3) / 3 == b % 3;
    }
  }

  /** A cell InUnit(k, _) describes sits at some position of unit k. */
  lemma InUnitPosition(k: nat, c: Cell) returns (i: Index)
    requires k < 29 && InUnit(k, c)
    ensures UnitCell(k, i) == c
  {
    if k < 9 {
      i := c.col;
    } else if k < 18 {
      i := c.row;
    } else if k < 27 {
      i := 3 * (c.row % 3) + c.col % 3;
      SquarePosition(k - 18, c);
    } else {
      i := c.row;
    }
  }

  /** Unit k is exactly the set of cells that InUnit(k, _) describes. */
  lemma UnitMembers(k: nat, c: Cell)
    requires k < 29
    ensures c in UnitList()[k] <==> InUnit(k, c)
  {
    UnitListAt(k);
    var u := UnitList()[k];
    if c in u {
      var i :| 0 <= i < 9 && u[i] == c;
      UnitCellInUnit(k, i);
    }
    if InUnit(k, c) {
      var i := InUnitPosition(k, c);
      assert u[i] == c;
    }
  }

  /** The unit list has 29 units of nine distinct cells each. */
  lemma UnitListShape(k: nat)
    requires k < 29
    ensures |UnitList()| == 29 && |UnitList()[k]| == 9
    ensures forall i, j :: 0 <= i < j < 9 ==> UnitList()[k][i] != UnitList()[k][j]
  {
    UnitListAt(k);
    forall i, j | 0 <= i < j < 9 ensures UnitList()[k][i] != UnitList()[k][j] {
      UnitCellsDistinct(k, i, j);
    }
  }

  /** Two distinct cells share a unit. */
  predicate SharesUnit(c: Cell, p: Cell)
  {
    exists k :: 0 <= k < |UnitList()| && c in UnitList()[k] && p in UnitList()[k]
  }

  /** `peers[c]`: the other cells of every unit that contains c. */
  function Peers(c: Cell): set<Cell>
  {
    set k, i | 0 <= k < |UnitList()| && 0 <= i < |UnitList()[k]| && c in UnitList()[k] && UnitList()[k][i] != c
      :: UnitList()[k][i]
  }

  /** A peer is a different cell that shares a unit with c. */
  lemma PeersShareUnit(c: Cell, p: Cell)
    ensures p in Peers(c) <==> p != c && SharesUnit(c, p)
  {
    if p != c && SharesUnit(c, p) {
      var k :| 0 <= k < |UnitList()| && c in UnitList()[k] && p in UnitList()[k];
      var i :| 0 <= i < |UnitList()[k]| && UnitList()[k][i] == p;
      assert p in Peers(c);
    }
  }

  /** Two different cells share a row, a column, a 3x3 square or a diagonal. */
  predicate Aligned(c: Cell, p: Cell)
  {
    p != c &&
    (p.row == c.row || p.col == c.col ||
     (p.row / 3 == c.row / 3 && p.col / 3 == c.col / 3) ||
     (p.row == p.col && c.row == c.col) ||
     (p.row + p.col == 8 && c.row + c.col == 8))
  }

  /** A unit that holds two aligned cells. */
  lemma AlignedUnit(c: Cell, p: Cell) returns (k: nat)
    requires Aligned(c, p)
    ensures k < |UnitList()| && c in UnitList()[k] && p in UnitList()[k]
  {
    if p.row == c.row { k := c.row; }
    else if p.col == c.col { k := 9 + c.col; }
    else if p.row / 3 == c.row / 3 && p.col / 3 == c.col / 3 { k := 18 + 3 * (c.row / 3) + c.col / 3; }
    else if p.row == p.col && c.row == c.col { k := 27; }
    else { k := 28; }
    UnitListAt(k);
    UnitMembers(k, c);
    UnitMembers(k, p);
  }

  /** The peers of a cell, stated on coordinates: same row, same column, same 3x3 square,
      or both on the same diagonal. */
  lemma PeersByPosition(c: Cell, p: Cell)
    ensures p in Peers(c) <==> Aligned(c, p)
  {
    PeersShareUnit(c, p);
    if SharesUnit(c, p) {
      var k :| 0 <= k < |UnitList()| && c in UnitList()[k] && p in UnitList()[k];
      UnitMembers(k, c);
      UnitMembers(k, p);
      assert p != c ==> Aligned(c, p);
    }
    if Aligned(c, p) {
      var k := AlignedUnit(c, p);
    }
  }

  /** Being peers is symmetric and irreflexive. */
  lemma PeersSymmetric(c: Cell, p: Cell)
    ensures p in Peers(c) <==> c in Peers(p)
    ensures c !in Peers(c)
  {
    PeersShareUnit(c, p);
    PeersShareUnit(p, c);
    PeersShareUnit(c, c);
  }
}
