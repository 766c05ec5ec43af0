/** The board (`values`): a map from each cell to the string of its remaining candidate
    digits, and the vocabulary the propagation rules are stated in. */
module Boards {
  import opened Units

  type Board = map<Cell, string>

  /** The digits, in the order only_choice tries them and grid2values lists them. */
  function Digits(): string { "123456789" }

  /** The board has an entry for every one of the 81 cells. */
  ghost predicate IsBoard(values: Board)
  {
    forall c: Cell :: c in values
  }

  /** Python's `s.replace(t, '')`: every non-overlapping occurrence of t, scanned from the
      left, is deleted; an empty t leaves s as it is. */
  function Replace(s: string, t: string): string
    decreases |s|
  {
    if |t| == 0 || |s| < |t| then s
    else if s[..|t|] == t then Replace(s[|t|..], t)
    else [s[0]] + Replace(s[1..], t)
  }

  /** Deleting never adds a character and never makes a string longer. */
  lemma {:induction false} ReplaceShrinks(s: string, t: string)
    ensures |Replace(s, t)| <= |s|
    ensures forall ch :: ch in Replace(s, t) ==> ch in s
    decreases |s|
  {
    if |t| == 0 || |s| < |t| {
    } else if s[..|t|] == t {
      ReplaceShrinks(s[|t|..], t);
    } else {
      ReplaceShrinks(s[1..], t);
    }
  }

  /** Replacing a one-character string removes exactly that character. */
  lemma {:induction false} ReplaceDigit(s: string, d: char)
    ensures forall ch :: ch in Replace(s, [d]) <==> ch in s && ch != d
    decreases |s|
  {
    if |s| == 0 {
    } else if s[..1] == [d] {
      ReplaceDigit(s[1..], d);
      assert s == [d] + s[1..];
    } else {
      ReplaceDigit(s[1..], d);
      assert s == [s[0]] + s[1..];
    }
  }

  /** Replacing a character the string does not hold changes nothing. */
  lemma {:induction false} ReplaceAbsent(s: string, d: char)
    requires d !in s
    ensures Replace(s, [d]) == s
    decreases |s|
  {
    if |s| > 0 {
      assert s[0] != d;
      assert s[..1] != [d];
      ReplaceAbsent(s[1..], d);
      assert s == [s[0]] + s[1..];
    }
  }

  /** s lists no more candidates than t, all of them candidates of t. */
  predicate Within(s: string, t: string)
  {
    |s| <= |t| && forall ch :: ch in s ==> ch in t
  }

  /** `after` is `before` with candidates only taken away: the same cells, each one narrowed. */
  predicate Narrower(after: Board, before: Board)
  {
    after.Keys == before.Keys && forall c :: c in after ==> Within(after[c], before[c])
  }

  lemma NarrowerTransitive(a: Board, b: Board, c: Board)
    requires Narrower(a, b) && Narrower(b, c)
    ensures Narrower(a, c)
  {
  }

  /** The list comprehension `[box for box in cells if len(values[box]) == n]`. */
  function CellsOfLength(values: Board, n: nat, cells: seq<Cell>): (r: seq<Cell>)
    requires IsBoard(values)
    ensures forall c :: c in r <==> c in cells && |values[c]| == n
    ensures |r| <= |cells|
    ensures |r| == |cells| <==> forall c :: c in cells ==> |values[c]| == n
  {
    if cells == [] then []
    else if |values[cells[0]]| == n then [cells[0]] + CellsOfLength(values, n, cells[1..])
    else
      assert cells[0] in cells && |values[cells[0]]| != n;
      CellsOfLength(values, n, cells[1..])
  }

  /** No cell is listed exactly when no cell has the length asked for. */
  lemma {:induction false} CellsOfLengthNone(values: Board, n: nat, cells: seq<Cell>)
    requires IsBoard(values)
    ensures |CellsOfLength(values, n, cells)| == 0 <==> forall c :: c in cells ==> |values[c]| != n
  {
    if cells != [] {
      CellsOfLengthNone(values, n, cells[1..]);
      assert cells == [cells[0]] + cells[1..];
    }
  }

  /** The cells holding exactly one candidate, in the order of the board's keys. */
  function SolvedCells(values: Board): seq<Cell>
    requires IsBoard(values)
  {
    CellsOfLength(values, 1, AllCells())
  }

  /** `len([box for box in values.keys() if len(values[box]) == 1])` */
  function SolvedCount(values: Board): nat
    requires IsBoard(values)
  {
    |SolvedCells(values)|
  }

  /** No cell has run out of candidates. */
  predicate NoEmptyCell(values: Board)
  {
    forall c :: c in values ==> |values[c]| > 0
  }

  /** Every cell holds a single candidate. */
  predicate AllSolved(values: Board)
  {
    forall c :: c in values ==> |values[c]| == 1
  }

  /** 81 solved cells means every cell is solved. */
  lemma SolvedCountAll(values: Board)
    requires IsBoard(values)
    ensures SolvedCount(values) <= 81
    ensures SolvedCount(values) == 81 <==> AllSolved(values)
  {
    forall c: Cell ensures c in AllCells() { AllCellsComplete(c); }
  }

  /** If no cell became empty, narrowing cannot unsolve a cell: the solved count never drops. */
  lemma {:induction false} SolvedCountMonotone(after: Board, before: Board, cells: seq<Cell>)
    requires IsBoard(before) && IsBoard(after)
    requires Narrower(after, before) && NoEmptyCell(after)
    ensures |CellsOfLength(before, 1, cells)| <= |CellsOfLength(after, 1, cells)|
  {
    if cells != [] {
      SolvedCountMonotone(after, before, cells[1..]);
    }
  }

  /** A complete assignment of digits to cells. */
  type Solution = map<Cell, char>

  /** The cells of u hold pairwise different digits. */
  predicate AllDifferent(s: Solution, u: seq<Cell>)
    requires forall c :: c in u ==> c in s
  {
    forall i, j :: 0 <= i < j < |u| ==> s[u[i]] != s[u[j]]
  }

  /** Every digit occurs somewhere in u. */
  predicate AllDigits(s: Solution, u: seq<Cell>)
    requires forall c :: c in u ==> c in s
  {
    forall d :: d in Digits() ==> exists i :: 0 <= i < |u| && s[u[i]] == d
  }

  /** A solved diagonal Sudoku: every cell holds a digit, and every unit of the unit list
      (rows, columns, squares and both diagonals) holds each digit exactly once. */
  ghost predicate IsSolution(s: Solution)
  {
    (forall c: Cell :: c in s && s[c] in Digits()) &&
    forall k :: 0 <= k < |UnitList()| ==> AllDifferent(s, UnitList()[k]) && AllDigits(s, UnitList()[k])
  }

  /** The solution s is still allowed by the board: every cell lists s's digit as a candidate. */
  predicate Consistent(values: Board, s: Solution)
  {
    forall c :: c in values ==> c in s && s[c] in values[c]
  }

  /** In a solution, peers hold different digits. */
  lemma SolutionPeersDiffer(s: Solution, c: Cell, p: Cell)
    requires IsSolution(s) && p in Peers(c)
    ensures s[c] != s[p]
  {
    PeersShareUnit(c, p);
    var k :| 0 <= k < |UnitList()| && c in UnitList()[k] && p in UnitList()[k];
    var u := UnitList()[k];
    var i :| 0 <= i < |u| && u[i] == c;
    var j :| 0 <= j < |u| && u[j] == p;
    assert AllDifferent(s, u);
    assert i != j;
  }

  /** Two different cells of a unit whose digits are all different hold different digits. */
  lemma UnitCellsDiffer(s: Solution, u: seq<Cell>, a: Cell, b: Cell)
    requires (forall c :: c in u ==> c in s) && AllDifferent(s, u)
    requires a in u && b in u && a != b
    ensures s[a] != s[b]
  {
    var i :| 0 <= i < |u| && u[i] == a;
    var j :| 0 <= j < |u| && u[j] == b;
    if i > j {
      assert s[u[j]] != s[u[i]];
    }
  }

  /** A board that still allows some solution has no empty cell. */
  lemma ConsistentNoEmpty(values: Board, s: Solution)
    requires Consistent(values, s)
    ensures NoEmptyCell(values)
  {
    forall c | c in values ensures |values[c]| > 0 {
      assert s[c] in values[c];
    }
  }
}
