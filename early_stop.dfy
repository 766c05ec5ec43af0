/** The early stop of reduce_puzzle (solution.py, lines 146-147): the loop ends as soon as a pass
    leaves 81 solved cells.  Cells that become solved during one eliminate pass have not yet
    been propagated to their peers, so such a pass can end with two peers holding the same
    digit; that board is then returned as if it were solved.  This module builds such a board
    from any solved grid, and from the sample grid in particular. */
module EarlyStop {
  import opened Units
  import opened Boards
  import opened EliminateRule
  import opened OnlyChoiceRule
  import opened Reduction
  import opened SampleGrid

  /** The solution g with three cells reopened to the candidates "13": A1, A2 and w. */
  function ThreeOpen(g: Solution, w: Cell): (r: Board)
    requires IsSolution(g)
    ensures IsBoard(r)
    ensures forall c :: c in r ==> r[c] == if c == Cell(0, 0) || c == Cell(0, 1) || c == w then "13" else [g[c]]
  {
    map c | c in g :: if c == Cell(0, 0) || c == Cell(0, 1) || c == w then "13" else [g[c]]
  }

  /** g is a solution with 1 in A1 and 2 in A2, and w is the cell of column 2 holding 1. */
  ghost predicate Reopenable(g: Solution, w: Cell)
  {
    IsSolution(g) && g[Cell(0, 0)] == '1' && g[Cell(0, 1)] == '2' && w.col == 1 && g[w] == '1'
  }

  /** A string in which no character occurs twice. */
  predicate NoRepeats(s: string)
  {
    forall i, j :: 0 <= i < j < |s| ==> s[i] != s[j]
  }

  lemma {:induction false} ReplaceNoRepeats(s: string, t: string)
    requires NoRepeats(s)
    ensures NoRepeats(Replace(s, t))
    decreases |s|
  {
    if |t| == 0 || |s| < |t| {
    } else if s[..|t|] == t {
      ReplaceNoRepeats(s[|t|..], t);
    } else {
      var rest := Replace(s[1..], t);
      ReplaceNoRepeats(s[1..], t);
      ReplaceShrinks(s[1..], t);
      assert s[0] !in s[1..];
      var r := [s[0]] + rest;
      forall i, j | 0 <= i < j < |r| ensures r[i] != r[j] {
        if i == 0 {
          assert r[j] == rest[j - 1] && rest[j - 1] in rest;
        } else {
          assert r[i] == rest[i - 1] && r[j] == rest[j - 1];
        }
      }
    }
  }

  /** eliminate never makes a candidate occur twice in a cell. */
  lemma {:induction false} EliminateAllNoRepeats(values: Board, boxes: seq<Cell>, c: Cell)
    requires IsBoard(values) && NoRepeats(values[c])
    ensures NoRepeats(EliminateAll(values, boxes)[c])
    decreases |boxes|
  {
    if boxes != [] {
      var before := EliminateAll(values, boxes[..|boxes| - 1]);
      EliminateAllNoRepeats(values, boxes[..|boxes| - 1], c);
      ReplaceNoRepeats(before[c], before[boxes[|boxes| - 1]]);
    }
  }

  lemma FirstTwo(s: string)
    requires |s| > 1
    ensures s[0] in s && s[1] in s
  {
  }

  /** A string without repetitions that holds '1' and nothing else is "1". */
  lemma JustOne(s: string)
    requires NoRepeats(s) && '1' in s && forall ch :: ch in s ==> ch == '1'
    ensures s == "1"
  {
    if |s| > 1 {
      FirstTwo(s);
    }
  }

  /** What is left of "13" once 3 is gone, with 1 kept and nothing repeated, is "1". */
  lemma NarrowedToOne(s: string)
    requires Within(s, "13") && '1' in s && '3' !in s && NoRepeats(s)
    ensures s == "1"
  {
    forall ch | ch in s ensures ch == '1' {
      assert ch in "13";
    }
    JustOne(s);
  }

  /** Every peer of A2 holding 1 in g is A1 or w, or a peer of one of them. */
  lemma OnesNearA2(g: Solution, w: Cell, p: Cell)
    requires IsSolution(g) && w.col == 1 && p in Peers(Cell(0, 1))
    ensures p == Cell(0, 0) || p == w || p in Peers(Cell(0, 0)) || p in Peers(w)
  {
    PeersByPosition(Cell(0, 1), p);
    PeersByPosition(Cell(0, 0), p);
    PeersByPosition(w, p);
  }

  /** The cell of row `row` that holds digit d in g. */
  lemma DigitInRow(g: Solution, row: Index, d: char) returns (p: Cell)
    requires IsSolution(g) && d in Digits()
    ensures p.row == row && g[p] == d
  {
    UnitListAt(row);
    assert AllDigits(g, UnitList()[row]);
    var i :| 0 <= i < 9 && g[UnitList()[row][i]] == d;
    p := UnitList()[row][i];
  }

  /** eliminate on ThreeOpen(g, w): every cell solved on entry keeps its digit. */
  lemma SolvedCellsKept(g: Solution, w: Cell, c: Cell)
    requires Reopenable(g, w)
    requires c != Cell(0, 0) && c != Cell(0, 1) && c != w
    ensures Eliminated(ThreeOpen(g, w))[c] == [g[c]]
  {
    var values := ThreeOpen(g, w);
    var solved := SolvedCells(values);
    forall b | b in solved ensures |values[b]| <= 1 {
    }
    forall b | b in solved && c in Peers(b) ensures values[b] != [g[c]] {
      PeersSymmetric(b, c);
      SolutionPeersDiffer(g, c, b);
    }
    EliminateAllKeeps(values, solved, c, g[c]);
    var e := Eliminated(values);
    assert |e[c]| == 1;
    SingletonWithin(e[c], values[c]);
  }

  /** eliminate on ThreeOpen(g, w): each reopened cell keeps 1, since no cell solved on entry
      next to it holds 1. */
  lemma OpenKeepsOne(g: Solution, w: Cell, o: Cell)
    requires Reopenable(g, w)
    requires o == Cell(0, 0) || o == Cell(0, 1) || o == w
    ensures '1' in Eliminated(ThreeOpen(g, w))[o]
  {
    var values := ThreeOpen(g, w);
    var solved := SolvedCells(values);
    var x, b := Cell(0, 0), Cell(0, 1);
    forall p | p in solved ensures |values[p]| <= 1 {
    }
    forall p | p in solved && o in Peers(p) ensures values[p] != "1" {
      PeersSymmetric(p, o);
      if o == b {
        OnesNearA2(g, w, p);
        if p in Peers(x) {
          SolutionPeersDiffer(g, x, p);
        } else if p in Peers(w) {
          SolutionPeersDiffer(g, w, p);
        }
      } else {
        SolutionPeersDiffer(g, o, p);
      }
    }
    EliminateAllKeeps(values, solved, o, '1');
  }

  /** eliminate on ThreeOpen(g, w): each reopened cell loses 3, which the cell of its row
      holding 3 clears from its peers. */
  lemma OpenLosesThree(g: Solution, w: Cell, o: Cell)
    requires Reopenable(g, w)
    requires o == Cell(0, 0) || o == Cell(0, 1) || o == w
    ensures '3' !in Eliminated(ThreeOpen(g, w))[o]
  {
    var values := ThreeOpen(g, w);
    assert w.row != 0;
    var p3 := DigitInRow(g, o.row, '3');
    SolvedCellsKept(g, w, p3);
    PeersByPosition(o, p3);
    PeersSymmetric(o, p3);
    EliminatedClearsPeers(values, p3, '3');
  }

  /** A cell holding "13" that keeps 1 and loses 3 under eliminate is solved to 1. */
  lemma ThirteenSolved(values: Board, o: Cell)
    requires IsBoard(values) && values[o] == "13"
    requires '1' in Eliminated(values)[o] && '3' !in Eliminated(values)[o]
    ensures Eliminated(values)[o] == "1"
  {
    var e := Eliminated(values);
    EliminateAllNoRepeats(values, SolvedCells(values), o);
    assert Within(e[o], values[o]);
    NarrowedToOne(e[o]);
  }

  /** eliminate on ThreeOpen(g, w) solves each reopened cell to 1. */
  lemma OpenCellsSolved(g: Solution, w: Cell, o: Cell)
    requires Reopenable(g, w)
    requires o == Cell(0, 0) || o == Cell(0, 1) || o == w
    ensures Eliminated(ThreeOpen(g, w))[o] == "1"
  {
    OpenKeepsOne(g, w, o);
    OpenLosesThree(g, w, o);
    ThirteenSolved(ThreeOpen(g, w), o);
  }

  /** eliminate on ThreeOpen(g, w) leaves every cell solved, and only_choice then changes
      nothing. */
  lemma FirstPass(g: Solution, w: Cell)
    requires Reopenable(g, w)
    ensures AllSolved(Eliminated(ThreeOpen(g, w)))
    ensures Pass(ThreeOpen(g, w)) == Eliminated(ThreeOpen(g, w))
  {
    var e := Eliminated(ThreeOpen(g, w));
    forall c | c in e ensures |e[c]| == 1 {
      if c == Cell(0, 0) || c == Cell(0, 1) || c == w {
        OpenCellsSolved(g, w, c);
      } else {
        SolvedCellsKept(g, w, c);
      }
    }
    ChooseInUnitsSolved(e, |UnitList()|);
  }

  /** reduce_puzzle's first pass on ThreeOpen(g, w) leaves every cell solved, with A1, A2 and
      w all holding 1; A1 and A2 are peers, so the early stop returns a board that breaks the
      rules, although the board allows no solution at all.  Any solved grid relabelled so that
      A1 holds 1 and A2 holds 2 gives such a g. */
  lemma EarlyStopAcceptsConflict(g: Solution, w: Cell)
    requires Reopenable(g, w)
    ensures SolvedCount(Pass(ThreeOpen(g, w))) == 81
    ensures Pass(ThreeOpen(g, w))[Cell(0, 0)] == "1" && Pass(ThreeOpen(g, w))[Cell(0, 1)] == "1"
    ensures Cell(0, 1) in Peers(Cell(0, 0)) && !PeersDiffer(Pass(ThreeOpen(g, w)))
    ensures forall S :: IsSolution(S) ==> !Consistent(ThreeOpen(g, w), S)
  {
    var values := ThreeOpen(g, w);
    var x, b := Cell(0, 0), Cell(0, 1);
    FirstPass(g, w);
    SolvedCountAll(Pass(values));
    OpenCellsSolved(g, w, x);
    OpenCellsSolved(g, w, b);
    PeersByPosition(x, b);
    forall S | IsSolution(S) ensures !Consistent(values, S) {
      ConflictRulesOut(values, S, x, b);
    }
  }

  /** A board whose pass leaves two peers holding the same single digit allows no solution. */
  lemma ConflictRulesOut(values: Board, s: Solution, x: Cell, b: Cell)
    requires IsBoard(values) && IsSolution(s)
    requires b in Peers(x) && |Pass(values)[x]| == 1 && Pass(values)[x] == Pass(values)[b]
    ensures !Consistent(values, s)
  {
    if Consistent(values, s) {
      var after := Pass(values);
      PassSound(values, s);
      assert after[x] == [after[x][0]];
      assert s[x] in after[x] && s[b] in after[b];
      SolutionPeersDiffer(s, x, b);
    }
  }

  /** A board that allows no solution, whose first pass of reduce_puzzle nevertheless ends with
      81 solved cells, two of them peers holding the same digit. */
  ghost predicate AcceptedConflict(values: Board)
  {
    IsBoard(values) && SolvedCount(Pass(values)) == 81 && !PeersDiffer(Pass(values)) &&
    forall S :: IsSolution(S) ==> !Consistent(values, S)
  }

  /** The early stop does fire: the sample grid gives such a board. */
  lemma EarlyStopReachable()
    ensures exists values :: AcceptedConflict(values)
  {
    var g, a1, a2, w := SampleSolution(), Cell(0, 0), Cell(0, 1), Cell(6, 1);
    SampleIsSolution();
    SampleA1(a1);
    SampleA2(a2);
    SampleG2(w);
    assert Reopenable(g, w);
    EarlyStopAcceptsConflict(g, w);
    var values := ThreeOpen(g, w);
    assert AcceptedConflict(values);
  }
}
