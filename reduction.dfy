/** One pass of reduce_puzzle's loop body (solution.py, lines 132-144) and what it tells about a
    board whose cells are all solved. */
module Reduction {
  import opened Units
  import opened Boards
  import opened EliminateRule
  import opened OnlyChoiceRule

  /** `values = eliminate(values); values = only_choice(values)` */
  function Pass(values: Board): (r: Board)
    requires IsBoard(values)
    ensures IsBoard(r) && Narrower(r, values)
  {
    NarrowerTransitive(OnlyChosen(Eliminated(values)), Eliminated(values), values);
    OnlyChosen(Eliminated(values))
  }

  /** No two peers hold the same candidate string. */
  ghost predicate PeersDiffer(values: Board)
    requires IsBoard(values)
  {
    forall c, p :: p in Peers(c) ==> values[c] != values[p]
  }

  /** Every candidate on the board is one of the nine digits. */
  predicate DigitsOnly(values: Board)
  {
    forall c, ch :: c in values && ch in values[c] ==> ch in Digits()
  }

  /** The solution a fully solved board spells out. */
  function SolutionOf(values: Board): (s: Solution)
    requires AllSolved(values)
    ensures forall c :: c in values ==> c in s && values[c] == [s[c]]
  {
    map c | c in values :: values[c][0]
  }

  /** A candidate survives a run of eliminate's outer loop over cells that each held at most one
      candidate on entry, when none of those cells that is a peer held exactly that candidate. */
  lemma {:induction false} EliminateAllKeeps(values: Board, boxes: seq<Cell>, c: Cell, ch: char)
    requires IsBoard(values)
    requires forall b :: b in boxes ==> |values[b]| <= 1
    requires ch in values[c]
    requires forall b :: b in boxes && c in Peers(b) ==> values[b] != [ch]
    ensures ch in EliminateAll(values, boxes)[c]
    decreases |boxes|
  {
    if boxes != [] {
      var prefix := boxes[..|boxes| - 1];
      var last := boxes[|boxes| - 1];
      assert last in boxes;
      forall b | b in prefix ensures |values[b]| <= 1 && (c in Peers(b) ==> values[b] != [ch]) {
        assert b in boxes;
      }
      EliminateAllKeeps(values, prefix, c, ch);
      var before := EliminateAll(values, prefix);
      if c in Peers(last) {
        if |before[last]| == 1 {
          SingletonWithin(before[last], values[last]);
          ReplaceDigit(before[c], before[last][0]);
          assert before[last] == [before[last][0]];
        }
      }
    }
  }

  /** only_choice leaves a fully solved board as it is: every digit it could assign is the one
      the cell already holds. */
  lemma ChooseDigitSolved(values: Board, unit: seq<Cell>, digit: char)
    requires IsBoard(values) && AllSolved(values)
    ensures ChooseDigit(values, unit, digit) == values
  {
    var places := Places(values, unit, digit);
    if |places| == 1 {
      assert places[0] in places;
      assert values[places[0]] == [digit];
    }
  }

  lemma {:induction false} ChooseInUnitSolved(values: Board, k: nat, j: nat)
    requires IsBoard(values) && AllSolved(values) && k < |UnitList()| && j <= |Digits()|
    ensures ChooseInUnit(values, k, j) == values
  {
    if j > 0 {
      ChooseInUnitSolved(values, k, j - 1);
      ChooseDigitSolved(values, UnitList()[k], Digits()[j - 1]);
    }
  }

  lemma {:induction false} ChooseInUnitsSolved(values: Board, k: nat)
    requires IsBoard(values) && AllSolved(values) && k <= |UnitList()|
    ensures ChooseInUnits(values, k) == values
  {
    if k > 0 {
      ChooseInUnitsSolved(values, k - 1);
      ChooseInUnitSolved(values, k - 1, |Digits()|);
    }
  }

  /** On a fully solved board without conflicts eliminate keeps the digit of cell c. */
  lemma EliminatedKeepsCell(values: Board, c: Cell)
    requires IsBoard(values) && AllSolved(values) && PeersDiffer(values)
    ensures Eliminated(values)[c] == values[c]
  {
    var d := values[c][0];
    assert values[c] == [d];
    forall b | b in SolvedCells(values) && c in Peers(b) ensures values[b] != [d] {
      PeersSymmetric(b, c);
    }
    EliminateAllKeeps(values, SolvedCells(values), c, d);
    SingletonWithin([d], Eliminated(values)[c]);
  }

  /** On a fully solved board without conflicts eliminate removes nothing. */
  lemma EliminatedConflictFree(values: Board)
    requires IsBoard(values) && AllSolved(values) && PeersDiffer(values)
    ensures Eliminated(values) == values
  {
    forall c | c in values ensures Eliminated(values)[c] == values[c] {
      EliminatedKeepsCell(values, c);
    }
  }

  /** On a fully solved board with two peers holding the same digit, eliminate empties a cell:
      if no cell became empty, every cell keeps its digit, and then eliminate has cleared that
      digit from all peers. */
  lemma EliminatedConflict(values: Board)
    requires IsBoard(values) && AllSolved(values) && NoEmptyCell(Eliminated(values))
    ensures PeersDiffer(values)
  {
    var e := Eliminated(values);
    forall c, p | p in Peers(c) ensures values[c] != values[p] {
      SingletonWithin(e[c], values[c]);
      SingletonWithin(e[p], values[p]);
      EliminatedClearsPeers(values, c, values[c][0]);
      assert values[c][0] !in e[p];
    }
  }

  /** A fully solved board comes through a pass of reduce_puzzle without an empty cell exactly
      when no two peers hold the same digit, and then the pass changes nothing. */
  lemma SolvedPassStable(values: Board)
    requires IsBoard(values) && AllSolved(values)
    ensures NoEmptyCell(Pass(values)) <==> PeersDiffer(values)
    ensures PeersDiffer(values) ==> Pass(values) == values
  {
    if PeersDiffer(values) {
      EliminatedConflictFree(values);
      ChooseInUnitsSolved(values, |UnitList()|);
    }
    if NoEmptyCell(Pass(values)) {
      var e := Eliminated(values);
      assert Narrower(Pass(values), e);
      forall c | c in e ensures |e[c]| > 0 {
        assert |Pass(values)[c]| <= |e[c]|;
      }
      EliminatedConflict(values);
    }
  }

  /** `n` distinct elements make a set of `n` elements. */
  lemma {:induction false} DistinctCard(s: seq<char>)
    requires forall i, j :: 0 <= i < j < |s| ==> s[i] != s[j]
    ensures |set x | x in s| == |s|
    decreases |s|
  {
    if s != [] {
      var init := s[..|s| - 1];
      DistinctCard(init);
      assert (set x | x in s) == (set x | x in init) + {s[|s| - 1]};
      assert s[|s| - 1] !in init;
    }
  }

  /** Nine different digits are all nine digits. */
  lemma NineDigits(s: seq<char>)
    requires |s| == 9
    requires forall i :: 0 <= i < 9 ==> s[i] in Digits()
    requires forall i, j :: 0 <= i < j < 9 ==> s[i] != s[j]
    ensures forall d :: d in Digits() ==> d in s
  {
    var digits := Digits();
    DistinctCard(s);
    DistinctCard(digits);
    var have, all := set x | x in s, set x | x in digits;
    assert have <= all;
    assert |all - have| == |all| - |have| == 0;
    forall d | d in digits ensures d in s {
      assert d in all && d !in all - have;
    }
  }

  /** A map of digits over all cells in which no two peers agree holds nine different digits,
      hence all nine, in every unit. */
  lemma UnitOfPeersDiffering(s: Solution, k: nat)
    requires forall c: Cell :: c in s && s[c] in Digits()
    requires forall c, p :: p in Peers(c) ==> s[c] != s[p]
    requires k < |UnitList()|
    ensures AllDifferent(s, UnitList()[k]) && AllDigits(s, UnitList()[k])
  {
    var u := UnitList()[k];
    UnitListShape(k);
    forall i, j | 0 <= i < j < |u| ensures s[u[i]] != s[u[j]] {
      PeersShareUnit(u[i], u[j]);
    }
    var held := seq(9, i requires 0 <= i < 9 => s[u[i]]);
    NineDigits(held);
    forall d | d in Digits() ensures exists i :: 0 <= i < |u| && s[u[i]] == d {
      var i :| 0 <= i < 9 && held[i] == d;
    }
  }

  /** A fully solved board of digits without two peers holding the same digit spells a
      solution: every unit holds nine different digits, hence all nine. */
  lemma SolvedBoardIsSolution(values: Board)
    requires IsBoard(values) && AllSolved(values) && DigitsOnly(values) && PeersDiffer(values)
    ensures IsSolution(SolutionOf(values)) && Consistent(values, SolutionOf(values))
  {
    var s := SolutionOf(values);
    forall c: Cell ensures c in s && s[c] in Digits() {
      assert s[c] in values[c];
    }
    forall c, p | p in Peers(c) ensures s[c] != s[p] {
      assert values[c] == [s[c]] && values[p] == [s[p]];
    }
    forall k | 0 <= k < |UnitList()|
      ensures AllDifferent(s, UnitList()[k]) && AllDigits(s, UnitList()[k])
    {
      UnitOfPeersDiffering(s, k);
    }
  }

  /** A pass keeps every solution the board allows. */
  lemma PassSound(values: Board, s: Solution)
    requires IsBoard(values) && IsSolution(s) && Consistent(values, s)
    ensures Consistent(Pass(values), s)
  {
    EliminatedSound(values, s);
    OnlyChosenSound(Eliminated(values), s);
  }

  /** The board after n passes of the loop of `reduce_puzzle`. */
  function Passes(values: Board, n: nat): (r: Board)
    requires IsBoard(values)
    ensures IsBoard(r)
    decreases n
  {
    if n == 0 then values
    else Pass(Passes(values, n - 1))
  }

  /** Any number of passes keeps every solution the board allows. */
  lemma PassesSound(values: Board, n: nat, s: Solution)
    requires IsBoard(values) && IsSolution(s) && Consistent(values, s)
    ensures Consistent(Passes(values, n), s)
  {
    for i := 0 to n
      invariant Consistent(Passes(values, i), s)
    {
      PassSound(Passes(values, i), s);
    }
  }

  /** A board with an empty cell allows no solution. */
  lemma EmptyCellRulesOut(values: Board, s: Solution)
    requires !NoEmptyCell(values)
    ensures !Consistent(values, s)
  {
    var c :| c in values && |values[c]| == 0;
  }

  /** A solution allowed by a narrower board is allowed by the wider one. */
  lemma ConsistentWiden(after: Board, before: Board, s: Solution)
    requires Narrower(after, before) && Consistent(after, s)
    ensures Consistent(before, s)
  {
  }

  /** Narrowing keeps a board of digits a board of digits. */
  lemma DigitsOnlyNarrower(after: Board, before: Board)
    requires Narrower(after, before) && DigitsOnly(before)
    ensures DigitsOnly(after)
  {
  }

  /** `len([box for box in values.keys() if len(values[box]) == 0])` is zero exactly when no
      cell is empty. */
  lemma EmptyCount(values: Board)
    requires IsBoard(values)
    ensures |CellsOfLength(values, 0, AllCells())| == 0 <==> NoEmptyCell(values)
  {
    CellsOfLengthNone(values, 0, AllCells());
    forall c: Cell ensures c in AllCells() {
      AllCellsComplete(c);
    }
  }

  /** Every cell is solved exactly when each cell of the key order holds one candidate. */
  lemma AllSolvedByCells(values: Board)
    requires IsBoard(values)
    ensures AllSolved(values) <==> forall c :: c in AllCells() ==> |values[c]| == 1
  {
    forall c: Cell ensures c in AllCells() {
      AllCellsComplete(c);
    }
  }

  /** Narrowing a cell to one candidate, with no cell left empty, solves one more cell. */
  lemma {:induction false} SolvedCountGrows(after: Board, before: Board, cells: seq<Cell>, s: Cell)
    requires IsBoard(before) && IsBoard(after)
    requires Narrower(after, before) && NoEmptyCell(after)
    requires s in cells && |before[s]| != 1 && |after[s]| == 1
    ensures |CellsOfLength(before, 1, cells)| < |CellsOfLength(after, 1, cells)|
    decreases |cells|
  {
    if cells[0] == s {
      SolvedCountMonotone(after, before, cells[1..]);
    } else {
      SolvedCountGrows(after, before, cells[1..], s);
    }
  }
  /** The turn of a solved cell whose digit no peer lists changes nothing. */
  lemma EliminateBoxUnchanged(values: Board, box: Cell)
    requires IsBoard(values) && |values[box]| == 1
    requires forall p :: p in Peers(box) ==> values[box][0] !in values[p]
    ensures EliminateBox(values, box) == values
  {
    var r := EliminateBox(values, box);
    assert values[box] == [values[box][0]];
    forall c | c in values ensures r[c] == values[c] {
      if c in Peers(box) {
        ReplaceAbsent(values[c], values[box][0]);
      }
    }
  }

  /** eliminate changes nothing when every cell it visits is solved and its digit is already
      absent from all its peers. */
  lemma {:induction false} EliminateAllUnchanged(values: Board, boxes: seq<Cell>)
    requires IsBoard(values)
    requires forall b :: b in boxes ==> |values[b]| == 1
    requires forall b, p :: b in boxes && p in Peers(b) ==> values[b][0] !in values[p]
    ensures EliminateAll(values, boxes) == values
    decreases |boxes|
  {
    if boxes != [] {
      var prefix := boxes[..|boxes| - 1];
      var last := boxes[|boxes| - 1];
      assert last in boxes;
      forall b | b in prefix ensures b in boxes {
      }
      EliminateAllUnchanged(values, prefix);
      EliminateBoxUnchanged(values, last);
    }
  }

  /** When a pass leaves the solved count unchanged and no cell empty, a cell solved after the
      pass was already solved, with the same digit, before it. */
  lemma StalledKeepsSolved(prev: Board, c: Cell)
    requires IsBoard(prev) && NoEmptyCell(Pass(prev)) && SolvedCount(Pass(prev)) == SolvedCount(prev)
    requires |Pass(prev)[c]| == 1
    ensures prev[c] == Pass(prev)[c]
  {
    if |prev[c]| != 1 {
      AllCellsComplete(c);
      SolvedCountGrows(Pass(prev), prev, AllCells(), c);
    }
    SingletonWithin(Pass(prev)[c], prev[c]);
  }

  /** In such a pass only_choice assigned nothing: the pass ends with eliminate's board. */
  lemma StalledSkipsOnlyChoice(prev: Board)
    requires IsBoard(prev) && NoEmptyCell(Pass(prev)) && SolvedCount(Pass(prev)) == SolvedCount(prev)
    ensures Pass(prev) == Eliminated(prev)
  {
    var e := Eliminated(prev);
    var p := Pass(prev);
    OnlyChosenJustified(e);
    forall c | c in e ensures p[c] == e[c] {
      if p[c] != e[c] {
        StalledKeepsSolved(prev, c);
        assert |e[c]| <= |prev[c]|;
        SingletonWithin(p[c], e[c]);
      }
    }
  }

  /** In such a pass every cell solved at the end has its digit absent from all its peers. */
  lemma StalledClears(prev: Board, b: Cell)
    requires IsBoard(prev) && NoEmptyCell(Pass(prev)) && SolvedCount(Pass(prev)) == SolvedCount(prev)
    requires |Pass(prev)[b]| == 1
    ensures forall p :: p in Peers(b) ==> Pass(prev)[b][0] !in Pass(prev)[p]
  {
    StalledKeepsSolved(prev, b);
    StalledSkipsOnlyChoice(prev);
    assert prev[b] == [prev[b][0]];
    EliminatedClearsPeers(prev, b, prev[b][0]);
  }

  /** reduce_puzzle's stopping rule is sound: a pass that leaves the solved count unchanged,
      and no cell empty, has reached a board that a further pass would leave as it is. */
  lemma StalledIsFixpoint(prev: Board)
    requires IsBoard(prev) && NoEmptyCell(Pass(prev)) && SolvedCount(Pass(prev)) == SolvedCount(prev)
    ensures Pass(Pass(prev)) == Pass(prev)
  {
    var p := Pass(prev);
    forall b | b in SolvedCells(p) ensures |p[b]| == 1 {
    }
    forall b, q | b in SolvedCells(p) && q in Peers(b) ensures p[b][0] !in p[q] {
      StalledClears(prev, b);
    }
    EliminateAllUnchanged(p, SolvedCells(p));
    StalledSkipsOnlyChoice(prev);
  }

  /** Whether the loop of `reduce_puzzle` stops after the pass from `before` to `after`: a
      cell became empty, the solved count did not change, or, with the early stop of lines
      146-147, every cell is solved. */
  predicate Stops(before: Board, after: Board, earlyStop: bool)
    requires IsBoard(before) && IsBoard(after)
  {
    !NoEmptyCell(after) || SolvedCount(after) == SolvedCount(before) ||
    (earlyStop && SolvedCount(after) == 81)
  }

  /** The board the loop of `reduce_puzzle` ends with: passes are applied until one of them
      stops the loop, and the board that pass left is the result. */
  function ReduceLoop(values: Board, earlyStop: bool): (r: Board)
    requires IsBoard(values)
    ensures IsBoard(r) && Narrower(r, values)
    decreases 81 - SolvedCount(values)
  {
    var next := Pass(values);
    SolvedCountAll(values);
    SolvedCountAll(next);
    if Stops(values, next, earlyStop) then next
    else
      SolvedCountMonotone(next, values, AllCells());
      NarrowerTransitive(ReduceLoop(next, earlyStop), next, values);
      ReduceLoop(next, earlyStop)
  }

  /** The loop keeps every solution the board allows. */
  lemma {:induction false} ReduceLoopSound(values: Board, earlyStop: bool, s: Solution)
    requires IsBoard(values) && IsSolution(s) && Consistent(values, s)
    ensures Consistent(ReduceLoop(values, earlyStop), s)
    decreases 81 - SolvedCount(values)
  {
    var next := Pass(values);
    PassSound(values, s);
    SolvedCountAll(values);
    SolvedCountAll(next);
    if !Stops(values, next, earlyStop) {
      SolvedCountMonotone(next, values, AllCells());
      ReduceLoopSound(next, earlyStop, s);
    }
  }

  /** Where the loop stops with no empty cell, and not at the early stop, a further pass
      changes nothing. */
  lemma {:induction false} ReduceLoopFixpoint(values: Board, earlyStop: bool)
    requires IsBoard(values) && NoEmptyCell(ReduceLoop(values, earlyStop))
    requires !(earlyStop && AllSolved(ReduceLoop(values, earlyStop)))
    ensures Pass(ReduceLoop(values, earlyStop)) == ReduceLoop(values, earlyStop)
    decreases 81 - SolvedCount(values)
  {
    var next := Pass(values);
    SolvedCountAll(values);
    SolvedCountAll(next);
    if Stops(values, next, earlyStop) {
      StalledIsFixpoint(values);
    } else {
      SolvedCountMonotone(next, values, AllCells());
      ReduceLoopFixpoint(next, earlyStop);
    }
  }

  /** The counts the loop reads after a pass: at most 81 solved cells, 81 only when all are
      solved, and the empty-cell comprehension empty exactly when no cell is empty. */
  lemma PassCounts(values: Board)
    requires IsBoard(values)
    ensures SolvedCount(Pass(values)) <= 81
    ensures SolvedCount(Pass(values)) == 81 ==> AllSolved(Pass(values))
    ensures |CellsOfLength(Pass(values), 0, AllCells())| == 0 <==> NoEmptyCell(Pass(values))
  {
    SolvedCountAll(Pass(values));
    EmptyCount(Pass(values));
  }

  /** One round of the loop: where it stops, the pass's board is the result; where it goes
      on, the solved count has grown and the result is that of the next round. */
  lemma ReduceLoopStep(values: Board, earlyStop: bool)
    requires IsBoard(values)
    ensures Stops(values, Pass(values), earlyStop) ==> ReduceLoop(values, earlyStop) == Pass(values)
    ensures !Stops(values, Pass(values), earlyStop) ==>
      ReduceLoop(values, earlyStop) == ReduceLoop(Pass(values), earlyStop) &&
      SolvedCount(values) < SolvedCount(Pass(values))
  {
    var next := Pass(values);
    if !Stops(values, next, earlyStop) {
      SolvedCountMonotone(next, values, AllCells());
    }
  }

  /** With the early stop, a first pass that solves every cell ends the loop. */
  lemma ReduceLoopEarly(values: Board)
    requires IsBoard(values) && SolvedCount(Pass(values)) == 81
    ensures ReduceLoop(values, true) == Pass(values)
  {
    ReduceLoopStep(values, true);
    PassCounts(values);
  }

  /** Without the early stop, a fully solved result with no empty cell has no two peers
      holding the same digit. */
  lemma ReduceLoopPeersDiffer(values: Board)
    requires IsBoard(values) && NoEmptyCell(ReduceLoop(values, false))
    requires AllSolved(ReduceLoop(values, false))
    ensures PeersDiffer(ReduceLoop(values, false))
  {
    ReduceLoopFixpoint(values, false);
    SolvedPassStable(ReduceLoop(values, false));
  }

  /** What `reduce_puzzle` promises of its result: it keeps every solution the input allows,
      so it has no empty cell when the input allows one; a further pass changes it only at
      the early stop, which a first pass solving every cell takes at once; and without the
      early stop a fully solved result has no two peers alike. */
  lemma ReduceLoopResult(values: Board, earlyStop: bool)
    requires IsBoard(values)
    ensures forall S :: IsSolution(S) && Consistent(values, S) ==>
      Consistent(ReduceLoop(values, earlyStop), S)
    ensures (exists S :: IsSolution(S) && Consistent(values, S)) ==>
      NoEmptyCell(ReduceLoop(values, earlyStop))
    ensures NoEmptyCell(ReduceLoop(values, earlyStop)) ==>
      (earlyStop && AllSolved(ReduceLoop(values, earlyStop))) ||
      Pass(ReduceLoop(values, earlyStop)) == ReduceLoop(values, earlyStop)
    ensures !earlyStop ==>
      NoEmptyCell(ReduceLoop(values, false)) && AllSolved(ReduceLoop(values, false)) ==>
      PeersDiffer(ReduceLoop(values, false))
    ensures earlyStop && SolvedCount(Pass(values)) == 81 ==>
      ReduceLoop(values, true) == Pass(values)
  {
    var r := ReduceLoop(values, earlyStop);
    forall S | IsSolution(S) && Consistent(values, S) ensures Consistent(r, S) {
      ReduceLoopSound(values, earlyStop, S);
    }
    if exists S :: IsSolution(S) && Consistent(values, S) {
      var S :| IsSolution(S) && Consistent(values, S);
      if !NoEmptyCell(r) {
        EmptyCellRulesOut(r, S);
      }
    }
    if NoEmptyCell(r) && !(earlyStop && AllSolved(r)) {
      ReduceLoopFixpoint(values, earlyStop);
    }
    if !earlyStop && NoEmptyCell(r) && AllSolved(r) {
      ReduceLoopPeersDiffer(values);
    }
    if earlyStop && SolvedCount(Pass(values)) == 81 {
      ReduceLoopEarly(values);
    }
  }

  /** n + 1 passes are a pass after n passes. */
  lemma PassesNext(values: Board, n: nat)
    requires IsBoard(values)
    ensures Passes(values, n + 1) == Pass(Passes(values, n))
  {
  }

  /** The loop's result is the board after some number of passes, at least one. */
  lemma ReduceLoopIsPasses(values: Board, earlyStop: bool) returns (n: nat)
    requires IsBoard(values)
    ensures 1 <= n && ReduceLoop(values, earlyStop) == Passes(values, n)
  {
    var current, k := values, 0;
    ReduceLoopStep(current, earlyStop);
    SolvedCountAll(current);
    while !Stops(current, Pass(current), earlyStop)
      invariant IsBoard(current) && current == Passes(values, k)
      invariant ReduceLoop(values, earlyStop) == ReduceLoop(current, earlyStop)
      invariant SolvedCount(current) <= 81
      invariant !Stops(current, Pass(current), earlyStop) ==>
        ReduceLoop(current, earlyStop) == ReduceLoop(Pass(current), earlyStop) &&
        SolvedCount(current) < SolvedCount(Pass(current))
      invariant Stops(current, Pass(current), earlyStop) ==>
        ReduceLoop(current, earlyStop) == Pass(current)
      decreases 81 - SolvedCount(current)
    {
      PassesNext(values, k);
      current, k := Pass(current), k + 1;
      ReduceLoopStep(current, earlyStop);
      SolvedCountAll(current);
    }
    PassesNext(values, k);
    n := k + 1;
  }
}
