/** The solver proper (solution.py, lines 20-61 and 63-227): the strategies rewriting the
    `values` dictionary in place, the reduction loop, depth-first search and solve. */
module Solver {
  import opened Units
  import opened Boards
  import opened EliminateRule
  import opened OnlyChoiceRule
  import opened NakedTwinsRule
  import opened Reduction

  datatype Option<T> = None | Some(value: T)

  /** The `values` dictionary that the strategies update in place. */
  class Puzzle {
    var values: Board

    ghost predicate Valid()
      reads this
    {
      IsBoard(values)
    }

    constructor (values: Board)
      requires IsBoard(values)
      ensures Valid() && this.values == values
    {
      this.values := values;
    }

    /** `eliminate(values)`: every cell solved on entry, in key order, removes its current
        string from each of its peers. */
    method Eliminate()
      requires Valid()
      modifies this
      ensures Valid() && values == Eliminated(old(values))
    {
      ghost var start := values;
      var solved := SolvedCells(values);
      for i := 0 to |solved|
        invariant values == EliminateAll(start, solved[..i])
      {
        EliminateAllStep(start, solved, i);
        ClearPeers(solved[i]);
      }
      EliminateAllWhole(start, solved);
    }

    /** The inner loop of eliminate, `for peer in peers[box]`: the peers form a set and are
        visited in any order. */
    method ClearPeers(box: Cell)
      requires Valid()
      modifies this
      ensures Valid() && values == EliminateBox(old(values), box)
    {
      ghost var before := values;
      var peers := Peers(box);
      ghost var done: set<Cell> := {};
      PeersSymmetric(box, box);
      while peers != {}
        invariant done + peers == Peers(box) && done !! peers && box !in done
        invariant values == ReplaceIn(before, done, before[box])
        decreases peers
      {
        var peer :| peer in peers;
        ReplaceInStep(before, done, before[box], peer);
        values := values[peer := Replace(values[peer], values[box])];
        peers := peers - {peer};
        done := done + {peer};
      }
    }

    /** `only_choice(values)`: for every unit and every digit in order, a digit that one cell
        of the unit alone lists becomes that cell's only candidate. */
    method OnlyChoice()
      requires Valid()
      modifies this
      ensures Valid() && values == OnlyChosen(old(values))
    {
      ghost var start := values;
      for k := 0 to |UnitList()|
        invariant values == ChooseInUnits(start, k)
      {
        ChooseInUnitAt(k);
      }
    }

    /** The body of only_choice's loop over the units: `for digit in '123456789'` on unit k. */
    method ChooseInUnitAt(k: nat)
      requires Valid() && k < |UnitList()|
      modifies this
      ensures Valid() && values == ChooseInUnit(old(values), k, |Digits()|)
    {
      ghost var atUnit := values;
      var unit := UnitList()[k];
      var digits := Digits();
      for j := 0 to |digits|
        invariant IsBoard(values) && values == ChooseInUnit(atUnit, k, j)
      {
        var dplaces := Places(values, unit, digits[j]);
        if |dplaces| == 1 {
          values := values[dplaces[0] := [digits[j]]];
        }
      }
    }

    /** `eliminate_naked_twins_from_peers(unit, values, nakedtwins)` */
    method EliminateNakedTwinsFromPeers(unit: seq<Cell>, nakedTwins: seq<Twins>)
      requires Valid()
      modifies this
      ensures Valid() && values == RemoveTwins(old(values), unit, nakedTwins)
    {
      ghost var start := values;
      if |nakedTwins| > 0 {
        for n := 0 to |nakedTwins|
          invariant values == RemoveTwins(start, unit, nakedTwins[..n])
        {
          RemoveTwinFromPeers(unit, nakedTwins[n]);
          assert nakedTwins[..n + 1][..n] == nakedTwins[..n];
        }
        assert nakedTwins[..|nakedTwins|] == nakedTwins;
      }
    }

    /** The body of the loop over the pairs: each target, chosen on the board as the pair's
        turn starts, loses the pair's digits one by one. */
    method RemoveTwinFromPeers(unit: seq<Cell>, twin: Twins)
      requires Valid()
      modifies this
      ensures Valid() && values == RemoveTwin(old(values), unit, twin)
    {
      ghost var before := values;
      var targets := Targets(values, unit, twin);
      for m := 0 to |targets|
        invariant IsBoard(values) && values.Keys == before.Keys
        invariant forall c :: c in values ==>
          values[c] == if c in targets[..m] then RemoveDigits(before[c], twin.digits) else before[c]
      {
        RemoveTargetStep(before, values, targets, m, twin.digits);
        RemoveDigitsAt(targets[m], twin.digits);
      }
      assert targets[..|targets|] == targets;
    }

    /** `for digit in twin[1]: values[box] = values[box].replace(digit, '')` */
    method RemoveDigitsAt(box: Cell, digits: string)
      requires Valid()
      modifies this
      ensures Valid() && values == old(values)[box := RemoveDigits(old(values)[box], digits)]
    {
      ghost var mid := values;
      for l := 0 to |digits|
        invariant IsBoard(values)
        invariant values == mid[box := RemoveDigits(mid[box], digits[..l])]
      {
        assert digits[..l + 1][..l] == digits[..l];
        values := values[box := Replace(values[box], [digits[l]])];
      }
      assert digits[..|digits|] == digits;
    }

    /** One pass of the loop of `reduce_puzzle`: `eliminate`, then `only_choice`. */
    method RunPass()
      requires Valid()
      modifies this
      ensures Valid() && values == Pass(old(values))
    {
      Eliminate();
      OnlyChoice();
    }

    /** `reduce_puzzle(values)` as written: eliminate and only_choice are applied in turn until
        a pass leaves the solved count unchanged; the loop stops at once when a pass ends with
        81 solved cells, and the result is false as soon as a cell is empty.  Because of that
        early stop a pass that solves every cell is returned without the check that its digits
        differ between peers (see ReducePuzzleCorrected). */
    method ReducePuzzle() returns (ok: bool)
      requires Valid()
      modifies this
      ensures Valid() && values == ReduceLoop(old(values), true)
      ensures ok <==> NoEmptyCell(values)
      ensures Narrower(values, old(values))
      ensures forall S :: IsSolution(S) && Consistent(old(values), S) ==> Consistent(values, S)
      ensures (exists S :: IsSolution(S) && Consistent(old(values), S)) ==> ok
      ensures SolvedCount(Pass(old(values))) == 81 ==> ok && values == Pass(old(values))
      ensures ok ==> AllSolved(values) || Pass(values) == values
    {
      ghost var start := values;
      ReduceLoopResult(start, true);
      var stalled := false;
      while !stalled
        invariant Valid()
        invariant !stalled ==> ReduceLoop(values, true) == ReduceLoop(start, true)
        invariant stalled ==> values == ReduceLoop(start, true) && NoEmptyCell(values)
        decreases 81 - SolvedCount(values), !stalled
      {
        var solvedBefore := SolvedCount(values);
        ghost var prev := values;
        RunPass();
        ReduceLoopStep(prev, true);
        PassCounts(prev);
        var solvedAfter := SolvedCount(values);
        if solvedAfter == 81 {
          break;
        }
        stalled := solvedBefore == solvedAfter;
        if |CellsOfLength(values, 0, AllCells())| > 0 {
          return false;
        }
      }
      ok := true;
    }

    /** reduce_puzzle without the early stop: the loop runs until a pass leaves the solved
        count unchanged, so a fully solved result has been through one more pass, which would
        have emptied a cell had two peers held the same digit. */
    method ReducePuzzleCorrected() returns (ok: bool)
      requires Valid()
      modifies this
      ensures Valid() && values == ReduceLoop(old(values), false)
      ensures ok <==> NoEmptyCell(values)
      ensures Narrower(values, old(values))
      ensures forall S :: IsSolution(S) && Consistent(old(values), S) ==> Consistent(values, S)
      ensures (exists S :: IsSolution(S) && Consistent(old(values), S)) ==> ok
      ensures ok && AllSolved(values) ==> PeersDiffer(values)
      ensures ok ==> Pass(values) == values
    {
      ghost var start := values;
      ReduceLoopResult(start, false);
      var stalled := false;
      while !stalled
        invariant Valid()
        invariant !stalled ==> ReduceLoop(values, false) == ReduceLoop(start, false)
        invariant stalled ==> values == ReduceLoop(start, false) && NoEmptyCell(values)
        decreases 81 - SolvedCount(values), !stalled
      {
        var solvedBefore := SolvedCount(values);
        ghost var prev := values;
        RunPass();
        ReduceLoopStep(prev, false);
        PassCounts(prev);
        var solvedAfter := SolvedCount(values);
        stalled := solvedBefore == solvedAfter;
        if |CellsOfLength(values, 0, AllCells())| > 0 {
          return false;
        }
      }
      ok := true;
    }

    /** `naked_twins(values)`: unit by unit, the pairs of the unit are found and then removed. */
    method NakedTwins()
      requires Valid()
      modifies this
      ensures Valid() && values == NakedTwinsApplied(old(values))
    {
      ghost var start := values;
      var units := UnitList();
      for k := 0 to |units|
        invariant values == NakedTwinsUnits(start, k)
      {
        var nakedTwins := UnitNakedTwins(units[k], values, 2);
        EliminateNakedTwinsFromPeers(units[k], nakedTwins);
      }
    }
  }

  /** `get_unit_naked_twins(unit, values, length)`: the cells of the unit are grouped by their
      string, and the groups of more than one cell are reported. */
  method UnitNakedTwins(unit: seq<Cell>, values: Board, length: nat) returns (twins: seq<Twins>)
    requires IsBoard(values)
    ensures twins == UnitTwins(values, unit, length)
    ensures forall t :: t in twins <==>
      |t.digits| == length && t.cells == Group(values, unit, t.digits) && |t.cells| > 1
  {
    var keys, invDict := GroupByString(unit, values, length);
    twins := [];
    for j := 0 to |keys|
      invariant twins == GroupsOfTwo(values, unit, keys[..j])
    {
      assert keys[..j + 1][..j] == keys[..j];
      if |invDict[keys[j]]| > 1 {
        twins := twins + [Twins(invDict[keys[j]], keys[j])];
      }
    }
    assert keys[..|keys|] == keys;
    UnitTwinsCharacterized(values, unit, length);
  }

  /** The `setdefault` loop of get_unit_naked_twins: `inv_dict` is kept as its keys in
      insertion order and a map from each key to its set of cells. */
  method GroupByString(unit: seq<Cell>, values: Board, length: nat)
    returns (keys: seq<string>, invDict: map<string, set<Cell>>)
    requires IsBoard(values)
    ensures keys == FirstOccurrences(StringsOfLength(values, unit, length))
    ensures forall v :: v in invDict <==> v in keys
    ensures forall v :: v in invDict ==> invDict[v] == Group(values, unit, v)
  {
    keys, invDict := [], map[];
    for i := 0 to |unit|
      invariant keys == FirstOccurrences(StringsOfLength(values, unit[..i], length))
      invariant forall v :: v in keys ==> |v| == length
      invariant forall c :: c in unit[..i] && |values[c]| == length ==> values[c] in keys
      invariant forall v :: v in invDict <==> v in keys
      invariant forall v :: v in invDict ==> invDict[v] == Group(values, unit[..i], v)
    {
      ghost var keys0, invDict0 := keys, invDict;
      KeysStep(values, unit, i, length, keys0, invDict0);
      var value := values[unit[i]];
      if |value| == length {
        var group := if value in invDict then invDict[value] else {};
        if value !in invDict {
          keys := keys + [value];
        }
        invDict := invDict[value := group + {unit[i]}];
      }
      GroupStep(values, unit, i, length, keys0, invDict0);
    }
    assert unit[..|unit|] == unit;
  }

  /** One turn of the `setdefault` loop appends the cell's string to the keys when it has the
      right length and is not yet a key of `inv_dict`. */
  lemma KeysStep(values: Board, unit: seq<Cell>, i: nat, length: nat,
                 keys: seq<string>, invDict: map<string, set<Cell>>)
    requires IsBoard(values) && i < |unit|
    requires keys == FirstOccurrences(StringsOfLength(values, unit[..i], length))
    requires forall v :: v in invDict <==> v in keys
    ensures var value := values[unit[i]];
      FirstOccurrences(StringsOfLength(values, unit[..i + 1], length)) ==
        if |value| == length && value !in invDict then keys + [value] else keys
  {
    KeysExtend(values, unit, i, length);
  }

  /** One turn of the `setdefault` loop keeps `inv_dict` keyed by `keys`, each key mapped to
      the cells of the prefix holding it. */
  lemma GroupStep(values: Board, unit: seq<Cell>, i: nat, length: nat,
                  keys: seq<string>, invDict: map<string, set<Cell>>)
    requires IsBoard(values) && i < |unit|
    requires forall v :: v in keys ==> |v| == length
    requires forall c :: c in unit[..i] && |values[c]| == length ==> values[c] in keys
    requires forall v :: v in invDict <==> v in keys
    requires forall v :: v in invDict ==> invDict[v] == Group(values, unit[..i], v)
    ensures var value := values[unit[i]];
      var keys' := if |value| == length && value !in invDict then keys + [value] else keys;
      var invDict' :=
        if |value| != length then invDict
        else invDict[value := (if value in invDict then invDict[value] else {}) + {unit[i]}];
      (forall v :: v in keys' ==> |v| == length) &&
      (forall c :: c in unit[..i + 1] && |values[c]| == length ==> values[c] in keys') &&
      (forall v :: v in invDict' <==> v in keys') &&
      (forall v :: v in invDict' ==> invDict'[v] == Group(values, unit[..i + 1], v))
  {
    var value := values[unit[i]];
    var keys' := if |value| == length && value !in invDict then keys + [value] else keys;
    var invDict' :=
      if |value| != length then invDict
      else invDict[value := (if value in invDict then invDict[value] else {}) + {unit[i]}];
    GroupExtend(values, unit, i);
    assert unit[..i + 1] == unit[..i] + [unit[i]];
    forall v | v in invDict' ensures invDict'[v] == Group(values, unit[..i + 1], v) {
      if v != value {
        assert invDict'[v] == invDict[v];
      } else if value !in invDict {
        assert Group(values, unit[..i], v) == {};
      }
    }
  }

  /** One more target of a pair's loop: if `mid` has the first m targets cleared, clearing
      target m gives the first m + 1 cleared (a target met twice is left as it is). */
  lemma RemoveTargetStep(before: Board, mid: Board, targets: seq<Cell>, m: nat, digits: string)
    requires IsBoard(before) && mid.Keys == before.Keys && m < |targets|
    requires forall c :: c in mid ==>
      mid[c] == if c in targets[..m] then RemoveDigits(before[c], digits) else before[c]
    ensures var after := mid[targets[m] := RemoveDigits(mid[targets[m]], digits)];
      after.Keys == before.Keys &&
      forall c :: c in after ==>
        after[c] == if c in targets[..m + 1] then RemoveDigits(before[c], digits) else before[c]
  {
    var box := targets[m];
    if box in targets[..m] {
      RemoveDigitsNone(mid[box], digits);
    }
    assert targets[..m + 1] == targets[..m] + [box];
  }

  /** Extending the prefix of the unit by one cell adds that cell to its own string's group. */
  lemma GroupExtend(values: Board, unit: seq<Cell>, i: nat)
    requires IsBoard(values) && i < |unit|
    ensures forall v ::
      Group(values, unit[..i + 1], v) == Group(values, unit[..i], v) + (if values[unit[i]] == v then {unit[i]} else {})
  {
    assert unit[..i + 1] == unit[..i] + [unit[i]];
  }

  /** Extending the prefix of the unit by one cell adds its string to the keys when it has the
      right length and is new. */
  lemma KeysExtend(values: Board, unit: seq<Cell>, i: nat, length: nat)
    requires IsBoard(values) && i < |unit|
    ensures var keys := FirstOccurrences(StringsOfLength(values, unit[..i], length));
      FirstOccurrences(StringsOfLength(values, unit[..i + 1], length)) ==
        if |values[unit[i]]| == length && values[unit[i]] !in keys then keys + [values[unit[i]]] else keys
  {
    var strings := StringsOfLength(values, unit[..i], length);
    assert unit[..i + 1][..i] == unit[..i];
    if |values[unit[i]]| == length {
      assert StringsOfLength(values, unit[..i + 1], length) == strings + [values[unit[i]]];
      assert (strings + [values[unit[i]]])[..|strings|] == strings;
    }
  }

  /** (a, b) comes no later than (c, d) in the order of Python's tuples `(len(values[s]), s)`:
      fewer candidates first, then the smaller cell name, that is row, then column. */
  predicate RanksFirst(values: Board, a: Cell, b: Cell)
    requires a in values && b in values
  {
    |values[a]| < |values[b]| ||
    (|values[a]| == |values[b]| && (a.row < b.row || (a.row == b.row && a.col <= b.col)))
  }

  /** `min([(len(values[s]), s) for s in boxes if len(values[s]) > 1])[1]`, over `cells`. */
  function FewestCandidates(values: Board, cells: seq<Cell>): (r: Cell)
    requires IsBoard(values)
    requires exists c :: c in cells && |values[c]| > 1
    ensures r in cells && |values[r]| > 1
    ensures forall c :: c in cells && |values[c]| > 1 ==> RanksFirst(values, r, c)
    decreases |cells|
  {
    var head := cells[0];
    if !exists c :: c in cells[1..] && |values[c]| > 1 then
      assert cells == [head] + cells[1..];
      head
    else
      var best := FewestCandidates(values, cells[1..]);
      assert cells == [head] + cells[1..];
      if |values[head]| > 1 && RanksFirst(values, head, best) then head else best
  }

  /** `search(values)`: reduce; fail if that fails; return the board if every cell is solved;
      otherwise branch on the unsolved cell with the fewest candidates. */
  method Search(values: Board) returns (r: Option<Board>)
    requires IsBoard(values) && DigitsOnly(values)
    ensures r.Some? ==> IsBoard(r.value) && AllSolved(r.value) && Narrower(r.value, values)
    ensures r.Some? ==> IsSolution(SolutionOf(r.value)) && Consistent(values, SolutionOf(r.value))
    ensures (exists S :: IsSolution(S) && Consistent(values, S)) ==> r.Some?
    decreases 81 - SolvedCount(values), 2
  {
    SolvedCountAll(values);
    var puzzle := new Puzzle(values);
    var ok := puzzle.ReducePuzzleCorrected();
    if !ok {
      return None;
    }
    var reduced := puzzle.values;
    DigitsOnlyNarrower(reduced, values);
    AllSolvedByCells(reduced);
    if forall c | c in AllCells() :: |reduced[c]| == 1 {
      SolvedBoardIsSolution(reduced);
      ConsistentWiden(reduced, values, SolutionOf(reduced));
      return Some(reduced);
    }
    SolvedCountMonotone(reduced, values, AllCells());
    r := Branch(reduced, FewestCandidates(reduced, AllCells()));
    if r.Some? {
      NarrowerTransitive(r.value, reduced, values);
      ConsistentWiden(reduced, values, SolutionOf(r.value));
    }
  }

  /** The branching loop of search: the digits of cell s are tried in order, and the first
      branch that succeeds is returned; when every branch fails the loop falls through. */
  method Branch(values: Board, s: Cell) returns (r: Option<Board>)
    requires IsBoard(values) && DigitsOnly(values) && NoEmptyCell(values) && |values[s]| > 1
    ensures r.Some? ==> IsBoard(r.value) && AllSolved(r.value) && Narrower(r.value, values)
    ensures r.Some? ==> IsSolution(SolutionOf(r.value)) && Consistent(values, SolutionOf(r.value))
    ensures r.Some? ==> exists i :: FirstAllowed(values, s, i) && r.value[s] == [values[s][i]]
    ensures r.Some? <==> exists S :: IsSolution(S) && Consistent(values, S)
    decreases 81 - SolvedCount(values), 1
  {
    var digits := values[s];
    for i := 0 to |digits|
      invariant forall j :: 0 <= j < i ==> !AllowsAt(values, s, digits[j])
    {
      var attempt := TryDigit(values, s, digits[i]);
      if attempt.Some? {
        assert FirstAllowed(values, s, i);
        return attempt;
      }
    }
    SomeDigitAllows(values, s);
    return None;
  }

  /** Some solution the board allows puts d in cell s. */
  ghost predicate AllowsAt(values: Board, s: Cell, d: char)
  {
    exists S :: IsSolution(S) && Consistent(values, S) && s in S && S[s] == d
  }

  /** The i-th digit cell s lists is the first of them that some solution the board allows puts
      in that cell. */
  ghost predicate FirstAllowed(values: Board, s: Cell, i: int)
  {
    s in values && 0 <= i < |values[s]| && AllowsAt(values, s, values[s][i]) &&
    forall j :: 0 <= j < i ==> !AllowsAt(values, s, values[s][j])
  }

  /** A board that allows a solution allows it with one of the digits that cell s lists. */
  lemma SomeDigitAllows(values: Board, s: Cell)
    requires IsBoard(values)
    ensures (exists S :: IsSolution(S) && Consistent(values, S)) ==>
      exists j :: 0 <= j < |values[s]| && AllowsAt(values, s, values[s][j])
  {
    if S :| IsSolution(S) && Consistent(values, S) {
      assert S[s] in values[s];
      var j :| 0 <= j < |values[s]| && values[s][j] == S[s];
      assert AllowsAt(values, s, values[s][j]);
    }
  }

  /** One branch: `new_sudoku = values.copy(); new_sudoku[s] = value; attempt = search(new_sudoku)`. */
  method TryDigit(values: Board, s: Cell, d: char) returns (r: Option<Board>)
    requires IsBoard(values) && DigitsOnly(values) && NoEmptyCell(values)
    requires |values[s]| > 1 && d in values[s]
    ensures r.Some? ==> IsBoard(r.value) && AllSolved(r.value) && Narrower(r.value, values)
    ensures r.Some? ==> IsSolution(SolutionOf(r.value)) && Consistent(values, SolutionOf(r.value))
    ensures r.Some? ==> r.value[s] == [d]
    ensures r.None? <==> !AllowsAt(values, s, d)
    decreases 81 - SolvedCount(values), 0
  {
    var newSudoku := values[s := [d]];
    assert Narrower(newSudoku, values) && NoEmptyCell(newSudoku);
    DigitsOnlyNarrower(newSudoku, values);
    AllCellsComplete(s);
    SolvedCountGrows(newSudoku, values, AllCells(), s);
    SolvedCountAll(newSudoku);
    r := Search(newSudoku);
    if r.Some? {
      NarrowerTransitive(r.value, newSudoku, values);
      ConsistentWiden(newSudoku, values, SolutionOf(r.value));
      SingletonWithin(r.value[s], newSudoku[s]);
      assert SolutionOf(r.value)[s] == d;
    } else {
      forall S | IsSolution(S) && Consistent(values, S) && s in S && S[s] == d
        ensures Consistent(newSudoku, S)
      {
      }
    }
  }

  /** The given digits of a grid: every cell whose character is a digit holds that digit. */
  ghost predicate KeepsGivens(grid: string, s: Solution)
    requires |grid| == 81
  {
    forall c: Cell :: grid[9 * c.row + c.col] in Digits() ==> c in s && s[c] == grid[9 * c.row + c.col]
  }

  /** The board grid2values produces, which is not part of this model: a digit stays as the
      cell's only candidate, any other character (the examples use '.') allows every digit. */
  function GridValues(grid: string): (r: Board)
    requires |grid| == 81
    ensures IsBoard(r) && DigitsOnly(r)
  {
    var r := map c | c in AllCells() ::
      if grid[9 * c.row + c.col] in Digits() then [grid[9 * c.row + c.col]] else Digits();
    forall c: Cell ensures c in r {
      AllCellsComplete(c);
    }
    r
  }

  /** The entry of one cell in the board of a grid. */
  lemma GridValuesAt(grid: string, c: Cell)
    requires |grid| == 81
    ensures c in GridValues(grid)
    ensures GridValues(grid)[c] ==
      if grid[9 * c.row + c.col] in Digits() then [grid[9 * c.row + c.col]] else Digits()
  {
    AllCellsComplete(c);
  }

  /** The board of a grid allows exactly the solutions that keep the grid's given digits. */
  lemma GridValuesAllows(grid: string, s: Solution)
    requires |grid| == 81 && IsSolution(s)
    ensures Consistent(GridValues(grid), s) <==> KeepsGivens(grid, s)
  {
    var values := GridValues(grid);
    if Consistent(values, s) {
      forall c: Cell | grid[9 * c.row + c.col] in Digits() ensures c in s && s[c] == grid[9 * c.row + c.col] {
        GridValuesAt(grid, c);
      }
    }
    if KeepsGivens(grid, s) {
      forall c | c in values ensures c in s && s[c] in values[c] {
        GridValuesAt(grid, c);
      }
    }
  }

  /** `solve(grid)`: search from the board of the grid. */
  method Solve(grid: string) returns (r: Option<Board>)
    requires |grid| == 81
    ensures r.Some? ==> IsBoard(r.value) && AllSolved(r.value)
    ensures r.Some? ==> IsSolution(SolutionOf(r.value)) && KeepsGivens(grid, SolutionOf(r.value))
    ensures (exists S :: IsSolution(S) && KeepsGivens(grid, S)) ==> r.Some?
  {
    var values := GridValues(grid);
    r := Search(values);
    forall S | IsSolution(S) ensures Consistent(values, S) <==> KeepsGivens(grid, S) {
      GridValuesAllows(grid, S);
    }
  }
}
