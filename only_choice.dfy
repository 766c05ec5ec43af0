/** The only-choice strategy (solution.py, lines 85-111): for every unit and every digit, a
    digit that only one cell of the unit still lists is assigned to that cell. */
module OnlyChoiceRule {
  import opened Units
  import opened Boards

  /** `dplaces = [box for box in unit if digit in values[box]]` */
  function Places(values: Board, unit: seq<Cell>, digit: char): (r: seq<Cell>)
    requires IsBoard(values)
    ensures forall c :: c in r <==> c in unit && digit in values[c]
  {
    if unit == [] then []
    else if digit in values[unit[0]] then [unit[0]] + Places(values, unit[1..], digit)
    else
      assert unit == [unit[0]] + unit[1..];
      Places(values, unit[1..], digit)
  }

  /** One turn of the inner loop: if exactly one cell of the unit lists the digit, it becomes
      that cell's only candidate. */
  function ChooseDigit(values: Board, unit: seq<Cell>, digit: char): (r: Board)
    requires IsBoard(values)
    ensures IsBoard(r) && Narrower(r, values)
  {
    var places := Places(values, unit, digit);
    if |places| == 1 then
      assert places[0] in places;
      values[places[0] := [digit]]
    else values
  }

  /** The inner loop over the first j digits, for unit k. */
  function ChooseInUnit(values: Board, k: nat, j: nat): (r: Board)
    requires IsBoard(values) && k < |UnitList()| && j <= |Digits()|
    ensures IsBoard(r) && Narrower(r, values)
  {
    if j == 0 then values
    else
      var before := ChooseInUnit(values, k, j - 1);
      NarrowerTransitive(ChooseDigit(before, UnitList()[k], Digits()[j - 1]), before, values);
      ChooseDigit(before, UnitList()[k], Digits()[j - 1])
  }

  /** The outer loop over the first k units. */
  function ChooseInUnits(values: Board, k: nat): (r: Board)
    requires IsBoard(values) && k <= |UnitList()|
    ensures IsBoard(r) && Narrower(r, values)
  {
    if k == 0 then values
    else
      var before := ChooseInUnits(values, k - 1);
      NarrowerTransitive(ChooseInUnit(before, k - 1, |Digits()|), before, values);
      ChooseInUnit(before, k - 1, |Digits()|)
  }

  /** `only_choice(values)` */
  function OnlyChosen(values: Board): Board
    requires IsBoard(values)
  {
    ChooseInUnits(values, |UnitList()|)
  }

  /** c holds only d, and no other cell of unit k lists d. */
  ghost predicate OnlyPlace(values: Board, k: nat, c: Cell, d: char)
    requires IsBoard(values) && k < |UnitList()|
  {
    values[c] == [d] && c in UnitList()[k] &&
    forall x :: x in UnitList()[k] && x != c ==> d !in values[x]
  }

  /** Every cell where `after` differs from `before` holds a single digit that it listed in
      `before`, and is the only cell of some unit listing that digit. */
  ghost predicate ChangesJustified(after: Board, before: Board)
    requires IsBoard(after) && IsBoard(before)
  {
    Narrower(after, before) &&
    forall c :: c in after && after[c] != before[c] ==>
      |after[c]| == 1 && exists k :: 0 <= k < |UnitList()| && OnlyPlace(after, k, c, after[c][0])
  }

  lemma ChooseDigitJustified(values: Board, before: Board, k: nat, d: char)
    requires IsBoard(values) && IsBoard(before) && k < |UnitList()|
    requires ChangesJustified(values, before)
    ensures ChangesJustified(ChooseDigit(values, UnitList()[k], d), before)
  {
    var u := UnitList()[k];
    var places := Places(values, u, d);
    var r := ChooseDigit(values, u, d);
    if |places| == 1 {
      var b := places[0];
      assert b in places;
      assert r == values[b := [d]];
      NarrowerTransitive(r, values, before);
      forall c | c in r && r[c] != before[c]
        ensures |r[c]| == 1 && exists k' :: 0 <= k' < |UnitList()| && OnlyPlace(r, k', c, r[c][0])
      {
        if c == b {
          forall x | x in u && x != b ensures d !in r[x] {
            assert x !in places;
          }
          assert r[c] == [d] && r[c][0] == d;
          assert OnlyPlace(r, k, c, d);
        } else {
          assert r[c] == values[c] && values[c] != before[c];
          var k' :| 0 <= k' < |UnitList()| && OnlyPlace(values, k', c, values[c][0]);
          var e := values[c][0];
          forall x | x in UnitList()[k'] && x != c ensures e !in r[x] {
            if x == b {
              assert e !in values[b] && d in values[b];
            }
          }
          assert OnlyPlace(r, k', c, r[c][0]);
        }
      }
    }
  }

  lemma {:induction false} ChooseInUnitJustified(values: Board, before: Board, k: nat, j: nat)
    requires IsBoard(values) && IsBoard(before) && k < |UnitList()| && j <= |Digits()|
    requires ChangesJustified(values, before)
    ensures ChangesJustified(ChooseInUnit(values, k, j), before)
  {
    if j > 0 {
      ChooseInUnitJustified(values, before, k, j - 1);
      ChooseDigitJustified(ChooseInUnit(values, k, j - 1), before, k, Digits()[j - 1]);
    }
  }

  lemma {:induction false} ChooseInUnitsJustified(values: Board, k: nat)
    requires IsBoard(values) && k <= |UnitList()|
    ensures ChangesJustified(ChooseInUnits(values, k), values)
  {
    if k > 0 {
      ChooseInUnitsJustified(values, k - 1);
      ChooseInUnitJustified(ChooseInUnits(values, k - 1), values, k - 1, |Digits()|);
    }
  }

  /** only_choice changes a cell only by setting it to a single digit it already listed, and
      only when that cell is then the one cell of some unit listing the digit; every other cell
      keeps its candidates. */
  lemma OnlyChosenJustified(values: Board)
    requires IsBoard(values)
    ensures Narrower(OnlyChosen(values), values)
    ensures forall c :: c in values && OnlyChosen(values)[c] != values[c] ==>
      |OnlyChosen(values)[c]| == 1 && OnlyChosen(values)[c][0] in values[c] &&
      exists k :: 0 <= k < |UnitList()| && OnlyPlace(OnlyChosen(values), k, c, OnlyChosen(values)[c][0])
  {
    ChooseInUnitsJustified(values, |UnitList()|);
    var r := OnlyChosen(values);
    forall c | c in values && r[c] != values[c] ensures r[c][0] in values[c] {
      assert r[c][0] in r[c];
    }
  }

  /** A digit listed by a single cell of a unit must be that cell's digit in every solution
      the board allows, since every unit holds every digit. */
  lemma ChooseDigitSound(values: Board, k: nat, j: nat, s: Solution)
    requires IsBoard(values) && k < |UnitList()| && j < |Digits()|
    requires Consistent(values, s) && AllDigits(s, UnitList()[k])
    ensures Consistent(ChooseDigit(values, UnitList()[k], Digits()[j]), s)
  {
    var u := UnitList()[k];
    var d := Digits()[j];
    var places := Places(values, u, d);
    if |places| == 1 {
      assert d in Digits();
      var i :| 0 <= i < |u| && s[u[i]] == d;
      assert u[i] in places;
    }
  }

  lemma {:induction false} ChooseInUnitSound(values: Board, k: nat, j: nat, s: Solution)
    requires IsBoard(values) && k < |UnitList()| && j <= |Digits()|
    requires Consistent(values, s) && AllDigits(s, UnitList()[k])
    ensures Consistent(ChooseInUnit(values, k, j), s)
  {
    if j > 0 {
      ChooseInUnitSound(values, k, j - 1, s);
      ChooseDigitSound(ChooseInUnit(values, k, j - 1), k, j - 1, s);
    }
  }

  lemma {:induction false} ChooseInUnitsSound(values: Board, k: nat, s: Solution)
    requires IsBoard(values) && k <= |UnitList()|
    ensures IsSolution(s) && Consistent(values, s) ==> Consistent(ChooseInUnits(values, k), s)
  {
    if k > 0 && IsSolution(s) && Consistent(values, s) {
      ChooseInUnitsSound(values, k - 1, s);
      assert AllDigits(s, UnitList()[k - 1]);
      ChooseInUnitSound(ChooseInUnits(values, k - 1), k - 1, |Digits()|, s);
    }
  }

  /** only_choice never removes the digit that a solution allowed by the board puts in a cell. */
  lemma OnlyChosenSound(values: Board, s: Solution)
    requires IsBoard(values) && IsSolution(s) && Consistent(values, s)
    ensures Consistent(OnlyChosen(values), s)
  {
    ChooseInUnitsSound(values, |UnitList()|, s);
  }
}
