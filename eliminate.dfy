/** The eliminate strategy (solution.py, lines 63-83): the digit of every cell that is solved
    when the strategy starts is removed from each of that cell's peers. */
module EliminateRule {
  import opened Units
  import opened Boards

  /** The board with the string t deleted from the candidates of every cell in `cells`. */
  function ReplaceIn(values: Board, cells: set<Cell>, t: string): (r: Board)
    requires IsBoard(values)
    ensures IsBoard(r) && Narrower(r, values)
  {
    forall c | c in values ensures Within(Replace(values[c], t), values[c]) {
      ReplaceShrinks(values[c], t);
    }
    map c | c in values :: if c in cells then Replace(values[c], t) else values[c]
  }

  /** Deleting from one more cell updates that cell alone. */
  lemma ReplaceInStep(values: Board, cells: set<Cell>, t: string, c: Cell)
    requires IsBoard(values) && c !in cells
    ensures ReplaceIn(values, cells + {c}, t) == ReplaceIn(values, cells, t)[c := Replace(values[c], t)]
  {
  }

  /** One turn of the outer loop: each peer of `box` loses the string `box` holds now. */
  function EliminateBox(values: Board, box: Cell): (r: Board)
    requires IsBoard(values)
    ensures IsBoard(r) && Narrower(r, values)
    ensures r[box] == values[box]
  {
    PeersSymmetric(box, box);
    ReplaceIn(values, Peers(box), values[box])
  }

  /** The outer loop run over `boxes`, in order. */
  function EliminateAll(values: Board, boxes: seq<Cell>): (r: Board)
    requires IsBoard(values)
    ensures IsBoard(r) && Narrower(r, values)
    decreases |boxes|
  {
    if boxes == [] then values
    else
      var before := EliminateAll(values, boxes[..|boxes| - 1]);
      NarrowerTransitive(EliminateBox(before, boxes[|boxes| - 1]), before, values);
      EliminateBox(before, boxes[|boxes| - 1])
  }

  /** Running the outer loop over one more box adds that box's turn. */
  lemma EliminateAllStep(values: Board, boxes: seq<Cell>, i: nat)
    requires IsBoard(values) && i < |boxes|
    ensures EliminateAll(values, boxes[..i + 1]) == EliminateBox(EliminateAll(values, boxes[..i]), boxes[i])
  {
    assert boxes[..i + 1][..i] == boxes[..i];
  }

  lemma EliminateAllWhole(values: Board, boxes: seq<Cell>)
    requires IsBoard(values)
    ensures EliminateAll(values, boxes[..|boxes|]) == EliminateAll(values, boxes)
  {
    assert boxes[..|boxes|] == boxes;
  }

  /** `eliminate(values)`: the loop runs over the cells solved on entry, in key order. */
  function Eliminated(values: Board): Board
    requires IsBoard(values)
  {
    EliminateAll(values, SolvedCells(values))
  }

  /** eliminate only removes candidates: same cells, each candidate string narrowed. */
  lemma EliminatedNarrows(values: Board)
    requires IsBoard(values)
    ensures IsBoard(Eliminated(values)) && Narrower(Eliminated(values), values)
  {
  }

  /** The turn of a cell that holds one digit d at that moment removes d from all its peers. */
  lemma EliminateBoxClears(values: Board, box: Cell, d: char)
    requires IsBoard(values) && values[box] == [d]
    ensures forall p :: p in Peers(box) ==> d !in EliminateBox(values, box)[p]
  {
    forall p | p in Peers(box) ensures d !in EliminateBox(values, box)[p] {
      ReplaceDigit(values[p], d);
    }
  }

  /** A candidate string of at most one character that still shares a character with a
      one-character string is that string. */
  lemma SingletonWithin(s: string, t: string)
    requires |t| <= 1 && |s| == 1 && Within(s, t)
    ensures s == t
  {
    assert s[0] in t;
  }

  /** Over a run of cells that each held at most one candidate on entry, a cell of the run
      that is still solved at the end has its digit absent from all its peers. */
  lemma {:induction false} EliminateAllClears(values: Board, boxes: seq<Cell>, box: Cell)
    requires IsBoard(values)
    requires forall b :: b in boxes ==> |values[b]| <= 1
    requires box in boxes && |EliminateAll(values, boxes)[box]| == 1
    ensures forall p :: p in Peers(box) ==>
      EliminateAll(values, boxes)[box][0] !in EliminateAll(values, boxes)[p]
    decreases |boxes|
  {
    var prefix := boxes[..|boxes| - 1];
    var last := boxes[|boxes| - 1];
    var before := EliminateAll(values, prefix);
    var after := EliminateAll(values, boxes);
    assert after == EliminateBox(before, last);
    var d := after[box][0];
    if box == last {
      SingletonWithin(after[box], before[box]);
      EliminateBoxClears(before, box, d);
    } else {
      assert box in prefix;
      forall b | b in prefix ensures |values[b]| <= 1 {
        assert b in boxes;
      }
      assert |before[box]| <= |values[box]| <= 1;
      SingletonWithin(after[box], before[box]);
      EliminateAllClears(values, prefix, box);
    }
  }

  /** After eliminate, a cell that holds the single digit d both on entry and on exit has d
      absent from every one of its peers. */
  lemma EliminatedClearsPeers(values: Board, box: Cell, d: char)
    requires IsBoard(values)
    requires values[box] == [d] && Eliminated(values)[box] == [d]
    ensures forall p :: p in Peers(box) ==> d !in Eliminated(values)[p]
  {
    AllCellsComplete(box);
    EliminateAllClears(values, SolvedCells(values), box);
  }

  /** One turn keeps every solution the board allows: the cell holds that solution's digit,
      and its peers hold other digits. */
  lemma EliminateBoxSound(values: Board, box: Cell, s: Solution)
    requires IsBoard(values) && IsSolution(s) && Consistent(values, s)
    requires |values[box]| <= 1
    ensures Consistent(EliminateBox(values, box), s)
  {
    assert s[box] in values[box];
    assert values[box] == [s[box]];
    var r := EliminateBox(values, box);
    forall p | p in Peers(box) ensures s[p] in r[p] {
      SolutionPeersDiffer(s, box, p);
      ReplaceDigit(values[p], s[box]);
    }
  }

  lemma {:induction false} EliminateAllSound(values: Board, boxes: seq<Cell>, s: Solution)
    requires IsBoard(values) && IsSolution(s) && Consistent(values, s)
    requires forall b :: b in boxes ==> |values[b]| <= 1
    ensures Consistent(EliminateAll(values, boxes), s)
    decreases |boxes|
  {
    if boxes != [] {
      var prefix := boxes[..|boxes| - 1];
      var last := boxes[|boxes| - 1];
      forall b | b in prefix ensures |values[b]| <= 1 {
        assert b in boxes;
      }
      EliminateAllSound(values, prefix, s);
      assert |EliminateAll(values, prefix)[last]| <= |values[last]|;
      EliminateBoxSound(EliminateAll(values, prefix), last, s);
    }
  }

  /** eliminate never removes the digit that a solution allowed by the board puts in a cell. */
  lemma EliminatedSound(values: Board, s: Solution)
    requires IsBoard(values) && IsSolution(s) && Consistent(values, s)
    ensures Consistent(Eliminated(values), s)
  {
    EliminateAllSound(values, SolvedCells(values), s);
  }
}
