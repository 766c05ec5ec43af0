/** The naked-twins strategy (solution.py, lines 20-61 and 191-206): within a unit, two or
    more cells holding the same two-candidate string take those two digits between them, so
    every other unsolved cell of the unit loses both. */
module NakedTwinsRule {
  import opened Units
  import opened Boards

  /** One entry of get_unit_naked_twins' result: the cells of a group and the candidate string
      they share.  The source lists the cells of a Python set, in no particular order; they
      are only ever tested for membership, so the model keeps the set. */
  datatype Twins = Twins(cells: set<Cell>, digits: string)

  /** The candidate strings of length `length` held by the cells of `unit`, in unit order and
      with repetitions: the keys the loop hands to `setdefault`. */
  function StringsOfLength(values: Board, unit: seq<Cell>, length: nat): seq<string>
    requires IsBoard(values)
    decreases |unit|
  {
    if unit == [] then []
    else
      var init := StringsOfLength(values, unit[..|unit| - 1], length);
      var c := unit[|unit| - 1];
      if |values[c]| == length then init + [values[c]] else init
  }

  /** The keys offered to `setdefault` are the strings of the right length held in the unit. */
  lemma {:induction false} StringsOfLengthMembers(values: Board, unit: seq<Cell>, length: nat)
    requires IsBoard(values)
    ensures forall v :: v in StringsOfLength(values, unit, length) <==>
      |v| == length && exists c :: c in unit && values[c] == v
    decreases |unit|
  {
    if unit != [] {
      StringsOfLengthMembers(values, unit[..|unit| - 1], length);
      assert unit == unit[..|unit| - 1] + [unit[|unit| - 1]];
    }
  }

  /** The distinct elements of s in order of first occurrence: the key order of a dict that
      is filled by `setdefault`. */
  function FirstOccurrences(s: seq<string>): seq<string>
    decreases |s|
  {
    if s == [] then []
    else
      var init := FirstOccurrences(s[..|s| - 1]);
      if s[|s| - 1] in init then init else init + [s[|s| - 1]]
  }

  /** The keys of such a dict are the strings offered, each once. */
  lemma {:induction false} FirstOccurrencesMembers(s: seq<string>)
    ensures forall v :: v in FirstOccurrences(s) <==> v in s
    ensures forall i, j :: 0 <= i < j < |FirstOccurrences(s)| ==> FirstOccurrences(s)[i] != FirstOccurrences(s)[j]
    decreases |s|
  {
    if s != [] {
      FirstOccurrencesMembers(s[..|s| - 1]);
      assert s == s[..|s| - 1] + [s[|s| - 1]];
    }
  }

  /** `inv_dict[v]`: the cells of the unit whose candidate string is exactly v. */
  function Group(values: Board, unit: seq<Cell>, v: string): set<Cell>
    requires IsBoard(values)
  {
    set c | c in unit && values[c] == v
  }

  /** The closing comprehension of get_unit_naked_twins over the keys `keys`: a key whose
      group has at least two cells yields the pair (group, key). */
  function GroupsOfTwo(values: Board, unit: seq<Cell>, keys: seq<string>): seq<Twins>
    requires IsBoard(values)
    decreases |keys|
  {
    if keys == [] then []
    else
      var init := GroupsOfTwo(values, unit, keys[..|keys| - 1]);
      var v := keys[|keys| - 1];
      if |Group(values, unit, v)| > 1 then init + [Twins(Group(values, unit, v), v)] else init
  }

  /** A pair is reported exactly for a key whose group has more than one cell, with that whole
      group as its cells; distinct keys give distinct strings. */
  lemma {:induction false} GroupsOfTwoMembers(values: Board, unit: seq<Cell>, keys: seq<string>)
    requires IsBoard(values)
    ensures forall t :: t in GroupsOfTwo(values, unit, keys) <==>
      t.digits in keys && t.cells == Group(values, unit, t.digits) && |t.cells| > 1
    ensures (forall i, j :: 0 <= i < j < |keys| ==> keys[i] != keys[j]) ==>
      forall i, j :: 0 <= i < j < |GroupsOfTwo(values, unit, keys)| ==>
        GroupsOfTwo(values, unit, keys)[i].digits != GroupsOfTwo(values, unit, keys)[j].digits
    decreases |keys|
  {
    if keys != [] {
      var init := keys[..|keys| - 1];
      var v := keys[|keys| - 1];
      GroupsOfTwoMembers(values, unit, init);
      assert keys == init + [v];
    }
  }

  /** `get_unit_naked_twins(unit, values, length)` */
  function UnitTwins(values: Board, unit: seq<Cell>, length: nat): seq<Twins>
    requires IsBoard(values)
  {
    GroupsOfTwo(values, unit, FirstOccurrences(StringsOfLength(values, unit, length)))
  }

  /** A pair is reported for a unit exactly when its string has the requested length and is
      held by at least two cells of the unit, the pair's cells being all of those cells; and
      no string is reported twice. */
  lemma UnitTwinsCharacterized(values: Board, unit: seq<Cell>, length: nat)
    requires IsBoard(values)
    ensures forall t :: t in UnitTwins(values, unit, length) <==>
      |t.digits| == length && t.cells == Group(values, unit, t.digits) && |t.cells| > 1
    ensures forall i, j :: 0 <= i < j < |UnitTwins(values, unit, length)| ==>
      UnitTwins(values, unit, length)[i].digits != UnitTwins(values, unit, length)[j].digits
  {
    var keys := FirstOccurrences(StringsOfLength(values, unit, length));
    StringsOfLengthMembers(values, unit, length);
    FirstOccurrencesMembers(StringsOfLength(values, unit, length));
    GroupsOfTwoMembers(values, unit, keys);
    forall t: Twins | |t.digits| == length && t.cells == Group(values, unit, t.digits) && |t.cells| > 1
      ensures t.digits in keys
    {
      var c :| c in t.cells;
      assert c in unit && values[c] == t.digits;
    }
    forall t | t in UnitTwins(values, unit, length) ensures |t.digits| == length {
      assert t.digits in StringsOfLength(values, unit, length);
    }
  }

  /** `for digit in ds: s = s.replace(digit, '')` */
  function RemoveDigits(s: string, ds: string): (r: string)
    ensures |r| <= |s|
    ensures forall ch :: ch in r <==> ch in s && ch !in ds
    decreases |ds|
  {
    if ds == [] then s
    else
      var init := RemoveDigits(s, ds[..|ds| - 1]);
      var d := ds[|ds| - 1];
      assert ds == ds[..|ds| - 1] + [d];
      ReplaceDigit(init, d);
      ReplaceShrinks(init, [d]);
      Replace(init, [d])
  }

  /** A string that lists none of ds is left as it is. */
  lemma {:induction false} RemoveDigitsNone(s: string, ds: string)
    requires forall ch :: ch in s ==> ch !in ds
    ensures RemoveDigits(s, ds) == s
    decreases |ds|
  {
    if ds != [] {
      var d := ds[|ds| - 1];
      assert d in ds;
      RemoveDigitsNone(s, ds[..|ds| - 1]);
      ReplaceAbsent(s, d);
    }
  }

  /** `[e for e in unit if e not in twin[0] and len(values[e]) > 1]` */
  function Targets(values: Board, unit: seq<Cell>, t: Twins): (r: seq<Cell>)
    requires IsBoard(values)
    ensures forall c :: c in r <==> c in unit && c !in t.cells && |values[c]| > 1
    decreases |unit|
  {
    if unit == [] then []
    else if unit[0] !in t.cells && |values[unit[0]]| > 1 then [unit[0]] + Targets(values, unit[1..], t)
    else
      assert unit == [unit[0]] + unit[1..];
      Targets(values, unit[1..], t)
  }

  /** One turn of the loop over the pairs: every target of the pair loses each of its digits. */
  function RemoveTwin(values: Board, unit: seq<Cell>, t: Twins): (r: Board)
    requires IsBoard(values)
    ensures IsBoard(r) && Narrower(r, values)
    ensures forall c :: c in values && (c !in unit || c in t.cells || |values[c]| <= 1) ==>
      r[c] == values[c]
    ensures forall c, ch :: c in unit && c !in t.cells && |values[c]| > 1 ==>
      (ch in r[c] <==> ch in values[c] && ch !in t.digits)
  {
    map c | c in values ::
      if c in Targets(values, unit, t) then RemoveDigits(values[c], t.digits) else values[c]
  }

  /** `eliminate_naked_twins_from_peers(unit, values, nakedtwins)`: the pairs are handled in
      turn, each on the board the previous ones left. */
  function RemoveTwins(values: Board, unit: seq<Cell>, twins: seq<Twins>): (r: Board)
    requires IsBoard(values)
    ensures IsBoard(r) && Narrower(r, values)
    ensures forall c :: c in values && c !in unit ==> r[c] == values[c]
    decreases |twins|
  {
    if twins == [] then values
    else
      var before := RemoveTwins(values, unit, twins[..|twins| - 1]);
      var after := RemoveTwin(before, unit, twins[|twins| - 1]);
      NarrowerTransitive(after, before, values);
      after
  }

  /** One turn of naked_twins' loop: the pairs of unit k are all found on the board as the
      turn starts, and only then removed. */
  function NakedTwinsAt(values: Board, k: nat): (r: Board)
    requires IsBoard(values) && k < |UnitList()|
    ensures IsBoard(r) && Narrower(r, values)
  {
    RemoveTwins(values, UnitList()[k], UnitTwins(values, UnitList()[k], 2))
  }

  /** The loop over the first k units of the unit list. */
  function NakedTwinsUnits(values: Board, k: nat): (r: Board)
    requires IsBoard(values) && k <= |UnitList()|
    ensures IsBoard(r) && Narrower(r, values)
  {
    if k == 0 then values
    else
      var before := NakedTwinsUnits(values, k - 1);
      NarrowerTransitive(NakedTwinsAt(before, k - 1), before, values);
      NakedTwinsAt(before, k - 1)
  }

  /** `naked_twins(values)` */
  function NakedTwinsApplied(values: Board): Board
    requires IsBoard(values)
  {
    NakedTwinsUnits(values, |UnitList()|)
  }

  /** A set of more than one cell has two different members. */
  lemma TwoMembers(cells: set<Cell>) returns (x: Cell, y: Cell)
    requires |cells| > 1
    ensures x in cells && y in cells && x != y
  {
    x :| x in cells;
    assert |cells - {x}| == |cells| - 1;
    y :| y in cells - {x};
  }

  /** A reported pair has two different cells of the unit holding its two-character string. */
  lemma TwinCells(values: Board, u: seq<Cell>, t: Twins) returns (x: Cell, y: Cell)
    requires IsBoard(values) && t in UnitTwins(values, u, 2)
    ensures x != y && x in u && y in u && x in t.cells && y in t.cells
    ensures values[x] == t.digits && values[y] == t.digits && |t.digits| == 2
  {
    UnitTwinsCharacterized(values, u, 2);
    x, y := TwoMembers(t.cells);
  }

  /** When exactly two cells x and y of a unit share a two-candidate string and no other
      pair of cells of the unit shares one, the unit reports that one pair. */
  lemma SingleGroupTwins(values: Board, u: seq<Cell>, x: Cell, y: Cell)
    requires IsBoard(values)
    requires x != y && x in u && y in u
    requires values[x] == values[y] && |values[x]| == 2
    requires forall c, c' ::
      (c in u && c' in u && c != c' && |values[c]| == 2 && values[c] == values[c'])
      ==> c in {x, y}
    ensures UnitTwins(values, u, 2) == [Twins({x, y}, values[x])]
  {
    var twins := UnitTwins(values, u, 2);
    var single := Twins({x, y}, values[x]);
    GroupIsPair(values, u, x, y);
    UnitTwinsCharacterized(values, u, 2);
    forall t | t in twins ensures t == single {
      var c, c' := TwinCells(values, u, t);
      assert c in {x, y};
      assert t.digits == values[x];
    }
    assert single in twins;
    if |twins| > 1 {
      FirstTwoDiffer(twins);
    }
  }

  /** In a list of pairs with pairwise different strings, the first two entries differ. */
  lemma FirstTwoDiffer(twins: seq<Twins>)
    requires |twins| > 1
    requires forall i, j :: 0 <= i < j < |twins| ==> twins[i].digits != twins[j].digits
    ensures twins[0] in twins && twins[1] in twins && twins[0] != twins[1]
  {
  }

  /** The only cells of the unit holding the string of x are x and y. */
  lemma GroupIsPair(values: Board, u: seq<Cell>, x: Cell, y: Cell)
    requires IsBoard(values)
    requires x != y && x in u && y in u
    requires values[x] == values[y] && |values[x]| == 2
    requires forall c, c' ::
      (c in u && c' in u && c != c' && |values[c]| == 2 && values[c] == values[c'])
      ==> c in {x, y}
    ensures Group(values, u, values[x]) == {x, y}
  {
    forall c | c in u && values[c] == values[x] ensures c in {x, y} {
      if c != x {
        assert c in {x, y};
      }
    }
  }

  /** When exactly two cells x and y of unit k share a two-candidate string and no other
      pair of cells of the unit shares one, the unit's turn leaves x, y and every cell
      outside the unit as they were, and every other unsolved cell of the unit loses exactly
      the two digits of x and y. */
  lemma NakedTwinsSingleGroup(values: Board, k: nat, x: Cell, y: Cell)
    requires IsBoard(values) && k < |UnitList()|
    requires x != y && x in UnitList()[k] && y in UnitList()[k]
    requires values[x] == values[y] && |values[x]| == 2
    requires forall c, c' ::
      (c in UnitList()[k] && c' in UnitList()[k] && c != c' && |values[c]| == 2 && values[c] == values[c'])
      ==> c in {x, y}
    ensures NakedTwinsAt(values, k)[x] == values[x] && NakedTwinsAt(values, k)[y] == values[y]
    ensures forall c :: c !in UnitList()[k] ==> NakedTwinsAt(values, k)[c] == values[c]
    ensures forall c, ch :: c in UnitList()[k] && c != x && c != y && |values[c]| > 1 ==>
      (ch in NakedTwinsAt(values, k)[c] <==> ch in values[c] && ch !in values[x])
  {
    var u := UnitList()[k];
    var single := Twins({x, y}, values[x]);
    SingleGroupTwins(values, u, x, y);
    assert [single][..0] == [];
    assert NakedTwinsAt(values, k) == RemoveTwins(values, u, [single]) == RemoveTwin(values, u, single);
  }

  /** Two different digits taken from a two-character string leave no room for a third. */
  lemma PairCovers(digits: string, a: char, b: char, e: char)
    requires |digits| == 2 && a in digits && b in digits && a != b
    requires e != a && e != b
    ensures e !in digits
  {
    assert digits == [digits[0], digits[1]];
  }

  /** Removing the digits of a pair found on `snapshot` keeps every solution that both
      `snapshot` and the current board allow: the two or more cells of the pair hold the
      pair's two digits between them, so no other cell of the unit can hold either. */
  lemma RemoveTwinSound(values: Board, snapshot: Board, k: nat, t: Twins, s: Solution)
    requires IsBoard(values) && IsBoard(snapshot) && k < |UnitList()|
    requires Consistent(values, s) && Consistent(snapshot, s) && AllDifferent(s, UnitList()[k])
    requires t in UnitTwins(snapshot, UnitList()[k], 2)
    ensures Consistent(RemoveTwin(values, UnitList()[k], t), s)
  {
    var u := UnitList()[k];
    var x, y := TwinCells(snapshot, u, t);
    assert s[x] in t.digits && s[y] in t.digits;
    UnitCellsDiffer(s, u, x, y);
    var r := RemoveTwin(values, u, t);
    forall c | c in u && c !in t.cells && |values[c]| > 1 ensures s[c] in r[c] {
      UnitCellsDiffer(s, u, x, c);
      UnitCellsDiffer(s, u, y, c);
      PairCovers(t.digits, s[x], s[y], s[c]);
    }
  }

  lemma {:induction false} RemoveTwinsSound(values: Board, snapshot: Board, k: nat, twins: seq<Twins>, s: Solution)
    requires IsBoard(values) && IsBoard(snapshot) && k < |UnitList()|
    requires Consistent(values, s) && Consistent(snapshot, s) && AllDifferent(s, UnitList()[k])
    requires forall t :: t in twins ==> t in UnitTwins(snapshot, UnitList()[k], 2)
    ensures Consistent(RemoveTwins(values, UnitList()[k], twins), s)
    decreases |twins|
  {
    if twins != [] {
      var prefix := twins[..|twins| - 1];
      var last := twins[|twins| - 1];
      assert last in twins;
      forall t | t in prefix ensures t in UnitTwins(snapshot, UnitList()[k], 2) {
        assert t in twins;
      }
      RemoveTwinsSound(values, snapshot, k, prefix, s);
      RemoveTwinSound(RemoveTwins(values, UnitList()[k], prefix), snapshot, k, last, s);
    }
  }

  /** The turn of unit k keeps every solution the board allows. */
  lemma NakedTwinsAtSound(values: Board, k: nat, s: Solution)
    requires IsBoard(values) && 0 < k <= |UnitList()|
    ensures IsSolution(s) && Consistent(NakedTwinsUnits(values, k - 1), s) ==>
      Consistent(NakedTwinsUnits(values, k), s)
  {
    if IsSolution(s) && Consistent(NakedTwinsUnits(values, k - 1), s) {
      var before := NakedTwinsUnits(values, k - 1);
      assert AllDifferent(s, UnitList()[k - 1]);
      RemoveTwinsSound(before, before, k - 1, UnitTwins(before, UnitList()[k - 1], 2), s);
    }
  }

  lemma {:induction false} NakedTwinsUnitsSound(values: Board, k: nat, s: Solution)
    requires IsBoard(values) && k <= |UnitList()|
    ensures IsSolution(s) && Consistent(values, s) ==> Consistent(NakedTwinsUnits(values, k), s)
  {
    if k > 0 && IsSolution(s) && Consistent(values, s) {
      NakedTwinsUnitsSound(values, k - 1, s);
      NakedTwinsAtSound(values, k, s);
    }
  }

  /** naked_twins never removes the digit that a solution allowed by the board puts in a cell. */
  lemma NakedTwinsSound(values: Board, s: Solution)
    requires IsBoard(values) && IsSolution(s) && Consistent(values, s)
    ensures Consistent(NakedTwinsApplied(values), s)
  {
    NakedTwinsUnitsSound(values, |UnitList()|, s);
  }
}
