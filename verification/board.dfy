/**
 * The game board (src/main/java/kth/model/SudokuBoard.java): a 9×9 grid of
 * cells the player edits, a frozen copy of the starting cells, and the
 * solution grid. The solution is the caller's own array, shared and not
 * copied, so whoever holds that array sees the board's changes to it and
 * the other way round.
 */
module Boards {
  import opened Grids
  import opened Cells

  /** Every cell value equals the solution entry at the same place. */
  predicate Matches(g: Grid, s: Grid)
    requires IsGrid(g) && IsGrid(s)
  {
    forall r, c | 0 <= r < Size && 0 <= c < Size :: g[r][c] == s[r][c]
  }

  /** No cell is empty. */
  predicate Filled(g: Grid)
    requires IsGrid(g)
  {
    forall r, c | 0 <= r < Size && 0 <= c < Size :: g[r][c] != 0
  }

  /** A full match is the same as equal grids. */
  lemma MatchesIsEquality(g: Grid, s: Grid)
    requires IsGrid(g) && IsGrid(s)
    ensures Matches(g, s) <==> g == s
  {
    if Matches(g, s) {
      GridExtensionality(g, s);
    }
  }

  /** On a filled board, the partial check and the full check agree. */
  lemma FilledPartialIsFull(g: Grid, s: Grid)
    requires IsGrid(g) && IsGrid(s) && Filled(g)
    ensures Agrees(g, s) <==> Matches(g, s)
  {
    if Agrees(g, s) {
      forall r, c | InRange(r, c) ensures g[r][c] == s[r][c] {
        assert g[r][c] != 0;
      }
    }
  }

  /** Against a solution without blanks, a solved board is filled and passes the partial check. */
  lemma SolvedIsFilledAndPartial(g: Grid, s: Grid)
    requires IsGrid(g) && IsGrid(s) && Filled(s) && Matches(g, s)
    ensures Filled(g) && Agrees(g, s)
  {
    forall r, c | InRange(r, c) ensures g[r][c] != 0 {
      assert g[r][c] == s[r][c] && s[r][c] != 0;
    }
  }

  /** The four outcomes the game reports when the player asks for a check. */
  datatype Verdict = Solved | FilledWithMistakes | SoFarCorrect | Mistakes

  /**
   * The decision behind the check: a filled board is compared in full,
   * any other board only on its filled cells.
   */
  function CheckVerdict(g: Grid, s: Grid): (v: Verdict)
    requires IsGrid(g) && IsGrid(s)
    ensures v == Solved <==> Filled(g) && g == s
    ensures v == SoFarCorrect <==> !Filled(g) && Agrees(g, s)
    ensures v in {Solved, SoFarCorrect} <==> Agrees(g, s)
    ensures v == FilledWithMistakes <==> Filled(g) && g != s
    ensures v == Mistakes <==> !Filled(g) && !Agrees(g, s)
  {
    MatchesIsEquality(g, s);
    if Filled(g) then
      FilledPartialIsFull(g, s);
      if Matches(g, s) then Solved else FilledWithMistakes
    else
      if Agrees(g, s) then SoFarCorrect else Mistakes
  }

  class Board {
    /** The cells the player edits. */
    const cells: array2<Cell>
    /** The starting cells, kept for reset; never written after construction. */
    const initial: array2<Cell>
    /** The solution grid: the array the constructor was given. */
    const solution: array2<int>
    /** Where each board cell sits; it tells the cells apart. */
    ghost var Place: map<Cell, (int, int)>
    /** The cells of the starting copy. */
    ghost var Frozen: set<Cell>

    ghost predicate Valid()
      reads this, cells, initial, Place.Keys, Frozen
    {
      && cells.Length0 == Size && cells.Length1 == Size
      && initial.Length0 == Size && initial.Length1 == Size
      && IsGridArray(solution)
      && Place.Keys !! Frozen
      && (forall r, c | InRange(r, c) :: cells[r, c] in Place && Place[cells[r, c]] == (r, c))
      && (forall r, c | InRange(r, c) :: initial[r, c] in Frozen)
      // a board cell is editable exactly when its starting cell is, and a
      // fixed board cell still holds its starting value
      && (forall r, c | InRange(r, c) ::
            cells[r, c].editable == initial[r, c].editable &&
            (!cells[r, c].editable ==> cells[r, c].value == initial[r, c].value))
      // a starting cell is editable exactly when it was empty
      && (forall r, c | InRange(r, c) :: initial[r, c].editable <==> initial[r, c].value == 0)
    }

    /** The values on the board. */
    ghost function Values(): (g: Grid)
      requires Valid()
      reads this, cells, initial, Place.Keys, Frozen
      ensures IsGrid(g)
      ensures forall r, c | InRange(r, c) :: g[r][c] == cells[r, c].value
    {
      seq(Size, r requires 0 <= r < Size reads this, cells, Place.Keys =>
        seq(Size, c requires 0 <= c < Size reads this, cells, Place.Keys =>
          if cells.Length0 == Size && cells.Length1 == Size && cells[r, c] in Place then cells[r, c].value else 0))
    }

    /** Which cells the player may edit. */
    ghost function Editable(): (e: seq<seq<bool>>)
      requires Valid()
      reads this, cells, initial, Place.Keys, Frozen
      ensures |e| == Size && forall r | 0 <= r < Size :: |e[r]| == Size
      ensures forall r, c | InRange(r, c) :: e[r][c] == cells[r, c].editable
    {
      seq(Size, r requires 0 <= r < Size reads this, cells, Place.Keys =>
        seq(Size, c requires 0 <= c < Size reads this, cells, Place.Keys =>
          if cells.Length0 == Size && cells.Length1 == Size && cells[r, c] in Place then cells[r, c].editable else false))
    }

    /** The values of the starting copy. */
    ghost function InitialValues(): (g: Grid)
      requires Valid()
      reads this, cells, initial, Place.Keys, Frozen
      ensures IsGrid(g)
      ensures forall r, c | InRange(r, c) :: g[r][c] == initial[r, c].value
    {
      seq(Size, r requires 0 <= r < Size reads this, initial, Frozen =>
        seq(Size, c requires 0 <= c < Size reads this, initial, Frozen =>
          if initial.Length0 == Size && initial.Length1 == Size && initial[r, c] in Frozen then initial[r, c].value else 0))
    }

    /**
     * A fresh 9×9 array of fresh cells, one per square, holding the puzzle
     * value and editable exactly where the puzzle is empty; `place` records
     * where each cell sits.
     */
    static method NewCells(puzzle: array2<int>) returns (a: array2<Cell>, ghost place: map<Cell, (int, int)>)
      requires IsGridArray(puzzle)
      ensures fresh(a) && fresh(place.Keys) && a.Length0 == Size && a.Length1 == Size
      ensures forall r, c | InRange(r, c) :: a[r, c] in place && place[a[r, c]] == (r, c)
      ensures forall r, c | InRange(r, c) :: a[r, c].value == puzzle[r, c] && a[r, c].editable == (puzzle[r, c] == 0)
    {
      var blank := new Cell(0, true);
      a := new Cell[Size, Size]((r, c) => blank);
      place := map[];
      for r := 0 to Size
        invariant fresh(place.Keys)
        invariant forall i, j | 0 <= i < r && 0 <= j < Size :: a[i, j] in place && place[a[i, j]] == (i, j)
        invariant forall i, j | 0 <= i < r && 0 <= j < Size ::
          a[i, j].value == puzzle[i, j] && a[i, j].editable == (puzzle[i, j] == 0)
      {
        for c := 0 to Size
          invariant fresh(place.Keys)
          invariant forall i, j | 0 <= i < r && 0 <= j < Size :: a[i, j] in place && place[a[i, j]] == (i, j)
          invariant forall i, j | 0 <= i < r && 0 <= j < Size ::
            a[i, j].value == puzzle[i, j] && a[i, j].editable == (puzzle[i, j] == 0)
          invariant forall j | 0 <= j < c :: a[r, j] in place && place[a[r, j]] == (r, j)
          invariant forall j | 0 <= j < c :: a[r, j].value == puzzle[r, j] && a[r, j].editable == (puzzle[r, j] == 0)
        {
          var cell := new Cell(puzzle[r, c], puzzle[r, c] == 0);
          a[r, c] := cell;
          place := place[cell := (r, c)];
        }
      }
    }

    /**
     * Builds two separate cells per square from the puzzle, editable exactly
     * where the puzzle is empty, and keeps the given solution array itself.
     */
    constructor(puzzle: array2<int>, boardSolution: array2<int>)
      requires IsGridArray(puzzle) && IsGridArray(boardSolution)
      ensures Valid() && fresh(cells) && fresh(initial) && fresh(Place.Keys) && fresh(Frozen)
      ensures solution == boardSolution
      ensures Values() == GridContents(puzzle) && InitialValues() == GridContents(puzzle)
      ensures forall r, c | InRange(r, c) :: Editable()[r][c] <==> puzzle[r, c] == 0
    {
      solution := boardSolution;
      var live, place := NewCells(puzzle);
      var start, place' := NewCells(puzzle);
      cells, Place := live, place;
      initial, Frozen := start, place'.Keys;
      new;
      GridExtensionality(Values(), GridContents(puzzle));
      GridExtensionality(InitialValues(), GridContents(puzzle));
    }

    /**
     * Puts every cell back to its starting value and flag; the solution and
     * the starting copy are untouched.
     */
    method ResetToInitialBoard()
      requires Valid()
      modifies Place.Keys
      ensures Valid()
      ensures Values() == InitialValues()
      ensures InitialValues() == old(InitialValues())
      ensures forall r, c | InRange(r, c) :: Editable()[r][c] == old(Editable()[r][c])
    {
      for r := 0 to Size
        invariant forall i, j | InRange(i, j) ::
          cells[i, j].editable == old(cells[i, j].editable) &&
          (!cells[i, j].editable ==> cells[i, j].value == initial[i, j].value)
        invariant forall i, j | 0 <= i < r && 0 <= j < Size :: cells[i, j].value == initial[i, j].value
      {
        for c := 0 to Size
          invariant forall i, j | InRange(i, j) ::
            cells[i, j].editable == old(cells[i, j].editable) &&
            (!cells[i, j].editable ==> cells[i, j].value == initial[i, j].value)
          invariant forall i, j | 0 <= i < r && 0 <= j < Size :: cells[i, j].value == initial[i, j].value
          invariant forall j | 0 <= j < c :: cells[r, j].value == initial[r, j].value
        {
          var v := initial[r, c].GetValue();
          cells[r, c].SetValue(v);
          var e := initial[r, c].IsEditable();
          cells[r, c].SetEditable(e);
        }
      }
      GridExtensionality(Values(), InitialValues());
    }

    /** A fresh array holding the starting values; nothing changes. */
    method GetInitialBoard() returns (g: array2<int>)
      requires Valid()
      ensures fresh(g) && IsGridArray(g)
      ensures GridContents(g) == InitialValues()
    {
      g := new int[Size, Size];
      for r := 0 to Size
        invariant forall i, j | 0 <= i < r && 0 <= j < Size :: g[i, j] == initial[i, j].value
      {
        for c := 0 to Size
          invariant forall i, j | 0 <= i < r && 0 <= j < Size :: g[i, j] == initial[i, j].value
          invariant forall j | 0 <= j < c :: g[r, j] == initial[r, j].value
        {
          g[r, c] := initial[r, c].GetValue();
        }
      }
      GridExtensionality(GridContents(g), InitialValues());
    }

    /**
     * Writes `v` into cell (r, c) if that cell is editable. No other cell, no
     * flag, nothing of the starting copy and nothing of the solution changes.
     */
    method SetCellVal(r: int, c: int, v: int)
      requires Valid() && InRange(r, c)
      modifies cells[r, c]
      ensures Valid()
      ensures forall i, j | InRange(i, j) ::
        Values()[i][j] == if i == r && j == c && old(Editable()[r][c]) then v else old(Values()[i][j])
      ensures forall i, j | InRange(i, j) :: Editable()[i][j] == old(Editable()[i][j])
      ensures InitialValues() == old(InitialValues())
    {
      cells[r, c].SetValue(v);
      GridExtensionality(InitialValues(), old(InitialValues()));
    }

    method GetCellVal(r: int, c: int) returns (v: int)
      requires Valid() && InRange(r, c)
      ensures v == Values()[r][c]
    {
      v := cells[r, c].GetValue();
    }

    method GetSolutionVal(r: int, c: int) returns (v: int)
      requires Valid() && InRange(r, c)
      ensures v == GridContents(solution)[r][c]
    {
      v := solution[r, c];
    }

    /** Writes entry (r, c) of the solution array, which the caller may share; nothing else changes. */
    method SetSolutionVal(r: int, c: int, v: int)
      requires Valid() && InRange(r, c)
      modifies solution
      ensures Valid() && Values() == old(Values())
      ensures forall i, j | InRange(i, j) ::
        GridContents(solution)[i][j] == if i == r && j == c then v else old(GridContents(solution)[i][j])
    {
      solution[r, c] := v;
    }

    /** Whether every cell holds the solution's value. */
    method IsSolved() returns (b: bool)
      requires Valid()
      ensures b <==> Matches(Values(), GridContents(solution))
    {
      for r := 0 to Size
        invariant forall i, j | 0 <= i < r && 0 <= j < Size :: cells[i, j].value == solution[i, j]
      {
        for c := 0 to Size
          invariant forall i, j | 0 <= i < r && 0 <= j < Size :: cells[i, j].value == solution[i, j]
          invariant forall j | 0 <= j < c :: cells[r, j].value == solution[r, j]
        {
          var v := cells[r, c].GetValue();
          if v != solution[r, c] {
            assert Values()[r][c] != GridContents(solution)[r][c];
            return false;
          }
        }
      }
      return true;
    }

    /** Whether every non-empty cell holds the solution's value; empty cells are not checked. */
    method CheckPartialSolution() returns (b: bool)
      requires Valid()
      ensures b <==> Agrees(Values(), GridContents(solution))
    {
      for r := 0 to Size
        invariant forall i, j | 0 <= i < r && 0 <= j < Size ::
          cells[i, j].value != 0 ==> cells[i, j].value == solution[i, j]
      {
        for c := 0 to Size
          invariant forall i, j | 0 <= i < r && 0 <= j < Size ::
            cells[i, j].value != 0 ==> cells[i, j].value == solution[i, j]
          invariant forall j | 0 <= j < c :: cells[r, j].value != 0 ==> cells[r, j].value == solution[r, j]
        {
          var current := cells[r, c].GetValue();
          if current != 0 {
            var correct := GetSolutionVal(r, c);
            if current != correct {
              assert Values()[r][c] != 0 && Values()[r][c] != GridContents(solution)[r][c];
              return false;
            }
          }
        }
      }
      return true;
    }

    /** Whether no cell is empty. */
    method AllCellsFilled() returns (b: bool)
      requires Valid()
      ensures b <==> Filled(Values())
    {
      for r := 0 to Size
        invariant forall i, j | 0 <= i < r && 0 <= j < Size :: cells[i, j].value != 0
      {
        for c := 0 to Size
          invariant forall i, j | 0 <= i < r && 0 <= j < Size :: cells[i, j].value != 0
          invariant forall j | 0 <= j < c :: cells[r, j].value != 0
        {
          var v := cells[r, c].GetValue();
          if v == 0 {
            assert Values()[r][c] == 0;
            return false;
          }
        }
      }
      return true;
    }

    /** The check the game runs for the player: the full check on a filled board, the partial one otherwise. */
    method CheckSolution() returns (v: Verdict)
      requires Valid()
      ensures v == CheckVerdict(Values(), GridContents(solution))
    {
      var filled := AllCellsFilled();
      if filled {
        var solved := IsSolved();
        v := if solved then Solved else FilledWithMistakes;
      } else {
        var partial := CheckPartialSolution();
        v := if partial then SoFarCorrect else Mistakes;
      }
    }
  }
}
