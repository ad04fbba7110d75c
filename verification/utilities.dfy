/**
 * Puzzle generation (src/main/java/kth/model/SudokuUtilities.java): pick the
 * template of a level, decode it, randomize it, and hand out the puzzle layer.
 * The random choices are parameters: whether to flip each way, and the two
 * digits to exchange.
 */
module Utilities {
  import opened Grids
  import opened TemplateDecoding
  import opened Templates
  import opened Randomizer

  /**
   * The matrix generated for a level once the random choices are fixed: the
   * decoded template, randomized. Whatever the choices, it is a valid pair.
   */
  function Generated(level: Level, flipH: bool, flipV: bool, d1: int, d2: int): (m: Matrix)
    requires SwapPair(d1, d2)
    ensures ValidPair(m)
  {
    TemplateIsValidPair(level);
    var decoded := Decode(Template(level)).value;
    RandomizeKeepsValidPair(decoded, flipH, flipV, d1, d2);
    Randomize(decoded, flipH, flipV, d1, d2)
  }

  /** generateSudokuMatrix: the level's template, decoded into a fresh array and randomized in place. */
  method GenerateSudokuMatrix(level: Level, flipH: bool, flipV: bool, d1: int, d2: int) returns (matrix: array3<int>)
    requires SwapPair(d1, d2)
    ensures fresh(matrix) && IsMatrixArray(matrix)
    ensures Contents(matrix) == Generated(level, flipH, flipV, d1, d2)
    ensures ValidPair(Contents(matrix))
  {
    TemplateIsValidPair(level);
    var converted := ConvertStringToIntMatrix(Template(level));
    matrix := converted.value;
    RandomizeBoard(matrix, flipH, flipV, d1, d2);
  }

  /** extractInitialValues: a fresh 9×9 array holding the puzzle layer of the matrix. */
  method ExtractInitialValues(matrix: array3<int>) returns (initial: array2<int>)
    requires IsMatrixArray(matrix)
    ensures fresh(initial) && IsGridArray(initial)
    ensures GridContents(initial) == Layer(Contents(matrix), 0)
  {
    initial := new int[Size, Size];
    for r := 0 to Size
      invariant forall i, j | 0 <= i < r && 0 <= j < Size :: initial[i, j] == matrix[i, j, 0]
    {
      for c := 0 to Size
        invariant forall i, j | 0 <= i < r && 0 <= j < Size :: initial[i, j] == matrix[i, j, 0]
        invariant forall j | 0 <= j < c :: initial[r, j] == matrix[r, j, 0]
      {
        initial[r, c] := matrix[r, c, 0];
      }
    }
    GridExtensionality(GridContents(initial), Layer(Contents(matrix), 0));
  }

  /**
   * getEasyPuzzle, getMediumPuzzle and getHardPuzzle: the puzzle layer of a
   * freshly generated matrix. The puzzle holds cell values only and can be
   * completed to a valid Sudoku that keeps every given digit.
   */
  method GetPuzzle(level: Level, flipH: bool, flipV: bool, d1: int, d2: int) returns (puzzle: array2<int>)
    requires SwapPair(d1, d2)
    ensures fresh(puzzle) && IsGridArray(puzzle)
    ensures GridContents(puzzle) == Layer(Generated(level, flipH, flipV, d1, d2), 0)
    ensures CellValues(GridContents(puzzle))
    ensures Solvable(GridContents(puzzle))
  {
    var matrix := GenerateSudokuMatrix(level, flipH, flipV, d1, d2);
    puzzle := ExtractInitialValues(matrix);
    GeneratedPuzzleSolvable(level, flipH, flipV, d1, d2);
  }

  /** A puzzle some valid solution agrees with. */
  ghost predicate Solvable(p: Grid)
    requires IsGrid(p)
  {
    exists s :: ValidSolution(s) && Agrees(p, s)
  }

  /** The puzzle layer of every generated matrix is solvable, by its own solution layer. */
  lemma GeneratedPuzzleSolvable(level: Level, flipH: bool, flipV: bool, d1: int, d2: int)
    requires SwapPair(d1, d2)
    ensures CellValues(Layer(Generated(level, flipH, flipV, d1, d2), 0))
    ensures Solvable(Layer(Generated(level, flipH, flipV, d1, d2), 0))
  {
    var m := Generated(level, flipH, flipV, d1, d2);
    assert ValidSolution(Layer(m, 1)) && Agrees(Layer(m, 0), Layer(m, 1));
  }
}
