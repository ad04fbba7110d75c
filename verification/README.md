# Sudoku model layer in Dafny

This project models the model layer of a 9×9 Sudoku desktop game and proves
properties of it. The layer has four parts:

- **Cell** (`cell.dfy`, module `Cells`): one square of the board. It holds a
  value (0 means empty) and an editable flag. A write to a fixed cell is
  silently ignored.
- **Board** (`board.dfy`, module `Boards`): the 9×9 grid of cells the player
  edits, a frozen starting copy used for reset, and the solution grid. It has
  in-place setters and three whole-grid checks: full match, partial match and
  all-filled. The module also holds the decision the game makes when the
  player asks for a check (`CheckVerdict`, `Board.CheckSolution`).
- **Template decoding and generation** (`decoding.dfy`, `templates.dfy`,
  `utilities.dfy`): a 162-character digit string becomes a
  `[row][col][layer]` matrix. Layer 0 is the puzzle and layer 1 the solution.
  The three built-in templates are decoded, randomized, and the puzzle layer
  is handed out.
- **Randomizer** (`randomizer.dfy`): the in-place horizontal flip, the
  vertical flip and the exchange of two digits across both layers.

Shared vocabulary is in `grids.dfy`:
- module `Grids` defines grids, matrices, and what a valid solution and a
  valid puzzle/solution pair are;
- module `Units` proves that in a valid solution every row, column and box is
  a permutation of 1..9.

`wrappers.dfy` holds the `Option` and `Result` types.

The Java arrays are modelled as Dafny arrays (`array3<int>` for the
`int[9][9][2]` matrix, `array2` for the 9×9 grids). Each in-place method is
proved against a pure function on sequences: `FlipHorizontally`,
`FlipVertically`, `SwapDigits`, `Randomize`, `Decode`. The properties are
proved about those functions.

Two behaviours of the code are kept as they are:
- A write to a fixed cell is ignored, not rejected, as `SudokuCell.setValue`
  does. No error is raised.
- The board keeps the caller's solution array rather than a copy of its own.
  `Board.solution` is that same array, the constructor says so, and
  `SetSolutionVal` names it in its `modifies` clause.

## Model

| member | source | states |
|---|---|---|
| Cells.Cell.constructor | src/main/java/kth/model/SudokuCell.java:22-25 | the new cell holds exactly the given value and editable flag |
| Cells.Cell.GetValue | src/main/java/kth/model/SudokuCell.java:32-34 | returns the value and changes nothing |
| Cells.Cell.SetValue | src/main/java/kth/model/SudokuCell.java:41-45 | an editable cell takes the new value; a fixed cell keeps its value and no error occurs; the flag never changes |
| Cells.Cell.IsEditable | src/main/java/kth/model/SudokuCell.java:52-54 | returns the flag and changes nothing |
| Cells.Cell.SetEditable | src/main/java/kth/model/SudokuCell.java:61-63 | sets the flag; the value is unchanged |
| Boards.Board.NewCells | src/main/java/kth/model/SudokuBoard.java:30-38 | a fresh 9×9 array of fresh, pairwise distinct cells; each holds the puzzle value and is editable iff that value is 0 |
| Boards.Board.constructor | src/main/java/kth/model/SudokuBoard.java:26-39 | board values and starting-copy values equal the puzzle; a cell is editable iff its puzzle entry is 0; the starting copy is made of separate cells; the solution is the caller's array itself; the board invariant `Valid` holds |
| Boards.Board.ResetToInitialBoard | src/main/java/kth/model/SudokuBoard.java:44-51 | after reset every cell value equals the starting copy, whatever writes came before; flags, the starting copy and the solution are unchanged; `Valid` is kept |
| Boards.Board.GetInitialBoard | src/main/java/kth/model/SudokuBoard.java:59-67 | returns a fresh array holding exactly the starting values and changes nothing |
| Boards.Board.SetCellVal | src/main/java/kth/model/SudokuBoard.java:76-78 | only cell (r, c) can change, and only if it is editable, to `v`; flags, the starting copy and the solution are unchanged; `Valid` is kept |
| Boards.Board.GetCellVal | src/main/java/kth/model/SudokuBoard.java:87-89 | returns the value of cell (r, c) |
| Boards.Board.IsSolved | src/main/java/kth/model/SudokuBoard.java:97-106 | true iff all 81 cell values equal their solution entries |
| Boards.Board.CheckPartialSolution | src/main/java/kth/model/SudokuBoard.java:114-127 | true iff every non-zero cell equals its solution entry; empty cells are ignored |
| Boards.Board.AllCellsFilled | src/main/java/kth/model/SudokuBoard.java:134-143 | true iff no cell value is 0 |
| Boards.Board.GetSolutionVal | src/main/java/kth/model/SudokuBoard.java:174-176 | returns solution entry (r, c) |
| Boards.Board.SetSolutionVal | src/main/java/kth/model/SudokuBoard.java:185-187 | only solution entry (r, c) changes, to `v`; the cells are unchanged; `Valid` is kept |
| Boards.MatchesIsEquality | src/main/java/kth/model/SudokuBoard.java:97-106 | the full match holds iff the board's values equal the solution grid |
| Boards.FilledPartialIsFull | src/main/java/kth/model/SudokuBoard.java:97-143 | on a filled board the partial check and the full check give the same answer |
| Boards.SolvedIsFilledAndPartial | src/main/java/kth/model/SudokuBoard.java:97-143 | if no solution entry is 0, a solved board is filled and passes the partial check |
| Boards.CheckVerdict | src/main/java/kth/controller/SudokuController.java:145-176 | "solved" iff the board is filled and equals the solution; "so far correct" iff it is not filled and passes the partial check; "not solved" (filled with mistakes) iff the board is filled and differs from the solution; "mistakes" iff it is not filled and fails the partial check; the verdict is positive iff the partial check passes |
| Boards.Board.CheckSolution | src/main/java/kth/controller/SudokuController.java:145-176 | calls the three board checks as the game does and returns `CheckVerdict` of the board's values and solution |
| TemplateDecoding.CharToSudokuInt | src/main/java/kth/model/SudokuUtilities.java:87-90 | succeeds iff the character is '0'..'9', with a value in 0..9 that the character spells; otherwise fails naming the character |
| TemplateDecoding.DigitCharsAreDigits | src/main/java/kth/model/SudokuUtilities.java:87-90 | every value 0..9 has a digit character that decodes back to it |
| TemplateDecoding.Decode | src/main/java/kth/model/SudokuUtilities.java:58-78 | a length other than 162 fails with `WrongLength`; otherwise it succeeds iff every character is a digit, and it fails naming the first non-digit; on success entry (r, c, 0) is the digit at 9r+c and entry (r, c, 1) the digit at 81+9r+c, and every entry lies in 0..9 |
| TemplateDecoding.FirstNonDigit | src/main/java/kth/model/SudokuUtilities.java:65-75 | the index of the first character that is not a digit, or the length when there is none |
| TemplateDecoding.DecodeEncode | src/main/java/kth/model/SudokuUtilities.java:58-78 | encoding any matrix of cell values and decoding the result gives the matrix back |
| TemplateDecoding.EncodeDecode | src/main/java/kth/model/SudokuUtilities.java:58-78 | a string that decodes is re-encoded exactly, so no two templates decode to the same matrix |
| TemplateDecoding.DecodeFailsAt | src/main/java/kth/model/SudokuUtilities.java:65-75 | decoding a 162-character string fails at its first non-digit |
| TemplateDecoding.DecodeSpelled | src/main/java/kth/model/SudokuUtilities.java:58-78 | a string that a matrix spells position by position decodes to exactly that matrix |
| TemplateDecoding.ConvertStringToIntMatrix | src/main/java/kth/model/SudokuUtilities.java:58-78 | fails exactly when `Decode` fails, with the same error; on success it returns a fresh 9×9×2 array holding `Decode`'s matrix |
| Units.DistinctDigitsArePermutation | src/main/java/kth/model/SudokuUtilities.java:92-151 | nine pairwise distinct digits from 1..9 contain every digit 1..9 |
| Units.RowsColumnsBoxesArePermutations | src/main/java/kth/model/SudokuUtilities.java:92-151 | in a valid solution every row, column and 3×3 box is a permutation of 1..9 |
| Templates.Template | src/main/java/kth/model/SudokuUtilities.java:13-36 | maps each `SudokuLevel` to the template constant the switch selects; the three levels get three different strings, each 162 characters long |
| Templates.TemplateDecodes | src/main/java/kth/model/SudokuUtilities.java:93-151 | each built-in template decodes without error to exactly its puzzle grid and solution grid |
| Templates.SolutionValid | src/main/java/kth/model/SudokuUtilities.java:93-151 | each built-in solution has only digits 1..9, and no digit repeats in any row, column or box |
| Templates.PuzzleAgrees | src/main/java/kth/model/SudokuUtilities.java:93-151 | each built-in puzzle has only values 0..9, and each non-zero puzzle digit equals the solution digit at the same place |
| Templates.TemplateIsValidPair | src/main/java/kth/model/SudokuUtilities.java:93-151 | each template decodes to a valid puzzle/solution pair |
| Templates.TemplateSolutionPermutations | src/main/java/kth/model/SudokuUtilities.java:93-151 | in each built-in solution every row, column and box lists each digit 1..9 exactly once |
| Templates.EasyCorners | src/main/java/kth/model/SudokuUtilities.java:93-111 | decoding EASY gives puzzle (0,0) = 0, puzzle (0,3) = 9 and solution (0,0) = 5 |
| Randomizer.FlipHorizontallyAt | src/main/java/kth/model/SudokuRandomizer.java:45-55 | after the horizontal flip, entry (r, c, z) is the old entry (r, 8-c, z) |
| Randomizer.FlipHorizontallyInvolutive | src/main/java/kth/model/SudokuRandomizer.java:45-55 | flipping horizontally twice restores the matrix |
| Randomizer.FlipVerticallyInvolutive | src/main/java/kth/model/SudokuRandomizer.java:64-74 | flipping vertically twice restores the matrix |
| Randomizer.RelabelFacts | src/main/java/kth/model/SudokuRandomizer.java:91-101 | exchanging two distinct digits twice restores an entry; 0 stays 0 and only 0 becomes 0; digits stay digits |
| Randomizer.SwapDigitsInvolutive | src/main/java/kth/model/SudokuRandomizer.java:91-101 | exchanging the same two digits twice restores the matrix |
| Randomizer.SwapDigitsExchanges | src/main/java/kth/model/SudokuRandomizer.java:91-101 | in both layers, d1 becomes d2 and d2 becomes d1; every other entry, including 0, is unchanged, so the zero positions are exactly the same |
| Randomizer.MirroredColumnsValid | src/main/java/kth/model/SudokuRandomizer.java:5-8 | a valid solution with its columns mirrored is still valid |
| Randomizer.MirroredRowsValid | src/main/java/kth/model/SudokuRandomizer.java:5-8 | a valid solution with its rows mirrored is still valid |
| Randomizer.RelabelledValid | src/main/java/kth/model/SudokuRandomizer.java:77-79 | a valid solution with two digits exchanged is still valid |
| Randomizer.FlipHorizontallyKeepsValidPair | src/main/java/kth/model/SudokuRandomizer.java:45-55 | the horizontal flip keeps the solution valid and the puzzle in agreement with it |
| Randomizer.FlipVerticallyKeepsValidPair | src/main/java/kth/model/SudokuRandomizer.java:64-74 | the vertical flip keeps the solution valid and the puzzle in agreement with it |
| Randomizer.SwapDigitsKeepsValidPair | src/main/java/kth/model/SudokuRandomizer.java:77-101 | the digit exchange keeps the solution valid and the puzzle in agreement with it |
| Randomizer.RandomizeKeepsValidPair | src/main/java/kth/model/SudokuRandomizer.java:5-36 | every outcome of the randomization keeps a valid pair valid |
| Randomizer.FlipBoardHorizontally | src/main/java/kth/model/SudokuRandomizer.java:45-55 | in place, new (r, c, z) = old (r, 8-c, z) for all entries, i.e. the array now holds `FlipHorizontally` of its old contents |
| Randomizer.FlipBoardVertically | src/main/java/kth/model/SudokuRandomizer.java:64-74 | in place, new (r, c, z) = old (8-r, c, z) for all entries, i.e. the array now holds `FlipVertically` of its old contents |
| Randomizer.SwapNumbers | src/main/java/kth/model/SudokuRandomizer.java:91-101 | in place, every entry is exchanged by `Relabel`, i.e. the array now holds `SwapDigits` of its old contents |
| Randomizer.ChooseSwapDigits | src/main/java/kth/model/SudokuRandomizer.java:84-89 | given the draws of `nextInt(9)`, returns two distinct digits in 1..9: one more than the first draw, and one more than the first later draw that differs from it; returns nothing iff no later draw differs |
| Randomizer.RandomizeBoard | src/main/java/kth/model/SudokuRandomizer.java:22-36 | the array now holds `Randomize` of its old contents: optional horizontal flip, then optional vertical flip, then exactly one exchange |
| Utilities.Generated | src/main/java/kth/model/SudokuUtilities.java:29-45 | the matrix generated for a level and any outcome of the random choices is a valid puzzle/solution pair |
| Utilities.GenerateSudokuMatrix | src/main/java/kth/model/SudokuUtilities.java:29-45 | returns a fresh array holding the level's template, decoded and randomized, which is a valid pair |
| Utilities.ExtractInitialValues | src/main/java/kth/model/SudokuUtilities.java:160-168 | returns a fresh 9×9 array holding exactly layer 0 of the matrix |
| Utilities.GetPuzzle | src/main/java/kth/model/SudokuUtilities.java:175-198 | the puzzle layer of a freshly generated matrix; it has only values 0..9 and some valid solution keeps all its given digits |
| Utilities.GeneratedPuzzleSolvable | src/main/java/kth/model/SudokuUtilities.java:29-45 | the puzzle layer of every generated matrix can be completed to a valid Sudoku: its own solution layer |

## Left out

- `printBoard` (SudokuBoard.java:149-165) writes to the console only.
- Most of the controller is left out. It is user-interface orchestration with
  dialogs and file choosers. Only the decision behind `checkSolution` is
  modelled, as `CheckVerdict` and `Board.CheckSolution`.
- `giveHint` is left out. It retries random cells until it finds an empty
  one, which need not terminate.
- `restartGame` is not modelled. It calls `getInitialBoard` and discards the
  result, so it leaves the board as it is.
- The JavaFX view, the application entry point and the object-stream file
  I/O (`SudokuFileIO`) are not part of this model.
  `Serializable` is not modelled either.
- `java.util.Random` is replaced by parameters. The two coin flips become
  `flipH` and `flipV`. The two digits become `d1` and `d2`, with the
  precondition `SwapPair` (distinct, both in 1..9) standing for the rejection
  loop.
- Randomizer.ChooseSwapDigits: models the rejection loop over a finite
  sequence of draws. When no later draw differs from the first, it returns
  `None`, where the source would keep drawing.
- Out-of-range indices and `null` arrays, which would raise Java runtime
  exceptions, are excluded by preconditions: the row and column are in 0..8
  (`InRange`).
- Grids.IsGridArray, Grids.IsMatrixArray: Java's `int[][]` and `int[][][]`
  are arrays of row arrays, modelled here as unshared rectangular arrays
  (`array2`, `array3`) of exactly 9×9 (×2). Java also accepts arrays whose
  rows are shared (then `setSolutionVal` on one row writes to the other),
  larger arrays (the loops read only the 9×9 prefix) and jagged arrays
  (an exception only when a short row is read). The model does not capture
  these shapes. The program itself passes only freshly allocated 9×9 (×2)
  arrays (SudokuController.java:42-53, SudokuUtilities.java:62).
- TemplateDecoding.Decode: strings are modelled as sequences of Unicode
  scalar values, while Java's `length()` and `toCharArray()` count UTF-16
  code units. On a string with characters outside the Basic Multilingual
  Plane the two lengths differ, so the model may report `WrongLength` where
  Java reports an invalid surrogate character, or the reverse. A lone
  surrogate cannot be written as a Dafny `char` at all. Whether decoding
  succeeds, and the matrix it yields, agree on every input.
- The `IllegalArgumentException`s of `convertStringToIntMatrix` and
  `convertCharToSudokuInt` become `Failure` results carrying a
  `DecodeError`.
- The exception in the `default` branch of `generateSudokuMatrix` is not
  modelled. `Level` has exactly the three values, so that branch cannot be
  reached.
- Allocation order is not modelled. The constructor allocates a board cell
  and its starting copy in turn, square by square. The model builds all board
  cells, then all starting cells. The order cannot be observed.
- `getEasyPuzzle`, `getMediumPuzzle` and `getHardPuzzle` differ only in the
  level. They are one method, `GetPuzzle`, with the level as a parameter.
