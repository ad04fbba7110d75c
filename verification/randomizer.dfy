/**
 * The variant generator of src/main/java/kth/model/SudokuRandomizer.java:
 * mirror images and a two-digit relabelling of the 9×9×2 matrix, applied in
 * place. The coin flips and the digit draws of java.util.Random are parameters.
 */
module Randomizer {
  import opened Wrappers
  import opened Grids

  // ---------------------------------------------------------------------------
  // The transformations as functions on matrices

  /** Reverse the column order of every row, in both layers. */
  function FlipHorizontally(m: Matrix): (f: Matrix)
    requires IsMatrix(m)
    ensures IsMatrix(f)
  {
    seq(Size, r requires 0 <= r < Size => seq(Size, c requires 0 <= c < Size => m[r][Size - 1 - c]))
  }

  /** Reverse the row order, in both layers. */
  function FlipVertically(m: Matrix): (f: Matrix)
    requires IsMatrix(m)
    ensures IsMatrix(f)
  {
    seq(Size, r requires 0 <= r < Size => m[Size - 1 - r])
  }

  /** What one entry becomes when the digits `d1` and `d2` trade places. */
  function Relabel(x: int, d1: int, d2: int): int {
    if x == d1 then d2 else if x == d2 then d1 else x
  }

  /** Trade the digits `d1` and `d2` everywhere, in both layers. */
  function SwapDigits(m: Matrix, d1: int, d2: int): (f: Matrix)
    requires IsMatrix(m)
    ensures IsMatrix(f)
  {
    seq(Size, r requires 0 <= r < Size => seq(Size, c requires 0 <= c < Size =>
      seq(2, z requires 0 <= z < 2 => Relabel(m[r][c][z], d1, d2))))
  }

  /** randomizeBoard: an optional horizontal flip, then an optional vertical flip, then one swap. */
  function Randomize(m: Matrix, flipH: bool, flipV: bool, d1: int, d2: int): (f: Matrix)
    requires IsMatrix(m)
    ensures IsMatrix(f)
  {
    var afterH := if flipH then FlipHorizontally(m) else m;
    var afterV := if flipV then FlipVertically(afterH) else afterH;
    SwapDigits(afterV, d1, d2)
  }

  /** The two digits the swap may trade: distinct, and both in 1..9. */
  predicate SwapPair(d1: int, d2: int) {
    1 <= d1 <= 9 && 1 <= d2 <= 9 && d1 != d2
  }

  // ---------------------------------------------------------------------------
  // Properties of the transformations

  lemma FlipHorizontallyAt(m: Matrix, r: int, c: int, z: int)
    requires IsMatrix(m) && InRange(r, c) && 0 <= z < 2
    ensures FlipHorizontally(m)[r][c][z] == m[r][Size - 1 - c][z]
  {
  }

  /** Flipping horizontally twice gives back the original matrix. */
  lemma FlipHorizontallyInvolutive(m: Matrix)
    requires IsMatrix(m)
    ensures FlipHorizontally(FlipHorizontally(m)) == m
  {
    MatrixExtensionality(FlipHorizontally(FlipHorizontally(m)), m);
  }

  /** Flipping vertically twice gives back the original matrix. */
  lemma FlipVerticallyInvolutive(m: Matrix)
    requires IsMatrix(m)
    ensures FlipVertically(FlipVertically(m)) == m
  {
    MatrixExtensionality(FlipVertically(FlipVertically(m)), m);
  }

  /** Relabelling by a swap pair is its own inverse, fixes 0 and every other value, and stays in 1..9. */
  lemma RelabelFacts(x: int, d1: int, d2: int)
    requires SwapPair(d1, d2)
    ensures Relabel(Relabel(x, d1, d2), d1, d2) == x
    ensures Relabel(x, d1, d2) == 0 <==> x == 0
    ensures 1 <= x <= 9 <==> 1 <= Relabel(x, d1, d2) <= 9
  {
  }

  /** Swapping the same two digits twice gives back the original matrix. */
  lemma SwapDigitsInvolutive(m: Matrix, d1: int, d2: int)
    requires IsMatrix(m)
    ensures SwapDigits(SwapDigits(m, d1, d2), d1, d2) == m
  {
    MatrixExtensionality(SwapDigits(SwapDigits(m, d1, d2), d1, d2), m);
  }

  /**
   * The swap trades exactly `d1` and `d2`: an entry becomes `d1` iff it was
   * `d2`, becomes `d2` iff it was `d1`, and keeps any other value; in
   * particular the blank (0) positions are exactly the same.
   */
  lemma SwapDigitsExchanges(m: Matrix, d1: int, d2: int)
    requires IsMatrix(m) && SwapPair(d1, d2)
    ensures forall r, c, z | InRange(r, c) && 0 <= z < 2 ::
      (SwapDigits(m, d1, d2)[r][c][z] == d1 <==> m[r][c][z] == d2) &&
      (SwapDigits(m, d1, d2)[r][c][z] == d2 <==> m[r][c][z] == d1) &&
      (m[r][c][z] != d1 && m[r][c][z] != d2 ==> SwapDigits(m, d1, d2)[r][c][z] == m[r][c][z])
    ensures forall r, c, z | InRange(r, c) && 0 <= z < 2 ::
      SwapDigits(m, d1, d2)[r][c][z] == 0 <==> m[r][c][z] == 0
  {
  }

  // ---------------------------------------------------------------------------
  // Validity is kept ("these transformations modify the puzzle while keeping it valid")

  /** A grid whose columns are those of a valid solution in reverse order is a valid solution. */
  lemma MirroredColumnsValid(g: Grid, h: Grid)
    requires ValidSolution(g) && IsGrid(h)
    requires forall r, c | InRange(r, c) :: h[r][c] == g[r][Size - 1 - c]
    ensures ValidSolution(h)
  {
    forall br, bc | 0 <= br < 3 && 0 <= bc < 3 ensures BoxDistinct(h, br, bc) {
      assert BoxDistinct(g, br, 2 - bc);
    }
  }

  /** A grid whose rows are those of a valid solution in reverse order is a valid solution. */
  lemma MirroredRowsValid(g: Grid, h: Grid)
    requires ValidSolution(g) && IsGrid(h)
    requires forall r, c | InRange(r, c) :: h[r][c] == g[Size - 1 - r][c]
    ensures ValidSolution(h)
  {
    forall br, bc | 0 <= br < 3 && 0 <= bc < 3 ensures BoxDistinct(h, br, bc) {
      assert BoxDistinct(g, 2 - br, bc);
    }
  }

  /** Relabelling a valid solution by a swap pair gives a valid solution. */
  lemma RelabelledValid(g: Grid, h: Grid, d1: int, d2: int)
    requires ValidSolution(g) && IsGrid(h) && SwapPair(d1, d2)
    requires forall r, c | InRange(r, c) :: h[r][c] == Relabel(g[r][c], d1, d2)
    ensures ValidSolution(h)
  {
    forall br, bc | 0 <= br < 3 && 0 <= bc < 3 ensures BoxDistinct(h, br, bc) {
      assert BoxDistinct(g, br, bc);
    }
  }

  lemma FlipHorizontallyKeepsValidPair(m: Matrix)
    requires ValidPair(m)
    ensures ValidPair(FlipHorizontally(m))
  {
    var f := FlipHorizontally(m);
    MirroredColumnsValid(Layer(m, 1), Layer(f, 1));
  }

  lemma FlipVerticallyKeepsValidPair(m: Matrix)
    requires ValidPair(m)
    ensures ValidPair(FlipVertically(m))
  {
    var f := FlipVertically(m);
    MirroredRowsValid(Layer(m, 1), Layer(f, 1));
  }

  lemma SwapDigitsKeepsValidPair(m: Matrix, d1: int, d2: int)
    requires ValidPair(m) && SwapPair(d1, d2)
    ensures ValidPair(SwapDigits(m, d1, d2))
  {
    var f := SwapDigits(m, d1, d2);
    RelabelledValid(Layer(m, 1), Layer(f, 1), d1, d2);
  }

  /** Every variant of a valid puzzle/solution pair is again a valid pair. */
  lemma RandomizeKeepsValidPair(m: Matrix, flipH: bool, flipV: bool, d1: int, d2: int)
    requires ValidPair(m) && SwapPair(d1, d2)
    ensures ValidPair(Randomize(m, flipH, flipV, d1, d2))
  {
    var afterH := if flipH then FlipHorizontally(m) else m;
    if flipH { FlipHorizontallyKeepsValidPair(m); }
    var afterV := if flipV then FlipVertically(afterH) else afterH;
    if flipV { FlipVerticallyKeepsValidPair(afterH); }
    SwapDigitsKeepsValidPair(afterV, d1, d2);
  }

  // ---------------------------------------------------------------------------
  // The in-place methods on the source's int[9][9][2]

  /** The column mirrored to `c`, or `c` itself, whichever is in the left half. */
  function LeftOf(c: int): int {
    if c <= Size - 1 - c then c else Size - 1 - c
  }

  /**
   * Whether entry (r, c, y) has already been exchanged with its mirror when
   * the three loops of the horizontal flip stand at (`row`, `col`, `z`).
   */
  ghost predicate ColumnExchanged(row: int, col: int, z: int, r: int, c: int, y: int) {
    r < row || (r == row && (LeftOf(c) < col || (LeftOf(c) == col && c != Size - 1 - c && y < z)))
  }

  /**
   * Whether entry (r, c, y) has already been exchanged with its mirror when
   * the three loops of the vertical flip stand at (`row`, `col`, `z`).
   */
  ghost predicate RowExchanged(row: int, col: int, z: int, r: int, c: int, y: int) {
    LeftOf(r) < row || (LeftOf(r) == row && r != Size - 1 - r && (c < col || (c == col && y < z)))
  }

  /** Whether entry (r, c, y) has already been visited when the three loops stand at (`row`, `col`, `z`). */
  ghost predicate Visited(row: int, col: int, z: int, r: int, c: int, y: int) {
    r < row || (r == row && (c < col || (c == col && y < z)))
  }

  /** flipBoardHorizontally: swap column `col` with column `8 - col` for the left half, entry by entry. */
  method FlipBoardHorizontally(board: array3<int>)
    requires IsMatrixArray(board)
    modifies board
    ensures forall r, c, z | InRange(r, c) && 0 <= z < 2 :: board[r, c, z] == old(board[r, Size - 1 - c, z])
    ensures Contents(board) == FlipHorizontally(old(Contents(board)))
  {
    ghost var o := Contents(board);
    for row := 0 to Size
      invariant forall r, c, y | InRange(r, c) && 0 <= y < 2 ::
        board[r, c, y] == if ColumnExchanged(row, 0, 0, r, c, y) then o[r][Size - 1 - c][y] else o[r][c][y]
    {
      for col := 0 to Size / 2
        invariant forall r, c, y | InRange(r, c) && 0 <= y < 2 ::
          board[r, c, y] == if ColumnExchanged(row, col, 0, r, c, y) then o[r][Size - 1 - c][y] else o[r][c][y]
      {
        for z := 0 to 2
          invariant forall r, c, y | InRange(r, c) && 0 <= y < 2 ::
            board[r, c, y] == if ColumnExchanged(row, col, z, r, c, y) then o[r][Size - 1 - c][y] else o[r][c][y]
        {
          var temp := board[row, col, z];
          board[row, col, z] := board[row, Size - 1 - col, z];
          board[row, Size - 1 - col, z] := temp;
        }
      }
    }
    MatrixExtensionality(Contents(board), FlipHorizontally(o));
  }

  /** flipBoardVertically: swap row `row` with row `8 - row` for the top half, entry by entry. */
  method FlipBoardVertically(board: array3<int>)
    requires IsMatrixArray(board)
    modifies board
    ensures forall r, c, z | InRange(r, c) && 0 <= z < 2 :: board[r, c, z] == old(board[Size - 1 - r, c, z])
    ensures Contents(board) == FlipVertically(old(Contents(board)))
  {
    ghost var o := Contents(board);
    for row := 0 to Size / 2
      invariant forall r, c, y | InRange(r, c) && 0 <= y < 2 ::
        board[r, c, y] == if RowExchanged(row, 0, 0, r, c, y) then o[Size - 1 - r][c][y] else o[r][c][y]
    {
      for col := 0 to Size
        invariant forall r, c, y | InRange(r, c) && 0 <= y < 2 ::
          board[r, c, y] == if RowExchanged(row, col, 0, r, c, y) then o[Size - 1 - r][c][y] else o[r][c][y]
      {
        for z := 0 to 2
          invariant forall r, c, y | InRange(r, c) && 0 <= y < 2 ::
            board[r, c, y] == if RowExchanged(row, col, z, r, c, y) then o[Size - 1 - r][c][y] else o[r][c][y]
        {
          var temp := board[row, col, z];
          board[row, col, z] := board[Size - 1 - row, col, z];
          board[Size - 1 - row, col, z] := temp;
        }
      }
    }
    MatrixExtensionality(Contents(board), FlipVertically(o));
  }

  /**
   * swapRandomNumbers with the two drawn digits given: every `d1` becomes `d2`
   * and every `d2` becomes `d1`, in both layers.
   */
  method SwapNumbers(board: array3<int>, d1: int, d2: int)
    requires IsMatrixArray(board) && SwapPair(d1, d2)
    modifies board
    ensures forall r, c, z | InRange(r, c) && 0 <= z < 2 :: board[r, c, z] == Relabel(old(board[r, c, z]), d1, d2)
    ensures Contents(board) == SwapDigits(old(Contents(board)), d1, d2)
  {
    ghost var o := Contents(board);
    for row := 0 to Size
      invariant forall r, c, y | InRange(r, c) && 0 <= y < 2 ::
        board[r, c, y] == if Visited(row, 0, 0, r, c, y) then Relabel(o[r][c][y], d1, d2) else o[r][c][y]
    {
      for col := 0 to Size
        invariant forall r, c, y | InRange(r, c) && 0 <= y < 2 ::
          board[r, c, y] == if Visited(row, col, 0, r, c, y) then Relabel(o[r][c][y], d1, d2) else o[r][c][y]
      {
        for z := 0 to 2
          invariant forall r, c, y | InRange(r, c) && 0 <= y < 2 ::
            board[r, c, y] == if Visited(row, col, z, r, c, y) then Relabel(o[r][c][y], d1, d2) else o[r][c][y]
        {
          if board[row, col, z] == d1 {
            board[row, col, z] := d2;
          } else if board[row, col, z] == d2 {
            board[row, col, z] := d1;
          }
        }
      }
    }
    MatrixExtensionality(Contents(board), SwapDigits(o, d1, d2));
  }

  /**
   * The draw loop of swapRandomNumbers over a finite prefix `draws` of the
   * values returned by nextInt(9): the first digit is `draws[0] + 1`, the
   * second is one more than the first later draw that differs from it. None
   * when the prefix ends before such a draw (the source would keep drawing).
   */
  method ChooseSwapDigits(draws: seq<int>) returns (pair: Option<(int, int)>)
    requires forall i | 0 <= i < |draws| :: 0 <= draws[i] < 9
    ensures pair.Some? <==> |draws| > 0 && exists i | 1 <= i < |draws| :: draws[i] != draws[0]
    ensures pair.Some? ==> SwapPair(pair.value.0, pair.value.1) && pair.value.0 == draws[0] + 1
    ensures pair.Some? ==> exists i | 1 <= i < |draws| ::
      pair.value.1 == draws[i] + 1 && forall j | 1 <= j < i :: draws[j] == draws[0]
  {
    if |draws| == 0 {
      return None;
    }
    var num1 := draws[0] + 1;
    var k := 1;
    while k < |draws| && draws[k] + 1 == num1
      invariant 1 <= k <= |draws|
      invariant forall j | 1 <= j < k :: draws[j] == draws[0]
    {
      k := k + 1;
    }
    if k == |draws| {
      return None;
    }
    pair := Some((num1, draws[k] + 1));
  }

  /** randomizeBoard with its coin flips and digits given. */
  method RandomizeBoard(board: array3<int>, flipH: bool, flipV: bool, d1: int, d2: int)
    requires IsMatrixArray(board) && SwapPair(d1, d2)
    modifies board
    ensures Contents(board) == Randomize(old(Contents(board)), flipH, flipV, d1, d2)
  {
    if flipH {
      FlipBoardHorizontally(board);
    }
    if flipV {
      FlipBoardVertically(board);
    }
    SwapNumbers(board, d1, d2);
  }
}
