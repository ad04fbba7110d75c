/**
 * The vocabulary shared by the whole model: a 9×9 grid of digits, the
 * `[row][col][layer]` matrix in which layer 0 is the puzzle and layer 1 the
 * solution, and what it means for a solution grid to be a valid Sudoku.
 */
module Grids {

  /** GRID_SIZE of the source. */
  const Size := 9

  /** A 9×9 grid indexed `g[row][col]`. */
  type Grid = seq<seq<int>>

  /** A 9×9×2 matrix indexed `m[row][col][layer]`. */
  type Matrix = seq<seq<seq<int>>>

  predicate InRange(r: int, c: int) {
    0 <= r < Size && 0 <= c < Size
  }

  predicate IsGrid(g: Grid) {
    |g| == Size && forall r | 0 <= r < Size :: |g[r]| == Size
  }

  predicate IsMatrix(m: Matrix) {
    |m| == Size &&
    forall r | 0 <= r < Size :: |m[r]| == Size && forall c | 0 <= c < Size :: |m[r][c]| == 2
  }

  /** One layer of a matrix: 0 is the puzzle, 1 the solution. */
  function Layer(m: Matrix, z: int): (g: Grid)
    requires IsMatrix(m) && 0 <= z < 2
    ensures IsGrid(g)
    ensures forall r, c | InRange(r, c) :: g[r][c] == m[r][c][z]
  {
    seq(Size, r requires 0 <= r < Size => seq(Size, c requires 0 <= c < Size => m[r][c][z]))
  }

  /** The matrix whose layer 0 is `p` and whose layer 1 is `s`. */
  function Pack(p: Grid, s: Grid): (m: Matrix)
    requires IsGrid(p) && IsGrid(s)
    ensures IsMatrix(m) && Layer(m, 0) == p && Layer(m, 1) == s
  {
    var m := seq(Size, r requires 0 <= r < Size => seq(Size, c requires 0 <= c < Size => [p[r][c], s[r][c]]));
    GridExtensionality(Layer(m, 0), p);
    GridExtensionality(Layer(m, 1), s);
    m
  }

  /** Two grids with the same entries are equal. */
  lemma GridExtensionality(a: Grid, b: Grid)
    requires IsGrid(a) && IsGrid(b)
    requires forall r, c | InRange(r, c) :: a[r][c] == b[r][c]
    ensures a == b
  {
    forall r | 0 <= r < Size ensures a[r] == b[r] {
      assert forall c | 0 <= c < Size :: a[r][c] == b[r][c];
    }
  }

  /** Two matrices with the same entries are equal. */
  lemma MatrixExtensionality(a: Matrix, b: Matrix)
    requires IsMatrix(a) && IsMatrix(b)
    requires forall r, c, z | InRange(r, c) && 0 <= z < 2 :: a[r][c][z] == b[r][c][z]
    ensures a == b
  {
    forall r | 0 <= r < Size ensures a[r] == b[r] {
      forall c | 0 <= c < Size ensures a[r][c] == b[r][c] {
        assert forall z | 0 <= z < 2 :: a[r][c][z] == b[r][c][z];
      }
    }
  }

  /** Every entry is a cell value of the game: 0 (blank) or a digit 1..9. */
  predicate CellValues(g: Grid)
    requires IsGrid(g)
  {
    forall r, c | 0 <= r < Size && 0 <= c < Size :: 0 <= g[r][c] <= 9
  }

  /** Every entry is a digit 1..9 (a solution has no blanks). */
  predicate Digits(g: Grid)
    requires IsGrid(g)
  {
    forall r, c | 0 <= r < Size && 0 <= c < Size :: 1 <= g[r][c] <= 9
  }

  predicate RowsDistinct(g: Grid)
    requires IsGrid(g)
  {
    forall r, c1, c2 | 0 <= r < Size && 0 <= c1 < c2 < Size :: g[r][c1] != g[r][c2]
  }

  predicate ColumnsDistinct(g: Grid)
    requires IsGrid(g)
  {
    forall c, r1, r2 | 0 <= c < Size && 0 <= r1 < r2 < Size :: g[r1][c] != g[r2][c]
  }

  /** The 3×3 box in box-row `br` and box-column `bc` holds no digit twice. */
  predicate BoxDistinct(g: Grid, br: int, bc: int)
    requires IsGrid(g) && 0 <= br < 3 && 0 <= bc < 3
  {
    forall r1, c1, r2, c2 |
      3 * br <= r1 < 3 * br + 3 && 3 * bc <= c1 < 3 * bc + 3 &&
      3 * br <= r2 < 3 * br + 3 && 3 * bc <= c2 < 3 * bc + 3 &&
      (r1 != r2 || c1 != c2)
      :: g[r1][c1] != g[r2][c2]
  }

  predicate BoxesDistinct(g: Grid)
    requires IsGrid(g)
  {
    forall br, bc | 0 <= br < 3 && 0 <= bc < 3 :: BoxDistinct(g, br, bc)
  }

  /**
   * A complete, valid Sudoku solution: every entry is a digit 1..9 and no
   * row, column or 3×3 box repeats a digit (so each of them is a permutation
   * of 1..9, see lemma RowsColumnsBoxesArePermutations).
   */
  predicate ValidSolution(g: Grid) {
    IsGrid(g) && Digits(g) && RowsDistinct(g) && ColumnsDistinct(g) && BoxesDistinct(g)
  }

  /** Every given (non-zero) puzzle entry equals the solution entry at its position. */
  predicate Agrees(p: Grid, s: Grid)
    requires IsGrid(p) && IsGrid(s)
  {
    forall r, c | 0 <= r < Size && 0 <= c < Size :: p[r][c] != 0 ==> p[r][c] == s[r][c]
  }

  /**
   * What every matrix handed to the game must satisfy: the puzzle holds cell
   * values, the solution is a valid Sudoku, and the two agree on every given.
   */
  predicate ValidPair(m: Matrix) {
    IsMatrix(m) && CellValues(Layer(m, 0)) && ValidSolution(Layer(m, 1)) &&
    Agrees(Layer(m, 0), Layer(m, 1))
  }

  /** The matrix held by a 9×9×2 array (the source's `int[9][9][2]`). */
  predicate IsMatrixArray(a: array3<int>) {
    a.Length0 == Size && a.Length1 == Size && a.Length2 == 2
  }

  function Contents(a: array3<int>): (m: Matrix)
    requires IsMatrixArray(a)
    reads a
    ensures IsMatrix(m)
    ensures forall r, c, z | InRange(r, c) && 0 <= z < 2 :: m[r][c][z] == a[r, c, z]
  {
    seq(Size, r requires 0 <= r < Size reads a =>
      seq(Size, c requires 0 <= c < Size reads a =>
        seq(2, z requires 0 <= z < 2 reads a => a[r, c, z])))
  }

  /** The grid held by a 9×9 array (the source's `int[9][9]`). */
  predicate IsGridArray(a: array2<int>) {
    a.Length0 == Size && a.Length1 == Size
  }

  function GridContents(a: array2<int>): (g: Grid)
    requires IsGridArray(a)
    reads a
    ensures IsGrid(g)
    ensures forall r, c | InRange(r, c) :: g[r][c] == a[r, c]
  {
    seq(Size, r requires 0 <= r < Size reads a =>
      seq(Size, c requires 0 <= c < Size reads a => a[r, c]))
  }
}

/**
 * Rows, columns and boxes as sequences, and the fact that in a valid solution
 * each of them is a permutation of the digits 1..9.
 */
module Units {
  import opened Grids

  function Column(g: Grid, c: int): (s: seq<int>)
    requires IsGrid(g) && 0 <= c < Size
  {
    seq(Size, r requires 0 <= r < Size => g[r][c])
  }

  /** The box in box-row `br` and box-column `bc`, read row by row. */
  function Box(g: Grid, br: int, bc: int): (s: seq<int>)
    requires IsGrid(g) && 0 <= br < 3 && 0 <= bc < 3
  {
    seq(Size, k requires 0 <= k < Size => g[3 * br + k / 3][3 * bc + k % 3])
  }

  /** `s` lists each digit 1..9 exactly once. */
  predicate IsDigitPermutation(s: seq<int>) {
    |s| == Size &&
    (forall x | x in s :: 1 <= x <= 9) &&
    (forall d | 1 <= d <= 9 :: d in s) &&
    (forall i, j | 0 <= i < j < |s| :: s[i] != s[j])
  }

  lemma {:induction false} DistinctPrefixCard(s: seq<int>, k: nat)
    requires k <= |s|
    requires forall i, j | 0 <= i < j < |s| :: s[i] != s[j]
    ensures |set i | 0 <= i < k :: s[i]| == k
  {
    if k > 0 {
      DistinctPrefixCard(s, k - 1);
      var before := set i | 0 <= i < k - 1 :: s[i];
      assert (set i | 0 <= i < k :: s[i]) == before + {s[k - 1]};
      assert s[k - 1] !in before;
    }
  }

  lemma SubsetCard(a: set<int>, b: set<int>)
    requires a <= b
    ensures |a| <= |b|
  {
    assert b == a + (b - a);
  }

  /** Pigeonhole: nine distinct digits from 1..9 are all of them. */
  lemma DistinctDigitsArePermutation(s: seq<int>)
    requires |s| == Size
    requires forall i | 0 <= i < |s| :: 1 <= s[i] <= 9
    requires forall i, j | 0 <= i < j < |s| :: s[i] != s[j]
    ensures IsDigitPermutation(s)
  {
    forall d | 1 <= d <= 9 ensures d in s {
      if d !in s {
        var image := set i | 0 <= i < Size :: s[i];
        DistinctPrefixCard(s, Size);
        var others := {1, 2, 3, 4, 5, 6, 7, 8, 9} - {d};
        assert |others| == 8;
        assert image <= others;
        SubsetCard(image, others);
        assert false;
      }
    }
  }

  /** Every row, column and 3×3 box of a valid solution is a permutation of 1..9. */
  lemma RowsColumnsBoxesArePermutations(g: Grid)
    requires ValidSolution(g)
    ensures forall r | 0 <= r < Size :: IsDigitPermutation(g[r])
    ensures forall c | 0 <= c < Size :: IsDigitPermutation(Column(g, c))
    ensures forall br, bc | 0 <= br < 3 && 0 <= bc < 3 :: IsDigitPermutation(Box(g, br, bc))
  {
    forall r | 0 <= r < Size ensures IsDigitPermutation(g[r]) {
      DistinctDigitsArePermutation(g[r]);
    }
    forall c | 0 <= c < Size ensures IsDigitPermutation(Column(g, c)) {
      DistinctDigitsArePermutation(Column(g, c));
    }
    forall br, bc | 0 <= br < 3 && 0 <= bc < 3 ensures IsDigitPermutation(Box(g, br, bc)) {
      var b := Box(g, br, bc);
      forall i, j | 0 <= i < j < Size ensures b[i] != b[j] {
        assert BoxDistinct(g, br, bc);
        assert i / 3 != j / 3 || i % 3 != j % 3;
      }
      DistinctDigitsArePermutation(b);
    }
  }
}
