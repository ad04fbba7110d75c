/**
 * The three built-in templates of src/main/java/kth/model/SudokuUtilities.java
 * and what they spell: for each level, a puzzle grid and a valid solution
 * grid that agree on every given digit.
 */
module Templates {
  import opened Wrappers
  import opened Grids
  import opened TemplateDecoding
  import opened Units

  /** SudokuLevel */
  datatype Level = Easy | Medium | Hard

  /** The EASY template: its puzzle half, then its solution half. */
  const EasyTemplate: string := EasyPuzzleText + EasySolutionText

  const EasyPuzzleText: string :=
    "000914070" +
    "010000054" +
    "040002000" +
    "007569001" +
    "401000500" +
    "300100000" +
    "039000408" +
    "650800030" +
    "000403260"

  const EasySolutionText: string :=
    "583914672" +
    "712386954" +
    "946752183" +
    "827569341" +
    "461238597" +
    "395147826" +
    "239675418" +
    "654821739" +
    "178493265"

  /** The MEDIUM template: its puzzle half, then its solution half. */
  const MediumTemplate: string := MediumPuzzleText + MediumSolutionText

  const MediumPuzzleText: string :=
    "300000010" +
    "000050906" +
    "050401200" +
    "030000080" +
    "002069400" +
    "000000002" +
    "900610000" +
    "200300058" +
    "100800090"

  const MediumSolutionText: string :=
    "324976815" +
    "718253946" +
    "659481273" +
    "536142789" +
    "872569431" +
    "491738562" +
    "985617324" +
    "267394158" +
    "143825697"

  /** The HARD template: its puzzle half, then its solution half. */
  const HardTemplate: string := HardPuzzleText + HardSolutionText

  const HardPuzzleText: string :=
    "030600000" +
    "000010070" +
    "080000000" +
    "000020000" +
    "340000800" +
    "500030094" +
    "000400000" +
    "150800200" +
    "700006050"

  const HardSolutionText: string :=
    "931687542" +
    "465219378" +
    "287345916" +
    "876924135" +
    "349561827" +
    "512738694" +
    "693452781" +
    "154873269" +
    "728196453"

  /**
   * The template of a level, as generateSudokuMatrix selects it: every level
   * has its own string, and each one has the length the decoder demands.
   */
  function Template(level: Level): (t: string)
    ensures |t| == 2 * Size * Size
    ensures level == Easy <==> t == EasyTemplate
    ensures level == Medium <==> t == MediumTemplate
    ensures level == Hard <==> t == HardTemplate
  {
    match level
    case Easy =>
      assert EasyTemplate[0] != MediumTemplate[0] && EasyTemplate[1] != HardTemplate[1];
      EasyTemplate
    case Medium =>
      assert MediumTemplate[0] != EasyTemplate[0] && MediumTemplate[0] != HardTemplate[0];
      MediumTemplate
    case Hard =>
      assert HardTemplate[1] != EasyTemplate[1] && HardTemplate[0] != MediumTemplate[0];
      HardTemplate
  }

  /** The puzzle the EASY template spells. */
  const EasyPuzzle: Grid := [
    [0, 0, 0, 9, 1, 4, 0, 7, 0],
    [0, 1, 0, 0, 0, 0, 0, 5, 4],
    [0, 4, 0, 0, 0, 2, 0, 0, 0],
    [0, 0, 7, 5, 6, 9, 0, 0, 1],
    [4, 0, 1, 0, 0, 0, 5, 0, 0],
    [3, 0, 0, 1, 0, 0, 0, 0, 0],
    [0, 3, 9, 0, 0, 0, 4, 0, 8],
    [6, 5, 0, 8, 0, 0, 0, 3, 0],
    [0, 0, 0, 4, 0, 3, 2, 6, 0]
  ]

  /** The solution the EASY template spells. */
  const EasySolution: Grid := [
    [5, 8, 3, 9, 1, 4, 6, 7, 2],
    [7, 1, 2, 3, 8, 6, 9, 5, 4],
    [9, 4, 6, 7, 5, 2, 1, 8, 3],
    [8, 2, 7, 5, 6, 9, 3, 4, 1],
    [4, 6, 1, 2, 3, 8, 5, 9, 7],
    [3, 9, 5, 1, 4, 7, 8, 2, 6],
    [2, 3, 9, 6, 7, 5, 4, 1, 8],
    [6, 5, 4, 8, 2, 1, 7, 3, 9],
    [1, 7, 8, 4, 9, 3, 2, 6, 5]
  ]

  /** The puzzle the MEDIUM template spells. */
  const MediumPuzzle: Grid := [
    [3, 0, 0, 0, 0, 0, 0, 1, 0],
    [0, 0, 0, 0, 5, 0, 9, 0, 6],
    [0, 5, 0, 4, 0, 1, 2, 0, 0],
    [0, 3, 0, 0, 0, 0, 0, 8, 0],
    [0, 0, 2, 0, 6, 9, 4, 0, 0],
    [0, 0, 0, 0, 0, 0, 0, 0, 2],
    [9, 0, 0, 6, 1, 0, 0, 0, 0],
    [2, 0, 0, 3, 0, 0, 0, 5, 8],
    [1, 0, 0, 8, 0, 0, 0, 9, 0]
  ]

  /** The solution the MEDIUM template spells. */
  const MediumSolution: Grid := [
    [3, 2, 4, 9, 7, 6, 8, 1, 5],
    [7, 1, 8, 2, 5, 3, 9, 4, 6],
    [6, 5, 9, 4, 8, 1, 2, 7, 3],
    [5, 3, 6, 1, 4, 2, 7, 8, 9],
    [8, 7, 2, 5, 6, 9, 4, 3, 1],
    [4, 9, 1, 7, 3, 8, 5, 6, 2],
    [9, 8, 5, 6, 1, 7, 3, 2, 4],
    [2, 6, 7, 3, 9, 4, 1, 5, 8],
    [1, 4, 3, 8, 2, 5, 6, 9, 7]
  ]

  /** The puzzle the HARD template spells. */
  const HardPuzzle: Grid := [
    [0, 3, 0, 6, 0, 0, 0, 0, 0],
    [0, 0, 0, 0, 1, 0, 0, 7, 0],
    [0, 8, 0, 0, 0, 0, 0, 0, 0],
    [0, 0, 0, 0, 2, 0, 0, 0, 0],
    [3, 4, 0, 0, 0, 0, 8, 0, 0],
    [5, 0, 0, 0, 3, 0, 0, 9, 4],
    [0, 0, 0, 4, 0, 0, 0, 0, 0],
    [1, 5, 0, 8, 0, 0, 2, 0, 0],
    [7, 0, 0, 0, 0, 6, 0, 5, 0]
  ]

  /** The solution the HARD template spells. */
  const HardSolution: Grid := [
    [9, 3, 1, 6, 8, 7, 5, 4, 2],
    [4, 6, 5, 2, 1, 9, 3, 7, 8],
    [2, 8, 7, 3, 4, 5, 9, 1, 6],
    [8, 7, 6, 9, 2, 4, 1, 3, 5],
    [3, 4, 9, 5, 6, 1, 8, 2, 7],
    [5, 1, 2, 7, 3, 8, 6, 9, 4],
    [6, 9, 3, 4, 5, 2, 7, 8, 1],
    [1, 5, 4, 8, 7, 3, 2, 6, 9],
    [7, 2, 8, 1, 9, 6, 4, 5, 3]
  ]

  function PuzzleOf(level: Level): Grid {
    match level
    case Easy => EasyPuzzle
    case Medium => MediumPuzzle
    case Hard => HardPuzzle
  }

  function SolutionOf(level: Level): Grid {
    match level
    case Easy => EasySolution
    case Medium => MediumSolution
    case Hard => HardSolution
  }

  /** Case split over one coordinate of the grid. */
  lemma CoordinateCases(x: int)
    requires 0 <= x < Size
    ensures x == 0 || x == 1 || x == 2 || x == 3 || x == 4 || x == 5 || x == 6 || x == 7 || x == 8
  {
  }

  /** Case split over a position inside a box, or over a box. */
  lemma BoxIndexCases(x: int)
    requires 0 <= x < 3
    ensures x == 0 || x == 1 || x == 2
  {
  }

  lemma EasyPuzzleSpelled()
    ensures |EasyPuzzleText| == Size * Size && IsGrid(EasyPuzzle)
    ensures forall r, c | InRange(r, c) :: Spells(EasyPuzzle[r][c], EasyPuzzleText[Size * r + c])
  {
    forall r | 0 <= r < Size ensures forall c | 0 <= c < Size :: Spells(EasyPuzzle[r][c], EasyPuzzleText[Size * r + c]) {
      CoordinateCases(r);
      forall c | 0 <= c < Size ensures Spells(EasyPuzzle[r][c], EasyPuzzleText[Size * r + c]) {
        CoordinateCases(c);
      }
    }
  }

  lemma EasySolutionSpelled()
    ensures |EasySolutionText| == Size * Size && IsGrid(EasySolution)
    ensures forall r, c | InRange(r, c) :: Spells(EasySolution[r][c], EasySolutionText[Size * r + c])
  {
    forall r | 0 <= r < Size ensures forall c | 0 <= c < Size :: Spells(EasySolution[r][c], EasySolutionText[Size * r + c]) {
      CoordinateCases(r);
      forall c | 0 <= c < Size ensures Spells(EasySolution[r][c], EasySolutionText[Size * r + c]) {
        CoordinateCases(c);
      }
    }
  }

  lemma EasySolutionRows()
    ensures IsGrid(EasySolution) && Digits(EasySolution) && RowsDistinct(EasySolution)
  {
    var g := EasySolution;
    forall r | 0 <= r < Size
      ensures forall c :: 0 <= c < Size ==> 1 <= g[r][c] <= 9
      ensures forall c1, c2 :: 0 <= c1 < c2 < Size ==> g[r][c1] != g[r][c2]
    {
      CoordinateCases(r);
    }
  }

  lemma EasySolutionColumns()
    ensures IsGrid(EasySolution) && ColumnsDistinct(EasySolution)
  {
    var g := EasySolution;
    forall c, r1 | 0 <= c < Size && 0 <= r1 < Size ensures forall r2 :: r1 < r2 < Size ==> g[r1][c] != g[r2][c] {
      CoordinateCases(c);
    }
  }

  lemma EasySolutionBand0()
    ensures IsGrid(EasySolution)
    ensures forall bc | 0 <= bc < 3 :: BoxDistinct(EasySolution, 0, bc)
  {
    var g := EasySolution;
    forall bc | 0 <= bc < 3 ensures BoxDistinct(g, 0, bc) {
      BoxIndexCases(bc);
      forall r1, c1, r2, c2 |
        0 <= r1 < 3 && 3 * bc <= c1 < 3 * bc + 3 &&
        0 <= r2 < 3 && 3 * bc <= c2 < 3 * bc + 3 &&
        (r1 != r2 || c1 != c2)
        ensures g[r1][c1] != g[r2][c2]
      {
        BoxIndexCases(r1 - 0);
        BoxIndexCases(c1 - 3 * bc);
      }
    }
  }

  lemma EasySolutionBand1()
    ensures IsGrid(EasySolution)
    ensures forall bc | 0 <= bc < 3 :: BoxDistinct(EasySolution, 1, bc)
  {
    var g := EasySolution;
    forall bc | 0 <= bc < 3 ensures BoxDistinct(g, 1, bc) {
      BoxIndexCases(bc);
      forall r1, c1, r2, c2 |
        3 <= r1 < 6 && 3 * bc <= c1 < 3 * bc + 3 &&
        3 <= r2 < 6 && 3 * bc <= c2 < 3 * bc + 3 &&
        (r1 != r2 || c1 != c2)
        ensures g[r1][c1] != g[r2][c2]
      {
        BoxIndexCases(r1 - 3);
        BoxIndexCases(c1 - 3 * bc);
      }
    }
  }

  lemma EasySolutionBand2()
    ensures IsGrid(EasySolution)
    ensures forall bc | 0 <= bc < 3 :: BoxDistinct(EasySolution, 2, bc)
  {
    var g := EasySolution;
    forall bc | 0 <= bc < 3 ensures BoxDistinct(g, 2, bc) {
      BoxIndexCases(bc);
      forall r1, c1, r2, c2 |
        6 <= r1 < 9 && 3 * bc <= c1 < 3 * bc + 3 &&
        6 <= r2 < 9 && 3 * bc <= c2 < 3 * bc + 3 &&
        (r1 != r2 || c1 != c2)
        ensures g[r1][c1] != g[r2][c2]
      {
        BoxIndexCases(r1 - 6);
        BoxIndexCases(c1 - 3 * bc);
      }
    }
  }

  lemma EasySolutionBoxes()
    ensures IsGrid(EasySolution) && BoxesDistinct(EasySolution)
  {
    EasySolutionBand0();
    EasySolutionBand1();
    EasySolutionBand2();
    forall br, bc | 0 <= br < 3 && 0 <= bc < 3 ensures BoxDistinct(EasySolution, br, bc) {
      BoxIndexCases(br);
    }
  }

  lemma EasyPuzzleAgrees()
    ensures IsGrid(EasyPuzzle) && IsGrid(EasySolution)
    ensures CellValues(EasyPuzzle) && Agrees(EasyPuzzle, EasySolution)
  {
    var p, q := EasyPuzzle, EasySolution;
    forall r | 0 <= r < Size
      ensures forall c :: 0 <= c < Size ==> 0 <= p[r][c] <= 9 && (p[r][c] != 0 ==> p[r][c] == q[r][c])
    {
      CoordinateCases(r);
    }
  }

  lemma MediumPuzzleSpelled()
    ensures |MediumPuzzleText| == Size * Size && IsGrid(MediumPuzzle)
    ensures forall r, c | InRange(r, c) :: Spells(MediumPuzzle[r][c], MediumPuzzleText[Size * r + c])
  {
    forall r | 0 <= r < Size ensures forall c | 0 <= c < Size :: Spells(MediumPuzzle[r][c], MediumPuzzleText[Size * r + c]) {
      CoordinateCases(r);
      forall c | 0 <= c < Size ensures Spells(MediumPuzzle[r][c], MediumPuzzleText[Size * r + c]) {
        CoordinateCases(c);
      }
    }
  }

  lemma MediumSolutionSpelled()
    ensures |MediumSolutionText| == Size * Size && IsGrid(MediumSolution)
    ensures forall r, c | InRange(r, c) :: Spells(MediumSolution[r][c], MediumSolutionText[Size * r + c])
  {
    forall r | 0 <= r < Size ensures forall c | 0 <= c < Size :: Spells(MediumSolution[r][c], MediumSolutionText[Size * r + c]) {
      CoordinateCases(r);
      forall c | 0 <= c < Size ensures Spells(MediumSolution[r][c], MediumSolutionText[Size * r + c]) {
        CoordinateCases(c);
      }
    }
  }

  lemma MediumSolutionRows()
    ensures IsGrid(MediumSolution) && Digits(MediumSolution) && RowsDistinct(MediumSolution)
  {
    var g := MediumSolution;
    forall r | 0 <= r < Size
      ensures forall c :: 0 <= c < Size ==> 1 <= g[r][c] <= 9
      ensures forall c1, c2 :: 0 <= c1 < c2 < Size ==> g[r][c1] != g[r][c2]
    {
      CoordinateCases(r);
    }
  }

  lemma MediumSolutionColumns()
    ensures IsGrid(MediumSolution) && ColumnsDistinct(MediumSolution)
  {
    var g := MediumSolution;
    forall c, r1 | 0 <= c < Size && 0 <= r1 < Size ensures forall r2 :: r1 < r2 < Size ==> g[r1][c] != g[r2][c] {
      CoordinateCases(c);
    }
  }

  lemma MediumSolutionBand0()
    ensures IsGrid(MediumSolution)
    ensures forall bc | 0 <= bc < 3 :: BoxDistinct(MediumSolution, 0, bc)
  {
    var g := MediumSolution;
    forall bc | 0 <= bc < 3 ensures BoxDistinct(g, 0, bc) {
      BoxIndexCases(bc);
      forall r1, c1, r2, c2 |
        0 <= r1 < 3 && 3 * bc <= c1 < 3 * bc + 3 &&
        0 <= r2 < 3 && 3 * bc <= c2 < 3 * bc + 3 &&
        (r1 != r2 || c1 != c2)
        ensures g[r1][c1] != g[r2][c2]
      {
        BoxIndexCases(r1 - 0);
        BoxIndexCases(c1 - 3 * bc);
      }
    }
  }

  lemma MediumSolutionBand1()
    ensures IsGrid(MediumSolution)
    ensures forall bc | 0 <= bc < 3 :: BoxDistinct(MediumSolution, 1, bc)
  {
    var g := MediumSolution;
    forall bc | 0 <= bc < 3 ensures BoxDistinct(g, 1, bc) {
      BoxIndexCases(bc);
      forall r1, c1, r2, c2 |
        3 <= r1 < 6 && 3 * bc <= c1 < 3 * bc + 3 &&
        3 <= r2 < 6 && 3 * bc <= c2 < 3 * bc + 3 &&
        (r1 != r2 || c1 != c2)
        ensures g[r1][c1] != g[r2][c2]
      {
        BoxIndexCases(r1 - 3);
        BoxIndexCases(c1 - 3 * bc);
      }
    }
  }

  lemma MediumSolutionBand2()
    ensures IsGrid(MediumSolution)
    ensures forall bc | 0 <= bc < 3 :: BoxDistinct(MediumSolution, 2, bc)
  {
    var g := MediumSolution;
    forall bc | 0 <= bc < 3 ensures BoxDistinct(g, 2, bc) {
      BoxIndexCases(bc);
      forall r1, c1, r2, c2 |
        6 <= r1 < 9 && 3 * bc <= c1 < 3 * bc + 3 &&
        6 <= r2 < 9 && 3 * bc <= c2 < 3 * bc + 3 &&
        (r1 != r2 || c1 != c2)
        ensures g[r1][c1] != g[r2][c2]
      {
        BoxIndexCases(r1 - 6);
        BoxIndexCases(c1 - 3 * bc);
      }
    }
  }

  lemma MediumSolutionBoxes()
    ensures IsGrid(MediumSolution) && BoxesDistinct(MediumSolution)
  {
    MediumSolutionBand0();
    MediumSolutionBand1();
    MediumSolutionBand2();
    forall br, bc | 0 <= br < 3 && 0 <= bc < 3 ensures BoxDistinct(MediumSolution, br, bc) {
      BoxIndexCases(br);
    }
  }

  lemma MediumPuzzleAgrees()
    ensures IsGrid(MediumPuzzle) && IsGrid(MediumSolution)
    ensures CellValues(MediumPuzzle) && Agrees(MediumPuzzle, MediumSolution)
  {
    var p, q := MediumPuzzle, MediumSolution;
    forall r | 0 <= r < Size
      ensures forall c :: 0 <= c < Size ==> 0 <= p[r][c] <= 9 && (p[r][c] != 0 ==> p[r][c] == q[r][c])
    {
      CoordinateCases(r);
    }
  }

  lemma HardPuzzleSpelled()
    ensures |HardPuzzleText| == Size * Size && IsGrid(HardPuzzle)
    ensures forall r, c | InRange(r, c) :: Spells(HardPuzzle[r][c], HardPuzzleText[Size * r + c])
  {
    forall r | 0 <= r < Size ensures forall c | 0 <= c < Size :: Spells(HardPuzzle[r][c], HardPuzzleText[Size * r + c]) {
      CoordinateCases(r);
      forall c | 0 <= c < Size ensures Spells(HardPuzzle[r][c], HardPuzzleText[Size * r + c]) {
        CoordinateCases(c);
      }
    }
  }

  lemma HardSolutionSpelled()
    ensures |HardSolutionText| == Size * Size && IsGrid(HardSolution)
    ensures forall r, c | InRange(r, c) :: Spells(HardSolution[r][c], HardSolutionText[Size * r + c])
  {
    forall r | 0 <= r < Size ensures forall c | 0 <= c < Size :: Spells(HardSolution[r][c], HardSolutionText[Size * r + c]) {
      CoordinateCases(r);
      forall c | 0 <= c < Size ensures Spells(HardSolution[r][c], HardSolutionText[Size * r + c]) {
        CoordinateCases(c);
      }
    }
  }

  lemma HardSolutionRows()
    ensures IsGrid(HardSolution) && Digits(HardSolution) && RowsDistinct(HardSolution)
  {
    var g := HardSolution;
    forall r | 0 <= r < Size
      ensures forall c :: 0 <= c < Size ==> 1 <= g[r][c] <= 9
      ensures forall c1, c2 :: 0 <= c1 < c2 < Size ==> g[r][c1] != g[r][c2]
    {
      CoordinateCases(r);
    }
  }

  lemma HardSolutionColumns()
    ensures IsGrid(HardSolution) && ColumnsDistinct(HardSolution)
  {
    var g := HardSolution;
    forall c, r1 | 0 <= c < Size && 0 <= r1 < Size ensures forall r2 :: r1 < r2 < Size ==> g[r1][c] != g[r2][c] {
      CoordinateCases(c);
    }
  }

  lemma HardSolutionBand0()
    ensures IsGrid(HardSolution)
    ensures forall bc | 0 <= bc < 3 :: BoxDistinct(HardSolution, 0, bc)
  {
    var g := HardSolution;
    forall bc | 0 <= bc < 3 ensures BoxDistinct(g, 0, bc) {
      BoxIndexCases(bc);
      forall r1, c1, r2, c2 |
        0 <= r1 < 3 && 3 * bc <= c1 < 3 * bc + 3 &&
        0 <= r2 < 3 && 3 * bc <= c2 < 3 * bc + 3 &&
        (r1 != r2 || c1 != c2)
        ensures g[r1][c1] != g[r2][c2]
      {
        BoxIndexCases(r1 - 0);
        BoxIndexCases(c1 - 3 * bc);
      }
    }
  }

  lemma HardSolutionBand1()
    ensures IsGrid(HardSolution)
    ensures forall bc | 0 <= bc < 3 :: BoxDistinct(HardSolution, 1, bc)
  {
    var g := HardSolution;
    forall bc | 0 <= bc < 3 ensures BoxDistinct(g, 1, bc) {
      BoxIndexCases(bc);
      forall r1, c1, r2, c2 |
        3 <= r1 < 6 && 3 * bc <= c1 < 3 * bc + 3 &&
        3 <= r2 < 6 && 3 * bc <= c2 < 3 * bc + 3 &&
        (r1 != r2 || c1 != c2)
        ensures g[r1][c1] != g[r2][c2]
      {
        BoxIndexCases(r1 - 3);
        BoxIndexCases(c1 - 3 * bc);
      }
    }
  }

  lemma HardSolutionBand2()
    ensures IsGrid(HardSolution)
    ensures forall bc | 0 <= bc < 3 :: BoxDistinct(HardSolution, 2, bc)
  {
    var g := HardSolution;
    forall bc | 0 <= bc < 3 ensures BoxDistinct(g, 2, bc) {
      BoxIndexCases(bc);
      forall r1, c1, r2, c2 |
        6 <= r1 < 9 && 3 * bc <= c1 < 3 * bc + 3 &&
        6 <= r2 < 9 && 3 * bc <= c2 < 3 * bc + 3 &&
        (r1 != r2 || c1 != c2)
        ensures g[r1][c1] != g[r2][c2]
      {
        BoxIndexCases(r1 - 6);
        BoxIndexCases(c1 - 3 * bc);
      }
    }
  }

  lemma HardSolutionBoxes()
    ensures IsGrid(HardSolution) && BoxesDistinct(HardSolution)
  {
    HardSolutionBand0();
    HardSolutionBand1();
    HardSolutionBand2();
    forall br, bc | 0 <= br < 3 && 0 <= bc < 3 ensures BoxDistinct(HardSolution, br, bc) {
      BoxIndexCases(br);
    }
  }

  lemma HardPuzzleAgrees()
    ensures IsGrid(HardPuzzle) && IsGrid(HardSolution)
    ensures CellValues(HardPuzzle) && Agrees(HardPuzzle, HardSolution)
  {
    var p, q := HardPuzzle, HardSolution;
    forall r | 0 <= r < Size
      ensures forall c :: 0 <= c < Size ==> 0 <= p[r][c] <= 9 && (p[r][c] != 0 ==> p[r][c] == q[r][c])
    {
      CoordinateCases(r);
    }
  }

  /** Two 81-character halves, each spelling a grid row by row, spell the pair at the positions decoding reads. */
  lemma HalvesSpell(puzzleText: string, solutionText: string, p: Grid, q: Grid)
    requires |puzzleText| == Size * Size && |solutionText| == Size * Size && IsGrid(p) && IsGrid(q)
    requires forall r, c | InRange(r, c) :: Spells(p[r][c], puzzleText[Size * r + c])
    requires forall r, c | InRange(r, c) :: Spells(q[r][c], solutionText[Size * r + c])
    ensures var s := puzzleText + solutionText;
      forall r, c | InRange(r, c) ::
        Spells(p[r][c], s[Position(r, c, 0)]) && Spells(q[r][c], s[Position(r, c, 1)])
  {
  }

  /** A string that spells two grids position by position decodes to exactly that pair. */
  lemma SpelledDecodes(s: string, p: Grid, q: Grid)
    requires |s| == TemplateLength && IsGrid(p) && IsGrid(q)
    requires forall r, c | InRange(r, c) :: Spells(p[r][c], s[Position(r, c, 0)])
    requires forall r, c | InRange(r, c) :: Spells(q[r][c], s[Position(r, c, 1)])
    ensures Decode(s) == Success(Pack(p, q))
  {
    forall i | 0 <= i < |s| ensures IsDigitChar(s[i]) {
      PositionInverse(i);
    }
    var m := Pack(p, q);
    forall r, c, z | InRange(r, c) && 0 <= z < 2 ensures Spells(m[r][c][z], s[Position(r, c, z)]) {
      assert Layer(m, z)[r][c] == m[r][c][z];
    }
    SameDigitsSameMatrix(Decode(s).value, m, s);
  }

  /** Each template decodes without error, to exactly its puzzle and solution grids. */
  lemma TemplateDecodes(level: Level)
    ensures IsGrid(PuzzleOf(level)) && IsGrid(SolutionOf(level))
    ensures Decode(Template(level)) == Success(Pack(PuzzleOf(level), SolutionOf(level)))
  {
    match level
    case Easy =>
      EasyPuzzleSpelled();
      EasySolutionSpelled();
      HalvesSpell(EasyPuzzleText, EasySolutionText, EasyPuzzle, EasySolution);
      SpelledDecodes(EasyTemplate, EasyPuzzle, EasySolution);
    case Medium =>
      MediumPuzzleSpelled();
      MediumSolutionSpelled();
      HalvesSpell(MediumPuzzleText, MediumSolutionText, MediumPuzzle, MediumSolution);
      SpelledDecodes(MediumTemplate, MediumPuzzle, MediumSolution);
    case Hard =>
      HardPuzzleSpelled();
      HardSolutionSpelled();
      HalvesSpell(HardPuzzleText, HardSolutionText, HardPuzzle, HardSolution);
      SpelledDecodes(HardTemplate, HardPuzzle, HardSolution);
  }

  /** The solution layer of each built-in template is a valid Sudoku. */
  lemma SolutionValid(level: Level)
    ensures ValidSolution(SolutionOf(level))
  {
    match level
    case Easy =>
      EasySolutionRows();
      EasySolutionColumns();
      EasySolutionBoxes();
    case Medium =>
      MediumSolutionRows();
      MediumSolutionColumns();
      MediumSolutionBoxes();
    case Hard =>
      HardSolutionRows();
      HardSolutionColumns();
      HardSolutionBoxes();
  }

  /** Each built-in puzzle holds cell values only, and every given digit is the solution's digit. */
  lemma PuzzleAgrees(level: Level)
    ensures IsGrid(PuzzleOf(level)) && IsGrid(SolutionOf(level))
    ensures CellValues(PuzzleOf(level)) && Agrees(PuzzleOf(level), SolutionOf(level))
  {
    match level
    case Easy => EasyPuzzleAgrees();
    case Medium => MediumPuzzleAgrees();
    case Hard => HardPuzzleAgrees();
  }

  /**
   * Each template decodes, and to a valid pair: a valid Sudoku solution and
   * a puzzle whose given digits are the solution's.
   */
  lemma TemplateIsValidPair(level: Level)
    ensures Decode(Template(level)).Success?
    ensures ValidPair(Decode(Template(level)).value)
  {
    TemplateDecodes(level);
    SolutionValid(level);
    PuzzleAgrees(level);
  }

  /** In each built-in solution, every row, column and 3×3 box lists each digit 1..9 exactly once. */
  lemma TemplateSolutionPermutations(level: Level)
    ensures IsGrid(SolutionOf(level))
    ensures forall r | 0 <= r < Size :: IsDigitPermutation(SolutionOf(level)[r])
    ensures forall c | 0 <= c < Size :: IsDigitPermutation(Column(SolutionOf(level), c))
    ensures forall br, bc | 0 <= br < 3 && 0 <= bc < 3 :: IsDigitPermutation(Box(SolutionOf(level), br, bc))
  {
    SolutionValid(level);
    RowsColumnsBoxesArePermutations(SolutionOf(level));
  }

  /** Decoding EASY: puzzle (0,0) is blank, puzzle (0,3) is 9, solution (0,0) is 5. */
  lemma EasyCorners()
    ensures Decode(EasyTemplate).Success?
    ensures Decode(EasyTemplate).value[0][0][0] == 0
    ensures Decode(EasyTemplate).value[0][3][0] == 9
    ensures Decode(EasyTemplate).value[0][0][1] == 5
  {
    TemplateDecodes(Easy);
    var m := Pack(EasyPuzzle, EasySolution);
    assert Layer(m, 0)[0][0] == 0 && Layer(m, 0)[0][3] == 9 && Layer(m, 1)[0][0] == 5;
  }
}
