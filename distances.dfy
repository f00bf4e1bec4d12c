/**
 * The two distance measures of a board (hamming and manhattan) and the goal
 * test built on them.
 *
 * Both measures add up a cost per cell over the grid in row-major order;
 * CellCost gives that cost and RowCost / GridCost the partial sums the two
 * nested loops of the board code have reached, so each loop is proved
 * against Measure.
 */
module Distances {
  import opened Grids
  import opened Boards

  /** hamming counts misplaced cells; manhattan adds the block distances of the tiles. */
  datatype Metric = MisplacedCells | BlockDistance

  /** |a - b| for naturals, as the size_t conditional of manhattan computes it. */
  function Gap(a: nat, b: nat): nat
  {
    if a > b then a - b else b - a
  }

  /**
   * The cost of cell (i, j). hamming: 1 when the cell does not hold what the
   * solved board holds there (0 in the last cell, i*n + j + 1 elsewhere).
   * manhattan: 0 for the blank, and for a tile v the distance between (i, j)
   * and the cell ((v - 1) / n, (v - 1) % n) where v belongs.
   */
  function CellCost(m: Metric, g: Grid, i: nat, j: nat): nat
    requires Square(g) && i < |g| && j < |g|
  {
    var n, v := |g|, g[i][j];
    match m
    case MisplacedCells => if v != GoalCell(n, i, j) then 1 else 0
    case BlockDistance => if v == 0 then 0 else Gap(i, (v - 1) / n) + Gap(j, (v - 1) % n)
  }

  /** The costs of the first j cells of row i. */
  function RowCost(m: Metric, g: Grid, i: nat, j: nat): nat
    requires Square(g) && i < |g| && j <= |g|
  {
    if j == 0 then 0 else RowCost(m, g, i, j - 1) + CellCost(m, g, i, j - 1)
  }

  /** The costs of the first i rows. */
  function GridCost(m: Metric, g: Grid, i: nat): nat
    requires Square(g) && i <= |g|
  {
    if i == 0 then 0 else GridCost(m, g, i - 1) + RowCost(m, g, i - 1, |g|)
  }

  /** The measure of the whole grid. */
  function Measure(m: Metric, g: Grid): nat
    requires Square(g)
  {
    GridCost(m, g, |g|)
  }

  /** hamming: the row-major scan with the running expected value current. */
  method Hamming(b: Board) returns (r: nat)
    requires Square(b.grid)
    ensures r == Measure(MisplacedCells, b.grid)
  {
    var g, n := b.grid, |b.grid|;
    r := 0;
    var current: nat := 1;
    for i: nat := 0 to n
      invariant r == GridCost(MisplacedCells, g, i)
      invariant i < n ==> current == i * n + 1
    {
      for j: nat := 0 to n
        invariant r == GridCost(MisplacedCells, g, i) + RowCost(MisplacedCells, g, i, j)
        invariant j < n || i + 1 < n ==> current == i * n + j + 1
      {
        if i == n - 1 && j == n - 1 {
          if g[i][j] != 0 {
            r := r + 1;
          }
          continue;
        }
        if g[i][j] != current {
          r := r + 1;
        }
        current := current + 1;
      }
      assert i + 1 < n ==> current == (i + 1) * n + 1;
    }
  }

  /** manhattan: the row-major scan that skips the blank. */
  method Manhattan(b: Board) returns (r: nat)
    requires Square(b.grid)
    ensures r == Measure(BlockDistance, b.grid)
  {
    var g, n := b.grid, |b.grid|;
    r := 0;
    for i: nat := 0 to n
      invariant r == GridCost(BlockDistance, g, i)
    {
      for j: nat := 0 to n
        invariant r == GridCost(BlockDistance, g, i) + RowCost(BlockDistance, g, i, j)
      {
        if g[i][j] == 0 {
          continue;
        }
        var goalI, goalJ := (g[i][j] - 1) / n, (g[i][j] - 1) % n;
        r := r + (if i > goalI then i - goalI else goalI - i);
        r := r + (if j > goalJ then j - goalJ else goalJ - j);
      }
    }
  }

  lemma {:induction false} RowCostZero(m: Metric, g: Grid, i: nat, j: nat)
    requires Square(g) && i < |g| && j <= |g|
    ensures RowCost(m, g, i, j) == 0 <==> forall l | 0 <= l < j :: CellCost(m, g, i, l) == 0
  {
    if j > 0 {
      RowCostZero(m, g, i, j - 1);
    }
  }

  lemma {:induction false} GridCostZero(m: Metric, g: Grid, i: nat)
    requires Square(g) && i <= |g|
    ensures GridCost(m, g, i) == 0 <==>
      forall k, l | 0 <= k < i && 0 <= l < |g| :: CellCost(m, g, k, l) == 0
  {
    if i > 0 {
      GridCostZero(m, g, i - 1);
      RowCostZero(m, g, i - 1, |g|);
    }
  }

  /** A measure is 0 exactly when every cell costs nothing. */
  lemma MeasureZero(m: Metric, g: Grid)
    requires Square(g)
    ensures Measure(m, g) == 0 <==>
      forall i, j | 0 <= i < |g| && 0 <= j < |g| :: CellCost(m, g, i, j) == 0
  {
    GridCostZero(m, g, |g|);
  }

  lemma {:induction false} RowCostAtMost(g: Grid, i: nat, j: nat)
    requires Square(g) && i < |g| && j <= |g|
    ensures RowCost(MisplacedCells, g, i, j) <= j
  {
    if j > 0 {
      RowCostAtMost(g, i, j - 1);
    }
  }

  lemma {:induction false} GridCostAtMost(g: Grid, i: nat)
    requires Square(g) && i <= |g|
    ensures GridCost(MisplacedCells, g, i) <= i * |g|
  {
    if i > 0 {
      GridCostAtMost(g, i - 1);
      RowCostAtMost(g, i - 1, |g|);
      assert (i - 1) * |g| + |g| == i * |g|;
    }
  }

  /** hamming never exceeds the number of cells. */
  lemma HammingAtMost(g: Grid)
    requires Square(g)
    ensures Measure(MisplacedCells, g) <= |g| * |g|
  {
    GridCostAtMost(g, |g|);
  }

  /** hamming is 0 exactly on the solved grid. */
  lemma HammingZero(g: Grid)
    requires Square(g)
    ensures Measure(MisplacedCells, g) == 0 <==> g == GoalGrid(|g|)
  {
    MeasureZero(MisplacedCells, g);
    var goal := GoalGrid(|g|);
    if forall i, j | 0 <= i < |g| && 0 <= j < |g| :: CellCost(MisplacedCells, g, i, j) == 0 {
      forall i, j | 0 <= i < |g| && 0 <= j < |g|
        ensures g[i][j] == goal[i][j]
      {
        assert CellCost(MisplacedCells, g, i, j) == 0;
      }
      CellsEqual(g, goal);
    }
  }

  /** A tile v at (i, j) has block distance 0 exactly when v == i*n + j + 1. */
  lemma TileInPlace(g: Grid, i: nat, j: nat)
    requires Square(g) && i < |g| && j < |g|
    ensures g[i][j] != 0 ==> (CellCost(BlockDistance, g, i, j) == 0 <==> g[i][j] == i * |g| + j + 1)
  {
    var n, v := |g|, g[i][j];
    DivMod(i, j, n);
    if v != 0 && CellCost(BlockDistance, g, i, j) == 0 {
      assert (v - 1) / n == i && (v - 1) % n == j;
      assert v - 1 == ((v - 1) / n) * n + (v - 1) % n;
    }
  }

  /** The solved grid has manhattan 0. */
  lemma GoalBlockDistance(n: nat)
    ensures Measure(BlockDistance, GoalGrid(n)) == 0
  {
    var g := GoalGrid(n);
    forall i, j | 0 <= i < n && 0 <= j < n
      ensures CellCost(BlockDistance, g, i, j) == 0
    {
      if g[i][j] != 0 {
        TileInPlace(g, i, j);
      }
    }
    MeasureZero(BlockDistance, g);
  }

  /**
   * On a permutation grid manhattan is 0 exactly on the solved grid: with
   * every tile in place, the last cell cannot hold the tile n*n, so it
   * holds the blank, and no other cell can hold a second blank.
   */
  lemma BlockDistanceZero(g: Grid)
    requires IsPermutationGrid(g)
    ensures Measure(BlockDistance, g) == 0 <==> g == GoalGrid(|g|)
  {
    var n := |g|;
    GoalBlockDistance(n);
    MeasureZero(BlockDistance, g);
    if Measure(BlockDistance, g) == 0 {
      if n > 0 {
        TileInPlace(g, n - 1, n - 1);
        assert (n - 1) * n + (n - 1) + 1 == n * n;
        assert g[n - 1][n - 1] == 0;
        forall i, j | 0 <= i < n && 0 <= j < n
          ensures g[i][j] == GoalCell(n, i, j)
        {
          if i != n - 1 || j != n - 1 {
            assert g[i][j] != g[n - 1][n - 1];
            TileInPlace(g, i, j);
          }
        }
      }
      CellsEqual(g, GoalGrid(n));
    }
  }

  /** is_goal: hamming is 0, which happens exactly on the solved grid. */
  function IsGoal(b: Board): (r: bool)
    requires Square(b.grid)
    ensures r <==> b.grid == GoalGrid(Size(b))
  {
    HammingZero(b.grid);
    Measure(MisplacedCells, b.grid) == 0
  }
}
