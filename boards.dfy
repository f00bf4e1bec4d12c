/**
 * The puzzle board: an n x n grid of tile numbers, 0 being the blank, with
 * the position of the blank cached beside it.
 *
 * A board is a value: copying it (as the solver does when it stores boards
 * in its closed set and in its nodes) gives an independent board, so it is
 * a datatype here. Operations that build a board with loops are methods,
 * each proved against a function or a property of the grid it builds.
 */
module Boards {
  import opened Grids

  /**
   * The grid and the cached position (row, col) of the blank. The position
   * takes no part in comparing boards (see module Order).
   */
  datatype Board = Board(grid: Grid, row: nat, col: nat)

  /** The number of rows, which is also the number of columns. */
  function Size(b: Board): (n: nat)
    ensures Square(b.grid) ==> forall i | 0 <= i < |b.grid| :: |b.grid[i]| == n
  {
    |b.grid|
  }

  /** Row index of the grid, unchanged. */
  function Row(b: Board, index: nat): (r: seq<nat>)
    requires Square(b.grid) && index < Size(b)
    ensures |r| == Size(b)
    ensures forall j | 0 <= j < |r| :: r[j] == b.grid[index][j]
  {
    b.grid[index]
  }

  /** Cell (i, j) comes after cell (r, c) in row-major order. */
  predicate After(i: nat, j: nat, r: nat, c: nat)
  {
    i > r || (i == r && j > c)
  }

  /** Cell (i, j) comes before cell (r, c) in row-major order. */
  predicate Before(i: nat, j: nat, r: nat, c: nat)
  {
    i < r || (i == r && j < c)
  }

  /** Some cell of g holds the blank. */
  predicate HasBlank(g: Grid)
    requires Square(g)
  {
    exists i, j | 0 <= i < |g| && 0 <= j < |g| :: g[i][j] == 0
  }

  /** A grid holds the blank exactly when its row-major reading does. */
  lemma FlatHasBlank(g: Grid)
    requires Square(g)
    ensures HasBlank(g) <==> 0 in Flat(g)
  {
    if HasBlank(g) {
      var i, j :| 0 <= i < |g| && 0 <= j < |g| && g[i][j] == 0;
      FlatAt(g, i, j);
    }
    if 0 in Flat(g) {
      var p :| 0 <= p < |Flat(g)| && Flat(g)[p] == 0;
      FlatCell(g, p);
    }
  }

  /** (row, col) is the last cell of g, in row-major order, holding the blank. */
  predicate LastBlank(g: Grid, row: nat, col: nat)
    requires Square(g)
  {
    && row < |g| && col < |g| && g[row][col] == 0
    && forall i, j | 0 <= i < |g| && 0 <= j < |g| && After(i, j, row, col) :: g[i][j] != 0
  }

  /**
   * The board invariant: the grid is a permutation of 0 .. n*n-1 and the
   * cached position names the cell of the blank; an empty board keeps the
   * position (0, 0).
   */
  predicate Valid(b: Board): (r: bool)
    ensures r ==> Square(b.grid) && forall v | 0 <= v < |b.grid| * |b.grid| :: v in Flat(b.grid)
  {
    var r := && IsPermutationGrid(b.grid)
             && if |b.grid| == 0 then b.row == 0 && b.col == 0
                else b.row < |b.grid| && b.col < |b.grid| && b.grid[b.row][b.col] == 0;
    if r then PermutationCovers(b.grid); r else r
  }

  /** In a grid without repeats, the cell of the blank is the last one. */
  lemma ValidLastBlank(b: Board)
    requires Valid(b) && Size(b) > 0
    ensures LastBlank(b.grid, b.row, b.col)
  {
  }

  /**
   * The blank search of the constructor: the position is the last cell, in
   * row-major order, holding 0, and (0, 0) when no cell does.
   */
  method NewBoard(g: Grid) returns (b: Board)
    requires Square(g)
    ensures b.grid == g
    ensures HasBlank(g) ==> LastBlank(g, b.row, b.col)
    ensures !HasBlank(g) ==> b.row == 0 && b.col == 0
    ensures IsPermutationGrid(g) ==> Valid(b)
  {
    var n := |g|;
    var row, col := 0, 0;
    ghost var found := false;
    var i := 0;
    while i < n
      invariant 0 <= i <= n
      invariant found ==> row < n && col < n && g[row][col] == 0
      invariant found ==> forall k, l | 0 <= k < i && 0 <= l < n && After(k, l, row, col) :: g[k][l] != 0
      invariant !found ==> row == 0 && col == 0
      invariant !found ==> forall k, l | 0 <= k < i && 0 <= l < n :: g[k][l] != 0
    {
      var j := 0;
      while j < n
        invariant 0 <= j <= n
        invariant found ==> row < n && col < n && g[row][col] == 0
        invariant found ==> forall k, l | 0 <= k < n && 0 <= l < n && Before(k, l, i, j) && After(k, l, row, col) :: g[k][l] != 0
        invariant !found ==> row == 0 && col == 0
        invariant !found ==> forall k, l | 0 <= k < n && 0 <= l < n && Before(k, l, i, j) :: g[k][l] != 0
      {
        if g[i][j] == 0 {
          row, col := i, j;
          found := true;
        }
        j := j + 1;
      }
      i := i + 1;
    }
    b := Board(g, row, col);
    if IsPermutationGrid(g) {
      FlatHasBlank(g);
      FlatDistinct(g);
      FlatBelow(g, n * n);
      PermutationValid(b);
    }
  }

  /** The value the solved board holds at (i, j): i*n + j + 1, and 0 in the last cell. */
  function GoalCell(n: nat, i: nat, j: nat): nat
  {
    if i + 1 == n && j + 1 == n then 0 else i * n + j + 1
  }

  /** The solved n x n grid. */
  function GoalGrid(n: nat): (g: Grid)
    ensures Square(g) && |g| == n
  {
    seq(n, i requires 0 <= i < n => seq(n, j requires 0 <= j < n => GoalCell(n, i, j)))
  }

  /** Only the last cell of the solved grid holds the blank. */
  lemma GoalBlank(n: nat, i: nat, j: nat)
    requires i < n && j < n
    ensures GoalGrid(n)[i][j] == 0 <==> i == n - 1 && j == n - 1
  {
  }

  /** The solved grid is a permutation of 0 .. n*n-1. */
  lemma GoalIsPermutation(n: nat)
    ensures IsPermutationGrid(GoalGrid(n))
  {
    var g := GoalGrid(n);
    forall i, j | 0 <= i < n && 0 <= j < n
      ensures g[i][j] < n * n
    {
      IndexBound(i, j, n);
      if g[i][j] != 0 {
        DivMod(i, j, n);
        DivMod(n - 1, n - 1, n);
        assert (n - 1) * n + (n - 1) == n * n - 1;
      }
    }
    forall i, j, k, l | 0 <= i < n && 0 <= j < n && 0 <= k < n && 0 <= l < n && (i, j) != (k, l)
      ensures g[i][j] != g[k][l]
    {
      if g[i][j] != 0 && g[k][l] != 0 {
        DivMod(i, j, n);
        DivMod(k, l, n);
      }
    }
  }

  /**
   * create_goal: fills the n x n grid with i*n + j + 1 row by row, then puts
   * the blank in the last cell; the constructor caches that cell.
   */
  method CreateGoal(n: nat) returns (b: Board)
    ensures b.grid == GoalGrid(n)
    ensures Valid(b)
    ensures n > 0 ==> b.row == n - 1 && b.col == n - 1
  {
    var grid: Grid := seq(n, _ => seq(n, _ => 0));
    GoalIsPermutation(n);
    if n == 0 {
      b := NewBoard(grid);
      return;
    }
    for i: nat := 0 to n
      invariant |grid| == n && Square(grid)
      invariant forall k, l | 0 <= k < i && 0 <= l < n :: grid[k][l] == k * n + l + 1
    {
      for j: nat := 0 to n
        invariant |grid| == n && Square(grid)
        invariant forall k, l | 0 <= k < i && 0 <= l < n :: grid[k][l] == k * n + l + 1
        invariant forall l | 0 <= l < j :: grid[i][l] == i * n + l + 1
      {
        var line: seq<nat> := grid[i][j := i * n + j + 1];
        grid := grid[i := line];
      }
    }
    grid := grid[n - 1 := grid[n - 1][n - 1 := 0]];
    CellsEqual(grid, GoalGrid(n));
    b := NewBoard(grid);
    assert HasBlank(grid) by {
      assert grid[n - 1][n - 1] == 0;
    }
    GoalBlank(n, b.row, b.col);
  }

  /** The values of fields are distinct and all below their number. */
  predicate IsPermutation(fields: seq<nat>)
  {
    && (forall p | 0 <= p < |fields| :: fields[p] < |fields|)
    && (forall p, q | 0 <= p < q < |fields| :: fields[p] != fields[q])
  }

  /**
   * The fill of create_random from a given sequence: starting from the solved
   * board, cell (i, j) takes fields[i*n + j], and the position moves to every
   * cell that takes 0. The shuffle that produces fields is not modelled.
   */
  method CreateFromFields(n: nat, fields: seq<nat>) returns (b: Board)
    requires |fields| == n * n
    ensures Square(b.grid) && Size(b) == n && Flat(b.grid) == fields
    ensures 0 in fields ==> LastBlank(b.grid, b.row, b.col)
    ensures 0 !in fields && n > 0 ==> b.row == n - 1 && b.col == n - 1
    ensures IsPermutation(fields) ==> Valid(b)
  {
    b := CreateGoal(n);
    var grid: Grid := b.grid;
    var row: nat, col: nat := b.row, b.col;
    ghost var found := false;
    for i: nat := 0 to n
      invariant |grid| == n && Square(grid)
      invariant forall k, l | 0 <= k < i && 0 <= l < n :: grid[k][l] == FieldAt(fields, n, k, l)
      invariant found ==> row < i && col < n && grid[row][col] == 0
      invariant found ==> forall k, l | 0 <= k < i && 0 <= l < n && After(k, l, row, col) :: grid[k][l] != 0
      invariant !found ==> if n > 0 then row == n - 1 && col == n - 1 else row == 0 && col == 0
      invariant !found ==> forall k, l | 0 <= k < i && 0 <= l < n :: grid[k][l] != 0
    {
      for j: nat := 0 to n
        invariant |grid| == n && Square(grid)
        invariant forall k, l | 0 <= k < i && 0 <= l < n :: grid[k][l] == FieldAt(fields, n, k, l)
        invariant forall l | 0 <= l < j :: grid[i][l] == FieldAt(fields, n, i, l)
        invariant found ==> Before(row, col, i, j) && row < n && col < n && grid[row][col] == 0
        invariant found ==> forall k, l | 0 <= k < n && 0 <= l < n && Before(k, l, i, j) && After(k, l, row, col) :: grid[k][l] != 0
        invariant !found ==> if n > 0 then row == n - 1 && col == n - 1 else row == 0 && col == 0
        invariant !found ==> forall k, l | 0 <= k < n && 0 <= l < n && Before(k, l, i, j) :: grid[k][l] != 0
      {
        var line: seq<nat> := grid[i][j := FieldAt(fields, n, i, j)];
        grid := grid[i := line];
        if grid[i][j] == 0 {
          row, col := i, j;
          found := true;
        }
      }
    }
    b := Board(grid, row, col);
    FilledFlat(grid, fields);
    FlatHasBlank(grid);
    if IsPermutation(fields) {
      PermutationValid(b);
    }
  }

  /** fields[k*n + l], the value create_random puts at (k, l). */
  function FieldAt(fields: seq<nat>, n: nat, k: nat, l: nat): nat
    requires |fields| == n * n && k < n && l < n
  {
    IndexBound(k, l, n);
    fields[k * n + l]
  }

  lemma FieldAtIndex(fields: seq<nat>, n: nat, p: nat)
    requires |fields| == n * n && p < n * n
    ensures p / n < n && p % n < n && FieldAt(fields, n, p / n, p % n) == fields[p]
  {
    CellOf(p, n);
  }

  /** A grid holding fields[k*n + l] at every (k, l) reads as fields in row-major order. */
  lemma FilledFlat(grid: Grid, fields: seq<nat>)
    requires Square(grid) && |fields| == |grid| * |grid|
    requires forall k, l | 0 <= k < |grid| && 0 <= l < |grid| :: grid[k][l] == FieldAt(fields, |grid|, k, l)
    ensures Flat(grid) == fields
  {
    var n := |grid|;
    forall p | 0 <= p < n * n
      ensures Flat(grid)[p] == fields[p]
    {
      FlatCell(grid, p);
      FieldAtIndex(fields, n, p);
    }
  }

  /**
   * A square board whose row-major reading is a permutation, with the
   * position at the last blank, is valid.
   */
  lemma PermutationValid(b: Board)
    requires Square(b.grid) && IsPermutation(Flat(b.grid))
    requires 0 in Flat(b.grid) ==> LastBlank(b.grid, b.row, b.col)
    requires Size(b) == 0 ==> b.row == 0 && b.col == 0
    ensures Valid(b)
  {
    var n := Size(b);
    FlatInjective(b.grid);
    FlatBelow(b.grid, n * n);
    if n > 0 {
      ValuesCovered(Flat(b.grid), 0);
    }
  }

  /** The blank cannot move by (dx, dy) without leaving the grid: move_to checks the edges only. */
  predicate Blocked(b: Board, dx: int, dy: int)
  {
    || (b.row == 0 && dx < 0)
    || (b.row + 1 == Size(b) && dx > 0)
    || (b.col == 0 && dy < 0)
    || (b.col + 1 == Size(b) && dy > 0)
  }

  /** Offsets of at most one cell in each direction, the only ones move_to handles. */
  predicate UnitShift(dx: int, dy: int)
  {
    -1 <= dx <= 1 && -1 <= dy <= 1
  }

  /** What move_to needs of its board: a square grid with a cell at the cached position. */
  predicate Movable(b: Board)
  {
    Square(b.grid) && 0 < Size(b) && b.row < Size(b) && b.col < Size(b)
  }

  /** The board create_goal(0) gives, returned for a move off the grid. */
  const Sentinel: Board := Board([], 0, 0)

  /** The grid g with the values of cells (r1, c1) and (r2, c2) exchanged. */
  function Swap(g: Grid, r1: nat, c1: nat, r2: nat, c2: nat): (s: Grid)
    requires Square(g) && r1 < |g| && c1 < |g| && r2 < |g| && c2 < |g|
    ensures Square(s) && |s| == |g|
  {
    seq(|g|, i requires 0 <= i < |g| => seq(|g|, j requires 0 <= j < |g| =>
      if i == r1 && j == c1 then g[r2][c2]
      else if i == r2 && j == c2 then g[r1][c1]
      else g[i][j]))
  }

  /**
   * The board move_to(dx, dy) returns: the sentinel when the blank would
   * leave the grid, and otherwise the board with the blank exchanged with
   * the cell at offset (dx, dy) and the position moved there.
   */
  function Step(b: Board, dx: int, dy: int): (r: Board)
    requires Movable(b) && UnitShift(dx, dy)
  {
    if Blocked(b, dx, dy) then Sentinel
    else Board(Swap(b.grid, b.row, b.col, b.row + dx, b.col + dy), b.row + dx, b.col + dy)
  }

  /** move_to: copies the board, swaps two cells of the copy and moves its position. */
  method MoveTo(b: Board, dx: int, dy: int) returns (r: Board)
    requires Movable(b) && UnitShift(dx, dy)
    ensures r == Step(b, dx, dy)
  {
    if (b.row == 0 && dx < 0) || (b.row + 1 == |b.grid| && dx > 0)
      || (b.col == 0 && dy < 0) || (b.col + 1 == |b.grid| && dy > 0)
    {
      r := CreateGoal(0);
      return;
    }
    var grid := b.grid;
    var r2: nat, c2: nat := b.row + dx, b.col + dy;
    var held := grid[b.row][b.col];
    grid := grid[b.row := grid[b.row][b.col := grid[r2][c2]]];
    ghost var half := grid;
    grid := grid[r2 := grid[r2][c2 := held]];
    SwapByUpdates(b.grid, half, grid, b.row, b.col, r2, c2);
    r := Board(grid, r2, c2);
  }

  /** The two in-place writes of std::swap give the exchanged grid. */
  lemma SwapByUpdates(g: Grid, half: Grid, done: Grid, r1: nat, c1: nat, r2: nat, c2: nat)
    requires Square(g) && r1 < |g| && c1 < |g| && r2 < |g| && c2 < |g|
    requires half == g[r1 := g[r1][c1 := g[r2][c2]]]
    requires done == half[r2 := half[r2][c2 := g[r1][c1]]]
    ensures done == Swap(g, r1, c1, r2, c2)
  {
    CellsEqual(done, Swap(g, r1, c1, r2, c2));
  }

  /**
   * A move that stays on the grid exchanges the blank with its neighbour
   * and leaves every other cell as it was; one that does not gives the
   * empty sentinel.
   */
  lemma StepCells(b: Board, dx: int, dy: int)
    requires Movable(b) && UnitShift(dx, dy)
    ensures Blocked(b, dx, dy) ==> Size(Step(b, dx, dy)) == 0
    ensures !Blocked(b, dx, dy) ==>
      var r := Step(b, dx, dy);
      && 0 <= b.row + dx < Size(b) && 0 <= b.col + dy < Size(b)
      && Size(r) == Size(b) && r.row == b.row + dx && r.col == b.col + dy
      && r.grid[r.row][r.col] == b.grid[b.row][b.col]
      && r.grid[b.row][b.col] == b.grid[r.row][r.col]
      && forall i, j | 0 <= i < Size(b) && 0 <= j < Size(b) && (i, j) != (b.row, b.col) && (i, j) != (r.row, r.col) ::
           r.grid[i][j] == b.grid[i][j]
  {
  }

  /** The position a move on the grid leads to is one from which the reverse move stays on the grid. */
  lemma StepMovable(b: Board, dx: int, dy: int)
    requires Movable(b) && UnitShift(dx, dy) && !Blocked(b, dx, dy)
    ensures Movable(Step(b, dx, dy)) && !Blocked(Step(b, dx, dy), -dx, -dy)
  {
  }

  /** Moving the blank back the way it came restores the board, position included. */
  lemma StepRoundTrip(b: Board, dx: int, dy: int)
    requires Movable(b) && UnitShift(dx, dy) && !Blocked(b, dx, dy)
    ensures Movable(Step(b, dx, dy)) && Step(Step(b, dx, dy), -dx, -dy) == b
  {
    var r := Step(b, dx, dy);
    StepMovable(b, dx, dy);
    var back := Step(r, -dx, -dy);
    CellsEqual(back.grid, b.grid);
  }

  /** Exchanging two cells keeps a permutation grid a permutation grid. */
  lemma SwapPermutation(g: Grid, r1: nat, c1: nat, r2: nat, c2: nat)
    requires IsPermutationGrid(g) && r1 < |g| && c1 < |g| && r2 < |g| && c2 < |g|
    ensures IsPermutationGrid(Swap(g, r1, c1, r2, c2))
  {
    var s := Swap(g, r1, c1, r2, c2);
    var n := |g|;
    forall i, j, k, l | 0 <= i < n && 0 <= j < n && 0 <= k < n && 0 <= l < n && (i, j) != (k, l)
      ensures s[i][j] != s[k][l]
    {
      var (i', j') := if (i, j) == (r1, c1) then (r2, c2) else if (i, j) == (r2, c2) then (r1, c1) else (i, j);
      var (k', l') := if (k, l) == (r1, c1) then (r2, c2) else if (k, l) == (r2, c2) then (r1, c1) else (k, l);
      assert s[i][j] == g[i'][j'] && s[k][l] == g[k'][l'];
    }
  }

  /** A move keeps a valid board valid: the blank is where the position says. */
  lemma StepValid(b: Board, dx: int, dy: int)
    requires Valid(b) && Movable(b) && UnitShift(dx, dy)
    ensures Valid(Step(b, dx, dy))
  {
    if !Blocked(b, dx, dy) {
      var r2: nat, c2: nat := b.row + dx, b.col + dy;
      var s := Swap(b.grid, b.row, b.col, r2, c2);
      SwapPermutation(b.grid, b.row, b.col, r2, c2);
      assert s[r2][c2] == 0;
      assert Step(b, dx, dy) == Board(s, r2, c2);
    }
  }
}
