/**
 * The solvability test of a board and why a move cannot change its verdict.
 *
 * is_solvable counts the inversions of the row-major reading of the grid,
 * keeping only their parity, and combines it with the size of the board and
 * the row of the blank. Exchanging the blank with a neighbour changes the
 * inversion count by as many tiles as the blank jumps over, modulo 2, which
 * the row term balances.
 */
module Solvability {
  import opened Grids
  import opened Parity
  import opened Boards

  /**
   * The verdict of is_solvable: every empty board is solvable; on an odd
   * size the inversion count must be even; on an even size the inversion
   * count plus the distance n - row of the blank's row from the bottom must
   * be odd. The source computes n - row on size_t; 2^64 being even, the
   * wrap-around never changes the parity, so integer subtraction models it.
   */
  predicate Solvable(b: Board)
    requires Square(b.grid)
  {
    var n, inversions := Size(b), Inversions(Flat(b.grid));
    n == 0 || if n % 2 == 1 then inversions % 2 == 0 else (inversions + (n - b.row)) % 2 == 1
  }

  /**
   * The state of the inner scan for the tile v found at index p, after the
   * cells p .. q - 1: the flag r is parity flipped once per smaller tile
   * among them.
   */
  predicate Flipped(g: Grid, v: nat, p: nat, q: nat, parity: bool, r: bool)
    requires Square(g)
  {
    p <= q <= |g| * |g| && r == (parity != (BelowIn(v, Flat(g), p, q) % 2 == 1))
  }

  /** One cell (i, j) of the inner scan, at index q. */
  lemma FlipCell(g: Grid, v: nat, p: nat, i: nat, j: nat, q: nat, parity: bool, r: bool)
    requires Square(g) && i < |g| && j < |g| && q == i * |g| + j
    requires Flipped(g, v, p, q, parity, r)
    ensures Flipped(g, v, p, q + 1, parity, if g[i][j] != 0 && v > g[i][j] then !r else r)
  {
    FlatAt(g, i, j);
    var counted := BelowIn(v, Flat(g), p, q);
    AddParity(counted, if g[i][j] != 0 && v > g[i][j] then 1 else 0);
  }

  /** The number of tiles from (x, y) on, in row-major order, smaller than the value at (x, y). */
  function Smaller(g: Grid, x: nat, y: nat): nat
    requires Square(g) && x < |g| && y < |g|
  {
    IndexBound(x, y, |g|);
    BelowIn(g[x][y], Flat(g), x * |g| + y, |g| * |g|)
  }

  /**
   * The two inner loops of is_solvable for the tile at (x, y): the parity
   * flag flipped once for each tile from (x, y) on, in row-major order,
   * that is smaller than it.
   */
  method FlipAfter(g: Grid, x: nat, y: nat, parity: bool) returns (r: bool)
    requires Square(g) && x < |g| && y < |g|
    ensures r == (parity != (Smaller(g, x, y) % 2 == 1))
  {
    var n := |g|;
    ghost var p := x * n + y;
    IndexBound(x, y, n);
    var v := g[x][y];
    r := parity;
    ghost var q: nat := p;
    for i: nat := x to n
      invariant q == i * n + (if i == x then y else 0)
      invariant Flipped(g, v, p, q, parity, r)
    {
      for j: nat := (if i == x then y else 0) to n
        invariant q == i * n + j
        invariant Flipped(g, v, p, q, parity, r)
      {
        FlipCell(g, v, p, i, j, q, parity, r);
        q := q + 1;
        if g[i][j] != 0 && v > g[i][j] {
          r := !r;
        }
      }
      NextRow(i, n);
    }
  }

  /**
   * The state of the outer scan of is_solvable after the first p cells:
   * count is the number of inversions whose first tile lies in those cells,
   * and the flag says whether it is even.
   */
  predicate Scanned(g: Grid, p: nat, count: nat, parity: bool)
    requires Square(g)
  {
    && p <= |g| * |g|
    && count + InversionsAfter(Flat(g), p) == InversionsAfter(Flat(g), 0)
    && parity == (count % 2 == 0)
  }

  lemma AddParity(c: nat, d: nat)
    ensures ((c + d) % 2 == 0) == ((c % 2 == 0) != (d % 2 == 1))
  {
  }

  lemma RowParity(c: nat, d: int)
    ensures ((c + d) % 2 == 1) == ((c % 2 == 0) == (d % 2 == 1))
  {
  }

  /**
   * One cell of the outer scan: a blank leaves the flag alone, and a tile
   * flips it once per smaller tile after it.
   */
  lemma ScanCell(g: Grid, x: nat, y: nat, p: nat, count: nat, parity: bool, next: bool) returns (count': nat)
    requires Square(g) && x < |g| && y < |g| && p == x * |g| + y && p < |g| * |g|
    requires Scanned(g, p, count, parity)
    requires g[x][y] == 0 ==> next == parity
    requires g[x][y] != 0 ==> next == (parity != (Smaller(g, x, y) % 2 == 1))
    ensures Scanned(g, p + 1, count', next)
  {
    FlatAt(g, x, y);
    BelowInBlank(Flat(g), p, |g| * |g|);
    var counted := BelowIn(g[x][y], Flat(g), p, |g| * |g|);
    AddParity(count, counted);
    count' := count + counted;
  }

  /** The end of the scan: count is the inversion count, and the final correction gives the verdict. */
  lemma Verdict(b: Board, count: nat, parity: bool)
    requires Square(b.grid) && Size(b) > 0 && Scanned(b.grid, Size(b) * Size(b), count, parity)
    ensures Solvable(b) == !(if Size(b) % 2 == 1 || (Size(b) - b.row) % 2 == 1 then !parity else parity)
  {
    InversionsAfterSlice(Flat(b.grid), 0);
    assert Flat(b.grid)[0..] == Flat(b.grid);
    RowParity(count, Size(b) - b.row);
  }

  /**
   * The loop over y of is_solvable for row x: the scan state moves from the
   * start of row x to the start of row x + 1.
   */
  method ScanRow(g: Grid, x: nat, parity: bool, ghost count: nat) returns (r: bool, ghost count': nat)
    requires Square(g) && x < |g| && Scanned(g, x * |g|, count, parity)
    ensures Scanned(g, (x + 1) * |g|, count', r)
  {
    var n := |g|;
    r, count' := parity, count;
    ghost var p: nat := x * n;
    NextRow(x, n);
    for y: nat := 0 to n
      invariant p == x * n + y && Scanned(g, p, count', r)
    {
      IndexBound(x, y, n);
      ghost var before := r;
      if g[x][y] != 0 {
        r := FlipAfter(g, x, y, r);
      }
      count' := ScanCell(g, x, y, p, count', before, r);
      p := p + 1;
    }
  }

  /** is_solvable: the parity flag over all inversions, then the size and row correction. */
  method IsSolvable(b: Board) returns (r: bool)
    requires Square(b.grid)
    ensures r == Solvable(b)
  {
    var g, n := b.grid, |b.grid|;
    if n == 0 {
      return true;
    }
    var parity := true;
    ghost var count: nat := 0;
    for x: nat := 0 to n
      invariant Scanned(g, x * n, count, parity)
    {
      parity, count := ScanRow(g, x, parity, count);
    }
    Verdict(b, count, parity);
    if n % 2 == 1 || (n - b.row) % 2 == 1 {
      parity := !parity;
    }
    r := !parity;
  }

  /** Entry k of the row-major reading after exchanging cells (r1, c1) and (r2, c2). */
  lemma FlatSwapAt(g: Grid, r1: nat, c1: nat, r2: nat, c2: nat, k: nat)
    requires Square(g) && r1 < |g| && c1 < |g| && r2 < |g| && c2 < |g| && k < |g| * |g|
    ensures Flat(Swap(g, r1, c1, r2, c2))[k]
      == if k == r2 * |g| + c2 then g[r1][c1] else if k == r1 * |g| + c1 then g[r2][c2] else Flat(g)[k]
  {
    var n := |g|;
    FlatCell(Swap(g, r1, c1, r2, c2), k);
    FlatCell(g, k);
    CellIndex(k, n, r1, c1);
    CellIndex(k, n, r2, c2);
  }

  /** Exchanging two cells of a grid exchanges their entries in the row-major reading. */
  lemma FlatSwap(g: Grid, r1: nat, c1: nat, r2: nat, c2: nat)
    requires Square(g) && r1 < |g| && c1 < |g| && r2 < |g| && c2 < |g|
    ensures Index(|g|, r1, c1) < |g| * |g| && Index(|g|, r2, c2) < |g| * |g|
    ensures Flat(Swap(g, r1, c1, r2, c2))
      == Flat(g)[Index(|g|, r1, c1) := g[r2][c2]][Index(|g|, r2, c2) := g[r1][c1]]
  {
    var n := |g|;
    IndexBound(r1, c1, n);
    IndexBound(r2, c2, n);
    var e := Flat(g)[r1 * n + c1 := g[r2][c2]][r2 * n + c2 := g[r1][c1]];
    forall k | 0 <= k < n * n
      ensures Flat(Swap(g, r1, c1, r2, c2))[k] == e[k]
    {
      FlatSwapAt(g, r1, c1, r2, c2, k);
    }
  }

  /**
   * A move of the blank that stays on the grid rewrites two entries of the
   * row-major reading: the blank's index p1 receives the neighbour's value
   * and the neighbour's index p2 the blank: p2 is p1 + dx * n + dy.
   */
  lemma StepFlat(b: Board, dx: int, dy: int) returns (p1: nat, p2: nat)
    requires Movable(b) && UnitShift(dx, dy) && !Blocked(b, dx, dy) && b.grid[b.row][b.col] == 0
    ensures p1 < |Flat(b.grid)| && p2 < |Flat(b.grid)| && Flat(b.grid)[p1] == 0
    ensures Square(Step(b, dx, dy).grid)
    ensures Flat(Step(b, dx, dy).grid) == Flat(b.grid)[p1 := Flat(b.grid)[p2]][p2 := 0]
    ensures dx == 0 ==> p2 == p1 + dy
    ensures dx == 1 ==> p2 == p1 + Size(b) + dy
    ensures dx == -1 ==> p1 + dy == p2 + Size(b)
  {
    var n, g := Size(b), b.grid;
    var r2: nat, c2: nat := b.row + dx, b.col + dy;
    assert Step(b, dx, dy).grid == Swap(g, b.row, b.col, r2, c2);
    FlatSwap(g, b.row, b.col, r2, c2);
    p1, p2 := Index(n, b.row, b.col), Index(n, r2, c2);
    FlatAt(g, b.row, b.col);
    FlatAt(g, r2, c2);
    if dx == 1 {
      NextRow(b.row, n);
    } else if dx == -1 {
      NextRow(b.row - 1, n);
    }
  }

  /**
   * Along a row or a column, the move exchanges the entries lo < hi of the
   * row-major reading, one of them the blank, hi - lo being 1 along a row
   * and n along a column.
   */
  lemma StepExchanges(b: Board, dx: int, dy: int) returns (lo: nat, hi: nat)
    requires Movable(b) && UnitShift(dx, dy) && !Blocked(b, dx, dy) && b.grid[b.row][b.col] == 0
    requires (dx == 0) != (dy == 0)
    ensures lo < hi < |Flat(b.grid)|
    ensures Flat(b.grid)[lo] == 0 || Flat(b.grid)[hi] == 0
    ensures Square(Step(b, dx, dy).grid) && Flat(Step(b, dx, dy).grid) == Exchanged(Flat(b.grid), lo, hi)
    ensures hi - lo == if dx == 0 then 1 else Size(b)
  {
    var p1, p2 := StepFlat(b, dx, dy);
    var f := Flat(b.grid);
    if p1 < p2 {
      lo, hi := p1, p2;
    } else {
      lo, hi := p2, p1;
      var one: seq<nat> := f[p1 := f[p2]];
      var other: seq<nat> := f[p2 := f[p1]];
      assert one[p2 := f[p1]] == other[p1 := f[p2]];
    }
  }

  /** The row term balances the inversion parity: the arithmetic behind MovePreservesSolvable. */
  lemma ParityBalance(n: nat, before: nat, after: nat, row: int, row': int, gap: int)
    requires (before + after + gap) % 2 == 0
    requires (gap == 0 && row' == row) || (gap == n - 1 && (row' == row + 1 || row' == row - 1))
    ensures (if n % 2 == 1 then before % 2 == 0 else (before + (n - row)) % 2 == 1)
        == (if n % 2 == 1 then after % 2 == 0 else (after + (n - row')) % 2 == 1)
  {
  }

  /**
   * Along a row or a column, the move changes the inversion count by the
   * number gap of tiles the blank passes, modulo 2: none along a row, where
   * the row stays, and n - 1 along a column, where the row moves by one.
   */
  lemma StepInversions(b: Board, dx: int, dy: int) returns (gap: int)
    requires Movable(b) && UnitShift(dx, dy) && !Blocked(b, dx, dy) && b.grid[b.row][b.col] == 0
    requires (dx == 0) != (dy == 0)
    requires forall p, q | 0 <= p < q < |Flat(b.grid)| :: Flat(b.grid)[p] != Flat(b.grid)[q]
    ensures Square(Step(b, dx, dy).grid) && Size(Step(b, dx, dy)) == Size(b)
    ensures (Inversions(Flat(b.grid)) + Inversions(Flat(Step(b, dx, dy).grid)) + gap) % 2 == 0
    ensures var row' := Step(b, dx, dy).row;
      (gap == 0 && row' == b.row) || (gap == Size(b) - 1 && (row' == b.row + 1 || row' == b.row - 1))
  {
    var lo, hi := StepExchanges(b, dx, dy);
    ExchangeParity(Flat(b.grid), lo, hi);
    gap := hi - lo - 1;
  }

  /**
   * A move along a row or a column keeps the verdict of is_solvable. Along
   * a row the blank passes no tile and its row stays; along a column it
   * passes n - 1 tiles, which flips the inversion parity when n is even,
   * exactly when the row term flips too.
   */
  lemma MovePreservesSolvable(b: Board, dx: int, dy: int)
    requires Valid(b) && Movable(b) && UnitShift(dx, dy) && !Blocked(b, dx, dy)
    requires (dx == 0) != (dy == 0)
    ensures Square(Step(b, dx, dy).grid) && Solvable(Step(b, dx, dy)) == Solvable(b)
  {
    FlatDistinct(b.grid);
    var gap := StepInversions(b, dx, dy);
    var s := Step(b, dx, dy);
    ParityBalance(Size(b), Inversions(Flat(b.grid)), Inversions(Flat(s.grid)), b.row, s.row, gap);
  }

  /** The row-major reading of the solved grid: 1, 2, ..., n*n - 1, then the blank. */
  lemma FlatGoal(n: nat, p: nat)
    requires p < n * n
    ensures Flat(GoalGrid(n))[p] == if p + 1 == n * n then 0 else p + 1
  {
    var g := GoalGrid(n);
    FlatCell(g, p);
    CellOf(p, n);
    NextRow(n - 1, n);
    DivMod(n - 1, n - 1, n);
  }

  /** The solved board, with its blank in the last cell, passes is_solvable. */
  lemma GoalSolvable(n: nat)
    ensures Solvable(Board(GoalGrid(n), if n == 0 then 0 else n - 1, if n == 0 then 0 else n - 1))
  {
    var f := Flat(GoalGrid(n));
    forall p, q | 0 <= p < q < |f| && f[p] != 0 && f[q] != 0
      ensures f[p] < f[q]
    {
      FlatGoal(n, p);
      FlatGoal(n, q);
    }
    AscendingNone(f);
  }

  /**
   * Two boards of one size, with the blank in one row, whose inversion counts
   * have opposite parity get opposite verdicts.
   */
  lemma OppositeVerdicts(b: Board, b': Board)
    requires Square(b.grid) && Square(b'.grid) && Size(b) == Size(b') > 0 && b.row == b'.row
    requires (Inversions(Flat(b.grid)) + Inversions(Flat(b'.grid))) % 2 == 1
    ensures Solvable(b') == !Solvable(b)
  {
    OppositeParity(Inversions(Flat(b.grid)), Inversions(Flat(b'.grid)), Size(b) - b.row);
  }

  /** Counts of opposite parity stay of opposite parity when the same k is added to both. */
  lemma OppositeParity(c: nat, c': nat, k: int)
    requires (c + c') % 2 == 1
    ensures (c % 2 == 0) != (c' % 2 == 0)
    ensures ((c + k) % 2 == 1) != ((c' + k) % 2 == 1)
  {
  }

  /**
   * Exchanging any two tiles, leaving the blank where it is, turns a
   * solvable board into an unsolvable one and back: the inversion count
   * changes parity while the size and the blank's row stay. This covers
   * neighbours in a row, (i, j) and (i, j + 1), and neighbours in a
   * column, (i, j) and (i + 1, j), alike.
   */
  lemma TileSwapFlips(b: Board, r1: nat, c1: nat, r2: nat, c2: nat)
    requires Valid(b) && r1 < Size(b) && c1 < Size(b) && r2 < Size(b) && c2 < Size(b)
    requires (r1, c1) != (r2, c2) && b.grid[r1][c1] != 0 && b.grid[r2][c2] != 0
    ensures Square(Swap(b.grid, r1, c1, r2, c2))
    ensures Solvable(Board(Swap(b.grid, r1, c1, r2, c2), b.row, b.col)) == !Solvable(b)
  {
    var g, n := b.grid, Size(b);
    var s := Swap(g, r1, c1, r2, c2);
    FlatSwap(g, r1, c1, r2, c2);
    FlatAt(g, r1, c1);
    FlatAt(g, r2, c2);
    FlatDistinct(g);
    var p, q := Index(n, r1, c1), Index(n, r2, c2);
    assert g[r1][c1] != g[r2][c2];
    if p < q {
      assert Flat(s) == Exchanged(Flat(g), p, q);
      ExchangeTiles(Flat(g), p, q);
    } else {
      assert Flat(s) == Exchanged(Flat(g), q, p);
      ExchangeTiles(Flat(g), q, p);
    }
    OppositeVerdicts(b, Board(s, b.row, b.col));
  }

  /**
   * is_solvable does reject boards: the solved board with the two tiles
   * before the blank exchanged (for n = 3, 1 2 3 / 4 5 6 / 8 7 0) fails it.
   */
  lemma SwappedGoalUnsolvable(n: nat)
    requires n >= 3
    ensures Square(Swap(GoalGrid(n), n - 1, n - 3, n - 1, n - 2))
    ensures !Solvable(Board(Swap(GoalGrid(n), n - 1, n - 3, n - 1, n - 2), n - 1, n - 1))
  {
    var b := Board(GoalGrid(n), n - 1, n - 1);
    GoalIsPermutation(n);
    GoalBlank(n, n - 1, n - 1);
    GoalBlank(n, n - 1, n - 3);
    GoalBlank(n, n - 1, n - 2);
    GoalSolvable(n);
    TileSwapFlips(b, n - 1, n - 3, n - 1, n - 2);
  }
}
