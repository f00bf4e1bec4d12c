/**
 * Square grids of tile values and their row-major reading.
 *
 * A puzzle grid is a sequence of rows; cell (i, j) of an n x n grid is the
 * (i * n + j)-th cell in row-major order. The facts here carry the index
 * arithmetic that the board operations and the solvability proof rely on,
 * and build the finite set of all n x n grids that bounds the search.
 */
module Grids {

  type Grid = seq<seq<nat>>

  /** Every row has as many cells as there are rows. */
  predicate Square(g: Grid) {
    forall i | 0 <= i < |g| :: |g[i]| == |g|
  }

  /** Every cell of the square grid holds a value below k. */
  predicate AllBelow(g: Grid, k: nat)
    requires Square(g)
  {
    forall i, j | 0 <= i < |g| && 0 <= j < |g| :: g[i][j] < k
  }

  /** No value occurs in two different cells. */
  predicate Injective(g: Grid)
    requires Square(g)
  {
    forall i, j, k, l | 0 <= i < |g| && 0 <= j < |g| && 0 <= k < |g| && 0 <= l < |g| && (i, j) != (k, l) ::
      g[i][j] != g[k][l]
  }

  /**
   * The grid holds each of 0 .. n*n-1 exactly once: n*n distinct values, all
   * below n*n (by counting, every value of the range then occurs).
   */
  predicate IsPermutationGrid(g: Grid) {
    Square(g) && AllBelow(g, |g| * |g|) && Injective(g)
  }

  lemma MulAtLeast(a: int, n: nat)
    requires a >= 1
    ensures a * n >= n
  {
  }

  /** The first index of the next row is n further on. */
  lemma NextRow(r: nat, n: nat)
    ensures (r + 1) * n == r * n + n
  {
  }

  /** Square grids of one size are equal when their cells are. */
  lemma CellsEqual(a: Grid, b: Grid)
    requires Square(a) && Square(b) && |a| == |b|
    requires forall i, j | 0 <= i < |a| && 0 <= j < |a| :: a[i][j] == b[i][j]
    ensures a == b
  {
    forall i | 0 <= i < |a|
      ensures a[i] == b[i]
    {
      assert forall j | 0 <= j < |a| :: a[i][j] == b[i][j];
    }
  }

  /** Row-major index i * n + j names cell (i, j) and no other. */
  lemma DivMod(i: nat, j: nat, n: nat)
    requires j < n
    ensures (i * n + j) / n == i && (i * n + j) % n == j
  {
    var k := i * n + j;
    var q, r := k / n, k % n;
    assert k == q * n + r;
    assert (q - i) * n == j - r;
    if q > i {
      MulAtLeast(q - i, n);
    } else if q < i {
      MulAtLeast(i - q, n);
    }
  }

  /** Index of cell (i, j) in the row-major reading of an n x n grid. */
  function Index(n: nat, i: nat, j: nat): nat
  {
    i * n + j
  }

  /** Index k names cell (r, c) exactly when k is r * n + c. */
  lemma CellIndex(k: nat, n: nat, r: nat, c: nat)
    requires k < n * n && r < n && c < n
    ensures k == r * n + c <==> k / n == r && k % n == c
  {
    CellOf(k, n);
    DivMod(r, c, n);
  }

  /** Every row-major index below n * n names a cell of the n x n grid. */
  lemma CellOf(k: nat, n: nat)
    requires k < n * n
    ensures 0 <= k / n < n && 0 <= k % n < n && k == (k / n) * n + k % n
  {
  }

  /** Row-major indices of cells of an n x n grid stay below n * n. */
  lemma IndexBound(i: nat, j: nat, n: nat)
    requires i < n && j < n
    ensures i * n + j < n * n
  {
    MulAtLeast(n - i, n);
    assert (n - i) * n == n * n - i * n;
  }

  /** The row-major reading of a square grid. */
  function Flat(g: Grid): (f: seq<nat>)
    requires Square(g)
    ensures |f| == |g| * |g|
  {
    var n := |g|;
    seq(n * n, k requires 0 <= k < n * n => CellOf(k, n); g[k / n][k % n])
  }

  lemma FlatAt(g: Grid, i: nat, j: nat)
    requires Square(g) && i < |g| && j < |g|
    ensures i * |g| + j < |g| * |g| && Flat(g)[i * |g| + j] == g[i][j]
  {
    IndexBound(i, j, |g|);
    DivMod(i, j, |g|);
  }

  /** Entry p of the row-major reading is cell (p / n, p % n). */
  lemma FlatCell(g: Grid, p: nat)
    requires Square(g) && p < |g| * |g|
    ensures 0 <= p / |g| < |g| && 0 <= p % |g| < |g| && Flat(g)[p] == g[p / |g|][p % |g|]
  {
    CellOf(p, |g|);
  }

  /** A grid whose cells are pairwise distinct reads as a sequence without repeats. */
  lemma FlatDistinct(g: Grid)
    requires Square(g) && Injective(g)
    ensures forall p, q | 0 <= p < q < |Flat(g)| :: Flat(g)[p] != Flat(g)[q]
  {
    var n := |g|;
    forall p, q | 0 <= p < q < |Flat(g)|
      ensures Flat(g)[p] != Flat(g)[q]
    {
      FlatCell(g, p);
      FlatCell(g, q);
      assert (p / n, p % n) != (q / n, q % n);
    }
  }

  /** All sequences of the given length over values below k. */
  function AllSeqs(len: nat, k: nat): set<seq<nat>>
  {
    if len == 0 then {[]}
    else set v, s | 0 <= v < k && s in AllSeqs(len - 1, k) :: [v] + s
  }

  lemma {:induction false} InAllSeqs(s: seq<nat>, k: nat)
    requires forall i | 0 <= i < |s| :: s[i] < k
    ensures s in AllSeqs(|s|, k)
  {
    if |s| > 0 {
      InAllSeqs(s[1..], k);
      assert s == [s[0]] + s[1..];
    }
  }

  /** All sequences of `rows` rows, each in `rowSet`. */
  function AllRowSeqs(rows: nat, rowSet: set<seq<nat>>): set<Grid>
  {
    if rows == 0 then {[]}
    else set r, h | r in rowSet && h in AllRowSeqs(rows - 1, rowSet) :: [r] + h
  }

  lemma {:induction false} InAllRowSeqs(g: Grid, rowSet: set<seq<nat>>)
    requires forall i | 0 <= i < |g| :: g[i] in rowSet
    ensures g in AllRowSeqs(|g|, rowSet)
  {
    if |g| > 0 {
      InAllRowSeqs(g[1..], rowSet);
      assert g == [g[0]] + g[1..];
    }
  }

  /** The finite set of n x n grids with values below n * n, plus the empty grid. */
  function Universe(n: nat): set<Grid>
  {
    AllRowSeqs(n, AllSeqs(n, n * n)) + {[]}
  }

  lemma InUniverse(g: Grid)
    requires Square(g) && AllBelow(g, |g| * |g|)
    ensures g in Universe(|g|)
  {
    var n := |g|;
    forall i | 0 <= i < n
      ensures g[i] in AllSeqs(n, n * n)
    {
      InAllSeqs(g[i], n * n);
    }
    InAllRowSeqs(g, AllSeqs(n, n * n));
  }

  lemma {:induction false} SubsetCard<T>(a: set<T>, b: set<T>)
    requires a <= b
    ensures |a| <= |b|
  {
    if a != {} {
      var x :| x in a;
      SubsetCard(a - {x}, b - {x});
    }
  }

  /** The values occurring in s. */
  function Elements(s: seq<nat>): set<nat>
  {
    set x | x in s
  }

  /** The values below k. */
  function Range(k: nat): set<nat>
  {
    if k == 0 then {} else Range(k - 1) + {k - 1}
  }

  lemma {:induction false} RangeFacts(k: nat)
    ensures |Range(k)| == k
    ensures forall v: nat :: v in Range(k) <==> v < k
  {
    if k > 0 {
      RangeFacts(k - 1);
      assert k - 1 !in Range(k - 1);
    }
  }

  lemma {:induction false} ElementsCard(s: seq<nat>)
    requires forall p, q | 0 <= p < q < |s| :: s[p] != s[q]
    ensures |Elements(s)| == |s|
  {
    if |s| > 0 {
      var init := s[..|s| - 1];
      assert Elements(s) == Elements(init) + {s[|s| - 1]};
      assert s[|s| - 1] !in Elements(init);
      ElementsCard(init);
    }
  }

  /**
   * Pigeonhole: m distinct values, all below m, take every value below m.
   * A permutation grid therefore holds the blank 0 whenever it has a cell.
   */
  lemma ValuesCovered(s: seq<nat>, v: nat)
    requires forall p, q | 0 <= p < q < |s| :: s[p] != s[q]
    requires forall p | 0 <= p < |s| :: s[p] < |s|
    requires v < |s|
    ensures v in s
  {
    ElementsCard(s);
    RangeFacts(|s|);
    if v !in s {
      assert Elements(s) <= Range(|s|) - {v};
      SubsetCard(Elements(s), Range(|s|) - {v});
    }
  }

  /** A permutation grid holds every value below n*n somewhere. */
  lemma PermutationCovers(g: Grid)
    requires IsPermutationGrid(g)
    ensures forall v | 0 <= v < |g| * |g| :: v in Flat(g)
  {
    FlatDistinct(g);
    FlatBelow(g, |g| * |g|);
    forall v | 0 <= v < |g| * |g|
      ensures v in Flat(g)
    {
      ValuesCovered(Flat(g), v);
    }
  }

  /** Two different cells have different row-major indices, so their values differ. */
  lemma FlatPair(g: Grid, i: nat, j: nat, k: nat, l: nat)
    requires Square(g) && i < |g| && j < |g| && k < |g| && l < |g| && (i, j) != (k, l)
    requires forall p, q | 0 <= p < q < |Flat(g)| :: Flat(g)[p] != Flat(g)[q]
    ensures g[i][j] != g[k][l]
  {
    var n := |g|;
    FlatAt(g, i, j);
    FlatAt(g, k, l);
    DivMod(i, j, n);
    DivMod(k, l, n);
    var p, q := i * n + j, k * n + l;
    if p < q {
      assert Flat(g)[p] != Flat(g)[q];
    } else {
      assert p != q;
      assert Flat(g)[q] != Flat(g)[p];
    }
  }

  /** A grid whose row-major reading has no repeats has pairwise distinct cells. */
  lemma FlatInjective(g: Grid)
    requires Square(g)
    requires forall p, q | 0 <= p < q < |Flat(g)| :: Flat(g)[p] != Flat(g)[q]
    ensures Injective(g)
  {
    var n := |g|;
    forall i, j, k, l | 0 <= i < n && 0 <= j < n && 0 <= k < n && 0 <= l < n && (i, j) != (k, l)
      ensures g[i][j] != g[k][l]
    {
      FlatPair(g, i, j, k, l);
    }
  }

  /** The cells of a square grid lie below k exactly when its row-major reading does. */
  lemma FlatBelow(g: Grid, k: nat)
    requires Square(g)
    ensures AllBelow(g, k) <==> forall p | 0 <= p < |Flat(g)| :: Flat(g)[p] < k
  {
    var n := |g|;
    if AllBelow(g, k) {
      forall p | 0 <= p < |Flat(g)|
        ensures Flat(g)[p] < k
      {
        FlatCell(g, p);
      }
    }
    if forall p | 0 <= p < |Flat(g)| :: Flat(g)[p] < k {
      forall i, j | 0 <= i < n && 0 <= j < n
        ensures g[i][j] < k
      {
        FlatAt(g, i, j);
      }
    }
  }
}
