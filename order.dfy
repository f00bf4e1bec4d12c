/**
 * The comparison operators of a board and its row access.
 *
 * A board compares by its grid only, the way std::vector compares: element
 * by element with std::lexicographical_compare, a proper prefix coming
 * first. Lex is that comparison for any element order; the grid order is
 * Lex over rows, each row compared by Lex over values. The lemmas show the
 * order is a strict total order on grids whose equivalence is grid
 * equality, which is what lets the search keep its closed set of boards
 * as a set of grids.
 */
module Order {
  import opened Grids
  import opened Boards

  /** std::lexicographical_compare with the element order less. */
  function Lex<T>(a: seq<T>, b: seq<T>, less: (T, T) -> bool): bool
  {
    if |b| == 0 then false
    else if |a| == 0 then true
    else if less(a[0], b[0]) then true
    else if less(b[0], a[0]) then false
    else Lex(a[1..], b[1..], less)
  }

  /** less is irreflexive, transitive and total: of two different elements one is smaller. */
  ghost predicate StrictTotal<T(!new)>(less: (T, T) -> bool)
  {
    && (forall x :: !less(x, x))
    && (forall x, y, z :: less(x, y) && less(y, z) ==> less(x, z))
    && (forall x, y :: x == y || less(x, y) || less(y, x))
  }

  lemma {:induction false} LexIrreflexive<T>(a: seq<T>, less: (T, T) -> bool)
    requires forall x :: !less(x, x)
    ensures !Lex(a, a, less)
  {
    if |a| > 0 {
      LexIrreflexive(a[1..], less);
    }
  }

  lemma {:induction false} LexTrichotomy<T(!new)>(a: seq<T>, b: seq<T>, less: (T, T) -> bool)
    requires StrictTotal(less)
    ensures a == b || Lex(a, b, less) || Lex(b, a, less)
  {
    if |a| > 0 && |b| > 0 && !less(a[0], b[0]) && !less(b[0], a[0]) {
      LexTrichotomy(a[1..], b[1..], less);
      if a[1..] == b[1..] {
        assert a == [a[0]] + a[1..] && b == [b[0]] + b[1..];
      }
    }
  }

  lemma {:induction false} LexTransitive<T(!new)>(a: seq<T>, b: seq<T>, c: seq<T>, less: (T, T) -> bool)
    requires StrictTotal(less)
    ensures Lex(a, b, less) && Lex(b, c, less) ==> Lex(a, c, less)
  {
    if |a| > 0 && |b| > 0 && |c| > 0 && Lex(a, b, less) && Lex(b, c, less) {
      if !less(a[0], b[0]) && !less(b[0], c[0]) {
        LexTransitive(a[1..], b[1..], c[1..], less);
      }
    }
  }

  /** The order of unsigned values. */
  function ValueLess(x: nat, y: nat): bool
  {
    x < y
  }

  /** std::vector<unsigned>::operator<: rows compare value by value. */
  function RowLess(a: seq<nat>, b: seq<nat>): bool
  {
    Lex(a, b, ValueLess)
  }

  /** Rows are totally ordered by RowLess, being the lexicographic extension of the value order. */
  lemma RowLessStrictTotal()
    ensures StrictTotal(RowLess)
  {
    forall a: seq<nat> {
      LexIrreflexive(a, ValueLess);
    }
    forall a: seq<nat>, b: seq<nat>, c: seq<nat> {
      LexTransitive(a, b, c, ValueLess);
    }
    forall a: seq<nat>, b: seq<nat> {
      LexTrichotomy(a, b, ValueLess);
    }
  }

  /**
   * operator<: the grids compare row by row; the cached position plays no
   * part. Of two different grids exactly one is less than the other.
   */
  function Less(a: Board, b: Board): (r: bool)
    ensures r ==> a.grid != b.grid && !Lex(b.grid, a.grid, RowLess)
    ensures !r ==> a.grid == b.grid || Lex(b.grid, a.grid, RowLess)
  {
    RowLessStrictTotal();
    LexIrreflexive(a.grid, RowLess);
    LexTransitive(a.grid, b.grid, a.grid, RowLess);
    LexTrichotomy(a.grid, b.grid, RowLess);
    Lex(a.grid, b.grid, RowLess)
  }

  /** operator< is irreflexive, transitive and total up to grid equality. */
  lemma LessOrder(a: Board, b: Board, c: Board)
    ensures !Less(a, a)
    ensures Less(a, b) && Less(b, c) ==> Less(a, c)
    ensures a.grid == b.grid || Less(a, b) || Less(b, a)
  {
    RowLessStrictTotal();
    LexIrreflexive(a.grid, RowLess);
    LexTransitive(a.grid, b.grid, c.grid, RowLess);
    LexTrichotomy(a.grid, b.grid, RowLess);
  }

  /**
   * operator==: the grids are equal. This is exactly the equivalence that
   * operator< induces, so a std::set ordered by operator< finds a board
   * when it holds one with the same grid.
   */
  function Equal(a: Board, b: Board): (r: bool)
    ensures r <==> !Less(a, b) && !Less(b, a)
  {
    LessOrder(a, b, a);
    a.grid == b.grid
  }

  /** operator!=: the grids differ, the negation of operator==. */
  function NotEqual(a: Board, b: Board): (r: bool)
    ensures r <==> !Equal(a, b)
    ensures r <==> Less(a, b) || Less(b, a)
  {
    LessOrder(a, b, a);
    a.grid != b.grid
  }

  /** Boards with one grid compare equal whatever positions they cache. */
  lemma EqualIgnoresPosition(g: Grid, r1: nat, c1: nat, r2: nat, c2: nat)
    ensures Equal(Board(g, r1, c1), Board(g, r2, c2))
    ensures !Less(Board(g, r1, c1), Board(g, r2, c2))
  {
    LessOrder(Board(g, r1, c1), Board(g, r2, c2), Board(g, r1, c1));
  }
}
