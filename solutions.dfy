/**
 * The result of a search: the boards from the start to the solved board,
 * in order, as the solver hands them back. An empty solution means the
 * start board cannot be solved.
 */
module Solutions {
  import opened Boards

  /** Solution(): no boards; Solution(moves): the boards in order, iterated from first to last. */
  datatype Solution = Solution(boards: seq<Board>)

  /** The solution of an unsolvable board: no boards at all. */
  const NoSolution: Solution := Solution([])

  /**
   * moves(): a path of k + 1 boards makes k moves; an empty solution and
   * one that is just the solved start board make none.
   */
  function Moves(s: Solution): (r: nat)
    ensures |s.boards| > 0 ==> r + 1 == |s.boards|
    ensures |s.boards| == 0 ==> r == 0
  {
    if |s.boards| <= 1 then 0 else |s.boards| - 1
  }
}
