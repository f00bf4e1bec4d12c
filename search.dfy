/**
 * The A* search of the solver.
 *
 * Nodes live in an arena (a sequence) and refer to their parent by index,
 * where the source links heap-allocated nodes by pointer. The open queue is
 * the sequence of arena indices still to expand; the node taken from it is
 * one of least f = g + h, as a priority queue ordered by Compare yields.
 * The closed set holds the grids already queued; two boards are the same
 * element of the source's std::set exactly when their grids are equal
 * (Order.Equal), so a set of grids models it. It starts with the empty grid
 * of create_goal(0), the board move_to returns for a move off the grid, so
 * such a move is never queued.
 */
module Search {
  import opened Options
  import opened Grids
  import opened Boards
  import opened Distances
  import opened Solvability
  import opened Solutions

  /** A search node: its board, the index of its parent (None for the start), g moves made, heuristic h. */
  datatype Node = Node(state: Board, parent: Option<nat>, g: nat, h: nat)

  /** The heuristic of a board whose manhattan distance is m: m + 3m/2. */
  function Heuristic(m: nat): (h: nat)
    ensures m <= h
    ensures h == 0 <==> m == 0
  {
    m + 3 * m / 2
  }

  /** The Node constructor: h is computed from the manhattan distance of the board. */
  method NewNode(state: Board, parent: Option<nat>, g: nat) returns (node: Node)
    requires Square(state.grid)
    ensures node == Node(state, parent, g, Heuristic(Measure(BlockDistance, state.grid)))
  {
    var m := Manhattan(state);
    node := Node(state, parent, g, m + 3 * m / 2);
  }

  /** f = g + h, the priority of a node. */
  function Priority(node: Node): nat
  {
    node.g + node.h
  }

  /** Compare: lhs comes after rhs in the queue when its f is larger. */
  function Compare(lhs: Node, rhs: Node): (r: bool)
    ensures r <==> Priority(rhs) < Priority(lhs)
  {
    Priority(lhs) > Priority(rhs)
  }

  /**
   * Compare is a strict weak ordering, as std::priority_queue requires:
   * irreflexive, transitive, and nodes it cannot tell apart (equal f) form
   * classes that are ordered as wholes.
   */
  lemma CompareOrder(a: Node, b: Node, c: Node)
    ensures !Compare(a, a)
    ensures Compare(a, b) ==> !Compare(b, a)
    ensures Compare(a, b) && Compare(b, c) ==> Compare(a, c)
    ensures !Compare(a, b) && !Compare(b, a) && !Compare(b, c) && !Compare(c, b) ==> !Compare(a, c) && !Compare(c, a)
  {
  }

  /** Every entry of the queue names a node of the arena. */
  predicate Pending(arena: seq<Node>, open: seq<nat>)
  {
    forall j | 0 <= j < |open| :: open[j] < |arena|
  }

  /**
   * A node of least f is queued whenever the queue is not empty: Top finds
   * the first one. The search itself takes any of them, since the source's
   * heap may surface any node of equal f as open.top().
   */
  function Top(arena: seq<Node>, open: seq<nat>): (k: nat)
    requires |open| > 0 && Pending(arena, open)
    ensures k < |open|
    ensures forall j | 0 <= j < |open| :: !Compare(arena[open[k]], arena[open[j]])
  {
    if |open| == 1 then 0
    else
      var k := Top(arena, open[..|open| - 1]);
      if Compare(arena[open[k]], arena[open[|open| - 1]]) then |open| - 1 else k
  }

  /** open.top(): any queued node of least f, whichever the heap surfaces among equals. */
  method Peek(arena: seq<Node>, open: seq<nat>) returns (k: nat)
    requires |open| > 0 && Pending(arena, open)
    ensures k < |open|
    ensures forall j | 0 <= j < |open| :: !Compare(arena[open[k]], arena[open[j]])
  {
    var least := Top(arena, open);
    k :| k < |open| && forall j | 0 <= j < |open| :: !Compare(arena[open[k]], arena[open[j]]);
  }

  /** The queue without its entry at position k, as pop() leaves it. */
  function Pop(open: seq<nat>, k: nat): (r: seq<nat>)
    requires k < |open|
    ensures |r| + 1 == |open|
    ensures forall j | 0 <= j < |r| :: r[j] == if j < k then open[j] else open[j + 1]
    ensures multiset(r) + multiset{open[k]} == multiset(open)
  {
    assert open == open[..k] + [open[k]] + open[k + 1..];
    open[..k] + open[k + 1..]
  }

  /** Popping keeps every queued entry naming a node. */
  lemma PopPending(arena: seq<Node>, open: seq<nat>, k: nat)
    requires Pending(arena, open) && k < |open|
    ensures Pending(arena, Pop(open, k))
  {
    var rest := Pop(open, k);
    forall j | 0 <= j < |rest|
      ensures rest[j] < |arena|
    {
      if j < k {
        assert rest[j] == open[j];
      } else {
        assert rest[j] == open[j + 1];
      }
    }
  }

  /** The offsets shiftX and shiftY of the four moves: up, right, down, left. */
  const ShiftX: seq<int> := [-1, 0, 1, 0]
  const ShiftY: seq<int> := [0, 1, 0, -1]

  lemma Shifts(d: nat)
    requires d < 4
    ensures UnitShift(ShiftX[d], ShiftY[d]) && (ShiftX[d] == 0) != (ShiftY[d] == 0)
  {
  }

  /** The board move_to gives for the d-th pair of offsets. */
  function Move(b: Board, d: nat): Board
    requires Movable(b) && d < 4
  {
    Shifts(d);
    Step(b, ShiftX[d], ShiftY[d])
  }

  /** b is one move from a: the blank of a moves one cell in one of the four directions and stays on the grid. */
  ghost predicate OneMove(a: Board, b: Board)
  {
    Movable(a) && exists d | 0 <= d < 4 :: !Blocked(a, ShiftX[d], ShiftY[d]) && b == Move(a, d)
  }

  /** The node the expansion of node cur queues for the board to. */
  function Child(arena: seq<Node>, cur: nat, to: Board): Node
    requires cur < |arena| && Square(to.grid)
  {
    Node(to, Some(cur), arena[cur].g + 1, Heuristic(Measure(BlockDistance, to.grid)))
  }

  /**
   * The arena, queue and closed set after the first d iterations of the for
   * loop that expands node cur: the board of the d-th move is queued, and its
   * grid closed, unless its grid is closed already.
   */
  function Expansion(arena: seq<Node>, open: seq<nat>, closed: set<Grid>, cur: nat, d: nat): (r: (seq<Node>, seq<nat>, set<Grid>))
    requires cur < |arena| && Movable(arena[cur].state) && d <= 4
    ensures |arena| <= |r.0|
  {
    if d == 0 then (arena, open, closed)
    else
      var (arena', open', closed') := Expansion(arena, open, closed, cur, d - 1);
      var to := Move(arena[cur].state, d - 1);
      if to.grid in closed' then (arena', open', closed')
      else (arena' + [Child(arena, cur, to)], open' + [|arena'|], closed' + {to.grid})
  }

  /**
   * The body of the search loop after the pop: the for loop over the four
   * moves of node cur, which queues the new boards and closes their grids.
   */
  method Expand(arena: seq<Node>, open: seq<nat>, closed: set<Grid>, cur: nat)
    returns (arena': seq<Node>, open': seq<nat>, closed': set<Grid>)
    requires cur < |arena| && Movable(arena[cur].state)
    ensures (arena', open', closed') == Expansion(arena, open, closed, cur, 4)
  {
    arena', open', closed' := arena, open, closed;
    for d: nat := 0 to 4
      invariant (arena', open', closed') == Expansion(arena, open, closed, cur, d)
    {
      Shifts(d);
      var to := MoveTo(arena[cur].state, ShiftX[d], ShiftY[d]);
      ExpansionStep(arena, open, closed, cur, d, arena', open', closed', to);
      if to.grid !in closed' {
        var child := NewNode(to, Some(cur), arena[cur].g + 1);
        arena', open', closed' := arena' + [child], open' + [|arena'|], closed' + {to.grid};
      }
    }
  }

  /** One more iteration of the expansion, for the board to of the d-th move. */
  lemma ExpansionStep(arena: seq<Node>, open: seq<nat>, closed: set<Grid>, cur: nat, d: nat,
                      arena': seq<Node>, open': seq<nat>, closed': set<Grid>, to: Board)
    requires cur < |arena| && Movable(arena[cur].state) && d < 4
    requires (arena', open', closed') == Expansion(arena, open, closed, cur, d)
    requires to == Step(arena[cur].state, ShiftX[d], ShiftY[d])
    ensures Square(to.grid)
    ensures Expansion(arena, open, closed, cur, d + 1) ==
      if to.grid in closed' then (arena', open', closed')
      else (arena' + [Child(arena, cur, to)], open' + [|arena'|], closed' + {to.grid})
  {
  }

  /** A node of the search: a valid board of the start's size, with h computed from it. */
  ghost predicate Fit(n: nat, node: Node)
  {
    && Valid(node.state) && Size(node.state) == n
    && node.h == Heuristic(Measure(BlockDistance, node.state.grid))
  }

  /** Node i was queued by expanding its parent: one move further, g one more, its grid closed. */
  ghost predicate Linked(arena: seq<Node>, closed: set<Grid>, i: nat)
    requires i < |arena|
  {
    && arena[i].parent.Some? && arena[i].parent.value < i
    && arena[i].g == arena[arena[i].parent.value].g + 1
    && OneMove(arena[arena[i].parent.value].state, arena[i].state)
    && arena[i].state.grid in closed
  }

  /**
   * The search invariant: node 0 is the start node, every node fits, every
   * later node is linked to an earlier one, and closed holds the empty grid
   * and grids of the start's size only.
   */
  ghost predicate Sound(board: Board, arena: seq<Node>, closed: set<Grid>)
  {
    && |arena| > 0 && arena[0].state == board && arena[0].parent == None && arena[0].g == 0
    && (forall i | 0 <= i < |arena| :: Fit(Size(board), arena[i]))
    && (forall i | 0 < i < |arena| :: Linked(arena, closed, i))
    && [] in closed && closed <= Universe(Size(board))
  }

  /**
   * The expansion only appends: the arena keeps its nodes, the queue its
   * entries, the closed set its grids, and each queued node adds a grid to
   * the closed set and its index to the queue.
   */
  lemma {:induction false} ExpansionGrows(arena: seq<Node>, open: seq<nat>, closed: set<Grid>, cur: nat, d: nat)
    requires cur < |arena| && Movable(arena[cur].state) && d <= 4
    ensures var (arena', open', closed') := Expansion(arena, open, closed, cur, d);
      && arena'[..|arena|] == arena && closed <= closed' && (Pending(arena, open) ==> Pending(arena', open'))
      && |closed'| - |closed| == |arena'| - |arena| == |open'| - |open|
      && (|arena'| == |arena| ==> open' == open)
  {
    if d > 0 {
      ExpansionGrows(arena, open, closed, cur, d - 1);
    }
  }

  /** Appending a node that fits and is linked, with its grid closed, keeps the search invariant. */
  lemma Push(board: Board, arena: seq<Node>, closed: set<Grid>, child: Node)
    requires Sound(board, arena, closed) && Fit(Size(board), child)
    requires Linked(arena + [child], closed + {child.state.grid}, |arena|)
    ensures Sound(board, arena + [child], closed + {child.state.grid})
  {
    var arena', closed' := arena + [child], closed + {child.state.grid};
    forall i | 0 < i < |arena|
      ensures Linked(arena', closed', i)
    {
      assert Linked(arena, closed, i);
      assert arena'[i] == arena[i] && arena'[arena[i].parent.value] == arena[arena[i].parent.value];
    }
    InUniverse(child.state.grid);
  }

  /** Queuing the board of the d-th move of node cur, whose grid is not closed, keeps the search invariant. */
  lemma GrowSound(board: Board, arena: seq<Node>, arena': seq<Node>, closed': set<Grid>, cur: nat, d: nat, to: Board)
    requires Sound(board, arena', closed') && cur < |arena| <= |arena'| && arena'[..|arena|] == arena
    requires Movable(arena[cur].state) && d < 4 && to == Move(arena[cur].state, d) && to.grid !in closed'
    ensures Square(to.grid)
    ensures Sound(board, arena' + [Child(arena, cur, to)], closed' + {to.grid})
  {
    Shifts(d);
    assert !Blocked(arena[cur].state, ShiftX[d], ShiftY[d]);
    assert arena'[cur] == arena'[..|arena|][cur] == arena[cur];
    assert Fit(Size(board), arena'[cur]);
    StepValid(arena[cur].state, ShiftX[d], ShiftY[d]);
    var child := Child(arena, cur, to);
    assert Fit(Size(board), child);
    assert OneMove(arena[cur].state, to);
    assert Linked(arena' + [child], closed' + {to.grid}, |arena'|);
    Push(board, arena', closed', child);
  }

  /** No two nodes after the start hold the same grid: a board other than the start is queued at most once. */
  ghost predicate Distinct(arena: seq<Node>)
  {
    forall i, j | 0 < i < j < |arena| :: arena[i].state.grid != arena[j].state.grid
  }

  /** A child whose grid was not closed differs from every node queued before it. */
  lemma GrowDistinct(board: Board, arena: seq<Node>, closed: set<Grid>, child: Node)
    requires Sound(board, arena, closed) && Distinct(arena) && child.state.grid !in closed
    ensures Distinct(arena + [child])
  {
    var arena' := arena + [child];
    forall i, j | 0 < i < j < |arena'|
      ensures arena'[i].state.grid != arena'[j].state.grid
    {
      if j == |arena| {
        assert Linked(arena, closed, i);
      }
    }
  }

  /** The expansion of a node of the search keeps the search invariant, and queues no grid twice. */
  lemma {:induction false} ExpansionSound(board: Board, arena: seq<Node>, open: seq<nat>, closed: set<Grid>, cur: nat, d: nat)
    requires Sound(board, arena, closed) && Distinct(arena) && cur < |arena| && Movable(arena[cur].state) && d <= 4
    ensures var (arena', open', closed') := Expansion(arena, open, closed, cur, d);
      Sound(board, arena', closed') && Distinct(arena')
  {
    if d > 0 {
      ExpansionSound(board, arena, open, closed, cur, d - 1);
      ExpansionGrows(arena, open, closed, cur, d - 1);
      var (arena', open', closed') := Expansion(arena, open, closed, cur, d - 1);
      var to := Move(arena[cur].state, d - 1);
      ExpansionStep(arena, open, closed, cur, d - 1, arena', open', closed', to);
      if to.grid !in closed' {
        GrowSound(board, arena, arena', closed', cur, d - 1, to);
        GrowDistinct(board, arena', closed', Child(arena, cur, to));
      }
    }
  }

  /** The boards from node k back to the start, following the parent links: the order the path is collected in. */
  function Ancestry(arena: seq<Node>, k: nat): (r: seq<Board>)
    requires k < |arena|
    ensures |r| > 0 && r[0] == arena[k].state
    decreases k
  {
    var parent := arena[k].parent;
    if parent.Some? && parent.value < k then [arena[k].state] + Ancestry(arena, parent.value)
    else [arena[k].state]
  }

  /** std::reverse: the same elements in the opposite order. */
  function Reversed<T>(s: seq<T>): (r: seq<T>)
    ensures |r| == |s| && forall i | 0 <= i < |s| :: r[i] == s[|s| - 1 - i]
  {
    if |s| == 0 then [] else Reversed(s[1..]) + [s[0]]
  }

  /** Every parent link points to an earlier node. */
  predicate Descending(arena: seq<Node>)
  {
    forall i | 0 <= i < |arena| && arena[i].parent.Some? :: arena[i].parent.value < i
  }

  /** In a sound search every parent link points back, so following them ends at the start. */
  lemma SoundDescending(board: Board, arena: seq<Node>, closed: set<Grid>)
    requires Sound(board, arena, closed)
    ensures Descending(arena)
  {
    forall i | 0 < i < |arena|
      ensures arena[i].parent.Some? && arena[i].parent.value < i
    {
      assert Linked(arena, closed, i);
    }
  }

  /** Collecting node k moves its board from the ancestry still to visit to the boards collected. */
  lemma AncestryStep(arena: seq<Node>, k: nat, result: seq<Board>)
    requires k < |arena| && Descending(arena)
    ensures arena[k].parent.Some? ==>
      result + Ancestry(arena, k) == (result + [arena[k].state]) + Ancestry(arena, arena[k].parent.value)
    ensures arena[k].parent.None? ==> result + Ancestry(arena, k) == result + [arena[k].state]
  {
  }

  /** Restoring the path: collect the boards from node top up the parent links, then reverse them. */
  method Restore(arena: seq<Node>, top: nat) returns (path: seq<Board>)
    requires top < |arena| && Descending(arena)
    ensures path == Trail(arena, top)
  {
    var result: seq<Board> := [];
    var v: Option<nat> := Some(top);
    while v.Some?
      invariant v.Some? ==> v.value < |arena| && result + Ancestry(arena, v.value) == Ancestry(arena, top)
      invariant v.None? ==> result == Ancestry(arena, top)
      decreases if v.Some? then v.value + 1 else 0
    {
      var node := arena[v.value];
      AncestryStep(arena, v.value, result);
      result := result + [node.state];
      v := node.parent;
    }
    path := Reversed(result);
    AncestryTrail(arena, top);
  }

  /** The boards from the start to node k, following the parent links backwards: the restored path. */
  function Trail(arena: seq<Node>, k: nat): (r: seq<Board>)
    requires k < |arena|
    ensures |r| > 0 && r[|r| - 1] == arena[k].state
    decreases k
  {
    var parent := arena[k].parent;
    if parent.Some? && parent.value < k then Trail(arena, parent.value) + [arena[k].state]
    else [arena[k].state]
  }

  lemma ReversedCons<T>(x: T, s: seq<T>)
    ensures Reversed([x] + s) == Reversed(s) + [x]
  {
    assert ([x] + s)[1..] == s;
  }

  /** Reversing the boards collected up the parent links gives the path from the start. */
  lemma {:induction false} AncestryTrail(arena: seq<Node>, k: nat)
    requires k < |arena|
    ensures Reversed(Ancestry(arena, k)) == Trail(arena, k)
    decreases k
  {
    var parent := arena[k].parent;
    if parent.Some? && parent.value < k {
      AncestryTrail(arena, parent.value);
      ReversedCons(arena[k].state, Ancestry(arena, parent.value));
    }
  }

  /**
   * The path to node k in a sound search: g + 1 valid boards of the start's
   * size, starting at the start board, each one move from the one before.
   */
  lemma {:induction false} TrailPath(board: Board, arena: seq<Node>, closed: set<Grid>, k: nat)
    requires Sound(board, arena, closed) && k < |arena|
    ensures var t := Trail(arena, k); |t| == arena[k].g + 1 && t[0] == board
    ensures var t := Trail(arena, k); forall i | 0 <= i < |t| :: Valid(t[i]) && Size(t[i]) == Size(board)
    ensures var t := Trail(arena, k); forall i | 0 <= i < |t| - 1 :: OneMove(t[i], t[i + 1])
    decreases k
  {
    assert Fit(Size(board), arena[k]);
    if k > 0 {
      assert Linked(arena, closed, k);
      var p := arena[k].parent.value;
      TrailPath(board, arena, closed, p);
    }
  }

  /** One move keeps a valid board valid, of the same size, and with the same verdict of is_solvable. */
  lemma MoveKeeps(a: Board, b: Board)
    requires Valid(a) && OneMove(a, b)
    ensures Valid(b) && Size(b) == Size(a) && Solvable(b) == Solvable(a)
  {
    var d :| 0 <= d < 4 && !Blocked(a, ShiftX[d], ShiftY[d]) && b == Move(a, d);
    Shifts(d);
    StepCells(a, ShiftX[d], ShiftY[d]);
    StepValid(a, ShiftX[d], ShiftY[d]);
    MovePreservesSolvable(a, ShiftX[d], ShiftY[d]);
  }

  /** Along a sequence of moves every board is valid, of the first board's size, and with its verdict. */
  lemma {:induction false} PathKeeps(p: seq<Board>)
    requires |p| > 0 && Valid(p[0])
    requires forall i | 0 <= i < |p| - 1 :: OneMove(p[i], p[i + 1])
    ensures Valid(p[|p| - 1]) && Size(p[|p| - 1]) == Size(p[0]) && Solvable(p[|p| - 1]) == Solvable(p[0])
  {
    if |p| > 1 {
      var q := p[..|p| - 1];
      forall i | 0 <= i < |q| - 1
        ensures OneMove(q[i], q[i + 1])
      {
        assert q[i] == p[i] && q[i + 1] == p[i + 1];
      }
      PathKeeps(q);
      MoveKeeps(p[|p| - 2], p[|p| - 1]);
    }
  }

  /**
   * Why solve may give up on a board that fails is_solvable: no sequence of
   * moves leads from it to the solved grid.
   */
  lemma NoPathFromUnsolvable(p: seq<Board>)
    requires |p| > 0 && Valid(p[0]) && !Solvable(p[0])
    requires forall i | 0 <= i < |p| - 1 :: OneMove(p[i], p[i + 1])
    ensures p[|p| - 1].grid != GoalGrid(Size(p[0]))
  {
    PathKeeps(p);
    var last, n := p[|p| - 1], Size(p[0]);
    if last.grid == GoalGrid(n) {
      GoalBlank(n, last.row, last.col);
      GoalSolvable(n);
      assert false;
    }
  }

  /**
   * The path restored from a queued node with h == 0 solves the start board
   * in g moves: it starts at the board, ends at the solved grid, and each
   * board is valid and one move from the one before.
   */
  lemma PathSolves(board: Board, arena: seq<Node>, closed: set<Grid>, top: nat)
    requires Sound(board, arena, closed) && top < |arena| && arena[top].h == 0
    ensures Trail(arena, top)[|Trail(arena, top)| - 1].grid == GoalGrid(Size(board))
  {
    assert Fit(Size(board), arena[top]);
    BlockDistanceZero(arena[top].state.grid);
  }

  /**
   * Popping the top node and expanding it keeps the search sound, and either
   * the closed set grows or the queue shrinks.
   */
  lemma ExpandTop(board: Board, arena: seq<Node>, open: seq<nat>, closed: set<Grid>, k: nat)
    requires Sound(board, arena, closed) && Distinct(arena) && Pending(arena, open) && k < |open| && Size(board) > 0
    ensures open[k] < |arena| && Movable(arena[open[k]].state)
    ensures var (arena', open', closed') := Expansion(arena, Pop(open, k), closed, open[k], 4);
      && Sound(board, arena', closed') && Distinct(arena') && Pending(arena', open')
      && |closed| <= |closed'| <= |Universe(Size(board))|
      && (|closed'| == |closed| ==> |open'| < |open|)
  {
    var top, rest := open[k], Pop(open, k);
    PopPending(arena, open, k);
    assert Fit(Size(board), arena[top]);
    ExpansionGrows(arena, rest, closed, top, 4);
    ExpansionSound(board, arena, rest, closed, top, 4);
    var (arena', open', closed') := Expansion(arena, rest, closed, top, 4);
    SubsetCard(closed', Universe(Size(board)));
  }

  /**
   * One round of the search loop that does not end it: pop the top node and
   * expand it.
   */
  method Advance(board: Board, arena: seq<Node>, open: seq<nat>, closed: set<Grid>, k: nat)
    returns (arena': seq<Node>, open': seq<nat>, closed': set<Grid>)
    requires Sound(board, arena, closed) && Distinct(arena) && Pending(arena, open) && k < |open| && Size(board) > 0
    ensures Sound(board, arena', closed') && Distinct(arena') && Pending(arena', open')
    ensures |closed| <= |closed'| <= |Universe(Size(board))|
    ensures |closed'| == |closed| ==> |open'| < |open|
  {
    ExpandTop(board, arena, open, closed, k);
    var top := open[k];
    var rest := Pop(open, k);
    arena', open', closed' := Expand(arena, rest, closed, top);
  }

  /**
   * The A* loop of solve, from the start node to the first node taken from
   * the queue with h == 0, whose path it returns. When the queue runs empty,
   * where the source would read the top of an empty queue, the result is
   * None.
   */
  method AStar(board: Board) returns (r: Option<Solution>)
    requires Valid(board) && Size(board) > 0
    ensures r.Some? ==>
      var p := r.value.boards;
      && |p| == Moves(r.value) + 1 && p[0] == board && p[|p| - 1].grid == GoalGrid(Size(board))
      && (forall i | 0 <= i < |p| :: Valid(p[i]) && Size(p[i]) == Size(board))
      && forall i | 0 <= i < |p| - 1 :: OneMove(p[i], p[i + 1])
  {
    var n := Size(board);
    var closed: set<Grid> := {[]};
    var root := NewNode(board, None, 0);
    var arena := [root];
    var open: seq<nat> := [0];
    InUniverse([]);
    while |open| > 0
      invariant Sound(board, arena, closed) && Distinct(arena) && Pending(arena, open)
      decreases |Universe(n)| - |closed|, |open|
    {
      SubsetCard(closed, Universe(n));
      var k := Peek(arena, open);
      var top := open[k];
      if arena[top].h == 0 {
        SoundDescending(board, arena, closed);
        var path := Restore(arena, top);
        TrailPath(board, arena, closed, top);
        PathSolves(board, arena, closed, top);
        return Some(Solution(path));
      }
      arena, open, closed := Advance(board, arena, open, closed, k);
    }
    return None;
  }

  /**
   * solve: a solved board is its own solution and an unsolvable one has the
   * empty solution; any other board is searched by A*, and the solution found
   * leads from it to the solved board one move at a time.
   */
  method Solve(board: Board) returns (r: Option<Solution>)
    requires Valid(board)
    ensures IsGoal(board) ==> r == Some(Solution([board]))
    ensures !IsGoal(board) && !Solvable(board) ==> r == Some(NoSolution)
    ensures !IsGoal(board) && Solvable(board) && r.Some? ==>
      var p := r.value.boards;
      && |p| == Moves(r.value) + 1 && p[0] == board && p[|p| - 1].grid == GoalGrid(Size(board))
      && (forall i | 0 <= i < |p| :: Valid(p[i]) && Size(p[i]) == Size(board))
      && forall i | 0 <= i < |p| - 1 :: OneMove(p[i], p[i + 1])
  {
    var hamming := Hamming(board);
    if hamming == 0 {
      return Some(Solution([board]));
    }
    var solvable := IsSolvable(board);
    if !solvable {
      return Some(NoSolution);
    }
    r := AStar(board);
  }
}
