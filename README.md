# Sliding-tile puzzle solver, modelled in Dafny

This project models the core of an N-puzzle solver. A board is an n x n grid holding
the tiles 1 .. n*n - 1 and a blank (0), with the blank's position cached beside the grid.
The board supports these operations:

- build a board from a grid, and find its blank;
- build the solved board (`create_goal`);
- fill a board from a row-major permutation (the deterministic half of `create_random`);
- count misplaced cells (`hamming`) and sum block distances (`manhattan`);
- test for the goal (`is_goal`);
- test solvability by inversion parity (`is_solvable`);
- move the blank by one cell (`move_to`);
- render the board as text (`to_string`, padded by `get_length`);
- compare and index boards (`operator<`, `==`, `!=`, `[]`).

The solver (`Solver::solve`) runs a best-first search. Its priority is f = g + h, with
h = manhattan + 3 * manhattan / 2. It returns a `Solution`, the sequence of boards from the
start to the solved board.

Files:

- `options.dfy`: `Option`.
- `grids.dfy`: grids, their row-major reading and the finite universe of n x n grids.
- `parity.dfy` (module `Parity`): inversion counts and how exchanging two entries changes their parity.
- `boards.dfy`: the board, its constructors and `move_to`.
- `distances.dfy`: `hamming`, `manhattan` and `is_goal`.
- `solvability.dfy`: `is_solvable`, the proof that a move keeps its verdict, and the proof that exchanging two tiles flips it.
- `rendering.dfy`: `get_length` and `to_string`.
- `order.dfy`: the comparison operators.
- `solutions.dfy` (module `Solutions`): `Solution`.
- `search.dfy` (module `Search`): `solve` and its search.

A board is a value, because the source copies boards freely: a `datatype`. Each loop of the
source is a method with loop invariants. The method is proved equal to a specification
function, and the properties are lemmas about that function.

The search keeps its nodes in an arena (a sequence) and links each node to its parent by
index; the source uses heap pointers. The open queue is a sequence of arena indices. Each
step takes any index of least f (`Search.Peek`), since the source's heap may surface any
node of equal f. The closed set is a set of grids, because two
boards are one element of the source's `std::set<Board>` exactly when their grids are
equal (`Order.Equal`). The set starts with the empty grid, the board that `move_to`
returns for a move off the grid, so such a move is never queued.

The search is proved to terminate without fuel. Every child is a fresh grid from the
finite set of n x n grids with entries below n*n. So either the closed set grows, or the
open queue shrinks.

The source never adds the start board to `closed` (src/solver.cpp:50, 60), so a child
whose grid equals the start board's can be queued once more. `Search.Distinct` therefore
states that no grid is queued twice among the nodes after the start.

## Model

| member | source | states |
|---|---|---|
| Boards.Size | src/board.cpp:73-76 | `size()` is the number of rows; on a square grid every row has that many cells |
| Boards.Valid | include/board.h:11-14 | the invariant of the two fields: the grid is an n x n permutation of 0 .. n*n - 1 (so it holds every such value), and the cached position names the blank, (0, 0) for the empty board |
| Boards.Row | include/board.h:60-63 | `operator[]` returns row `index` of the grid unchanged: n entries, equal cell by cell |
| Boards.NewBoard | src/board.cpp:59-71 | the constructor keeps the grid; a grid with a blank gets the position of its last 0 in row-major order; a grid without one gets (0, 0); a permutation grid gives a valid board |
| Boards.ValidLastBlank | src/board.cpp:59-71 | on a valid non-empty board the cached position is the (only) blank, which is then also the last one in row-major order |
| Boards.GoalBlank | src/board.cpp:31-36 | a cell of the goal grid is 0 exactly when it is the last cell (n-1, n-1) |
| Boards.GoalIsPermutation | src/board.cpp:25-38 | the goal grid holds each of 0 .. n*n - 1 exactly once |
| Boards.CreateGoal | src/board.cpp:25-38 | `create_goal(n)` gives the goal grid (i*n + j + 1, last cell 0); the board is valid; for n > 0 its blank is at (n-1, n-1) |
| Boards.CreateFromFields | src/board.cpp:47-55 | filling the goal board from `fields` row by row gives a grid whose row-major reading is `fields`; the blank is the last 0; with no 0 the position stays at (n-1, n-1); a permutation of 0 .. n*n - 1 gives a valid board |
| Boards.PermutationValid | src/board.cpp:47-55 | a square grid whose reading is a permutation, with its position at the blank, is a valid board |
| Boards.MoveTo | src/board.cpp:170-183 | `move_to` computes `Step`: the empty board when the move leaves the grid, otherwise the blank exchanged with its neighbour at (row + dx, col + dy) |
| Boards.SwapByUpdates | src/board.cpp:180 | the two writes of `std::swap` give the grid with the two cells exchanged |
| Boards.StepCells | src/board.cpp:173-182 | a blocked move gives a board of size 0; otherwise the blank moves to (row + dx, col + dy), the two cells trade values, every other cell is unchanged and the size is kept |
| Boards.StepMovable | src/board.cpp:170-183 | after a legal move the opposite move is legal |
| Boards.StepRoundTrip | src/board.cpp:170-183 | a legal move followed by the opposite move gives back the original board, position included |
| Boards.SwapPermutation | src/board.cpp:180 | exchanging two cells keeps a permutation grid a permutation grid |
| Boards.StepValid | src/board.cpp:170-183 | `move_to` on a valid board gives a valid board (the empty one when blocked) |
| Distances.Hamming | src/board.cpp:83-104 | the running-`current` scan equals the count of cells that differ from the goal grid |
| Distances.HammingAtMost | src/board.cpp:83-104 | hamming never exceeds n*n |
| Distances.HammingZero | src/board.cpp:83-104 | hamming is 0 exactly on the goal grid, for any square grid |
| Distances.MeasureZero | src/board.cpp:83-124 | either measure is 0 exactly when every cell costs 0 |
| Distances.Manhattan | src/board.cpp:106-124 | the scan that skips the blank equals the sum over tiles v of the block distance from (i, j) to ((v-1)/n, (v-1)%n) |
| Distances.TileInPlace | src/board.cpp:112-120 | a tile contributes 0 to manhattan exactly when it holds i*n + j + 1 |
| Distances.GoalBlockDistance | src/board.cpp:106-124 | the goal grid has manhattan 0 |
| Distances.BlockDistanceZero | src/board.cpp:106-124 | on a permutation grid manhattan is 0 exactly on the goal grid, which is why the search may stop when h == 0 |
| Distances.IsGoal | src/board.cpp:78-81 | `is_goal` (hamming == 0) holds exactly when the grid is the goal grid |
| Solvability.FlipAfter | src/board.cpp:152-161 | the inner double loop flips the parity once per tile after (x, y) that is smaller than the tile at (x, y) |
| Solvability.ScanRow | src/board.cpp:148-162 | one row of the outer scan keeps the parity equal to the inversion count read so far |
| Solvability.Verdict | src/board.cpp:164-166 | the final flip and negation give `Solvable`: on odd n an even inversion count; on even n an odd inversion count plus n - row |
| Solvability.IsSolvable | src/board.cpp:141-167 | `is_solvable` returns `Solvable(b)`: true for the empty board; otherwise the inversion-parity rule of `Verdict` |
| Solvability.StepInversions | src/board.cpp:170-183 | a move that keeps the blank in its row keeps the parity of the inversion count; a move to the next or previous row changes it by n - 1 modulo 2 |
| Solvability.MovePreservesSolvable | src/board.cpp:170-183 | a legal unit move along one axis leaves `is_solvable` unchanged |
| Solvability.GoalSolvable | src/board.cpp:141-167 | the goal board is solvable |
| Parity.NeighbourTiles | src/board.cpp:147-163 | exchanging two different tiles that stand side by side in the reading changes the inversion count by exactly one (up or down), so it flips its parity |
| Parity.DistantTiles | src/board.cpp:147-163 | exchanging two different tiles x and y, with values other than x and y between them, flips the parity of the inversion count: the pair turns over, and each tile between them is counted once against x and once against y either way |
| Parity.ExchangeTiles | src/board.cpp:147-163 | in a reading without repeats, exchanging the tiles at any two positions flips the parity of the inversion count |
| Parity.ExchangeNeighbours | src/board.cpp:147-163 | exchanging entries p and p + 1 of a reading, both tiles and different, flips the parity of the inversion count |
| Solvability.OppositeVerdicts | src/board.cpp:164-166 | two boards of one size with the blank in one row, whose inversion counts have opposite parity, get opposite verdicts |
| Solvability.TileSwapFlips | src/board.cpp:141-167 | on a valid board, exchanging any two different tiles (neither the blank), neighbours in a row or in a column among them, flips `is_solvable` |
| Solvability.SwappedGoalUnsolvable | src/board.cpp:141-167 | for n >= 3 the goal board with the two tiles before the blank exchanged (1 2 3 / 4 5 6 / 8 7 0 for n = 3) fails `is_solvable` |
| Rendering.DecimalValue | src/board.cpp:133 | the decimal text of a number reads back as that number |
| Rendering.DecimalDigits | src/board.cpp:133 | the decimal text is all digits, with a leading 0 only for 0 |
| Rendering.DecimalBounds | src/board.cpp:10-21 | a number with d digits lies in [10^(d-1), 10^d), the lower bound failing only for 0 |
| Rendering.DecimalMonotone | src/board.cpp:10-21 | a larger number never has fewer digits |
| Rendering.GetLength | src/board.cpp:10-21 | `get_length` returns the number of decimal digits of its argument, 1 for 0 |
| Rendering.PadSpaces | src/board.cpp:132 | the padding is w - len spaces in front of the number |
| Rendering.CellStep | src/board.cpp:131-133 | a cell that fits appends its padding, its digits and a space; a cell wider than the field makes the text fail |
| Rendering.RowStep | src/board.cpp:135-136 | a finished row has its last space replaced by a newline |
| Rendering.RowText | src/board.cpp:130-134 | the inner loop of `to_string` builds the text of one row's cells |
| Rendering.ToString | src/board.cpp:126-139 | `to_string` returns `Render(b)` |
| Rendering.CellsFailure | src/board.cpp:132 | once a cell of a row fails, the row fails |
| Rendering.LinesFailure | src/board.cpp:132 | once a row fails, the text fails |
| Rendering.RowFits | src/board.cpp:130-134 | a row succeeds exactly when each of its cells fits the field width |
| Rendering.LinesFit | src/board.cpp:129-137 | the first i rows succeed exactly when every cell in them fits |
| Rendering.FitsRow | src/board.cpp:129-137 | the cells up to the end of row i fit exactly when those up to its start fit and every cell of row i fits |
| Rendering.FieldsCells | src/board.cpp:131-133 | field q of the layout is the padded text of cell (q / n, q % n) |
| Rendering.RowLayout | src/board.cpp:130-134 | the text of a row's first j cells is the layout of those j fields with their separators |
| Rendering.LinesLayout | src/board.cpp:129-137 | the text of the first i rows is the layout of their i*n fields |
| Rendering.RenderLayout | src/board.cpp:126-139 | `to_string` fails exactly when some cell is wider than the largest label; otherwise it is the layout of all n*n fields |
| Rendering.LayoutLength | src/board.cpp:126-139 | a layout of p fields of width w has p * (w + 1) characters |
| Rendering.LayoutPrefix | src/board.cpp:126-139 | the layout of fewer fields is a prefix of the layout of more |
| Rendering.LayoutCell | src/board.cpp:126-139 | field q occupies characters q*(w+1) .. q*(w+1) + w - 1, followed by a space, or a newline at the end of a row |
| Rendering.FieldLength | src/board.cpp:132-133 | a number that fits the width is padded to exactly w characters |
| Rendering.TrimSpaces | src/board.cpp:132-133 | stripping the leading spaces of the padding recovers the digits |
| Rendering.FieldRoundTrip | src/board.cpp:132-133 | a padded field reads back as the number it shows |
| Rendering.RenderValid | src/board.cpp:126-139 | on a permutation board (with n*n <= 2^32) `to_string` succeeds, every field has the width of the largest label, and the text is their layout |
| Order.Less | include/board.h:40-43 | `operator<` compares the grids as `std::vector` does: when it holds, the grids differ and the other board is not less; when it does not, the grids are equal or the other board is less |
| Order.LexIrreflexive | include/board.h:40-43 | `std::vector`'s `<` is irreflexive |
| Order.LexTrichotomy | include/board.h:40-43 | of two different vectors, one is less than the other |
| Order.LexTransitive | include/board.h:40-43 | `std::vector`'s `<` is transitive |
| Order.RowLessStrictTotal | include/board.h:40-43 | rows of unsigned values are strictly totally ordered |
| Order.LessOrder | include/board.h:40-43 | `operator<` is irreflexive and transitive, and total up to grid equality |
| Order.Equal | include/board.h:45-48 | `operator==` holds exactly when neither board is less than the other |
| Order.NotEqual | include/board.h:50-53 | `operator!=` is the negation of `==`, and holds exactly when one board is less than the other |
| Order.EqualIgnoresPosition | include/board.h:40-48 | boards with the same grid are equal and not less than each other, whatever blank positions they cache |
| Solutions.Moves | include/solver.h:22 | `moves()` of a path of k + 1 boards is k; an empty solution makes 0 moves |
| Search.Heuristic | src/solver.cpp:25 | h is never below manhattan, and h is 0 exactly when manhattan is 0 |
| Search.NewNode | src/solver.cpp:20-27 | the `Node` constructor keeps the state, parent and g and sets h from the manhattan distance |
| Search.Compare | src/solver.cpp:31-38 | `lhs` comes after `rhs` in the queue exactly when its f = g + h is larger, so the top of the queue has least f |
| Search.CompareOrder | src/solver.cpp:31-38 | `Compare` is a strict weak ordering (irreflexive, asymmetric, transitive, with transitive incomparability), as `std::priority_queue` requires |
| Search.Top | src/solver.cpp:31-38 | a non-empty queue holds an entry that `Compare` puts after no other queued entry, i.e. one of least f |
| Search.Peek | src/solver.cpp:63-67 | `open.top()`: some entry of least f, whichever one the heap surfaces among equals |
| Search.Pop | src/solver.cpp:66-68 | popping removes that one entry: the other indices keep their order and the multiset loses exactly it |
| Search.PopPending | src/solver.cpp:66-68 | after the pop, every queued index is still a node of the arena |
| Search.Shifts | src/solver.cpp:52-53 | each of the four shifts moves the blank one cell along exactly one axis |
| Search.Expansion | src/solver.cpp:69-79 | expanding a node never makes the arena shorter (that the old nodes stay unchanged is `ExpansionGrows`) |
| Search.Expand | src/solver.cpp:69-79 | the `for` loop over the four shifts computes `Expansion`: each move whose grid is not closed is closed and queued as a child with g + 1 |
| Search.ExpansionStep | src/solver.cpp:71-78 | one iteration: a closed grid changes nothing; a fresh grid adds one child, its index and its grid |
| Search.ExpansionGrows | src/solver.cpp:69-79 | an expansion keeps the old nodes, only grows the closed set, adds as many closed grids as nodes and queue entries, and leaves the queue unchanged when it adds no child |
| Search.Push | src/solver.cpp:76-78 | queuing a well-formed child linked to an earlier node keeps the search invariant `Sound` |
| Search.GrowSound | src/solver.cpp:71-78 | a child made by a legal move from a queued node, on a grid not yet closed, keeps `Sound` |
| Search.GrowDistinct | src/solver.cpp:73-76 | a child whose grid is not closed differs from every node queued after the start |
| Search.ExpansionSound | src/solver.cpp:69-79 | expanding a node keeps `Sound` (every node valid, with the right h, a legal move from an earlier parent with g one more) and `Distinct` |
| Search.Ancestry | src/solver.cpp:83-85 | the parent chain starts at the node's own board |
| Search.Reversed | src/solver.cpp:86 | `std::reverse`: the element at i moves to position len - 1 - i |
| Search.SoundDescending | src/solver.cpp:78 | in a sound arena every parent index is smaller than its child's index |
| Search.AncestryStep | src/solver.cpp:83-85 | one step up the parent chain |
| Search.Restore | src/solver.cpp:82-86 | the loop over parents followed by `std::reverse` gives the trail from the start to the node |
| Search.Trail | src/solver.cpp:82-86 | the trail ends at the node's board |
| Search.ReversedCons | src/solver.cpp:86 | reversing x followed by s gives the reverse of s followed by x |
| Search.AncestryTrail | src/solver.cpp:83-86 | reversing the parent chain gives the root-first trail |
| Search.TrailPath | src/solver.cpp:78-86 | in a sound arena the trail to a node has g + 1 boards, starts at the start board, holds valid boards of the start's size, and each board follows from the one before by one legal move |
| Search.PathSolves | src/solver.cpp:63-65 | the trail to a node with h == 0 ends on the goal grid |
| Search.ExpandTop | src/solver.cpp:66-79 | popping the top and expanding it keeps `Sound`, `Distinct` and the queue in the arena; the closed set stays within the finite universe, and it grows unless the queue shrinks |
| Search.Advance | src/solver.cpp:66-79 | one loop iteration that does not stop: pop and expand, with the guarantees of `ExpandTop` |
| Search.MoveKeeps | src/board.cpp:170-183 | one move of the four the solver makes keeps a valid board valid, keeps its size and keeps its `is_solvable` verdict |
| Search.PathKeeps | src/solver.cpp:69-79 | along any sequence of such moves from a valid board, every board is valid, of the same size, with the first board's verdict |
| Search.NoPathFromUnsolvable | src/solver.cpp:47-49 | no sequence of moves leads from a valid board that fails `is_solvable` to the goal grid, which is why `solve` returns the empty solution for it |
| Search.AStar | src/solver.cpp:50-96 | the search from a valid start board: a returned solution starts at the start board, ends on the goal grid, makes one legal move per step, and its `moves()` is its length minus 1 |
| Search.Solve | src/solver.cpp:42-97 | `solve`: a goal board gives the one-board solution; an unsolvable board gives the empty solution; a solvable board gives a solving path, with the guarantees of `AStar` |

## Left out

- `create_random`'s shuffle (src/board.cpp:42-45): randomness is out of scope. The fill from a given permutation is modelled (`Boards.CreateFromFields`).
- `operator<<` (include/board.h:55-58): stream output. The text it writes is `to_string`, which is modelled.
- src/main.cpp: it only reads and writes. It is not part of this model.
- Memory management of the search (`new`, the `to_delete` queue and the deletes at src/solver.cpp:87-95): nodes live in an immutable arena, so there is nothing to free.
- `std::priority_queue` internals: the model takes any queued node of least f. It does not model which one the heap picks, so the exact path among equally good choices is not modelled.
- Search.AStar: when the open queue runs empty the source calls `open.top()` on an empty queue, which is undefined behaviour; the model returns None there. It does not prove that this cannot happen for a solvable board.
- Search.Solve: does not claim the path is shortest. The heuristic is inflated (2.5 times manhattan) and is not admissible. It also does not claim that a solvable board always yields Some (completeness).
- Search.Heuristic, Distances.Manhattan, Distances.Hamming, Boards.CreateGoal: cells, counts, g and h are unbounded naturals. The source keeps them in 32-bit `unsigned`, so these contracts hold only where nothing wraps. `create_goal`'s cell values (src/board.cpp:33), and `hamming`'s count and `current` (src/board.cpp:85-86), wrap only when n*n >= 2^32 (n >= 65536). `manhattan` (below 2n^3) and `3 * manhattan` (src/solver.cpp:25, wrapping once manhattan >= ceil(2^32 / 3)) can wrap only for boards of side about 900 and up (2n^3 reaches the threshold at n = 895). `g + h` (src/solver.cpp:36) and `g + 1` (src/solver.cpp:78) wrap once g or h nears 2^32.
- Solvability.MovePreservesSolvable: covers only moves along one axis, which are the only ones the solver makes (`Search.Shifts`).
- Board construction does not reject malformed grids (non-square, duplicates, no blank), and neither does the source. Operations that need a square grid require it; the search requires a valid board.
- Solution iteration (`begin`/`end`, include/solver.h:26-28) is the `boards` sequence itself, in stored order. The default constructor is `Solutions.NoSolution`, and the vector constructors are the datatype constructor.
