# Sliding-tile puzzle solver, modelled in Dafny

The repository solves the n-by-n sliding-tile puzzle (the 8-puzzle, the 15-puzzle).
Tiles are labelled 1 .. n*n-1 and 0 is the blank. A move exchanges the blank with a
neighbouring tile. The goal is 1, 2, ... in row-major order with the blank in the
bottom-right corner. There are two versions of the puzzle code:

- **Java** (`src/Board.java`, `src/Point.java`, `src/Solver.java`):
  - A `Board` keeps its array, the blank's `Point`, the board it came from, its move
    count, the direction it was entered from and a cached text form.
  - It provides neighbours, the Hamming and Manhattan distances, a priority, a goal
    test, a solvability test, equality and hashing.
  - `Solver` runs a best-first search over a priority queue, guarded by the
    solvability test.
- **Python** (`slide.py`):
  - A `Board` holds a grid and the path of moves that produced it.
  - It provides its children, the goal grid, a two-grid Manhattan distance,
    equality, hashing and ordering, plus the goal test of its `Solver`.

The model follows the code's own form:

- The Java and Python boards, the Java point and the Java solver are classes whose
  fields their methods update: arrays for the grids, a sequence for the priority
  queue.
- Every modelled loop is a method with invariants. Each is proved against a
  pure specification function (`HammingOf`, `ManhattanOf`, `Inversions`,
  `RenderGrid`, `CornerWalk`, `NeighborDirs`, `GoalGrid`, ...).
- Lemmas prove what the code promises about those functions. For example:
  - Hamming distance zero is exactly the goal;
  - the text form determines the grid, so `equals` is grid equality;
  - neighbours never undo the move that made them;
  - the search keeps every queued board a permutation of the initial labels;
  - the solvability test, once counted on the walked board, is invariant under
    moves and accepts every board reachable from the goal.

Modules: `Grids` (shared grid facts), `Render` (Java text form and string hash),
`Points`, `Boards`, `Solvers`, `Parity` (the solvability invariant), `Slide`
(slide.py) and `Links` (the symmetry of slide.py's Manhattan distance).

## Model

| member | source | states |
|---|---|---|
| Points.Point.constructor | src/Point.java:6-9 | the point holds the given row and column |
| Points.Point.Equal | src/Point.java:11-14 | the point takes the other point's coordinates and nothing else changes |
| Points.Point.GetNorth | src/Point.java:24-27 | a new point one row up |
| Points.Point.GetEast | src/Point.java:29-32 | a new point one column right |
| Points.Point.GetSouth | src/Point.java:34-37 | a new point one row down |
| Points.Point.GetWest | src/Point.java:39-42 | a new point one column left |
| Points.OppositeStepsCancel | src/Point.java:24-42 | north then south, south then north, east then west and west then east each return to the starting coordinates |
| Grids.SwapCells | src/Board.java:256-260 | the two cells exchange their labels, every other cell keeps its label, the shape is kept |
| Grids.SwapKeepsTiles | src/Board.java:254-266 | an exchange keeps the multiset of labels |
| Grids.SwapKeepsDistinct | src/Board.java:254-266 | an exchange keeps labels pairwise distinct |
| Grids.SwapTwice | src/Board.java:254-266 | exchanging the same two cells again restores the grid |
| Grids.Dist | src/Board.java:140 | the taxicab distance is zero exactly for the same cell |
| Grids.GoalGrid | src/Board.java:110-119 | the goal is n-by-n with label c + r*n + 1 everywhere but the blank in the last cell |
| Grids.GoalDistinct | src/Board.java:110-119 | no label appears twice on the goal |
| Grids.GoalCellLabel | src/Board.java:116-117 | a goal cell is blank exactly at the bottom-right corner, else holds c + r*n + 1 |
| Grids.GoalCovers | src/Board.java:110-119 | every label 0 .. h*w-1 occurs on the goal |
| Grids.GoalMatch | src/Board.java:131-139 | a goal cell holds tile v exactly when v is in range and the cell is row (v-1)/w, column (v-1)%w |
| Grids.FlattenLength | src/Board.java:193-194 | the row-major label list of an h-by-w grid has h*w entries |
| Grids.TilesUpdateCell | src/Board.java:259-260 | writing one cell replaces one label in the multiset of labels |
| Render.IntToString | src/Board.java:246 | the decimal text has no space or line break and starts with '-' exactly for negative values |
| Render.IntToStringInjective | src/Board.java:246 | distinct integers are written as distinct texts |
| Render.RenderRow | src/Board.java:244-247 | a row's text has no line break, is empty only for an empty row and ends with a space |
| Render.RenderGrid | src/Board.java:239-250 | the board text is empty only for an empty grid and ends with a line break |
| Render.RenderRowInjective | src/Board.java:242-249 | equal row texts come from equal rows |
| Render.RenderGridInjective | src/Board.java:210-213 | equal board texts come from equal grids, so text equality is grid equality |
| Render.WrapInt | src/Board.java:278-281 | the value is a Java int congruent to the input modulo 2^32 |
| Render.StringHash | src/Board.java:278-281 | String.hashCode of the text, always a Java int |
| Boards.Opposite | src/Board.java:64-97 | the origin a child records is a direction other than d whose step is the reverse of d's |
| Boards.Pick | src/Board.java:64 | one guard of neighbors(): either nothing or just d |
| Boards.NeighborDirs | src/Board.java:58-101 | at most four distinct directions, exactly those on the board other than the recorded origin |
| Boards.NeighborDirsNonEmpty | src/Board.java:58-101 | on a board of side 2 or more neighbors() always returns at least one board |
| Boards.StepKeepsTiles | src/Board.java:254-266 | a move keeps the multiset of labels |
| Boards.SingleCellIsGoal | src/Board.java:175-178 | a one-cell board holding its blank is the goal |
| Boards.ChildNeverUndoes | src/Board.java:64-97 | stepping back toward the recorded origin would restore the parent; neighbors() excludes it, and every step it takes yields a grid other than the parent |
| Boards.StepBackRestores | src/Board.java:254-266 | a move followed by the opposite move restores the grid |
| Boards.StepGridsDiffer | src/Board.java:64-97 | with a single blank, steps toward two different directions give two different grids |
| Boards.OtherStepDiffers | src/Board.java:64-97 | any second step other than the reverse puts the blank where the parent holds a tile |
| Boards.GoalHeuristicsZero | src/Board.java:108-166 | the goal has Hamming and Manhattan distance zero |
| Boards.HammingAtMostManhattan | src/Board.java:108-166 | with labels in 0 .. n*n-1, the Hamming distance is at most the Manhattan distance |
| Boards.HammingBound | src/Board.java:148-166 | with a blank on the board at most n*n-1 tiles are misplaced |
| Boards.HammingZeroIffGoal | src/Board.java:175-178 | for a board with a single blank, Hamming distance zero holds exactly for the goal |
| Boards.SwapMovesBlank | src/Board.java:254-261 | after exchanging the only blank with a cell, that cell is the only blank |
| Boards.PerfectBoard | src/Board.java:110-119 | the array built holds the goal label in every cell |
| Boards.FindGoalCell | src/Board.java:128-139 | the search of the goal array yields the goal cell of a tile label, and (0, 0) for a label not on it |
| Boards.CopySquare | src/Board.java:27-30 | a fresh n-by-n array equal to the first n columns of the n given rows |
| Boards.ScanForBlank | src/Board.java:32-42 | null exactly when there is no 0, else a new point at the first 0 of the last row holding one |
| Boards.RenderBoard | src/Board.java:239-250 | the text built row by row is RenderGrid of the grid |
| Boards.AppendRow | src/Board.java:244-247 | appends the row's text to the text so far |
| Boards.MisplacedInRow | src/Board.java:162-163 | the count for one row is that row's share of the Hamming distance |
| Boards.DistanceInRow | src/Board.java:123-141 | the sum for one row is that row's share of the Manhattan distance |
| Boards.AppendLabels | src/Board.java:194 | squ is extended by the row's labels in order |
| Boards.Labels | src/Board.java:193-194 | squ is the row-major label list of the grid |
| Boards.CountBelow | src/Board.java:201-203 | counts the tiles after position k below squ[k] |
| Boards.CountInversions | src/Board.java:196-205 | the total is the inversion count of squ |
| Boards.Toward | src/Board.java:64-97 | the point method for d yields the neighbour one step toward d |
| Boards.Board.constructor | src/Board.java:25-46 | copies the square, finds the blank where the scan stops (null when there is none), links the previous board, zero moves, no cached text |
| Boards.Board.GetNum | src/Board.java:273-276 | the label at the point |
| Boards.Board.CanSwap | src/Board.java:268-271 | true exactly when the point lies on the board |
| Boards.Board.SetMoves | src/Board.java:220-223 | sets the move count; grid, origin and cache unchanged, validity kept |
| Boards.Board.SetDirection | src/Board.java:283-285 | sets the recorded origin; grid, moves and cache unchanged, validity kept |
| Boards.Board.ToString | src/Board.java:237-252 | the cached text when present, otherwise the text built; either way RenderGrid of the grid |
| Boards.Board.Exchange | src/Board.java:256-263 | the blank's cell and the target exchange, the blank moves to the target, labels kept, cache cleared |
| Boards.Board.Swap | src/Board.java:254-266 | the exchange, then the cache holds the text of the new grid |
| Boards.Board.Copy | src/Board.java:66 | a fresh valid copy with the same grid and blank, pointing back at this board |
| Boards.Board.MoveToward | src/Board.java:68-70 | records the opposite of d, moves the blank one step toward d |
| Boards.Board.Step | src/Board.java:64-71 | one neighbors() branch yields a valid child with no moves recorded: this grid with the blank stepped toward d, previous set, origin the opposite of d |
| Boards.Board.ChildrenGrow | src/Board.java:58-101 | appending a new child keeps the child list well formed and duplicate-free |
| Boards.Board.Branch | src/Board.java:64-71 | a child exactly when d is not the origin and its step stays on the board |
| Boards.Board.Offer | src/Board.java:64-72 | the list grows by the branch's child, when there is one, keeping its prefix |
| Boards.Board.Neighbors | src/Board.java:58-101 | one fresh child with no moves recorded per direction of NeighborDirs, in the order north, east, south, west |
| Boards.Board.ChildGridsDiffer | src/Board.java:58-101 | the boards neighbors() returns hold pairwise different grids |
| Boards.Board.Hamming | src/Board.java:148-166 | the number of misplaced tiles, at most n*n-1 |
| Boards.Board.Manhattan | src/Board.java:108-146 | the summed distances of misplaced tiles from where their labels are found on the goal |
| Boards.Board.IsGoal | src/Board.java:175-178 | true exactly when the Hamming distance is zero, equivalently when the grid is the goal |
| Boards.Board.GetPriority | src/Board.java:230-235 | moves plus both heuristics, never below the moves |
| Boards.Board.CompareTo | src/Board.java:168-173 | -1, 0 or 1 exactly as this priority is below, equal to or above the other |
| Boards.Board.Equals | src/Board.java:210-213 | true exactly when the two grids are equal |
| Boards.Board.HashCode | src/Board.java:278-281 | the Java string hash of the board text, a Java int; equal grids hash alike |
| Boards.Board.Nudge | src/Board.java:188-189 | the copy's blank moves toward d when that stays on the board, labels kept |
| Boards.Board.WalkStep | src/Board.java:186-190 | one pass: east then south where possible |
| Boards.Board.WalkToCorner | src/Board.java:184-190 | the walk ends with the blank in the bottom-right corner and the grid CornerWalk describes, labels kept |
| Boards.Board.IsSolvable | src/Board.java:180-208 | as written: true exactly when this board's own labels have an even number of inversions |
| Boards.Board.IsSolvableFixed | src/Board.java:180-208 | as intended: true exactly when the walked copy's labels have an even number of inversions |
| Solvers.Solver.constructor | src/Solver.java:9-16 | a rejected board leaves moves at 0; a returned board is the goal over the initial labels and moves is its move count |
| Solvers.Solver.Enqueue | src/Solver.java:25-26 | the neighbour gets one more move than the current board and joins the back of the queue |
| Solvers.Solver.OfferAll | src/Solver.java:22-28 | all neighbours are queued in order, each with one more move |
| Solvers.Solver.LeastPriority | src/Solver.java:29 | the index of a queued board whose priority is least |
| Solvers.Solver.Poll | src/Solver.java:29 | null on an empty queue, else a least-priority board removed from it, the rest kept |
| Solvers.Solver.OfferNeighbors | src/Solver.java:22-28 | the boards queued are exactly the children of the current board toward each direction of NeighborDirs, in order, at least one of them; each gets one more move than the current board, they join the back of the queue, and every queued board stays valid over the initial labels |
| Solvers.Solver.PollNext | src/Solver.java:29 | the board taken was in the queue and is removed from it once, the rest kept as a multiset; it is valid, over the initial labels, with priority least among the queue |
| Solvers.Solver.Round | src/Solver.java:20-30 | one pass of the loop over a board that is not the goal: the boards offered are exactly its children toward NeighborDirs, at least one, each with one more move; the board polled is one of the old queue or the offered boards, leaves the queue exactly once (as a multiset), has the least priority among them all, and is valid over the initial labels |
| Solvers.Solver.SolveHe | src/Solver.java:18-32 | a returned board is the goal, over the initial labels, with the moves-to-depth offset kept; null is returned only when the fuel is spent |
| Solvers.Expand | src/Solver.java:22 | the neighbours of a board that is not the goal: at least one, exactly its children toward NeighborDirs, each fresh, valid over the same labels, one link deeper, with no moves recorded |
| Solvers.ChildrenMade | src/Board.java:58-101 | every neighbour is a valid board of the same size over the same labels, one link deeper |
| Parity.InversionsArePairs | src/Board.java:196-205 | the count isSolvable makes is the number of inverted tile pairs |
| Parity.AdjacentSwap | src/Board.java:196-205 | exchanging two neighbouring labels changes the count by their own pair only |
| Parity.MoveAcross | src/Board.java:196-205 | the blank passes tiles without changing the count; a tile passing m tiles changes its parity by m |
| Parity.BlankExchange | src/Board.java:196-205 | exchanging the blank and a tile m entries apart changes the parity of the count by m |
| Parity.SeqExchange | src/Board.java:196-205 | the same, for the blank and a tile at any two entries of proper labels |
| Parity.FlattenIndex | src/Board.java:194 | cell (r, c) is entry c + r*w of the row-major list |
| Parity.ExchangeKeepsProper | src/Board.java:259-260 | moving the blank keeps the labels distinct with one blank |
| Parity.FlattenAfterSwap | src/Board.java:259-260 | exchanging two cells exchanges the two matching entries of the row-major list |
| Parity.SwapKeepsParity | src/Board.java:254-260 | inversion count plus a row term that moves by the gap keeps its parity |
| Parity.StepKeepsParity | src/Board.java:254-266 | every move keeps the invariant: inversions plus (n-1) per row of the blank, modulo 2 |
| Parity.NudgeKeepsParity | src/Board.java:188-189 | each guarded swap of the walk keeps the invariant |
| Parity.WalkKeepsParity | src/Board.java:184-190 | the walk to the corner keeps the invariant |
| Parity.FixedVerdictIsTheTest | src/Board.java:192-207 | the corrected verdict is an even inversion count of the walked board |
| Parity.FixedVerdictByParity | src/Board.java:180-208 | the corrected verdict is decided by the invariant alone |
| Parity.VerdictFromParity | src/Board.java:180-208 | boards with equal invariants get the same corrected verdict |
| Parity.FixedVerdictKeptByMoves | src/Board.java:180-208 | a move never changes the corrected verdict |
| Parity.GoalLabels | src/Board.java:113-119 | the goal's row-major labels are 1 .. n*n-1 then the blank |
| Parity.GoalLabelsProper | src/Board.java:113-119 | the goal's labels are distinct with the blank last |
| Parity.GoalHasNoInversion | src/Board.java:196-207 | the goal has no inversion |
| Parity.FixedVerdictOnGoal | src/Board.java:180-208 | the corrected test accepts the goal |
| Parity.PlayStepKeepsParity | src/Board.java:58-101 | trying one direction keeps the labels proper and the invariant |
| Parity.PlayKeepsParity | src/Board.java:58-101 | any sequence of moves keeps the labels proper and the invariant |
| Parity.PlayKeepsVerdict | src/Board.java:180-208 | any sequence of moves keeps the corrected verdict |
| Parity.ReachableBoardsAccepted | src/Board.java:180-208 | every board reachable from the goal is accepted by the corrected test |
| Parity.AsWrittenRejectsOneMoveBoard | src/Board.java:192-207 | a 2-by-2 board one move from the goal has an odd count of its own labels, so isSolvable as written rejects it; the corrected test accepts it |
| Slide.Count | slide.py:41-44 | a one-letter direction counts a letter at most once |
| Slide.AdjustIndex | slide.py:37-46 | the position moves along one axis only, and a letter other than n, e, s, w leaves it where it was |
| Slide.AdjustIndexSteps | slide.py:37-46 | each of n, e, s, w moves one cell, as the Java step toward the same letter |
| Slide.AdjustIndexRoundTrip | slide.py:37-46 | a direction followed by its opposite (the origin the Java child records) returns to the start |
| Slide.CopyArray | slide.py:27 | a fresh array with the same shape and labels |
| Slide.MoveIntoBlank | slide.py:28-29 | with the blank at its cell, the two writes exchange the blank and the neighbour |
| Slide.FirstFrom | slide.py:18-19 | a cell holding v at or after the start, in row-major order |
| Slide.FirstFromIsFirst | slide.py:18-19 | no earlier cell from the start holds v |
| Slide.BlankIndex | slide.py:18-19 | a cell holding the blank |
| Slide.KeptMembers | slide.py:24-26 | the directions kept so far are exactly the in-bounds ones among those tried, each once |
| Slide.ChildDirectionsMembers | slide.py:24-34 | children() takes every in-bounds direction, no other and none twice |
| Slide.ChildGrid | slide.py:27-29 | a child's grid has the parent's labels |
| Slide.Board.constructor | slide.py:6-11 | the board holds the grid, an empty path and the heuristic |
| Slide.Board.Child | slide.py:26-33 | a fresh board whose grid has the blank stepped toward d and whose path is this path plus d |
| Slide.Board.AllChildrenGrow | slide.py:31-33 | appending the child toward d extends the children by d |
| Slide.Board.Offer | slide.py:24-33 | one pass of the loop: the child toward the i-th direction joins the list exactly when its step stays on the grid |
| Slide.Board.Children | slide.py:17-35 | one fresh child per in-bounds direction, in the order n, e, s, w |
| Slide.Board.Manhattan | slide.py:61-75 | the summed distances from each cell to where this grid holds the template's label there |
| Slide.Board.CellDistanceZero | slide.py:67-73 | a cell adds nothing exactly when the two grids agree there |
| Slide.Board.ManhattanZeroIffSame | slide.py:61-75 | the distance is zero exactly when the template holds this grid |
| Slide.Board.ManhattanToSelf | slide.py:61-75 | a board compared with itself is at distance zero |
| Slide.ChildGridsDiffer | slide.py:26-29 | with a single blank, the child grids toward two different directions differ |
| Slide.TwoChildrenDiffer | slide.py:26-33 | over a single blank, children toward two different directions hold different grids |
| Slide.ChildrenDiffer | slide.py:17-35 | over a single blank, the boards children() returns hold pairwise different grids |
| Slide.ArrayEqual | slide.py:99-100 | equal exactly for the same shape and the same labels |
| Slide.Board.Equals | slide.py:99-100 | `__eq__` holds exactly for boards of one shape holding the same labels, and then their hashes agree |
| Slide.EqualBoardsHashEqual | slide.py:99-114 | boards that compare equal hash alike: the one promise `__hash__` (Slide.Board.Hash) makes |
| Slide.LessIsStrictOrder | slide.py:110-111 | `__lt__` (Slide.Board.Less) is irreflexive, asymmetric and transitive |
| Slide.GoalBoard | slide.py:48-59 | the array holds the goal grid of the given shape |
| Slide.Solver.constructor | slide.py:118-120 | the goal holds the goal grid of the start board's shape |
| Slide.Solver.IsGoal | slide.py:125-126 | `is_goal` holds exactly for a board of the goal array's shape holding its labels |
| Slide.Solver.IsGoalIffGoalGrid | slide.py:125-126 | the goal test holds exactly for a board of the start's shape holding the goal grid |
| Links.FirstFromUnique | slide.py:69-70 | in a grid with distinct labels, the first cell holding a cell's label is that cell |
| Links.Target | slide.py:67-73 | the cell a cell is measured against: the cell's distance is the taxicab distance to it |
| Links.RowLinksLength | slide.py:66-73 | a row's distance is the total span of its cells' links |
| Links.GridLinksLength | slide.py:61-75 | manhattan's distance is the total span of the links of all cells |
| Links.GridLinksMembers | slide.py:61-75 | the links are exactly one per cell, none twice |
| Links.LinksTurnAround | slide.py:61-75 | when the template holds each label once, each link one way, turned around, is a link the other way |
| Links.ManhattanSymmetric | slide.py:61-75 | for two grids of one shape holding the same labels, each once, the distance one way equals the distance back |

## Left out

- `Solver.printPath` (src/Solver.java:35-45) and `Point.toString`: console output only.
- java_src/Checker.java is not part of this model.
- `Board.dimension`, `getPrevious`, `hasPrevious`, `getBlank` and `moves`, `Solver.moves` (Solvers.Solver.Moves, src/Solver.java:47-49), and `Point.getX`/`getY`: plain field reads. They are modelled as functions with no contract. What `Solver.moves` returns is stated by Solvers.Solver.constructor.
- Boards.Board.Equals: `equals(Object)` accepts any object. The model compares two boards only.
- Boards.Board.Neighbors: like the other board operations after construction, it requires a valid board, one whose grid has exactly one 0. The constructor covers the other cases: no 0 leaves the blank null, and several 0s pick the one the scan finds. Later calls on such a board are outside the model.
- Moves and priorities are unbounded integers. Java's 32-bit overflow of `moves` and of `getPriority` is not modelled. The string hash does wrap to 32 bits.
- Solvers.Solver.SolveHe: the search runs at most `fuel` rounds. Java's loop has no bound, so the model does not state whether the search ends. Instead it proves that the queue never runs dry, so Java's `poll` never returns null there.
- Solvers.Solver.Poll: `PriorityQueue` breaks ties among equal priorities by its heap layout. The model takes the first board of least priority, so the order among ties is not captured.
- Solvers.Solver.constructor: it runs the corrected solvability test (see Findings). The test as written is modelled by Boards.Board.IsSolvable.
- Slide.Board.constructor: `Board.__init__` calls `forward_manhattan()` without its `goal` argument, which raises TypeError. The model takes the heuristic as a parameter instead, and children get 0.
- Slide.GridHash: a stand-in for Python's `hash(str(board))`. Only the fact that it depends on the grid alone is used.
- Slide.Board.Hash: Python salts string hashes per process, so no value of `__hash__` is modelled. It has no contract of its own; its one promise, agreement with `__eq__`, is stated by Slide.Board.Equals and Slide.EqualBoardsHashEqual.
- Slide.Board.Less: it has no contract of its own beyond its body, a comparison of the two heuristics. Its ordering properties are Slide.LessIsStrictOrder.
- Slide.Board.Manhattan: it requires every template label to occur in this grid. slide.py raises IndexError otherwise.
- Slide.Board.Manhattan: it requires the template to have this grid's shape. slide.py only reads the template at this grid's cells, so it also accepts a larger template, and it raises IndexError for a smaller one.
- Slide.GoalBoard: it requires a height and a width of at least 1. For an empty shape slide.py:58 writes cell (-1, -1) of an empty array and raises IndexError.
- Links.ManhattanSymmetric: symmetry is proved only when both grids hold each label once. slide.py promises nothing for repeated labels, where `np.where` picks the first match.
- Slide.Board.Children: it requires a blank on the board. slide.py raises IndexError otherwise.
- Python labels are numpy strings; here they are integers. For labels that `from_file` reads as plain decimal text and `children` copies, `str` and `int` conversions of labels are the identity.
- Slide.GoalBoard: `goal_board` builds its array with `np.full(..., dtype=str, fill_value='0')` (slide.py:51), a one-character string array, so `str(c + r * width + 1)` (slide.py:55) keeps only its first digit. When height times width exceeds 10, every cell meant for a label of 10 or more holds only its first digit: '1' for 10 to 19, '2' for 20 to 29, and so on. The goal then holds '1' at least twice. Slide.GoalBoard, and so Slide.Solver.IsGoal, use the intended labels 10, 11, and so on. Against the Python goal, `is_goal` is false for every board whose labels are distinct, such as the solved 4-by-4 board, whose cell holds '10' where the goal holds '1'.
- `Board.from_file`, `__str__`, `__cmp__`, `forward_manhattan`/`backward_manhattan`, `Solver.down`/`up` and `main` in slide.py: file input, text output, a comparison Python 3 never calls, and the threaded bidirectional search over queues. None is part of the modelled core.

## Findings

| source | as written | input that shows it | evidently intended | confidence | as-written member | corrected member |
|---|---|---|---|---|---|---|
| src/Board.java:194 | `isSolvable` walks the blank of the copy `temp` to the bottom-right corner, then counts inversions on `this.board`, whose blank has not moved | the 2-by-2 board 1 0 / 3 2: one move south reaches the goal, but its labels 1, 0, 3, 2 have one inversion, so it is rejected and `Solver` never searches | count the inversions of `temp`, whose blank sits in the corner; with the blank there the parity is the same for every board reachable from the goal | high; not executed | Parity.AsWrittenRejectsOneMoveBoard | Parity.ReachableBoardsAccepted |
