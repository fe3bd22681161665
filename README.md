# Light Up greedy move selector, modelled in Dafny

This project models the move selector of a Light Up (Akari) game. The board is a
square grid of integer-coded cells: `-1` is a black wall, `0..4` a numbered wall,
and every other value an empty cell. Beside the grid the board keeps three
boolean layers that the solver writes in place: `bulbs`, `lit` and `blocked`.

The solver picks one move per call:

1. **Forced step.** Cells are scanned in row-major order. At the first numbered
   cell whose missing bulbs (`value − placed`) are positive and equal to its free
   neighbours, it returns that cell's first free empty neighbour (up, down, left,
   right).
2. **Greedy step.** Otherwise, the 4-connected rooms of empty cells (found once, by
   a flood fill, when the solver is built) are scored by their unlit cells. Rooms
   with a positive score are sorted by a descending, stable insertion sort. In
   each room in turn, the candidate cells are collected: not blocked, no bulb, and
   within the numbers of their numbered neighbours. Each is scored by the cells it
   sees, and they are sorted by a descending, stable merge sort. The first
   candidate that newly lights the most cells is returned.

After a bulb is placed, light propagation marks the bulb's cell and every cell on
its four rays, up to the first wall or the edge, as lit and blocked.

Modules follow the source files:

- `Board` (`board.dfy`): the cell encoding, points and directions, and the
  `GameBoard` class with its flag setters and neighbour lists.
- `Constraints` (`constraint_graph.dfy`): numbered neighbours, and the bulbs and
  free cells next to a cell.
- `Visibility` (`visibility_graph.dfy`): ray lengths, visible-cell counts and the
  flood fill into rooms.
- `ScoreSort` (`score_sort.dfy`): the score records, and the insertion sort and
  merge sort over them.
- `Solver` (`algorithm_solver.dfy`): the placement test, newly-lit count,
  completion check, forced and greedy steps, light propagation, and the
  `AlgorithmSolver` class.

Read-only queries are functions over the board, or methods that change nothing.
The setters, light propagation and the in-place sorts are methods with `modifies`
clauses. `Point`, `NodeScore` and `ComponentScore` are datatypes (`NodeScore` and
`ComponentScore` are `Scored<Point>` and `Scored<Room>`).

Behaviour of the code worth knowing, which the model keeps:

- The placement test checks only numbered neighbours, not whether another bulb
  sees the cell. The greedy step excludes seen cells through the `blocked` flag
  instead.
- The completion check does not check whether two bulbs see each other.
- The forced step returns one cell, the first free neighbour, rather than
  placing every forced bulb.

## Model

| member | source | states |
|---|---|---|
| Board.CellTypeOf | src/lightUpGame/GameBoard.java:26-30 | BLACK iff the value is -1, NUMBERED iff it is in 0..4, EMPTY iff it is below -1 or above 4 |
| Board.GameBoard.constructor | src/lightUpGame/GameBoard.java:12-18 | size is the number of puzzle rows; the three flag layers are fresh size×size arrays with every entry false |
| Board.GameBoard.PlaceBulb | src/lightUpGame/GameBoard.java:48-50 | sets the bulb flag of the one cell; every other bulb flag is unchanged, and only the bulb layer may change |
| Board.GameBoard.SetLit | src/lightUpGame/GameBoard.java:52-54 | sets the lit flag of the one cell to the value; every other lit flag is unchanged |
| Board.GameBoard.SetBlocked | src/lightUpGame/GameBoard.java:56-58 | sets the blocked flag of the one cell to the value; every other blocked flag is unchanged |
| Board.GameBoard.NeighboursOfKind | src/lightUpGame/GameBoard.java:60-72 | at most 4 cells; a point is listed iff it is on the board, of the given kind and at Manhattan distance 1; listed in up, down, left, right order |
| Board.GameBoard.AdjacentEmptyCells | src/lightUpGame/GameBoard.java:60-72 | at most 4 distinct cells, exactly the in-bounds EMPTY cells at distance 1, in up, down, left, right order |
| Constraints.GetNumberedNeighbors | src/lightUpGame/ConstraintGraph.java:12-24 | exactly the in-bounds NUMBERED orthogonal neighbours, at most 4 |
| Constraints.CountBulbs | src/lightUpGame/ConstraintGraph.java:29-33 | the count is the number of listed cells that hold a bulb |
| Constraints.CountFree | src/lightUpGame/ConstraintGraph.java:40-44 | the count is the number of listed cells that are neither blocked nor hold a bulb |
| Constraints.CountPlacedBulbs | src/lightUpGame/ConstraintGraph.java:26-35 | the number of adjacent EMPTY cells holding a bulb, at most 4 |
| Constraints.CountFreeAdjacent | src/lightUpGame/ConstraintGraph.java:37-46 | the number of adjacent EMPTY cells that are neither blocked nor hold a bulb, at most 4 |
| Constraints.BulbsAndFreeAtMostLength | src/lightUpGame/ConstraintGraph.java:26-46 | over distinct cells, the bulbs plus the free cells never exceed the number of cells |
| Constraints.PlacedPlusFreeAtMostAdjacent | src/lightUpGame/ConstraintGraph.java:26-46 | placed bulbs plus free cells around a cell are at most its EMPTY neighbours, since a bulb cell is never free |
| Visibility.RunLength | src/lightUpGame/VisibilityGraph.java:72-76 | a positive run starts on an EMPTY cell, and a run never leaves the board |
| Visibility.RunLengthIsMaximalRun | src/lightUpGame/VisibilityGraph.java:72-76 | every cell of the run is EMPTY and the cell just past it is a wall or off the board |
| Visibility.CountVisibleCells | src/lightUpGame/VisibilityGraph.java:65-79 | the sum of the four ray runs, at most 2·(size−1) for a cell on the board |
| Visibility.VisibleCellsCount | src/lightUpGame/VisibilityGraph.java:65-79 | the count is the number of distinct cells seen along the four rays, and the cell itself is not among them |
| Visibility.VisibleCellsAreEmpty | src/lightUpGame/VisibilityGraph.java:72 | every cell seen from a cell is an EMPTY cell on the board |
| Visibility.CountOutgoingEdges | src/lightUpGame/VisibilityGraph.java:61-63 | equals the visible-cell count for every cell |
| Visibility.VisitNeighbour | src/lightUpGame/VisibilityGraph.java:50-56 | an unvisited EMPTY neighbour is marked, added to the component and queued; otherwise nothing changes |
| Visibility.ExpandCell | src/lightUpGame/VisibilityGraph.java:45-57 | after the four directions, every EMPTY neighbour of the expanded cell is marked, and the component only grows: every cell it held is still in it |
| Visibility.BfsComponent | src/lightUpGame/VisibilityGraph.java:30-59 | the component holds the start, is new, holds only EMPTY cells reachable from the start, and holds every EMPTY neighbour of its cells; `visited` marks exactly the old and new cells |
| Visibility.ScanCell | src/lightUpGame/VisibilityGraph.java:19-23 | an EMPTY unvisited cell appends exactly one room, started at that cell; any other cell leaves the rooms, starts and marks as they were; after the cell, every EMPTY cell up to it in row-major order is marked |
| Visibility.MarkedNext | src/lightUpGame/VisibilityGraph.java:17-23 | once the current cell is marked when EMPTY, every EMPTY cell up to and including it in row-major order is marked |
| Visibility.NumberedStep | src/lightUpGame/VisibilityGraph.java:15-22 | a room started at the current cell comes after every earlier start, and none of its cells precedes it, so the rooms stay numbered in row-major order of their first cells |
| Visibility.AddRoom | src/lightUpGame/VisibilityGraph.java:20-22 | the room list grows by exactly the newly marked cells, as the last room, with the cell as its start; the start is marked |
| Visibility.AddComponent | src/lightUpGame/VisibilityGraph.java:20-22 | appending a flooded room keeps the rooms pairwise disjoint, closed, and owning every marked cell |
| Visibility.FindConnectedComponents | src/lightUpGame/VisibilityGraph.java:12-28 | the rooms, ids 0..n-1, partition the EMPTY cells: each EMPTY cell in exactly one, no other cell in any, each reachable from its room's start, each room closed under adjacency; room k's start is its row-major-first cell and the starts increase with the id |
| Visibility.ScannedIsPartition | src/lightUpGame/VisibilityGraph.java:12-28 | once every EMPTY cell is marked, the rooms found are a partition of the EMPTY cells |
| Visibility.AdjacentSameComponent | src/lightUpGame/VisibilityGraph.java:45-56 | two orthogonally adjacent EMPTY cells lie in the same room |
| ScoreSort.StableIsPermutation | src/lightUpGame/AlgorithmSolver.java:221-260 | a reordering that keeps every score's records in order is a permutation |
| ScoreSort.StableSortUnique | src/lightUpGame/AlgorithmSolver.java:221-260 | two sorted, stable reorderings of the same list are equal, so both sorts compute the one stable descending order |
| ScoreSort.StableKeepsIdOrder | src/lightUpGame/AlgorithmSolver.java:105-125 | sorting room records listed in id order stably leaves equal scores in id order |
| ScoreSort.InsertionSort | src/lightUpGame/AlgorithmSolver.java:221-231 | the array ends sorted non-increasing by score and a stable permutation of its input |
| ScoreSort.InsertNext | src/lightUpGame/AlgorithmSolver.java:223-229 | one outer pass: the prefix grows by one, still sorted, stable, and the rest unchanged |
| ScoreSort.ShiftSmaller | src/lightUpGame/AlgorithmSolver.java:224-228 | the strict `<` shifts right exactly the trailing records scoring below the key and stops at one scoring at least as much |
| ScoreSort.InsertStep | src/lightUpGame/AlgorithmSolver.java:225-229 | writing the key after the records scoring at least as much keeps the prefix sorted and is a stable insertion |
| ScoreSort.SortScores | src/lightUpGame/AlgorithmSolver.java:125 | the room list is returned sorted and stably permuted |
| ScoreSort.MergeSort | src/lightUpGame/AlgorithmSolver.java:233-240 | the inclusive range ends sorted non-increasing and a stable permutation; outside it nothing changes |
| ScoreSort.SplitStable | src/lightUpGame/AlgorithmSolver.java:236-238 | sorting the two halves in turn and then merging them stably reorders the whole range stably |
| ScoreSort.Merge | src/lightUpGame/AlgorithmSolver.java:242-260 | two sorted adjacent runs become one sorted run, a stable permutation of the two; outside the range nothing changes |
| ScoreSort.MergeRuns | src/lightUpGame/AlgorithmSolver.java:243-255 | the temporary list is sorted and holds, per score, the left run's records before the right run's |
| ScoreSort.MergeHeads | src/lightUpGame/AlgorithmSolver.java:246-252 | the main loop stops when one run is used up, with the merge invariant kept |
| ScoreSort.TakeLeft | src/lightUpGame/AlgorithmSolver.java:247-248 | on `>=` the left head is taken, so equal scores keep the left run first |
| ScoreSort.TakeRight | src/lightUpGame/AlgorithmSolver.java:249-250 | the right head is taken only when it scores strictly more |
| ScoreSort.DrainLeft | src/lightUpGame/AlgorithmSolver.java:254 | the rest of the left run is appended, keeping the merge invariant |
| ScoreSort.DrainRight | src/lightUpGame/AlgorithmSolver.java:255 | the rest of the right run is appended, completing the merge |
| ScoreSort.SortNodes | src/lightUpGame/AlgorithmSolver.java:148 | the candidate list is returned sorted and stably permuted |
| Solver.RoomForOneMore | src/lightUpGame/AlgorithmSolver.java:23-31 | true iff every listed numbered cell has `placed + 1 ≤ value` |
| Solver.IsValidBulbPlacement | src/lightUpGame/AlgorithmSolver.java:19-33 | true iff every numbered neighbour has `placed + 1 ≤ value` |
| Solver.UnlitRun | src/lightUpGame/AlgorithmSolver.java:186-192 | the unlit cells of a ray never exceed its length |
| Solver.CountUnlitRun | src/lightUpGame/AlgorithmSolver.java:184-192 | the ray walk counts the unlit cells of the EMPTY run |
| Solver.UnlitRunCounts | src/lightUpGame/AlgorithmSolver.java:183-193 | a ray's count is the number of unlit cells among the cells seen in that direction |
| Solver.UnlitVisibleCount | src/lightUpGame/AlgorithmSolver.java:183-193 | the four ray counts add up to the number of unlit cells seen |
| Solver.NewlyLitCount | src/lightUpGame/AlgorithmSolver.java:176-195 | the newly-lit count is the number of unlit cells among the cell and the cells it sees |
| Solver.CalculateNewlyLit | src/lightUpGame/AlgorithmSolver.java:176-195 | returns the newly-lit count, at most 1 + the visible-cell count |
| Solver.NewlyLitAtMostVisible | src/lightUpGame/AlgorithmSolver.java:176-195 | a bulb newly lights at most its own cell plus the cells it sees |
| Solver.IsGameComplete | src/lightUpGame/AlgorithmSolver.java:198-217 | true iff every EMPTY cell is lit and every NUMBERED cell has exactly its value of adjacent bulbs |
| Solver.ForcingHasFree | src/lightUpGame/AlgorithmSolver.java:87-95 | a numbered cell meeting the forced rule has a free EMPTY neighbour |
| Solver.FirstFree | src/lightUpGame/AlgorithmSolver.java:90-95 | none iff no listed cell is free; otherwise a listed free cell |
| Solver.FirstFreeIsFirst | src/lightUpGame/AlgorithmSolver.java:90-95 | every cell listed before the one returned is not free |
| Solver.FirstFreeNeighbour | src/lightUpGame/AlgorithmSolver.java:90-95 | the loop returns the first free cell of the list |
| Solver.ForcedAt | src/lightUpGame/AlgorithmSolver.java:80-96 | a move iff the cell is numbered with `value − placed > 0` and `value − placed == free`; the move is its first free neighbour |
| Solver.ForcedInRow | src/lightUpGame/AlgorithmSolver.java:79-98 | a move is the forced move of the first forcing cell; none means no forcing cell up to the row's end |
| Solver.ForcedMove | src/lightUpGame/AlgorithmSolver.java:78-99 | none iff no numbered cell forces; otherwise the first free neighbour of the first forcing cell in row-major order |
| Solver.LitCount | src/lightUpGame/AlgorithmSolver.java:107-112 | lit count plus unlit count is the room size |
| Solver.ScoreComponents | src/lightUpGame/AlgorithmSolver.java:105-121 | in id order, one record per room with unlit cells, scored by its unlit cells, and no other record |
| Solver.RankComponents | src/lightUpGame/AlgorithmSolver.java:103-125 | the records of the rooms with unlit cells, most unlit first, equal scores in id order |
| Solver.ScoreIfCandidate | src/lightUpGame/AlgorithmSolver.java:135-141 | a record iff the cell is free and a valid placement; its score is the cell's edge count |
| Solver.CandidateNodesMembers | src/lightUpGame/AlgorithmSolver.java:133-143 | the records are exactly the room's candidates, each scored by its edge count |
| Solver.Candidates | src/lightUpGame/AlgorithmSolver.java:131-143 | visits every cell of the room once, in some order, collecting the candidate records in that order |
| Solver.ReorderedCandidates | src/lightUpGame/AlgorithmSolver.java:148 | a permutation of the candidate records still lists exactly the room's candidates, each once, scored by its edge count |
| Solver.CandidateNodesDistinct | src/lightUpGame/AlgorithmSolver.java:133-143 | visiting distinct cells yields records for distinct cells |
| ScoreSort.PermutationKeepsDistinct | src/lightUpGame/AlgorithmSolver.java:148 | a permutation of a list without repeats has no repeats |
| Solver.RankedCandidates | src/lightUpGame/AlgorithmSolver.java:131-148 | the room's candidate records sorted by descending score, each score the cell's edge count, each a candidate of the room, every candidate listed exactly once |
| Solver.PickMostNewlyLit | src/lightUpGame/AlgorithmSolver.java:157-166 | the index of the first record with the largest newly-lit count; -1 iff the list is empty |
| Solver.BestInComponent | src/lightUpGame/AlgorithmSolver.java:131-170 | none iff the room has no candidate; otherwise a candidate with maximal newly-lit count, and among those one with the most outgoing edges, the earliest such in sorted order |
| Solver.FirstMostIsBest | src/lightUpGame/AlgorithmSolver.java:148-166 | in the list sorted by edge count, the first record with the most newly-lit cells lights the most, and no candidate lighting as many has more edges |
| Solver.RankedBefore | src/lightUpGame/AlgorithmSolver.java:125-128 | a room that ranks before another sits earlier in the sorted records |
| Solver.RankedGreedy | src/lightUpGame/AlgorithmSolver.java:128-170 | the best candidate (most newly lit, ties to most edges) of the first room with a candidate is the greedy choice |
| Solver.RankedExhausted | src/lightUpGame/AlgorithmSolver.java:128-173 | when no ranked room has a candidate, no room with unlit cells has one |
| Solver.TryRankedRoom | src/lightUpGame/AlgorithmSolver.java:128-170 | one room's round returns the greedy choice (most newly lit, ties to most edges) or shows the room has no candidate |
| Solver.GreedyMove | src/lightUpGame/AlgorithmSolver.java:101-173 | a move is the greedy choice: in the first ranked room with a candidate, a candidate lighting the most new cells and, among those, having the most outgoing edges; none means no room with unlit cells has a candidate, so none when every room's score is 0 |
| Solver.LightRay | src/lightUpGame/AlgorithmSolver.java:52-67 | exactly the cells of one ray get lit and blocked; flags already set stay set |
| Solver.MarkLitAndBlocked | src/lightUpGame/AlgorithmSolver.java:57-63 | one cell gets lit and blocked; no other flag changes |
| Solver.FirstRaysAreVisible | src/lightUpGame/AlgorithmSolver.java:51-68 | the four rays together are the cells seen from the start |
| Solver.AlgorithmSolver.constructor | src/lightUpGame/AlgorithmSolver.java:11-17 | the rooms are computed once, as the partition of the EMPTY cells into 4-connected rooms, room k starting at its row-major-first cell and the starts increasing with the id |
| Solver.AlgorithmSolver.ModifiedBFS | src/lightUpGame/AlgorithmSolver.java:43-69 | the start cell and every cell it sees become lit and blocked; no other flag changes; bulbs are untouched |
| Solver.AlgorithmSolver.ModifiedBFSTwice | src/lightUpGame/AlgorithmSolver.java:43-69 | propagating twice from a cell leaves the same flags as propagating once |
| Solver.AlgorithmSolver.UpdateAfterBulbPlacement | src/lightUpGame/AlgorithmSolver.java:35-41 | the same flag update as light propagation from the placed bulb |
| Solver.AlgorithmSolver.FindOptimalBulbPlacement | src/lightUpGame/AlgorithmSolver.java:72-174 | the forced move when some numbered cell forces; otherwise the greedy choice (most newly lit, ties to most outgoing edges), or none when no room with unlit cells has a candidate |

## Left out

- src/lightUpGame/PuzzleDatabase.java: the static puzzle table, random selection and console output are not part of this model.
- src/lightUpGame/ComponentScore.java is a plain record; it is the `Scored<Room>` datatype here. `Point` and `NodeScore` are not shown in the source and are datatypes here.
- The trivial getters (`getSize`, `getNumberValue`, `hasBulb`, `isLit`, `isBlocked`) and `isValidCell` are one-line functions and predicates without contracts of their own; they appear in the contracts of the members above.
- `ConstraintGraph.updateConstraints` has an empty body and is left out.
- Iteration order of `HashSet<Point>`: the cells of a room are visited in an arbitrary order (`:|` choice). The model proves the two tie-breaks the code makes (most newly lit, then most outgoing edges); candidates equal on both are picked in that arbitrary order.
- Iteration order of `HashMap<Integer, …>`: rooms are a sequence indexed by id and scanned in id order, which is how the map iterates over small integer keys.
- Java's 32-bit `int` is not modelled: every count is bounded by the number of board cells.
- Non-square grids: the board constructor requires every row to have as many cells as there are rows.
- The divide-and-conquer solver variant (`LightUp_D&C/`) and the game panel are not part of this model.
- `Solver.AlgorithmSolver.ModifiedBFSTwice` is not a source operation: it states the idempotence of light propagation by running it twice.
