# Treasure hunt engine in Dafny

This project models the engine of a single-player treasure hunt on a 20×20 board. The engine is `GameModel` together with the `Cell` enum. The player starts in the centre of a board that hides obstacles and three treasures. The player sees only a fogged view of it. Each move costs a point and bumping into an obstacle costs ten. A hint costs three points, charged once between two moves. It runs a breadth-first search or an A\* search towards every remaining treasure and marks the first step towards the nearest one.

Modules, one per part of the engine:

- `Cells` (`cells.dfy`): the cell kinds and their integer codes.
- `Grids` (`grids.dfy`): points, directions, the board as rows of cells, neighbours and the Manhattan distance.
- `Walks` (`walks.dfy`): a ghost specification of walks, reachability and shortest walks under the two walking rules. Breadth-first search walks on EMPTY or TREASURE cells. `isReachable` and A\* walk on any cell that is not an OBSTACLE.
- `Options` (`options.dfy`): the absent-or-present result type. It stands for a Java `null`.
- `Search` (`search.dfy`): the shared breadth-first search used by `isReachable` and `findShortestPath`, the A\* search, `reconstructPath`, and the agreement of the two searches.
- `GameModel` (`game.dfy`): the game state, its invariant, `movePlayer`, `clearPathHints` and the end of the game.
- `Hints` (`hints.dfy`): `showHintBFS` and `showHintAStar`.
- `Generation` (`generation.dfy`): `resetGame`, `generateMap` and `placeTreasures`. Random draws are given as sequences of cells.

The searches are proved to return shortest walks, to return nothing exactly when the goal is unreachable, and to agree with each other on every board where the player's own cell is the only one the two walking rules treat differently. Every move and every hint is proved to keep a valid game valid. That means one PLAYER cell, the listed treasures being exactly the TREASURE cells and all reachable, a view that shows no treasure and only real obstacles, and found plus remaining treasures being three.

Three behaviours of the code that a reader might not expect, and which the model keeps:

- The code draws between 10 and 100 cells for obstacles and skips any draw that is already taken or is the player's cell. So a board can end up with fewer than 10 obstacles, and `Generation.RepeatedDrawsPlaceOne` shows a board with a single obstacle.
- Leaving a cell writes EMPTY into both boards. A collected treasure therefore does not stay visible once the player moves on.
- `resetGame` does not clear the list of hint cells. The model keeps that list across a reset.

## Model

| member | source | states |
|---|---|---|
| Cells.ToInt | CW1_TreasureHunt/src/main/java/model/Cell.java:7-19 | the code of a kind is its position in the declaration: EMPTY 0 up to PATH_HINT 4 |
| Cells.FromInt | CW1_TreasureHunt/src/main/java/model/Cell.java:25-27 | decoding a code in [0,5) gives the kind whose code it is; other codes are excluded, as the array index would fail |
| Cells.FromIntOfToInt | CW1_TreasureHunt/src/main/java/model/Cell.java:17-27 | decoding the code of a kind gives the kind back |
| Cells.ToIntInjective | CW1_TreasureHunt/src/main/java/model/Cell.java:17-19 | distinct kinds have distinct codes |
| Grids.AllCells | CW1_TreasureHunt/src/main/java/model/GameModel.java:135-137 | the board's cells are exactly the positions `isValidPosition` (Grids.IsValidPosition) accepts |
| Grids.Step | CW1_TreasureHunt/src/main/java/model/GameModel.java:185-199 | a move in any direction goes to a cell adjacent to the old one |
| Grids.NeighboursAreAdjacent | CW1_TreasureHunt/src/main/java/model/GameModel.java:35 | the four search directions reach exactly the adjacent cells |
| Grids.ManhattanConsistent | CW1_TreasureHunt/src/main/java/model/GameModel.java:409-411 | the Manhattan heuristic (Grids.Manhattan) drops by at most one per step, so it is consistent for unit costs |
| Walks.StripStart | CW1_TreasureHunt/src/main/java/model/GameModel.java:392-393 | a walk over non-obstacles that avoids the start's special cell after leaving it is a walk over EMPTY or TREASURE cells, no longer than before |
| Walks.ReachableRulesAgree | CW1_TreasureHunt/src/main/java/model/GameModel.java:468-470 | when only the start cell is neither EMPTY, TREASURE nor OBSTACLE, both walking rules reach the same cells |
| Walks.WithinRulesAgree | CW1_TreasureHunt/src/main/java/model/GameModel.java:468-470 | under the same condition, both rules reach a cell within the same number of steps |
| Walks.ShortestRulesAgree | CW1_TreasureHunt/src/main/java/model/GameModel.java:392-393 | under the same condition, shortest walks under the two rules have the same length |
| Walks.ReachableSameObstacles | CW1_TreasureHunt/src/main/java/model/GameModel.java:126-128 | changing cells other than obstacles keeps every non-obstacle walk a walk |
| Walks.ManhattanAlongWalk | CW1_TreasureHunt/src/main/java/model/GameModel.java:409-411 | along a walk, the distance still to go bounds the Manhattan distance to any goal |
| Search.ReconstructPath | CW1_TreasureHunt/src/main/java/model/GameModel.java:516-527 | following the parent links from the end back to the start and reversing gives a walk from the start to the end, no longer than the end's recorded cost, through cells whose recorded costs are positive and rise strictly along it |
| Search.PathCellsCounted | CW1_TreasureHunt/src/main/java/model/GameModel.java:516-527 | a reconstructed path and the start are that many distinct cells with a recorded cost, so the path is shorter than the count of such cells |
| Search.ParentWalk | CW1_TreasureHunt/src/main/java/model/GameModel.java:516-527 | the parent links of any recorded cell lead back to the start along legal steps |
| Search.EnqueueNeighbours | CW1_TreasureHunt/src/main/java/model/GameModel.java:388-400 | every walkable, unvisited neighbour is queued at the next level, with the current cell as its parent, and counted. No cell is queued twice, and the queue grows by exactly the number of newly visited cells |
| Search.EnqueueOne | CW1_TreasureHunt/src/main/java/model/GameModel.java:388-398 | handling one neighbour keeps those facts, and a neighbour on the board that is walkable ends up visited |
| Search.ExpandHead | CW1_TreasureHunt/src/main/java/model/GameModel.java:378-400 | one dequeue-and-expand keeps the breadth-first invariant, makes progress, and keeps the counter equal to the cells visited |
| Search.BfsGoalIsNearest | CW1_TreasureHunt/src/main/java/model/GameModel.java:381-385 | when the goal is dequeued, the reconstructed path is a shortest walk to it |
| Search.QueuedAtHeadLevel | CW1_TreasureHunt/src/main/java/model/GameModel.java:378-400 | every cell still waiting in the queue is at least as far from the start as the queue's head |
| Search.BfsFoundCovers | CW1_TreasureHunt/src/main/java/model/GameModel.java:381-385 | when the goal is dequeued, every cell within the goal's distance of the start has already been queued |
| Search.BfsExhausted | CW1_TreasureHunt/src/main/java/model/GameModel.java:403 | when the queue runs dry, the visited cells are exactly the reachable ones and the goal is not among them |
| Search.Bfs | CW1_TreasureHunt/src/main/java/model/GameModel.java:366-404 | breadth-first search returns a path exactly when the goal is reachable, that path is shortest, and the counter is at least 1, at most the reachable cells, and equal to them when no path exists. With a path, the counter is at least the number of cells within the path's length of the start |
| Search.FindShortestPath | CW1_TreasureHunt/src/main/java/model/GameModel.java:366-404 | the same over EMPTY and TREASURE cells, with the same counter bounds |
| Search.IsReachable | CW1_TreasureHunt/src/main/java/model/GameModel.java:142-169 | true exactly when a walk over non-obstacle cells links the two points |
| Search.ReachableReflexive | CW1_TreasureHunt/src/main/java/model/GameModel.java:152-154 | every cell reaches itself |
| Search.MinNodeExists | CW1_TreasureHunt/src/main/java/model/GameModel.java:442 | a non-empty open set has an entry of least f-score to poll |
| Search.PollLowerBound | CW1_TreasureHunt/src/main/java/model/GameModel.java:440-451 | a polled, unvisited cell's cost is no more than the length of any walk to it |
| Search.MinNodeBetween | CW1_TreasureHunt/src/main/java/model/GameModel.java:440-442 | the polled entry's f-score is at least its own cell's cost plus heuristic, and at most that of any unvisited cell with a cost |
| Search.AStarSettle | CW1_TreasureHunt/src/main/java/model/GameModel.java:450-451 | marking the polled cell visited keeps every visited cell's cost exact |
| Search.AStarSkip | CW1_TreasureHunt/src/main/java/model/GameModel.java:445-448 | dropping a polled entry of an already visited cell keeps the open set sound |
| Search.SettledNotImproved | CW1_TreasureHunt/src/main/java/model/GameModel.java:477-480 | a visited neighbour's cost is never beaten by a step from the current cell |
| Search.ImprovedNotSettled | CW1_TreasureHunt/src/main/java/model/GameModel.java:480-492 | a neighbour whose cost improves has not been visited, so it is pushed |
| Search.RelaxImprove | CW1_TreasureHunt/src/main/java/model/GameModel.java:480-492 | recording a cheaper cost and parent and pushing the entry keeps the parent links, the open set and the expanded cells sound |
| Search.RelaxOne | CW1_TreasureHunt/src/main/java/model/GameModel.java:465-493 | relaxing one neighbour keeps the A\* state sound, never raises a cost, leaves a walkable neighbour at most one dearer than the current cell, and counts exactly the pushes: the counter grows by as much as the open set |
| Search.RelaxNeighbours | CW1_TreasureHunt/src/main/java/model/GameModel.java:464-494 | after the neighbour loop every walkable neighbour is at most one dearer than the current cell, and the counter has grown by exactly the entries pushed |
| Search.AStarRelaxed | CW1_TreasureHunt/src/main/java/model/GameModel.java:463-494 | a fully relaxed current cell restores the A\* invariant |
| Search.AStarStart | CW1_TreasureHunt/src/main/java/model/GameModel.java:435-438 | the initial open set, costs and parents satisfy the A\* invariant |
| Search.AStarFound | CW1_TreasureHunt/src/main/java/model/GameModel.java:454-457 | when the goal is polled, the reconstructed path is a shortest walk |
| Search.AStarExhausted | CW1_TreasureHunt/src/main/java/model/GameModel.java:497 | when the open set is empty, the cells with a cost are exactly the reachable ones and the goal is not reachable |
| Search.AStarRound | CW1_TreasureHunt/src/main/java/model/GameModel.java:440-458 | one poll either ends with a shortest path or keeps the invariant; it visits a new cell or skips a visited one, so no cell is expanded twice. Without a path, the visited set loses no cell and gains at most the polled one. A returned path is shorter than the push count |
| Search.AStarExpand | CW1_TreasureHunt/src/main/java/model/GameModel.java:453-494 | expanding a settled cell returns the path at the goal, shorter than the push count, and otherwise restores the invariant |
| Search.FindPathAStar | CW1_TreasureHunt/src/main/java/model/GameModel.java:416-498 | A\* returns a path exactly when the goal is reachable over non-obstacles, that path is shortest, and the push count is at least 1, at least the reachable cells when no path exists, and more than the path's length when one is found |
| Search.SearchesAgree | CW1_TreasureHunt/src/main/java/model/GameModel.java:366-498 | on a board where only the start cell is neither EMPTY, TREASURE nor OBSTACLE, breadth-first search and A\* find a path in the same cases, of the same length |
| GameModel.AllFoundIffNoneLeft | CW1_TreasureHunt/src/main/java/model/GameModel.java:555-557 | in a valid game, all treasures are found (GameModel.AllTreasuresFound) exactly when none is listed and exactly when no TREASURE cell is left |
| GameModel.GameOverIff | CW1_TreasureHunt/src/main/java/model/GameModel.java:551-553 | in a valid game, the game is over (GameModel.IsGameOver) exactly when no treasure is left on the board or the score is at most zero |
| GameModel.ClearHints | CW1_TreasureHunt/src/main/java/model/GameModel.java:249-253 | only listed cells showing PATH_HINT become EMPTY and every other cell is unchanged |
| GameModel.ClearPathHints | CW1_TreasureHunt/src/main/java/model/GameModel.java:248-255 | the hint marks are gone from the listed cells, the list is empty, and nothing else in the game changes |
| GameModel.RemoveAll | CW1_TreasureHunt/src/main/java/model/GameModel.java:226 | the treasures left are exactly the listed ones other than the collected cell |
| GameModel.RemoveListed | CW1_TreasureHunt/src/main/java/model/GameModel.java:226 | removing a listed treasure from a repeat-free list shortens it by exactly one and keeps it repeat-free |
| GameModel.RemoveListedAt | CW1_TreasureHunt/src/main/java/model/GameModel.java:226 | removing the treasure at a given position of a repeat-free list keeps the other treasures in their order |
| GameModel.RemoveAbsent | CW1_TreasureHunt/src/main/java/model/GameModel.java:226 | removing an unlisted cell leaves the list as it was |
| GameModel.Move | CW1_TreasureHunt/src/main/java/model/GameModel.java:175-243 | every move clears the hint and the latch. Off the board nothing else changes. Into an obstacle the player stays, the score drops by 10 and the obstacle is shown and recorded. Otherwise the player moves, both old cells become EMPTY, both new ones PLAYER, the score drops by 1, and the result is true exactly when a treasure was there, which is then counted and delisted. Every other cell of the view is as the cleared view shows it, and so is the player's cell when the player stays |
| GameModel.StepKeepsReachable | CW1_TreasureHunt/src/main/java/model/GameModel.java:217-235 | a treasure reachable before a step stays reachable from the new position, since obstacles never move |
| GameModel.StepKeepsBoardValid | CW1_TreasureHunt/src/main/java/model/GameModel.java:217-235 | a step keeps one PLAYER cell and the listed treasures exactly the TREASURE cells, and takes one treasure off the list when one was collected |
| GameModel.MovePreservesValid | CW1_TreasureHunt/src/main/java/model/GameModel.java:175-243 | every move keeps a valid game valid, including found plus remaining treasures being three |
| Hints.WithExplored | CW1_TreasureHunt/src/main/java/model/GameModel.java:372 | a search resets only its own exploration counter |
| Hints.RunSearch | CW1_TreasureHunt/src/main/java/model/GameModel.java:274-275 | one per-treasure search returns a shortest path exactly when the treasure is reachable under its rule, with its counter's bounds. With a path, breadth-first search has counted every cell within the path's length, and A\* more cells than the path's length |
| Hints.NearestTreasureUnique | CW1_TreasureHunt/src/main/java/model/GameModel.java:274-281 | the treasure a hint aims at, and its distance, are determined by the board |
| Hints.NearestReplace | CW1_TreasureHunt/src/main/java/model/GameModel.java:276-280 | a path strictly shorter than the best so far makes its treasure the nearest so far |
| Hints.NearestKeep | CW1_TreasureHunt/src/main/java/model/GameModel.java:276 | a missing or no shorter path leaves the nearest so far unchanged |
| Hints.NearestStep | CW1_TreasureHunt/src/main/java/model/GameModel.java:274-281 | one round of the loop keeps the best path as the first strictly nearest among the treasures seen |
| Hints.NearestRound | CW1_TreasureHunt/src/main/java/model/GameModel.java:274-280 | one round of the loop keeps the nearest so far, and records the counter and, on success, the path length of its own search |
| Hints.NearestRounds | CW1_TreasureHunt/src/main/java/model/GameModel.java:273-281 | the loop over every treasure ends in the state that one round keeps |
| Hints.NearestRoundsFrom | CW1_TreasureHunt/src/main/java/model/GameModel.java:273-281 | the remaining rounds, from any treasure on, keep the loop's state up to the end of the list |
| Hints.NearestLoopDone | CW1_TreasureHunt/src/main/java/model/GameModel.java:273-281 | that final state gives the loop's result: the nearest treasure, or none reachable, and the counter and last length of the last searches |
| Hints.FindNearest | CW1_TreasureHunt/src/main/java/model/GameModel.java:269-281 | the loop picks the first treasure in list order with a strictly shortest path, or none when none is reachable. The counter and the last path length describe the last search, not the chosen one. The last path length is the distance to the last reachable treasure, or the old value when none is reachable. When the last treasure is reachable, the counter covers that search's path as Hints.RunSearch states |
| Hints.FirstStepTowards | CW1_TreasureHunt/src/main/java/model/GameModel.java:284-285 | the first cell of a shortest path is adjacent to the player and walkable, and the treasure is one step nearer from it |
| Hints.NoHintWithoutNearest | CW1_TreasureHunt/src/main/java/model/GameModel.java:284 | when the loop finds no non-empty path, no treasure is nearest at a positive distance |
| Hints.MarkFirstStep | CW1_TreasureHunt/src/main/java/model/GameModel.java:286-302 | the first step is marked and listed exactly when it is not an obstacle or already shows one. An unrevealed obstacle leaves the view and the list unchanged. The path length is stored, and 3 points are charged only when the latch was clear, which then sets it |
| Hints.ShowNearest | CW1_TreasureHunt/src/main/java/model/GameModel.java:283-307 | a hint is shown exactly when the nearest treasure is at a positive distance, marking one adjacent walkable cell one step nearer to it. With no hint, nothing changes |
| Hints.SearchAndMark | CW1_TreasureHunt/src/main/java/model/GameModel.java:269-307 | the search loop and the marking together, with the counter of the last search |
| Hints.ShowHint | CW1_TreasureHunt/src/main/java/model/GameModel.java:261-308 | the board, player and treasures are untouched. A hint is shown exactly when the nearest treasure is at a positive distance; it marks one cell next to the player, one step nearer, and charges 3 only when the latch was clear. Otherwise there is no mark and no charge |
| Hints.HintHasTarget | CW1_TreasureHunt/src/main/java/controller/GameController.java:167 | in a valid game that passes the controller's gate, some treasure is left, none is under the player, and one is reachable by either search |
| Hints.HintResultValid | CW1_TreasureHunt/src/main/java/model/GameModel.java:286-292 | marking one walkable cell next to the player on a cleared view keeps the game valid |
| Hints.ValidHint | CW1_TreasureHunt/src/main/java/model/GameModel.java:261-308 | in a valid game that passes the controller's gate, a hint is always shown and the game stays valid |
| Hints.NearestRulesAgree | CW1_TreasureHunt/src/main/java/model/GameModel.java:314-361 | when only the start cell is neither EMPTY, TREASURE nor OBSTACLE, both searches see the same nearest treasure at the same distance |
| Hints.HintsAgree | CW1_TreasureHunt/src/main/java/model/GameModel.java:314-361 | in a valid game, the breadth-first and A\* hints aim at the same treasure, record the same path length and charge the same |
| Hints.HintTwice | CW1_TreasureHunt/src/main/java/model/GameModel.java:297-300 | two hints with no move between them cost at most 3 points together, and nothing more once the first has charged. They cost nothing when a hint was already charged since the last move. They cost exactly 3 when none was and the first is shown, which a valid game always allows |
| Generation.ObstacleCells | CW1_TreasureHunt/src/main/java/model/GameModel.java:89-91 | the set holds exactly the board's OBSTACLE cells |
| Generation.PlayerOnly | CW1_TreasureHunt/src/main/java/model/GameModel.java:69-79 | the start board is all EMPTY except one PLAYER cell |
| Generation.PlaceObstacles | CW1_TreasureHunt/src/main/java/model/GameModel.java:85-95 | a cell becomes an obstacle exactly when it was drawn, is not the player's and was EMPTY; every other cell is unchanged |
| Generation.ObstaclesAtMostDrawn | CW1_TreasureHunt/src/main/java/model/GameModel.java:83-95 | on a fresh board the obstacles are exactly the drawn cells other than the player's, and there are no more of them than draws |
| Generation.ObstaclesAreDrawn | CW1_TreasureHunt/src/main/java/model/GameModel.java:85-95 | on a board holding only the player, the obstacles placed are exactly the drawn cells other than the player's |
| Generation.RepeatedDrawsPlaceOne | CW1_TreasureHunt/src/main/java/model/GameModel.java:89-94 | ten draws of the same cell leave a single obstacle, below the drawn count's lower bound |
| Generation.PlaceTreasures | CW1_TreasureHunt/src/main/java/model/GameModel.java:103-130 | three distinct drawn treasures, each EMPTY, not the player's and reachable when placed, are the only cells changed. They are the first three acceptable cells in draw order. Placement fails exactly when fewer than three acceptable distinct cells were drawn |
| Generation.PlaceOne | CW1_TreasureHunt/src/main/java/model/GameModel.java:111-127 | one draw is kept exactly when it is acceptable and not yet placed, so the placed treasures stay the acceptable draws in the order first drawn |
| Generation.AcceptableInOrderPrefix | CW1_TreasureHunt/src/main/java/model/GameModel.java:107-129 | the cells kept from the first draws begin the cells kept from all the draws |
| Generation.SameObstaclesAcceptable | CW1_TreasureHunt/src/main/java/model/GameModel.java:118-123 | placing treasures moves no obstacle, so reachability of later candidates, and of earlier treasures, is unchanged |
| Generation.TreasureCount | CW1_TreasureHunt/src/main/java/model/GameModel.java:107-129 | when the loop stops it has three treasures exactly when the draws held three acceptable cells |
| Generation.ObstacleBoard | CW1_TreasureHunt/src/main/java/model/GameModel.java:67-95 | before treasures, the player is at the centre and every other cell is an obstacle exactly when it was drawn |
| Generation.NewBoardValid | CW1_TreasureHunt/src/main/java/model/GameModel.java:103-130 | the generated board has one PLAYER cell and its listed treasures are exactly its TREASURE cells, each reachable |
| Generation.ResetGame | CW1_TreasureHunt/src/main/java/model/GameModel.java:53-62 | a reset gives score 100, zero counters, a clear latch and no revealed obstacles. The player is at (10,10) and seen only there. There are at most 100 obstacles, exactly the drawn cells other than the player's. The game is valid whenever the kept hint path lies on the board. The reset fails only when the draws hold too few acceptable treasure cells |

## Left out

- The Swing view, the animation timers, the controller's key and button wiring and the program's start-up are not part of this model. The controller's one rule that matters to the engine is the hint gate: enough score and a treasure left. That gate is the precondition of the hint operations.
- `java.util.Random` is replaced by sequences of drawn cells. The count of obstacle draws is a precondition between 10 and 100. Each cell draw is a precondition of being on the board.
- `placeTreasures` draws until it has three treasures. Generation.PlaceTreasures takes a finite sequence of draws instead and returns nothing when that sequence holds fewer than three distinct acceptable cells; Generation.ResetGame then returns nothing. Nothing here means only that the given draws ran out: the engine would keep drawing, and it loops for ever only on a board with fewer than three acceptable cells.
- The priority queue's tie-breaking among entries of equal f-score is not specified, so A\* polls any entry of least f-score. The proved properties hold for every such choice. The paths of the two searches may therefore differ cell by cell, and only their lengths are proved equal.
- Java `int` arithmetic is modelled with unbounded integers. The score and the counters stay far from 32-bit overflow in any game. The `Integer.MAX_VALUE` default of A\*'s cost lookup is never read for the current cell, since every polled cell has a recorded cost.
- GameModel.Move: it does not state that the treasure is written to the view just before the player is. The later write overwrites it, and the model performs both writes.
- Hints.ShowHint: on an invalid game whose nearest treasure lies under the player, no hint is shown. The claim that a hint is always shown is made only for valid games, in Hints.ValidHint.
- `revealTreasure` is left out: nothing in the engine or the controller calls it. It writes TREASURE into the view, so the view invariant GameModel.FogValid, under which the view shows no treasure, would not survive a call to it.
- `isRevealedObstacle`, the legacy `showHint` and the getters are lookups or forwarding calls and are not modelled separately. `revealedObstacles` is kept as a list in the game state.
- Hints.ShowHint: it states the counter bounds of Hints.ExploredBound, but not the bound tied to the recorded path length (Hints.PathCountBound). After marking, the recorded length is the chosen path's, while the counter belongs to the last search; the tie is stated for Hints.FindNearest.
- The constructor runs `resetGame` on empty lists, and Generation.ResetGame covers it.
