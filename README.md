# Autonomous warehouse robot navigation, modelled in Dafny

The system plans routes for a robot on a rectangular warehouse grid. The cells are
`.` (floor), `X` (wall), `P` (slow zone), `S` (start) and `D` (destination). The robot
moves in four directions. Its shortest-path engine, `DijkstraPathfinder` (the same code
in warehouseminigame.py and mapbuildingsim.py), charges a step by its direction as well
as by the cell entered: a North or West step always costs 0.5, and any other step costs
what the entered cell costs (floor 1, slow zone 0.5, start 0, destination 1, anything
else 1). The engine is used by three front ends, all modelled here:

- a terminal mini-game (warehouseminigame.py). It generates a random grid, regenerates
  the grid until a route exists, lets the player walk it within a move limit, and then
  shows the optimal route;
- a level editor (mapbuildingsim.py). The user paints a 10 x 10 grid with the mouse,
  placing at most one start and one destination, and asks for the route with SPACE;
- an older script (main.py). Its search charges a step only by the cell entered, and it
  is run on a fixed 5 x 5 map.

The project also models the small integer exercises of the same repository: rod cutting
(hw5.py), a `Vector` class (hw1.py), a `Matrix` class (midterm problems 3 and 4) and
obstacle counting (midterm problem 2).

Modelling choices:
- Costs are natural numbers in half units (0.5 is 1), so the arithmetic is exact.
- An infinite cost is `None`.
- Random draws, keyboard input and mouse positions are parameters.
- Modules follow the program's structure:
  - `Grids`: cells, bounds, the endpoint scan;
  - `Walks`: step costs, neighbours, walks and their costs;
  - `Pathfinder`: the search;
  - `WarehouseGame`, `MapEditor` and `MainScript`: the three front ends;
  - `RodCutting`, `Vectors`, `Matrices` and `Obstacles`: the exercises.

The search (`Pathfinder.Dijkstra`) is one imperative method. Its parameter `CostRule`
selects the direction-dependent rule of `DijkstraPathfinder` or the cell-only rule of
main.py. It keeps the `unvisited` set and the `costs` and `parents` maps of the source,
selects the minimum by a linear scan and stops when the destination is selected. It then
walks the parents back from the destination. It is proved against walks on the grid:
- a returned path is a walk of open, 4-adjacent cells from the start to the destination;
- its cost is the sum of its step costs, and no walk between the two costs less;
- an empty result means no walk exists.

Python's `min` breaks ties by set iteration order, so the model leaves the choice among
equally cheap cells open. The cost is then determined, but the path is not.

Behaviour of the code worth knowing:
- A left click with the eraser, or one that paints a wall or slow zone over an endpoint,
  leaves `start_placed`/`end_placed` set. The editor then refuses a new start although
  the grid has none (`MapEditor.EraserKeepsStartFlag`). Only a right click on an
  endpoint, or C, clears the flags.
- The endpoint scan returns the last `S` and the last `D` in row-major order.
- The generator writes the destination last, so on a 1 x 1 board it overwrites the start.
  The game then finds no start, and the search reports no path.
- The game's regeneration loop has no retry cap and no failure result. It waits for the
  player to answer "R"; here, running out of supplied draw tables ends it as a refusal would.
- A missing endpoint raises no error. The game's search answers `(inf, [])`, as for an
  unreachable destination. main.py answers `(None, inf)`, and the editor logs "Start and
  Destination not set!".
- Nothing checks that the rows of a grid have one length. The model asks for rectangular
  grids wherever the code reads `len(grid[0])`.

## Model

| member | source | states |
|---|---|---|
| Grids.OpenCells | warehouseminigame.py:35-40 | a cell is in the initial `unvisited` set exactly when it is on the grid and not a wall (mapbuildingsim.py:33 and main.py:45 build the same set) |
| Grids.CellAt | warehouseminigame.py:31 | the character in the cell for a position on the grid; a position off the grid reads as a wall, which is how the neighbour test rejects it |
| Grids.Put | mapbuildingsim.py:233-249 | writing a cell keeps the grid's shape, changes the cell written and leaves every other cell as it was |
| Grids.LastOf | warehouseminigame.py:74-82 | the cell the scan keeps holds the character, and no later cell in row-major order does; nothing is kept exactly when no cell holds it |
| Grids.LastOfUnique | warehouseminigame.py:74-82 | on a grid where a single cell holds the character, the scan finds that cell |
| Grids.FindStartEnd | warehouseminigame.py:74-82 | the nested loops return the last start and the last destination in row-major order, or `None` for one that is absent; mapbuildingsim.py:67-75 and main.py:21-32 are the same loop |
| Walks.BaseCost | warehouseminigame.py:12-17 | in half units, a start costs 0 and is the only free cell, a slow zone costs 1 and is the only cell costing 1, and every other cell, unlisted types included, costs 2 |
| Walks.GetCost | warehouseminigame.py:19-26 | under the `DijkstraPathfinder` rule, a North or West step costs 0.5 whatever cell it enters, and any other step costs the entered cell's `cost_map` value with default 1; under the main.py rule (main.py:63-64) only the cell counts; a slow zone always costs 0.5; every cost is between 0 and 1, and only a start cell costs 0 (mapbuildingsim.py:18-24 is the same) |
| Walks.Neighbors | warehouseminigame.py:28-32 | the generator yields exactly the in-bounds, non-wall cells one of the four offsets away, each with its offset, and at most four of them |
| Walks.NeighborsBy | warehouseminigame.py:29-32 | for any list of offsets, the pairs produced are exactly the shifted cells that are open, each with its offset |
| Walks.WalkCostSplit | warehouseminigame.py:56-59 | the cost of a walk is the cost of its prefix up to a cell plus the cost of the rest from that cell |
| Walks.WalkAbovePotential | main.py:59-68 | if no step lowers a potential by more than the step costs, the potential's rise along any walk is at most the walk's cost |
| Walks.WalledWalk | warehouseminigame.py:28-32 | a walk that avoids a newly added wall is a walk of the grid without it, and costs the same there |
| Walks.WallNeverCheaper | warehouseminigame.py:28-59 | turning a cell into a wall never lowers the cheapest cost: a bound no walk beats stays a bound, and a route on the walled grid is a route on the original |
| Pathfinder.SelectMin | warehouseminigame.py:46 | the cell selected is in `unvisited`, and no cell of `unvisited` has a smaller tentative cost |
| Pathfinder.Relax | warehouseminigame.py:53-59 | relaxing the edges out of `current` lowers a cost exactly for the unvisited neighbours that the step through `current` makes cheaper, to that cost, and records `current` as their parent; every other cost and parent is unchanged |
| Pathfinder.SelectedSettles | warehouseminigame.py:45-48 | the unvisited cell of least tentative cost already holds the cost of a cheapest walk to it, so stopping when the destination is selected is sound |
| Pathfinder.SettlePreserves | warehouseminigame.py:45-59 | one round of the loop keeps the search invariant: settled cells hold their cheapest cost, every finite cost except the start's has a parent that accounts for it, and no edge from a settled cell to an unvisited one is left unrelaxed |
| Pathfinder.Search | warehouseminigame.py:35-59 | the loop ends with the search invariant, and either the destination is settled with its cheapest cost or every open cell was settled; for an open start equal to the destination it stops at once, leaving no parents |
| Pathfinder.WalkBack | warehouseminigame.py:61-66 | following parents from the destination stops at a cell without a parent; the cells collected form a walk to the destination whose cost is the destination's cost minus that cell's; a destination without a parent gives an empty list |
| Pathfinder.Unreached | warehouseminigame.py:45-72 | when the search has ended and the destination, other than the start, has no parent, no walk reaches the destination |
| Pathfinder.Dijkstra | warehouseminigame.py:34-72 | a non-empty path runs from the start to the destination through open, 4-adjacent cells; its cost is the sum of the step costs along it, and no walk between them costs less; the result is `(inf, [])` exactly when no walk exists, with no exception; start equal to destination gives `(0, [start])` (mapbuildingsim.py:32-64 is the same code; the loop of main.py:45-82 is this search under the cell-only rule) |
| Pathfinder.WalledSearch | warehouseminigame.py:34-72 | by the search's own answers, a grid with one more wall has a route only if the original has one, and its cost is never lower |
| Pathfinder.EastIntoDestination | warehouseminigame.py:19-26 | on the one-row grid `S D`, stepping East into the destination costs 1 (2 half units) |
| Pathfinder.NorthIntoDestination | warehouseminigame.py:19-26 | with the destination directly above the start, stepping North costs 0.5 (1 half unit), so the direction, not only the cell, decides the cost |
| Pathfinder.StepIntoDestination | warehouseminigame.py:56-59 | a walk that moves costs at least what its last step into the destination costs |
| WarehouseGame.GameGrid | warehouseminigame.py:94-109 | the generated grid has `rows` rows of `cols` cells |
| WarehouseGame.GenerateGameGrid | warehouseminigame.py:94-109 | the nested loops leave the destination in the far corner and the start at (0, 0); the destination is written last, so it wins on a 1 x 1 board; every other cell is a wall when its draw is below `obstacle_prob`, else a slow zone below `obstacle_prob + slow_prob`, else floor |
| WarehouseGame.GameGridEndpoints | warehouseminigame.py:106-108 | on any board but 1 x 1 the scan finds the start at (0, 0) and the destination at (rows - 1, cols - 1) |
| WarehouseGame.SingleCellHasNoStart | warehouseminigame.py:107-108 | on a 1 x 1 board the destination overwrites the start, and the scan finds no start |
| WarehouseGame.AllWallsUnreachable | warehouseminigame.py:101-108 | when every draw is below the obstacle probability and the corners are not adjacent, no walk joins them |
| WarehouseGame.GameGridEndpointsOrNone | warehouseminigame.py:106-108 | every generated grid has a destination, and any start found on it is an open cell other than the destination |
| WarehouseGame.Marked | warehouseminigame.py:84-88 | the overlay has the grid's shape |
| WarehouseGame.Overlay | warehouseminigame.py:84-88 | the marking loop, working on a copy, turns exactly the path cells that are not `S` or `D` into `*` and leaves every other cell as it was |
| WarehouseGame.MarkedKeepsLayout | warehouseminigame.py:84-88 | the overlay is still rectangular, has its start and destination in the same places, and has the same open cells except for walls the path crosses |
| WarehouseGame.Solve | warehouseminigame.py:136-138 | with the endpoints the scan finds, the search returns a non-empty path exactly when a walk joins them; that path is a walk between them, and its cost is its own and no walk's is lower |
| WarehouseGame.TryGrid | warehouseminigame.py:135-140 | one round of the loop produces the grid of the draws and reports whether that grid has a route |
| WarehouseGame.FindPlayableGrid | warehouseminigame.py:134-150 | every grid skipped had no route and was answered with "R"; a grid returned is the first with a route; the loop gives up after a grid without a route whose answer was not "R" |
| WarehouseGame.MoveTarget | warehouseminigame.py:169-178 | a line moves the player exactly when it is one of W, A, S, D and the neighbour in that direction is on the board and not a wall; the player then moves to that neighbour |
| WarehouseGame.TryMove | warehouseminigame.py:169-178 | the checks of the move loop compute exactly that target |
| WarehouseGame.Replay | warehouseminigame.py:173-181 | the trail the input lines produce begins at the start |
| WarehouseGame.ReplayIsWalk | warehouseminigame.py:173-181 | the replayed trail is always a walk of open, 4-adjacent cells |
| WarehouseGame.TurnsStep | warehouseminigame.py:162-181 | reading one more line moves the player and counts one move exactly when the line is a legal move; otherwise the player and the count stay as they were |
| WarehouseGame.PlayTurns | warehouseminigame.py:159-189 | the player's trail is the replay of the lines read, with one counted move per step and never more than `move_limit` moves; reaching `D` is success and ends the loop at once; `Q` quits and `R` restarts before the limit; otherwise the loop ends when the moves reach the limit |
| WarehouseGame.ShowOptimal | warehouseminigame.py:191-199 | the report holds a cheapest walk, its cost and the marked grid exactly when the grid has a route, and "no path" otherwise |
| WarehouseGame.PlayGame | warehouseminigame.py:133-199 | every draw table before the one played gave a grid without a route and was answered "R"; a game is played exactly when some table gives a grid with a route, and that grid is the one generated from it; the turns then meet everything `PlayTurns` promises about the player's trail, moves and outcome on that grid; after success or running out of moves the report shows a cheapest start-to-destination walk of that grid, its cost and the marked grid; quitting or restarting shows none |
| MapEditor.CellType | mapbuildingsim.py:101-107 | the five selectable types name the cells `.`, `X`, `P`, `S`, `D` |
| MapEditor.EmptyWarehouse | mapbuildingsim.py:110 | the initial warehouse is 10 x 10 floor |
| MapEditor.CellUnderSquare | mapbuildingsim.py:229-231 | a click selects cell (r, c) exactly when the cursor lies in that cell's 80 x 80 square of the grid area |
| MapEditor.CentreSelectsCell | mapbuildingsim.py:273-274 | a click at the cell centre that the path arrows use selects that cell |
| MapEditor.LegendBoxesDisjoint | mapbuildingsim.py:133-146 | no point lies in two legend boxes, so one press selects at most one type |
| MapEditor.Editor.constructor | mapbuildingsim.py:108-117 | the editor starts with an empty floor, neither endpoint placed, an empty log and Start selected |
| MapEditor.Editor.ClickLegend | mapbuildingsim.py:133-146 | a left press inside a legend box selects that box's type; a press elsewhere keeps the selection |
| MapEditor.Editor.LeftClick | mapbuildingsim.py:227-249 | inside the grid, the eraser writes floor and Wall or Low Cost writes its cell, in both cases without touching the flags; Start and End are placed only while their flag is clear, and otherwise log "already placed" and leave the grid alone; at most one `S` and one `D` remain, and none while its flag is clear |
| MapEditor.Editor.RightClick | mapbuildingsim.py:251-260 | inside the grid the cell becomes floor, and erasing the start or the destination clears its flag; the one-endpoint invariant is kept |
| MapEditor.Editor.Clear | mapbuildingsim.py:283-287 | C empties the grid, clears both flags and logs "Grid cleared." |
| MapEditor.Editor.FindPath | mapbuildingsim.py:262-281 | SPACE logs missing endpoints exactly when the scan misses one; it logs a path and its cost exactly when a walk joins them, the path being a cheapest walk; otherwise it logs "No path found." |
| MapEditor.EraserKeepsStartFlag | mapbuildingsim.py:227-281 | after placing a start and a destination and erasing the start with the left-click eraser, a new start is refused although none is on the grid, and SPACE reports missing endpoints although a destination is on the grid and both flags are set |
| MapEditor.Editor.Valid | mapbuildingsim.py:110-114 | the editor's grid stays rectangular, and a cleared start or end flag means no such cell is on the grid |
| MapEditor.RightClickFreesStart | mapbuildingsim.py:234-260 | after the start is erased with a right click, a new start is accepted, and it is the one the scan finds |
| MainScript.MainDijkstra | main.py:39-82 | the result is `(None, inf)` exactly when an endpoint is missing or no walk joins them; otherwise it is a cheapest walk from the start to the end, with its cost under the cell-only rule |
| MainScript.SampleEndpoints | main.py:3-9 | on the sample map the start is (0, 0) and the end (3, 4) |
| MainScript.SampleDistancesFeasible | main.py:3-19 | the table of distances from the start is a feasible potential for the sample map |
| MainScript.SampleRouteWalk | main.py:3-9 | the route through the slow cell (2, 2) is a walk from (0, 0) to (3, 4) |
| MainScript.SampleRouteCost | main.py:3-19 | that route costs 6.5 |
| MainScript.SampleCheapest | main.py:3-19 | no walk from the start to the end of the sample map costs less than 6.5 |
| MainScript.SampleRun | main.py:35-88 | the sample run finds the start (0, 0), the end (3, 4) and a path of cost 6.5 |
| RodCutting.BestOfNothing | OneDrive/Desktop/classes/ras205/hw5.py:8 | `dp[0]` is 0 |
| RodCutting.BestUsingNonNegative | OneDrive/Desktop/classes/ras205/hw5.py:11-15 | `max_val` starts at 0, so every `dp` entry is at least 0 |
| RodCutting.BestUsingCovers | OneDrive/Desktop/classes/ras205/hw5.py:12-14 | no first cut the inner loop considers is worth more than `max_val` at the end of it |
| RodCutting.BestBoundsEveryPlan | OneDrive/Desktop/classes/ras205/hw5.py:3-17 | no multiset of pieces that fits the rod is worth more than `dp` |
| RodCutting.BestUsingAchieved | OneDrive/Desktop/classes/ras205/hw5.py:10-15 | some multiset of pieces that fits is worth exactly what the inner loop computes |
| RodCutting.BestAchieved | OneDrive/Desktop/classes/ras205/hw5.py:10-15 | some multiset of pieces that fits is worth exactly `dp[n]` |
| RodCutting.BestIsOptimal | OneDrive/Desktop/classes/ras205/hw5.py:3-17 | `dp[n]` is the largest price over all multisets of pieces whose lengths add up to at most n |
| RodCutting.RodCut | OneDrive/Desktop/classes/ras205/hw5.py:3-17 | the table-filling loops return that maximum; a negative total length raises IndexError |
| RodCutting.Example | OneDrive/Desktop/classes/ras205/hw5.py:20-24 | the worked example gives 13 |
| Vectors.Plus | OneDrive/Desktop/classes/ras205/hw1.py:37 | the sum has the operands' dimension and holds the componentwise sums |
| Vectors.PlusCommutes | OneDrive/Desktop/classes/ras205/hw1.py:37 | vector addition is commutative |
| Vectors.DotCommutes | OneDrive/Desktop/classes/ras205/hw1.py:44 | the sum of pairwise products does not depend on the order of the operands |
| Vectors.DotOfSum | OneDrive/Desktop/classes/ras205/hw1.py:31-44 | the dot product distributes over the addition of `__add__` |
| Vectors.DotSelfNonNegative | OneDrive/Desktop/classes/ras205/hw1.py:13-14 | the sum of squares under the square root of `magnitude` is never negative |
| Vectors.Vector.Zero | OneDrive/Desktop/classes/ras205/hw1.py:4-7 | without components, the vector is <0, 0, 0> in a new list |
| Vectors.Vector.constructor | OneDrive/Desktop/classes/ras205/hw1.py:4-11 | the given list is stored, not copied (also via `create`) |
| Vectors.Vector.Dimensionality | OneDrive/Desktop/classes/ras205/hw1.py:16-17 | the dimensionality is the number of components |
| Vectors.Vector.GetComponent | OneDrive/Desktop/classes/ras205/hw1.py:19-23 | it returns the component exactly for 0 <= index < len, and raises IndexError otherwise, negative indices included |
| Vectors.Vector.SetComponent | OneDrive/Desktop/classes/ras205/hw1.py:25-29 | it changes exactly the indexed component, which then reads back as the new value; out of range it raises IndexError and changes nothing |
| Vectors.Vector.Add | OneDrive/Desktop/classes/ras205/hw1.py:31-38 | it raises ValueError exactly on a dimension mismatch; otherwise it returns a new vector in a new list holding the componentwise sums |
| Vectors.Vector.DotProduct | OneDrive/Desktop/classes/ras205/hw1.py:40-44 | it raises ValueError exactly on a dimension mismatch; otherwise it returns the sum of the pairwise products |
| Vectors.DotProductSymmetric | OneDrive/Desktop/classes/ras205/hw1.py:40-44 | `u.dot_product(v)` equals `v.dot_product(u)`, errors included |
| Vectors.SharedComponents | OneDrive/Desktop/classes/ras205/hw1.py:4-29 | a change made through the vector is seen in the list its creator holds; index -1 is out of range |
| Matrices.Resolve | OneDrive/Desktop/classes/ras205/RAS205_Midterm/midtermproblem3.py:12 | Python list indexing: an index is valid exactly when -n <= i < n, and a negative one counts from the end |
| Matrices.Cell | OneDrive/Desktop/classes/ras205/RAS205_Midterm/midtermproblem3.py:12 | the entry that `data[row][col]` names lies inside the data |
| Matrices.Entry | OneDrive/Desktop/classes/ras205/RAS205_Midterm/midtermproblem3.py:11-12 | `get_element` returns the entry the indices name, and raises IndexError exactly when they name none |
| Matrices.Updated | OneDrive/Desktop/classes/ras205/RAS205_Midterm/midtermproblem3.py:15-16 | an update keeps the shape of the data |
| Matrices.EntryAfterUpdate | OneDrive/Desktop/classes/ras205/RAS205_Midterm/midtermproblem3.py:11-16 | after `set_element`, the updated entry reads back as the new value, and indices naming any other entry read as before |
| Matrices.UpdatedConsistent | OneDrive/Desktop/classes/ras205/RAS205_Midterm/midtermproblem3.py:15-16 | an update keeps the data consistent with the matrix's dimensions |
| Matrices.Matrix.constructor | OneDrive/Desktop/classes/ras205/RAS205_Midterm/midtermproblem3.py:7-9 | the fields hold the given dimensions and elements |
| Matrices.Matrix.Create | OneDrive/Desktop/classes/ras205/RAS205_Midterm/midtermproblem3.py:2-9 | it raises ValueError exactly when the number of rows, or the length of some row, differs from the given dimensions; otherwise it returns a consistent matrix of those elements (midtermproblem4.py:2-10 is the same class) |
| Matrices.Matrix.CreateSquare | OneDrive/Desktop/classes/ras205/RAS205_Midterm/midtermproblem4.py:26-28 | `SquareMatrix(size, elements)` has `size` rows and `size` columns, and elements that are not size x size raise ValueError |
| Matrices.Matrix.GetElement | OneDrive/Desktop/classes/ras205/RAS205_Midterm/midtermproblem3.py:11-12 | the entry at the given row and column when Python's indexing accepts both indices (a negative index counts from the end), IndexError otherwise |
| Matrices.Matrix.SetElement | OneDrive/Desktop/classes/ras205/RAS205_Midterm/midtermproblem3.py:15-16 | it writes exactly the entry the indices name and keeps the matrix consistent; it raises IndexError and changes nothing when they name none |
| Matrices.Problem3Example | OneDrive/Desktop/classes/ras205/RAS205_Midterm/midtermproblem3.py:23-36 | entry (0, 0) is 1, and setting it to 100 gives [[100, 2], [3, 4]]; the 3 x 3 matrix is accepted, and a ragged one would be rejected |
| Matrices.Problem4Example | OneDrive/Desktop/classes/ras205/RAS205_Midterm/midtermproblem4.py:31-40 | entry (1, 1) is 4, and setting (0, 1) to 9 gives [[1, 9], [3, 4]] |
| Obstacles.Sum | OneDrive/Desktop/classes/ras205/RAS205_Midterm/midtermproblem2.py:6-7 | the sum of a vector with no negative entry is never negative |
| Obstacles.CountOnes | OneDrive/Desktop/classes/ras205/RAS205_Midterm/midtermproblem2.py:14-16 | the number of 1s is at most the length |
| Obstacles.CountIsMultiplicity | OneDrive/Desktop/classes/ras205/RAS205_Midterm/midtermproblem2.py:14-16 | `vector.count(1)` is the number of times 1 occurs |
| Obstacles.CountsAgree | OneDrive/Desktop/classes/ras205/RAS205_Midterm/midtermproblem2.py:1-16 | on a vector of 0s and 1s, the sum equals the number of 1s |
| Obstacles.SumBounds | OneDrive/Desktop/classes/ras205/RAS205_Midterm/midtermproblem2.py:6-16 | on a vector of 0s and 1s, the sum lies between 0 and the length |
| Obstacles.CountsDifferOffZeroOne | OneDrive/Desktop/classes/ras205/RAS205_Midterm/midtermproblem2.py:1-7 | outside 0/1 vectors the two counts differ: [2] sums to 2 but holds no 1 |
| Obstacles.Examples | OneDrive/Desktop/classes/ras205/RAS205_Midterm/midtermproblem2.py:9-19 | [0, 0, 1, 0, 0, 0] gives 1 and [0, 1, 0, 1, 1, 1] gives 4, by both counts |

## Left out

- Drawing and timing in mapbuildingsim.py are not modelled: the pygame window, fonts, colours, the `draw_*` functions, the arrow geometry, display updates and delays. The model keeps only what a click or key does to the grid, the flags, the selection and the log.
- The editor's event loop is not modelled. It can run the left-click and right-click handlers on one event when both buttons are held; the model offers each handler as its own call. ESC and the window's close button only stop the loop.
- Terminal I/O in warehouseminigame.py is not modelled: `print_grid`, the screen clearing, and the prompts. Input lines are taken already stripped and upper-cased.
- The `random.random()` draws are an input table with one draw per cell, instead of a random source.
- WarehouseGame.PlayGame: the restart key's recursive `play_game` call is not followed. The model stops with the `Restart` outcome.
- WarehouseGame.PlayGame: running out of supplied input lines is an outcome of its own, `OutOfKeys`, where the program would wait for more input.
- WarehouseGame.Solve: requires a destination on the grid. Every generated grid has one; with neither endpoint the source would trace a "path" through `None`.
- WarehouseGame.GenerateGameGrid: requires at least one row and one column. On an empty board the source raises IndexError when it writes the start; that error is not modelled.
- WarehouseGame.PlayTurns: requires an open start that is not the destination. `play_game` only reaches the loop on a generated grid with a route, where this holds (`WarehouseGame.GameGridEndpointsOrNone`).
- Grids.FindStartEnd: requires a rectangular grid. On ragged rows the source's `len(grid[0])` bound skips cells or raises IndexError.
- WarehouseGame.Overlay: requires the path to lie on the grid. The source is never called otherwise.
- Pathfinder.Dijkstra: among several equally cheap paths, the one returned is not fixed, just as set iteration order decides it in the source. The cost is fixed.
- MainScript.MainDijkstra: requires a non-empty, rectangular grid, as the scan of `start_end` reads `len(grid[0])` for every row.
- Pathfinder.Dijkstra: is defined for every grid. The source needs a non-empty grid to read `len(grid[0])`, and rows of one length.
- The path cost that the editor logs and the game prints is a float in the source. Here it is a natural number of half units.
- RodCutting.RodCut: requires every piece length to be at least 1 and a price for every length. With a zero or negative length the source reads table entries not yet computed, or past the end.
- Vectors.Vector.Add: the TypeError for a non-`Vector` operand cannot occur with static types.
- Vector magnitude (a square root), hw2withextra.py and midtermproblem1.py work in floating point and are not modelled.
- The `display` methods and the module-level printing and input parsing of the exercises are not modelled.
- Matrices.Matrix.Create: the elements are held as a value. The source stores the caller's list of lists, so later changes through either would be shared; that sharing is not modelled. (The `Vector` model keeps the sharing, through an array.)
- midtermproblem4.py repeats the `Matrix` class of problem 3 line for line, so one model covers both.
