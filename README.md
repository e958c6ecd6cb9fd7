# Sokoban maze, modelled and verified in Dafny

This project models the `Maze` class of a Sokoban board (`maze.cc`). The maze
is a jagged grid of tiles. Each tile has a type (floor or obstacle), a cached
walkability flag and two displacement annotations. The maze also holds the
player's starting position and the crates' starting and ending positions. It
answers two breadth-first queries for a walker, and it annotates every tile a
pass reaches with its distances to the crates (the other tiles keep their
annotations):

- `reachable`: can a walker get from one cell to another, stepping only onto
  walkable cells that are not dynamic obstacles?
- `find_path`: a shortest such walk, appended to an output vector from the
  target back to the source.
- `calculate_displacement_mapping`: two multi-source breadth-first passes.
  - The first pass spreads from the crate starts under the *axis-pair* rule:
    up and down are admitted together when both are open, and likewise left
    and right. It writes `source_displacement`.
  - The second pass spreads from the crate targets under the *two-ahead*
    rule: a direction is admitted when the next two cells that way are open.
    It writes `target_displacement`.

Modules, in dependency order:

- `Wrappers`: the `Option` result type.
- `Board`: positions, directions, tiles, the grid as a value, and the code's
  probes. The probes are validity, tile access, walkability, neighbours and
  the two unchecked displacement probes.
- `Traversal`: breadth-first layers over an arbitrary move function (`Moves`):
  - `Within`, `DistIs`, `Reached`;
  - walks, and the covering argument shared by every search;
  - the parity (bipartiteness) lemmas of the cardinal grid.
- `Rules`: the walker's rule and the two displacement rules as move
  functions. Every move is one cardinal step onto a valid cell, and no rule
  looks at the displacement annotations.
- `Displacement`: one displacement pass (`Spread`) as an imperative
  breadth-first search over the grid, with its loop invariants.
- `Mazes`: the walker's two searches and the class `Maze`, whose methods
  update its fields in place.
- `BackTrace`: the back-trace of `find_path` exactly as written, for the
  finding below.

The searches are proved against the layered definition of distance:

- `DistIs(m, S, p, k)`: `p` first appears in layer `k` of the moves `m` from
  the seeds `S`.
- `Reached`: `p` appears in some layer.

`Traversal.ReachedIffWalk` and `Traversal.DistIsShortest` tie these to walks.
The getters `GetPlayerStartingPos`, `GetCratesStartingPos` and
`GetCratesEndingPos` read the corresponding field and need no contract.

Two behaviours of the code that the model keeps:

- `reachable(s, s)` is false. The source is marked seen when it is expanded,
  and the target is only looked for among newly seen cells.
- The displacement passes read tiles one and two steps past a cell without a
  bounds check. The model requires an enclosed board (`Enclosed`): every seed
  and every open cell has all four neighbours on the board. This is more than
  the passes read around, since they probe only around the cells they
  expand. On an open 3×3 board with no walls around it, the code would read
  off the board (its bounds assertion fails). The precondition `Enclosed`
  excludes such a board.

## Model

| member | source | states |
|---|---|---|
| Board.NewTile | maze.cc:11-16 | A new tile is floor, walkable and consistent, with both displacements at the `size_t` maximum sentinel `Unreached` |
| Board.Tile.IsWalkable | maze.cc:18 | On a consistent tile, the cached flag holds exactly when the type is not obstacle |
| Board.Tile.SetType | maze.cc:20-23 | The new type is set, the flag is walkable iff the type is not obstacle, and both displacements are kept |
| Board.Tile.WithDisplacement | maze.cc:176 | Writing one displacement sets it, keeps the type and the flag, and keeps the other displacement |
| Board.Cells | maze.cc:63-65 | The cells of the grid are exactly the valid positions: row below the height, column below that row's width |
| Board.SetAt | maze.cc:42-45 | Writing through the mutable tile accessor at a valid position changes that tile only and keeps the grid's shape |
| Board.IsWalkable | maze.cc:67-72 | On a consistent grid, a valid cell is walkable iff its tile is not an obstacle and it is not a dynamic obstacle |
| Board.Neighbors | maze.cc:74-85 | At most four neighbours, and a cell is among them iff it is one cardinal step away, valid and walkable |
| Board.NeighborsInProbeOrder | maze.cc:74-85 | The neighbours come in the order up, right, down, left |
| Board.AxisPairProbe | maze.cc:185-194 | On a cell with all four neighbours on the board, the unchecked probe admits exactly the axis-pair rule's moves, each one cardinal step onto an open cell |
| Board.AheadProbe | maze.cc:237-240 | The unchecked two-ahead probe in one direction equals the rule. On an enclosed board it reads two ahead only past an open cell, which is surrounded |
| Board.TwoAheadProbe | maze.cc:237-252 | The four unchecked two-ahead probes, up, right, down, left, equal the two-ahead rule |
| Rules.MoveShape | maze.cc:74-85 | Every move of every rule is one cardinal step onto a valid cell. A walker's move lands on a walkable cell off the dynamic obstacles; a displacement move lands on an open cell |
| Rules.ObstacleNeverReached | maze.cc:67-72 | A dynamic obstacle other than the source is never reached by a walker, so `reachable` answers no for it |
| Rules.OffBoardNeverReached | maze.cc:77-84 | A position off the board other than the source is never reached under any rule |
| Rules.ReachedFrame | maze.cc:237-252 | Changing only annotations does not change which cells a rule reaches, so the target pass sees the board the source pass started from |
| Rules.DistFrame | maze.cc:237-252 | Changing only annotations does not change any cell's distance under a rule |
| Traversal.ReachedIffWalk | maze.cc:87-116 | A cell is reached iff some walk of moves leads to it from a seed |
| Traversal.DistIsShortest | maze.cc:118-163 | Distance k means some walk from a seed has k moves and no walk has fewer |
| Traversal.Covered | maze.cc:97-114 | The breadth-first covering argument: once every expanded cell's moves are seen and every pending cell is at least L away, all cells within L are seen and all within L-1 expanded |
| Traversal.DistParity | maze.cc:137-145 | Under cardinal moves from one source, the parity of x+y of a cell at distance k is the source's parity flipped k times |
| Traversal.SameDistanceNotAdjacent | maze.cc:137-145 | Two cells at the same distance from one source are never adjacent, so a predecessor overwritten during one layer still lies one layer nearer |
| Traversal.FreshMembers | maze.cc:105-113 | A probe queues a cell iff it is one of the neighbours and was not seen before |
| Traversal.FreshDistinct | maze.cc:105-113 | A probe queues no cell twice, even when a neighbour repeats |
| Traversal.FreshCard | maze.cc:105-113 | A probe grows the seen set by exactly as many cells as it queues |
| Traversal.UnexpandedMembers | maze.cc:141-152 | The shortest-walk search queues a cell iff it is a probed neighbour that is not yet expanded |
| Mazes.VisitNeighbors | maze.cc:105-113 | The reachability search's inner loop reports the target iff it is an unseen neighbour. Otherwise the seen set grows by exactly the neighbours, and the frontier grows by the unseen neighbours in probe order, each once, by as many cells as the seen set grows |
| Mazes.WalkSearchStep | maze.cc:97-114 | One expansion keeps the reachability search's invariant: every seen cell is reached, queued cells are seen, every seen cell that has left the queue has all its neighbours seen, and the target is not seen |
| Mazes.WalkRound | maze.cc:97-114 | One round of the reachability search keeps its invariant and every seen cell on the board, and makes progress: more cells seen, or as many and a shorter queue |
| Mazes.Maze.Reachable | maze.cc:87-116 | The answer is yes iff the target differs from the source and a walker can reach it, and the search ends |
| Mazes.RecordNeighbors | maze.cc:141-152 | The loop stops iff the target is a neighbour not yet expanded. Every unexpanded neighbour probed up to that point gets the current cell as predecessor, replacing any earlier one, and no other predecessor changes. The frontier grows by the unexpanded neighbours probed before the target, in probe order |
| Mazes.NextLayer | maze.cc:137-145 | A move from a cell in layer L to a cell not yet expanded lands in layer L+1 |
| Mazes.PathSkipStep | maze.cc:137 | Skipping a dequeued cell that was already expanded keeps the path search's invariant |
| Mazes.PathSearchStep | maze.cc:135-152 | Expanding a dequeued cell keeps the path search's invariant: queued cells carry their distances in layered order, each has a predecessor, expanded cells' moves are expanded or queued, and the target is neither |
| Mazes.ExpandStep | maze.cc:133-153 | One round of the outer loop keeps the search state, and when the target is found it has a recorded predecessor |
| Mazes.SearchExhausted | maze.cc:133-153 | When the queue empties without finding the target, the target is not reachable |
| Mazes.SearchPredecessors | maze.cc:127-153 | Every recorded predecessor is expanded, one move before its cell and one layer nearer the source. If found, the target is recorded; if not, it is unreachable |
| Mazes.BackStep | maze.cc:157-160 | A recorded cell other than the source has an expanded predecessor one move before it and one layer nearer |
| Mazes.Maze.FindPath | maze.cc:118-163 | If source and target are the same, output is unchanged. Otherwise a result exists iff the target is reachable, and it extends output with a walk from target back to source whose length is the distance |
| Mazes.TraceBack | maze.cc:155-162 | The back-trace keeps output as a prefix and appends a walk from the target back to the source of length the target's distance |
| Mazes.WalkBackShape | maze.cc:118-163 | The returned walk is made of cardinal steps, every cell but the source is valid, walkable and off the dynamic obstacles, and no walk is shorter |
| Displacement.PlantSeeds | maze.cc:172-177 | Every seed is queued in order, marked seen and given cost zero, and its annotation is set to zero |
| Displacement.Probe | maze.cc:185-194 | A pass's unchecked probe around a surrounded cell gives exactly the moves of its rule |
| Displacement.Touch | maze.cc:207-216 | The frontier grows by exactly the unseen neighbours, in probe order and each once. They are marked seen, costed at the next cost and annotated; seen cells keep their cost and annotation |
| Displacement.ExpandHead | maze.cc:180-216 | Expanding the queue's head keeps the pass's invariant (seen cells costed at their distance, queue layered, covered up to the head) with the head now expanded. The grid stays the start grid annotated with the costs, and a new cell is seen or the queue shortens |
| Displacement.Drain | maze.cc:179-217 | Working the queue off ends with the invariant and an empty queue: every seen cell is expanded, costed at its distance to the nearest seed, and has all its moves seen; the grid is the start grid annotated with the costs |
| Displacement.SpreadDone | maze.cc:179-217 | When the queue is empty, the grid is the start grid with exactly the reached cells annotated with their distances |
| Displacement.Spread | maze.cc:168-217 | One pass keeps the layout; every reached cell gets its distance to the nearest seed in that annotation and nothing else changes; other tiles are unchanged |
| Mazes.DisplacedKeeps | maze.cc:260 | A pass leaves every tile's other displacement as it was |
| Mazes.EnclosedFrame | maze.cc:214 | Annotating tiles keeps the board enclosed, so the target pass may probe unchecked as the source pass did |
| Mazes.BothPasses | maze.cc:165-265 | After both passes, each annotation is the distance under its own rule on the original board for reached cells, and the original value otherwise |
| Mazes.Maze.CalculateDisplacementMapping | maze.cc:165-265 | Both displacement annotations are set as `BothPasses` states; types, flags and the grid's shape are kept |
| Mazes.DisplacementZero | maze.cc:172-177 | Every seed is reached and reads zero, and a reached cell reads zero only if it is a seed |
| Mazes.DisplacementStep | maze.cc:253-262 | One move of a pass's rule raises the annotation by at most one |
| Mazes.DisplacementDescends | maze.cc:207-216 | Every reached non-seed is open and is one move from a reached cell whose annotation is exactly one less |
| Mazes.Maze.constructor | maze.cc:25-27 | A new maze has no rows, no crates, and the player at the origin |
| Mazes.Maze.AddRow | maze.cc:59-61 | A new last row of the given width made of new tiles; earlier rows and the other fields are unchanged |
| Mazes.Maze.SetTileType | maze.cc:20-23 | The tile at a valid position gets the type with a matching flag, and nothing else changes |
| Mazes.Maze.SetPlayerStartingPos | maze.cc:267-269 | The player's starting position becomes the given one |
| Mazes.Maze.AddCratesStartingPos | maze.cc:275-277 | The position is appended after the crate starts already registered |
| Mazes.Maze.AddCratesEndingPos | maze.cc:283-285 | The position is appended after the crate targets already registered |
| BackTrace.Lookup | maze.cc:159 | Reading the predecessor map gives the recorded predecessor, or the origin for a cell without one |
| BackTrace.AsWrittenFollows | maze.cc:155-162 | With the target found, the back-trace as written reaches the source from a cell at distance d in exactly d steps, each a reversed move |
| BackTrace.StuckAtOrigin | maze.cc:157-160 | Without an entry for the origin and with another source, the back-trace at the origin never ends |
| BackTrace.RecordedIsReached | maze.cc:144-145 | Only reached cells get a predecessor |
| BackTrace.UnreachableNeverEnds | maze.cc:155-162 | For an unreachable target with source and origin distinct and the origin unreachable, the back-trace as written never ends |
| BackTrace.OriginShortcut | maze.cc:155-162 | For an unreachable target with the source at the origin, the back-trace as written ends at once with the target followed by the origin |
| BackTrace.OriginShortcutExample | maze.cc:155-162 | From the origin to (2,2), the as-written result is [(2,2), (0,0)], though those two cells are not adjacent |

## Left out

- The abort of the bounds assertions in the tile accessors (maze.cc:38, maze.cc:43) is modelled as the precondition `Valid`. The displacement passes rely on it through `Enclosed`.
- Unsigned wrap-around of the direction helpers at row or column 0: those helpers are in `maze.h`, which is not part of this model. Coordinates are integers and validity requires them to be non-negative. A wrapped `SIZE_MAX` coordinate is also never valid, so the answers agree.
- The standard containers are modelled as values: queues and vectors as `seq`, sets as `set`, maps as `map`. `std::find` is sequence membership.
- The grid is a value (`seq<seq<Tile>>`) held in a field of `Maze` and reassigned. In-place writes through `operator()` are modelled as `SetAt`, and references to tiles and their aliasing are not modelled.
- The dead checks `if (frontier.empty())` (maze.cc:98, maze.cc:134), the commented-out code (maze.cc:101, maze.cc:182-183, maze.cc:195-206, maze.cc:234-235) and the unused `<iostream>` include have no counterpart.
- Mazes.Maze.FindPath: for an unreachable target it returns `None` and leaves the back-trace out; the code as written runs the back-trace anyway (see Findings and module `BackTrace`).
- Mazes.Maze.FindPath: the caller's output vector is passed in as a sequence and the extended sequence is returned, instead of being appended to in place.
- BackTrace.TraceAsWritten: the back-trace as written carries a step bound (`fuel`), so a loop that never ends is modelled as "no result within any bound". The insertion of a default entry into the map by `operator[]` is modelled by `Lookup` returning the origin, not by changing the map.
- Mazes.Maze.CalculateDisplacementMapping: its precondition `Enclosed` also constrains open cells that the passes never read around (open cells no seed reaches), so it demands more of the board than the code touches.
- Displacement costs are unbounded naturals; `size_t` overflow of `cost[current] + 1` is not modelled, since a cost never exceeds the number of cells.
- The getters `height`, `width` and `operator()` are the functions `Height`, `Width` and `At` over the grid value. The registration getters return their fields and carry no contract.

## Findings

| source | as written | input that shows it | evidently intended | confidence | as-written member | corrected member |
|---|---|---|---|---|---|---|
| maze.cc:155-162 | The back-trace runs even when the search did not find the target, and a missing predecessor reads as (0,0) | An unreachable target, with a source other than (0,0) and (0,0) itself unreachable (say a wall in the corner): the back-trace steps to (0,0) and stays there forever | Report that there is no path | not executed | BackTrace.UnreachableNeverEnds | Mazes.Maze.FindPath |
| maze.cc:155-162 | Same back-trace, with the source at (0,0) | Source (0,0), target (2,2) unreachable: the output gets [(2,2), (0,0)], which is not a walk | Report that there is no path | not executed | BackTrace.OriginShortcutExample | Mazes.Maze.FindPath |
