# j2048 turn engine in Dafny

This project models the turn engine of j2048, a 2048-style sliding-tile game on a 4×4 board, and proves properties of the model. It covers the small value types the engine works with, Direction and BoardLocation. It also covers the mutable store the engine drives: Tile objects, the TileGrid map and the game context that GamePanel implements. At the centre is GoodLogic's `turn`:

1. Check that some tile can move.
2. Sweep every line from the destination wall inward, sliding tiles and merging each at most once.
3. Add the merged values to the score.
4. Spawn one tile of value 2.
5. Announce a win, or failing that a loss.

The model has two layers.

- **The imperative layer follows the Java code step by step.**
  - `Tiles.Tile`, `Grids.TileGrid` and `Contexts.GameContext` are classes whose methods change their fields.
  - The loops of GoodLogic become `while` loops with invariants in module `Logic`.
  - Tiles are objects, so the turn's merged set is a `set<Tile>` of identities, as the Java `HashSet<Tile>` is.
- **The value layer specifies the imperative one.**
  - A board is a `map<Location, int>` (`Boards.Board`).
  - For a move toward direction d, the board splits into four lines. Each line is indexed by distance from the wall the tiles move to (`Boards.LineCell`).
  - On one line, `TileLines.Scan` is the walk of processTileAt, `TileLines.Resolve` is its effect, and `TileLines.Sweep` applies it to indices 0, 1, …, n−1.
  - `Sweep` is proved equal to an independent reference: drop the blanks (`Compact`), merge equal neighbours pairwise from the wall (`Collapse`), and pad with blanks.
  - The whole move is `Boards.SweepBoard`, and its score is `Boards.TurnGain`.
  - `Logic.ProcessTiles` is proved to leave exactly `SweepBoard` of the old board on the grid, and to raise the score by exactly `TurnGain`.
  - `Logic.Turn` is proved to do nothing when no move is possible. Otherwise it leaves `Spawn(SweepBoard(old board, d), choice)` and sends the end-of-game signals `EndSignals` of the new board.

The modules are:

| module | file | models |
|---|---|---|
| Wrappers | wrappers.dfy | `Option`, `Result` and `Outcome`, standing in for `null` returns and thrown exceptions |
| Directions | direction.dfy | Direction.java, with its unit steps |
| Locations | location.dfy | BoardLocation.java |
| TileLines | line.dfy | one line of a move: the walk, the sweep and its reference definition |
| Boards | board.dfy | boards as values, their lines, and the whole-move, legality, win, loss and spawn functions |
| Tiles | tile.dfy | Tile.java |
| Grids | grid.dfy | TileGrid.java, plus the `find` that GamePanel calls |
| Contexts | context.dfy | the grid and score half of GamePanel's TileGameContext |
| Logic | logic.dfy | GoodLogic.java |

Where the interface documentation and the code disagree, the model follows the code:

- GamePanel's `incrementScoreBy` and `setScore` accept any value. TileGameContext.java:50-52 and 102-103 say a negative score is rejected; the implementation does not check.
- GamePanel's `mergeTiles` has five parameters, and the mover survives it. It takes the new value and moves onto the target's cell. TileGameContext.java:62-77 declares four parameters and says the target remains. GoodLogic calls the five-parameter form.
- `moveTile` is not atomic. When the walk leaves the board, the tile has already been taken off the grid (`Contexts.GameContext.MoveTile`, case `TooFar`).
- The comment at GoodLogic.java:94-97 swaps EAST and WEST in the sign of `movementDirection`, names a `destinationPole` the code does not have, and misstates `destinationCoordinate` (1 instead of 0 or 3). The code is right: `Boards.DestinationWalls` proves that EAST and SOUTH run to the wall at 3 with step +1, and WEST and NORTH run to the wall at 0 with step −1.
- TileGrid.java has no `find`, although GamePanel.java:284 calls it. `Grids.TileGrid.Find` searches the locations in rank order. On a grid where no tile stands twice, which the model proves is kept, the result does not depend on the order.
- `getAllUnoccupiedLocations` returns a `List`, and GoodLogic.java:66 stores it in a `Set`. The model keeps the list and its x-major order, which is what the nested loops of TileGrid.java:61-73 produce.
- Direction.java has no `getX`/`getY`, and BoardLocation.java has no `hasAdjacentLocation` or `getAllAdjacentLocations`. All are rebuilt from BoardLocationTest.java: NORTH is (0,−1), EAST (+1,0), SOUTH (0,+1) and WEST (−1,0).

## Model

| member | source | states |
|---|---|---|
| Directions.Dx | j2048/test/j2048/BoardLocationTest.java:63-79 | the x-step is zero exactly for NORTH and SOUTH |
| Directions.Dy | j2048/test/j2048/BoardLocationTest.java:63-79 | the y-step is zero exactly for EAST and WEST |
| Directions.AllDirectionsExact | j2048/src/j2048/Direction.java:11-31 | `values()` lists every direction, four in all, none twice |
| Directions.UnitStep | j2048/src/j2048/GoodLogic.java:87-89 | each step has exactly one non-zero component, and it is ±1 |
| Locations.NewLocation | j2048/src/j2048/BoardLocation.java:42-54 | construction succeeds iff 0 ≤ x, y < 4 and keeps the coordinates; each failure is reported exactly when its check is the first to fail |
| Locations.CoordinatesRoundTrip | j2048/src/j2048/BoardLocation.java:96-107 | getX/getY give back the construction arguments |
| Locations.Adjacent | j2048/src/j2048/BoardLocation.java:81-89 | the neighbour is present iff (x+dx, y+dy) is on the board, and then it is that cell |
| Locations.HasAdjacent | j2048/test/j2048/BoardLocationTest.java:115-162 | true iff getAdjacentLocation gives a location |
| Locations.AdjacentAgreesWithConstructor | j2048/test/j2048/BoardLocationTest.java:55-101 | a neighbour exists iff constructing the shifted location succeeds, and it equals that location |
| Locations.AllAdjacent | j2048/test/j2048/BoardLocationTest.java:115-202 | getAllAdjacentLocations, the present neighbours in direction order; no contract of its own, its properties are stated by AllAdjacentExact and AllAdjacentSize |
| Locations.AllAdjacentExact | j2048/test/j2048/BoardLocationTest.java:182-202 | getAllAdjacentLocations holds exactly the present neighbours, none twice |
| Locations.AllAdjacentSize | j2048/test/j2048/BoardLocationTest.java:182-202 | its size is 4 minus one for each coordinate on a wall |
| Locations.Equals | j2048/src/j2048/BoardLocation.java:57-70 | equals holds iff the locations are the same value |
| Locations.EqualsIsEquivalence | j2048/test/j2048/BoardLocationTest.java:33-52 | equals is reflexive, symmetric and transitive |
| Locations.HashCode | j2048/src/j2048/BoardLocation.java:110-116 | hashCode as 31·(31+x)+y; no contract of its own, its properties are stated by HashCodeAgreesWithEquals |
| Locations.HashCodeAgreesWithEquals | j2048/src/j2048/BoardLocation.java:110-116 | equal locations hash equally, and on the board unequal ones never collide |
| Locations.RankInjective | j2048/src/j2048/TileGrid.java:64-66 | the x-major scan position determines the location |
| Tiles.Tile.constructor | j2048/src/j2048/Tile.java:14 | a new tile holds 0 |
| Tiles.Tile.SetValue | j2048/src/j2048/Tile.java:21-33 | afterwards the value is the one set, and only this tile changes |
| Grids.TileGrid.constructor | j2048/src/j2048/TileGrid.java:20-26 | a new grid is empty |
| Grids.TileGrid.At | j2048/src/j2048/TileGrid.java:38-43 | a tile is returned iff the location is occupied, and it is the tile stored there |
| Grids.TileGrid.OccupiedLocations | j2048/src/j2048/TileGrid.java:51-53 | exactly the locations at which a tile is found |
| Grids.TileGrid.UnoccupiedLocations | j2048/src/j2048/TileGrid.java:61-73 | the result is the x-major list of free cells; a location is in it iff no tile stands there |
| Boards.FreeCellsExact | j2048/src/j2048/TileGrid.java:51-73 | the free list is exactly the complement of the occupied cells, in strictly increasing scan order, and the two together number 16 |
| Grids.TileGrid.Put | j2048/src/j2048/TileGrid.java:86-94 | the location now holds the tile; every other location is unchanged |
| Grids.TileGrid.Remove | j2048/src/j2048/TileGrid.java:106-111 | returns the previous occupant, if any, and leaves the cell empty, so a second remove returns none |
| Grids.TileGrid.Find | j2048/src/j2048/jgamegui/GamePanel.java:284-287 | a location is returned iff the tile is on the grid, the tile stands there, and on a grid where no tile stands twice it is the tile's unique location |
| Grids.TileGrid.LocationOfTileAt | j2048/src/j2048/jgamegui/GamePanel.java:284 | on a grid where no tile stands twice, the tile at l is found at l |
| Grids.MarksAfterMove | j2048/src/j2048/GoodLogic.java:130-137 | moving a tile, merging or not, carries its merge mark to the destination and leaves all other marks alone |
| Contexts.GameContext.constructor | j2048/src/j2048/jgamegui/GamePanel.java:196-309 | a fresh context: empty grid, score and best 0, no signals |
| Contexts.GameContext.AddTile | j2048/src/j2048/jgamegui/GamePanel.java:218-230 | the tile is put at the location; nothing else on the grid changes |
| Contexts.GameContext.SetScore | j2048/src/j2048/jgamegui/GamePanel.java:370-375 | score becomes s, best becomes max(best, s), so best never falls and stays ≥ score |
| Contexts.GameContext.IncrementScoreBy | j2048/src/j2048/jgamegui/GamePanel.java:242-247 | returns old score + value, the new score, with best updated as setScore does |
| Contexts.GameContext.WinGame | j2048/src/j2048/jgamegui/GamePanel.java:305-308 | records one Won signal, scores untouched |
| Contexts.GameContext.LoseGame | j2048/src/j2048/jgamegui/GamePanel.java:249-252 | records one Lost signal, scores untouched |
| Contexts.GameContext.MoveTile | j2048/src/j2048/jgamegui/GamePanel.java:274-298 | a tile not on the grid fails with NotInGrid and changes nothing; a walk off the board fails with TooFar after the tile was removed; otherwise the tile leaves its cell and replaces whatever stood `count` steps away |
| Contexts.GameContext.MergeTiles | j2048/src/j2048/jgamegui/GamePanel.java:254-272 | the mover gets the new value, then moves as moveTile does, replacing the target on its cell |
| Contexts.Walk | j2048/src/j2048/jgamegui/GamePanel.java:290-296 | the count-step walk of moveTile, failing when a step has no neighbour; no contract of its own, its properties are stated by WalkEndsAt and WalkAlongLine |
| Contexts.WalkEndsAt | j2048/src/j2048/jgamegui/GamePanel.java:290-296 | a walk of count steps ends at (x+count·dx, y+count·dy), and fails iff that cell is off the board |
| Contexts.WalkAlongLine | j2048/src/j2048/jgamegui/GamePanel.java:290-296 | along a line of a move, s steps from depth p reach depth p−s, and leave the board iff s > p |
| Boards.LineCellOf | j2048/src/j2048/GoodLogic.java:100-107 | each board cell has exactly one line and depth for a move, and back |
| Boards.AdjacentAlongLine | j2048/src/j2048/GoodLogic.java:121-123 | the step toward d from depth p is depth p−1 on the same line, and there is none at depth 0 |
| Boards.ProcessingOrder | j2048/src/j2048/GoodLogic.java:87-104 | the coordinate z of pass i selects exactly the cells at distance i from the destination wall |
| Boards.DestinationWalls | j2048/src/j2048/GoodLogic.java:87-97 | EAST/SOUTH run toward the wall at 3 with step +1, WEST/NORTH toward 0 with step −1 (the comment at lines 94-97 swaps EAST and WEST and misstates destinationCoordinate) |
| Boards.BoardOfLines | j2048/src/j2048/GoodLogic.java:100-108 | the lines of a board determine the board again |
| Boards.LinesOfBoard | j2048/src/j2048/GoodLogic.java:100-108 | any four lines are the lines of the board they describe |
| TileLines.Scan | j2048/src/j2048/GoodLogic.java:121-143 | the walk stops at or before the tile; it ends with a merge only on an equal unmerged tile with all cells between empty; without a merge, the cell before the stop is the wall or a blocking tile |
| TileLines.ScanFrom | j2048/src/j2048/GoodLogic.java:121-143 | conversely, those conditions determine the walk's result |
| Boards.ScanOnBoard | j2048/src/j2048/GoodLogic.java:121-143 | the same characterisation, read off the board and the merged set |
| TileLines.Resolve | j2048/src/j2048/GoodLogic.java:145-159 | processing a tile changes only cells at or nearer the wall than it |
| Boards.ProcessedAt | j2048/src/j2048/GoodLogic.java:111-160 | processTileAt on values: the board and merged cells after one tile is processed; no contract of its own, its properties are stated by ProcessedAtLines and Logic.ProcessedAtOutcome, and Logic.ProcessTileAt is proved against it |
| Boards.ProcessedAtLines | j2048/src/j2048/GoodLogic.java:111-160 | processing the tile at l resolves its line at its depth and leaves every other line alone |
| Boards.ProcessedAtPositive | j2048/src/j2048/GoodLogic.java:145-159 | processing a tile keeps every value on a positive board positive: the tile keeps or doubles its value |
| Boards.SweepBoard | j2048/src/j2048/GoodLogic.java:85-109 | processTiles on values: every line swept toward the wall; no contract of its own, its properties are stated by SweepBoardLines, SweepBoardConserves, SweepBoardTileValues and MovePossibleIffChanges, and Logic.ProcessTiles is proved against it |
| TileLines.Sweep | j2048/src/j2048/GoodLogic.java:99-108 | sweeping the first n cells leaves the cells beyond n as they were |
| TileLines.SweepShape | j2048/src/j2048/GoodLogic.java:99-143 | after n steps, the swept prefix is collapsed toward the wall, then come blanks, then the untouched rest |
| TileLines.SweepIsCollapse | j2048/src/j2048/GoodLogic.java:99-143 | a full sweep equals the reference: the tiles in order, equal neighbours merged pairwise from the wall, then blanks |
| TileLines.SweepMergedTotal | j2048/src/j2048/GoodLogic.java:99-159 | the score of a full sweep is the sum of the merged cells of the reference collapse |
| TileLines.ThreeEqualTiles | j2048/src/j2048/GoodLogic.java:130-133 | three equal tiles give one doubled, merged tile at the wall with an unmerged one behind it |
| TileLines.CollapseCountsTiles | j2048/src/j2048/GoodLogic.java:130-137 | each merge consumes exactly two tiles, so tiles before = tiles after + merges |
| TileLines.SweepConserves | j2048/src/j2048/GoodLogic.java:145-159 | a sweep preserves the sum of the values on the line |
| Boards.SweepBoardConserves | j2048/src/j2048/GoodLogic.java:145-159 | on the board, each line's sum of values is unchanged by the move |
| TileLines.ResolveMergedTotal | j2048/src/j2048/GoodLogic.java:156-158 | processing a tile adds to the line's merged total exactly the score processTileAt adds |
| TileLines.SweepChangesIffCanMove | j2048/src/j2048/GoodLogic.java:30-43 | a sweep changes a line iff some tile has an empty or equal neighbour toward the wall |
| TileLines.SweepTileValues | j2048/src/j2048/GoodLogic.java:156 | a sweep produces only powers of two ≥ 2 from such values |
| Boards.MovePossibleByLine | j2048/src/j2048/GoodLogic.java:30-43 | isMovePossible holds iff some line of the move can change |
| Boards.MovePossibleIffChanges | j2048/src/j2048/GoodLogic.java:30-49 | isMovePossible holds iff the sweep changes the board |
| Boards.GameLostIffStuck | j2048/src/j2048/GoodLogic.java:11-18 | the game is lost iff no direction's sweep changes the board |
| Boards.SweepBoardTileValues | j2048/src/j2048/GoodLogic.java:156 | a move keeps every board value a power of two ≥ 2 |
| Boards.TurnGain | j2048/src/j2048/GoodLogic.java:156-158 | the score a move earns, the merged totals of the swept lines; no contract of its own, its properties are stated by TurnGainNonNegative and TileLines.SweepMergedTotal, and Logic.ProcessTiles is proved against it |
| Boards.TurnGainNonNegative | j2048/src/j2048/GoodLogic.java:156-158 | on tile values, a move's score is never negative |
| Boards.TurnKeepsTileValues | j2048/src/j2048/GoodLogic.java:53-55 | a turn, sweep then spawn, keeps every board value a power of two ≥ 2 |
| Boards.SpawnLocation | j2048/src/j2048/GoodLogic.java:71-77 | the iterator lands on a free cell, the chosen index when it is in range |
| Boards.Spawn | j2048/src/j2048/GoodLogic.java:65-83 | a full board is unchanged; otherwise exactly one free cell gains a 2 |
| Boards.SpawnFillsOneCell | j2048/src/j2048/GoodLogic.java:65-83 | the board is unchanged iff it has no free cell, and spawning keeps tile values |
| Boards.PassStart | j2048/src/j2048/GoodLogic.java:100-103 | at the start of pass i, each line is swept to depth i, or to i+1 where cell i is free |
| Boards.PassStep | j2048/src/j2048/GoodLogic.java:103-106 | processing a depth-i location moves its line from depth i to i+1 |
| Boards.TotalMergedUpdate | j2048/src/j2048/GoodLogic.java:156-158 | replacing one line changes the board's merged total by the difference of that line's totals |
| Logic.IsMovePossible | j2048/src/j2048/GoodLogic.java:30-43 | true iff some tile has a neighbour toward d that is free or equal |
| Logic.IsGameWon | j2048/src/j2048/GoodLogic.java:20-28 | true iff some tile is ≥ 2048 |
| Logic.IsGameLost | j2048/src/j2048/GoodLogic.java:11-18 | true iff no direction allows a move |
| Logic.EndSignals | j2048/src/j2048/GoodLogic.java:57-61 | at most one signal; Won iff the game is won; Lost iff it is not won and is lost |
| Logic.Announce | j2048/src/j2048/GoodLogic.java:57-61 | appends exactly EndSignals of the board; scores untouched |
| Logic.FindDestination | j2048/src/j2048/GoodLogic.java:114-143 | the walk's steps, destination and merge flag on the grid: the cells passed are empty; a merge lands on an equal tile not yet merged; otherwise the walk stopped at the wall or before a blocking tile; on a merge both tiles join the merged set |
| Logic.ProcessTileAt | j2048/src/j2048/GoodLogic.java:111-160 | the grid and its merged cells end as ProcessedAt describes, the score rises by the merge's doubled value, and best becomes max(old best, new score) as setScore makes it |
| Logic.DestinationScan | j2048/src/j2048/GoodLogic.java:114-143 | what the walk reports on the grid is the line scan of the board the grid shows, with the merged tiles as marks |
| Logic.MoveToDestination | j2048/src/j2048/GoodLogic.java:145-159 | a tile whose walk ended away from its cell ends, with its mark, where ProcessedAt puts it; the score rises by the doubled value exactly on a merge, and best becomes max(old best, new score) |
| Logic.MoveAlong | j2048/src/j2048/GoodLogic.java:150-159 | moveTile, or mergeTiles plus incrementScoreBy: the tile leaves its cell for the destination, with its value doubled on a merge; the score rises by the doubled value, and best becomes max(old best, new score), so it changes only on a merge |
| Logic.ProcessedAtOutcome | j2048/src/j2048/GoodLogic.java:145-159 | the score gain is the doubled value exactly on a merge; a tile whose walk ends on its own cell stays, otherwise it moves there, doubled on a merge, carrying its mark |
| Logic.VisitTile | j2048/src/j2048/GoodLogic.java:104-106 | one visit in a pass advances the mid-pass state and keeps score = base + merged total; on positive values the score does not fall and best stays max(old best, score) |
| Logic.ProcessPass | j2048/src/j2048/GoodLogic.java:102-107 | one pass, over a snapshot of the occupied cells, sweeps every line one cell further; on positive values the score does not fall and best ends as max(old best, new score) |
| Logic.PassVisit | j2048/src/j2048/GoodLogic.java:103-106 | one turn of the inner for-each: a location i cells from the wall is processed, any other is skipped, and the mid-pass state and score accounting are kept |
| Logic.ProcessTiles | j2048/src/j2048/GoodLogic.java:85-109 | the grid ends as SweepBoard of the old board, the score rises by exactly TurnGain, best never falls, and on positive values best ends exactly as max(old best, new score) |
| Logic.RunPasses | j2048/src/j2048/GoodLogic.java:100-108 | the outer loop: after pass i every line is swept i + 1 cells deep, the score is the merged total so far, and on positive values best is max(old best, score) |
| Logic.BestTracksTrans | j2048/src/j2048/jgamegui/GamePanel.java:370-375 | two runs of non-decreasing increments, each leaving best at max(best before, score), compose into one |
| Logic.SpawnNewTile | j2048/src/j2048/GoodLogic.java:65-83 | the grid's values become Spawn(old values, choice); the new tile is fresh, so no tile stands twice |
| Logic.PickLocation | j2048/src/j2048/GoodLogic.java:72-77 | the iterator walk stops on the choice-th free location, or on the last one when choice runs past the end |
| Logic.Turn | j2048/src/j2048/GoodLogic.java:46-63 | returns whether a move was possible. If not, nothing changes. If so, the board becomes Spawn(SweepBoard(old, d), choice), the score rises by TurnGain, and EndSignals of the new board are sent. Best never falls, and on positive values it ends exactly as max(old best, new score) |

## Left out

- The GUI is left out: GridPanel, TileView, ReplayPanel, the J2048 classes, and GamePanel's layout, score displays, view calls (`grid.addTileAt`, `grid.mergeTile`, `grid.moveTile`) and `doReplay`. So `Contexts.GameContext.WinGame` and `LoseGame` only record a signal.
- GamePanel's `spawnTwo` start-up routine and its key-polling frame listener are input and start-up code, not part of the engine.
- `Math.random` at GoodLogic.java:71 becomes the `choice` argument of `Logic.SpawnNewTile` and `Logic.Turn`. Any natural number is accepted; the iterator's `hasNext` bound clamps it to the last free cell, as the code does.
- The iteration order of `getAllOccupiedLocations` is that of a `HashMap` key set, which the program does not fix. The loops of `Logic.ProcessPass`, `Logic.IsMovePossible` and `Logic.IsGameWon` pick the next location arbitrarily, and their contracts hold for every order.
- Logic.ProcessTiles: best is pinned to max(old best, new score) only for boards whose values are all positive, which every board of a game is. With a zero or negative value the score could fall mid-turn, and best would keep an intermediate peak the contract does not name; for such boards only best ≥ old best is stated.
- Logic.Turn: the same condition on best as for Logic.ProcessTiles, for the same reason.
- `Logic.ProcessTileAt` and `Logic.MoveAlong` ignore the failure outcome of `moveTile` and `mergeTiles`, because GoodLogic does so. The model proves that the walk processTileAt asks for always stays on the board.
- Java's 32-bit `int` is not modelled: all arithmetic, including scores, hash codes and doubled values, is unbounded. Scores and tile values on a 4×4 board stay far below 2^31.
- `null` arguments cannot occur: locations, tiles and directions are non-null types. So the `IllegalArgumentException`s for `null` in TileGrid, GamePanel and BoardLocation's callers are not modelled.
- `Contexts.GameContext.IncrementScoreBy`, `SetScore`: no check for a negative score, because GamePanel performs none, although the interface documentation asks for one.
- `getScore` and `getGrid` are plain field reads (`ctx.score`, `ctx.grid`). `TurnPerformer`, the stub `Logic` and `SampleBadLogic` are not part of this model.
