/** GoodLogic: one turn of the game, performed through the game context. */
module Logic {
  import opened Wrappers
  import opened Directions
  import opened Locations
  import opened TileLines
  import opened Boards
  import opened Tiles
  import opened Grids
  import opened Contexts

  /** The lines of the grid for a move toward d, marking the tiles of the merged set. */
  ghost function GridLines(g: TileGrid, merged: set<Tile>, d: Direction): seq<seq<Cell>>
    reads g, g.tiles.Values
  {
    Lines(g.Values(), g.MergedLocations(merged), d)
  }

  /** isGameLost: no direction allows a move. */
  method IsGameLost(ctx: GameContext) returns (lost: bool)
    ensures lost == GameLost(ctx.grid.Values())
  {
    var n := 0;
    while n < |AllDirections|
      invariant 0 <= n <= |AllDirections|
      invariant forall m :: 0 <= m < n ==> !MovePossible(ctx.grid.Values(), AllDirections[m])
    {
      var possible := IsMovePossible(AllDirections[n], ctx);
      if possible {
        return false;
      }
      n := n + 1;
    }
    forall d: Direction
      ensures !MovePossible(ctx.grid.Values(), d)
    {
      AllDirectionsExact(d);
    }
    return true;
  }

  /** isGameWon: some tile has reached the winning value. */
  method IsGameWon(ctx: GameContext) returns (won: bool)
    ensures won == GameWon(ctx.grid.Values())
  {
    var locs := ctx.grid.OccupiedLocations();
    while locs != {}
      invariant locs <= ctx.grid.tiles.Keys
      invariant forall l :: l in ctx.grid.tiles && l !in locs ==> ctx.grid.tiles[l].value < WinningValue
      decreases |locs|
    {
      var loc :| loc in locs;
      if ctx.grid.At(loc).value.value >= WinningValue {
        assert loc in ctx.grid.Values() && ctx.grid.Values()[loc] >= WinningValue;
        return true;
      }
      locs := locs - {loc};
    }
    return false;
  }

  /** isMovePossible: some tile has a neighbour toward d that is free or holds the same value. */
  method IsMovePossible(d: Direction, ctx: GameContext) returns (possible: bool)
    ensures possible == MovePossible(ctx.grid.Values(), d)
  {
    var locs := ctx.grid.OccupiedLocations();
    while locs != {}
      invariant locs <= ctx.grid.tiles.Keys
      invariant forall l :: l in ctx.grid.tiles && l !in locs ==> !MovableAt(ctx.grid.Values(), d, l)
      decreases |locs|
    {
      var loc :| loc in locs;
      var here := ctx.grid.At(loc).value;
      if HasAdjacent(loc, d) {
        var adjacent := Adjacent(loc, d).value;
        var there := ctx.grid.At(adjacent);
        if there.None? || there.value.value == here.value {
          assert MovableAt(ctx.grid.Values(), d, loc);
          return true;
        }
      }
      locs := locs - {loc};
    }
    return false;
  }

  /** turn: nothing happens when no tile can move toward d. Otherwise the tiles are swept,
      a 2 appears on a free cell when there is one, and the game is announced won when a
      tile has reached the winning value, or lost when no further move is possible. */
  method Turn(d: Direction, ctx: GameContext, choice: nat) returns (moved: bool)
    requires ctx.Valid()
    modifies ctx, ctx.grid, ctx.grid.tiles.Values
    ensures ctx.Valid()
    ensures moved == MovePossible(old(ctx.grid.Values()), d)
    ensures !moved ==> ctx.grid.tiles == old(ctx.grid.tiles) && ctx.grid.Values() == old(ctx.grid.Values())
                       && ctx.score == old(ctx.score) && ctx.best == old(ctx.best) && ctx.signals == old(ctx.signals)
    ensures moved ==> ctx.grid.Values() == Spawn(SweepBoard(old(ctx.grid.Values()), d), choice)
    ensures moved ==> ctx.score == old(ctx.score) + TurnGain(old(ctx.grid.Values()), d)
    ensures moved ==> ctx.signals == old(ctx.signals) + EndSignals(ctx.grid.Values())
    ensures ctx.best >= old(ctx.best)
    ensures PositiveValues(old(ctx.grid.Values())) ==> ctx.best == if ctx.score > old(ctx.best) then ctx.score else old(ctx.best)
  {
    ghost var before := ctx.grid.Values();
    var possible := IsMovePossible(d, ctx);
    if !possible {
      return false;
    }
    ProcessTiles(d, ctx);
    ghost var swept, score := ctx.grid.Values(), ctx.score;
    assert swept == SweepBoard(before, d) && score == old(ctx.score) + TurnGain(before, d);
    SpawnNewTile(ctx, choice);
    ghost var after := ctx.grid.Values();
    assert after == Spawn(swept, choice) && ctx.score == score;
    Announce(ctx);
    return true;
  }

  /** What the end of a turn announces: a win takes precedence over a loss. */
  function EndSignals(b: Board): (s: seq<Signal>)
    ensures |s| <= 1
    ensures Won in s <==> GameWon(b)
    ensures Lost in s <==> !GameWon(b) && GameLost(b)
  {
    if GameWon(b) then [Won] else if GameLost(b) then [Lost] else []
  }

  /** The end of turn: winGame when a tile has reached the winning value, otherwise loseGame
      when no further move is possible. */
  method Announce(ctx: GameContext)
    modifies ctx
    ensures ctx.signals == old(ctx.signals) + EndSignals(ctx.grid.Values())
    ensures ctx.score == old(ctx.score) && ctx.best == old(ctx.best)
    ensures ctx.grid.Values() == old(ctx.grid.Values())
  {
    var won := IsGameWon(ctx);
    if won {
      ctx.WinGame();
    } else {
      var lost := IsGameLost(ctx);
      if lost {
        ctx.LoseGame();
      }
    }
  }

  /** spawnNewTile: a new tile of value 2 on the free location the random index picks;
      the iterator stops at the last free location when the index is larger. */
  method SpawnNewTile(ctx: GameContext, choice: nat)
    requires ctx.grid.NoTileTwice()
    modifies ctx.grid
    ensures ctx.grid.NoTileTwice()
    ensures ctx.grid.Values() == Spawn(old(ctx.grid.Values()), choice)
    ensures forall t :: t in ctx.grid.tiles.Values ==> t in old(ctx.grid.tiles.Values) || fresh(t)
    ensures ctx.score == old(ctx.score) && ctx.best == old(ctx.best) && ctx.signals == old(ctx.signals)
  {
    ghost var V := ctx.grid.Values();
    var open := ctx.grid.UnoccupiedLocations();
    assert V.Keys == ctx.grid.tiles.Keys;
    if |open| == 0 {
      return;
    }
    var location := PickLocation(open, choice);
    var tile := new Tile();
    tile.SetValue(SpawnValue);
    ctx.AddTile(tile, location);
    assert ctx.grid.Values() == V[location := SpawnValue];
  }

  /** The iterator walk of spawnNewTile: advance choice times over the free locations, but
      never past the last one. */
  method PickLocation(open: seq<Location>, choice: nat) returns (location: Location)
    requires open != []
    ensures location == SpawnLocation(open, choice)
  {
    location := open[0];
    var i := 0;
    while i < choice && i + 1 < |open|
      invariant 0 <= i < |open| && i <= choice
      invariant location == open[i]
      invariant i < choice ==> i + 1 < |open| || location == open[|open| - 1]
    {
      location := open[i + 1];
      i := i + 1;
    }
  }

  /** The walk of processTileAt: from loc, step toward d over empty cells; stop at the wall,
      behind a tile that cannot be merged into, or on an equal tile that has not merged yet
      this turn, which is a merge. */
  method FindDestination(grid: TileGrid, loc: Location, d: Direction, merged: set<Tile>, ghost r: int, ghost k: int)
    returns (destination: Location, steps: int, merge: bool, there: Option<Tile>, merged': set<Tile>)
    requires loc in grid.tiles && r == LineOf(d, loc) && k == DepthOf(d, loc)
    ensures 0 <= steps <= k
    ensures destination == LineCell(d, r, k - steps)
    ensures forall q :: k - steps + (if merge then 1 else 0) <= q < k ==> LineCell(d, r, q) !in grid.tiles
    ensures merge ==> steps > 0 && there.Some? && destination in grid.tiles && grid.tiles[destination] == there.value
                      && there.value.value == grid.tiles[loc].value && there.value !in merged
    ensures !merge && steps < k ==> Blocks(grid, LineCell(d, r, k - steps - 1), grid.tiles[loc].value, merged)
    ensures merged' == if merge then merged + {grid.tiles[loc], there.value} else merged
  {
    LineCellOf(d, loc);
    merged' := merged;

    var here := grid.At(loc).value;
    there := None;
    steps := 0;
    merge := false;
    destination := loc;
    while HasAdjacent(destination, d)
      invariant 0 <= steps <= k
      invariant destination == LineCell(d, r, k - steps)
      invariant forall q :: k - steps <= q < k ==> LineCell(d, r, q) !in grid.tiles
      invariant !merge && merged' == merged
      decreases k - steps
    {
      AdjacentAlongLine(d, r, k - steps);
      var adj := Adjacent(destination, d).value;
      there := grid.At(adj);
      if there.None? {
        steps := steps + 1;
        destination := adj;
      } else if there.value.value == here.value && there.value !in merged' {
        merged' := merged' + {here, there.value};
        steps := steps + 1;
        merge := true;
        destination := adj;
        assert destination == LineCell(d, r, k - steps) && grid.tiles[destination] == there.value;
        break;
      } else {
        assert Blocks(grid, LineCell(d, r, k - steps - 1), here.value, merged);
        break;
      }
    }
    AdjacentAlongLine(d, r, k - steps);
  }

  /** What FindDestination reports is the scan of the tile's line on the board the grid
      shows, with the merged tiles as its marks. */
  lemma DestinationScan(grid: TileGrid, merged: set<Tile>, V: Board, M: set<Location>,
                        loc: Location, d: Direction, steps: int, merge: bool)
    requires V == grid.Values() && M == grid.MergedLocations(merged)
    requires loc in grid.tiles && 0 <= steps <= DepthOf(d, loc)
    requires forall q :: DepthOf(d, loc) - steps + (if merge then 1 else 0) <= q < DepthOf(d, loc) ==>
               LineCell(d, LineOf(d, loc), q) !in grid.tiles
    requires merge ==> steps > 0 && LineCell(d, LineOf(d, loc), DepthOf(d, loc) - steps) in grid.tiles
                       && grid.tiles[LineCell(d, LineOf(d, loc), DepthOf(d, loc) - steps)].value == grid.tiles[loc].value
                       && grid.tiles[LineCell(d, LineOf(d, loc), DepthOf(d, loc) - steps)] !in merged
    requires !merge && steps < DepthOf(d, loc) ==> Blocks(grid, LineCell(d, LineOf(d, loc), DepthOf(d, loc) - steps - 1), grid.tiles[loc].value, merged)
    ensures loc in V && Scan(LineAt(V, M, d, LineOf(d, loc)), V[loc], DepthOf(d, loc)) == (DepthOf(d, loc) - steps, merge)
  {
    assert forall l :: l in V <==> l in grid.tiles;
    assert forall l :: l in grid.tiles ==> V[l] == grid.tiles[l].value && (l in M <==> grid.tiles[l] in merged);
    ScanOnBoard(V, M, d, LineOf(d, loc), DepthOf(d, loc), DepthOf(d, loc) - steps, merge, grid.tiles[loc].value);
  }

  /** The tile at l stops a walking tile of value v: it is there, and it has another value
      or has already merged this turn. */
  ghost predicate Blocks(grid: TileGrid, l: Location, v: int, merged: set<Tile>)
    reads grid, grid.tiles.Values
  {
    l in grid.tiles && (grid.tiles[l].value != v || grid.tiles[l] in merged)
  }

  /** From (score0, best0) on board V0 to (score, best) on board V: when V0 holds only
      positive values, so does V, the score has not fallen, and best is the larger of best0
      and the score, as setScore leaves it after every increment. */
  ghost predicate BestTracks(V0: Board, score0: int, best0: int, V: Board, score: int, best: int)
  {
    PositiveValues(V0) ==> PositiveValues(V) && score >= score0 && best == if score > best0 then score else best0
  }

  /** Two stretches of increments make one. */
  lemma BestTracksTrans(V0: Board, score0: int, best0: int, V1: Board, score1: int, best1: int,
                         V2: Board, score2: int, best2: int)
    requires BestTracks(V0, score0, best0, V1, score1, best1)
    requires BestTracks(V1, score1, best1, V2, score2, best2)
    ensures BestTracks(V0, score0, best0, V2, score2, best2)
  {
  }

  /** processTiles: pass i visits the tiles i cells away from the destination wall, nearest
      first, each as processTileAt does, sharing one merged set across the whole move. The
      outcome is the swept board, and the score grows by the value of every merge. */
  method ProcessTiles(d: Direction, ctx: GameContext)
    requires ctx.Valid()
    modifies ctx, ctx.grid, ctx.grid.tiles.Values
    ensures ctx.Valid()
    ensures ctx.grid.tiles.Values <= old(ctx.grid.tiles.Values)
    ensures ctx.grid.Values() == SweepBoard(old(ctx.grid.Values()), d)
    ensures ctx.score == old(ctx.score) + TurnGain(old(ctx.grid.Values()), d)
    ensures ctx.best >= old(ctx.best)
    ensures PositiveValues(old(ctx.grid.Values())) ==> ctx.best == if ctx.score > old(ctx.best) then ctx.score else old(ctx.best)
    ensures ctx.signals == old(ctx.signals)
  {
    ghost var V0 := ctx.grid.Values();
    ghost var start := Lines(V0, {}, d);
    forall r | 0 <= r < BoardSize
      ensures Unmerged(start[r])
    {
      BoardLinesUnmerged(V0, d, r);
    }
    TotalMergedUnmarked(start);

    var horizontal := d == East || d == West;
    var movement := if horizontal then Dx(d) else Dy(d);
    var destinationCoordinate := (movement + 1) / 2 * (BoardSize - 1);
    assert horizontal == IsHorizontal(d) && movement == MovementDirection(d);
    assert destinationCoordinate == DestinationCoordinate(d);
    var processed := RunPasses(d, horizontal, movement, destinationCoordinate, ctx, start, V0);
    SweepFinished(ctx.grid.Values(), ctx.grid.MergedLocations(processed), V0, d, start);
  }

  /** The outer loop of processTiles: pass i processes the tiles i cells from the wall, and
      after it every line is swept i + 1 cells deep. */
  method RunPasses(d: Direction, horizontal: bool, movement: int, destinationCoordinate: int, ctx: GameContext,
                   ghost start: seq<seq<Cell>>, ghost V0: Board)
    returns (processed: set<Tile>)
    requires horizontal == IsHorizontal(d) && movement == MovementDirection(d)
    requires destinationCoordinate == DestinationCoordinate(d)
    requires ctx.Valid() && V0 == ctx.grid.Values() && start == Lines(V0, {}, d)
    requires forall r :: 0 <= r < BoardSize ==> Unmerged(start[r])
    requires TotalMerged(start) == 0
    modifies ctx, ctx.grid, ctx.grid.tiles.Values
    ensures ctx.Valid()
    ensures ctx.grid.tiles.Values <= old(ctx.grid.tiles.Values)
    ensures forall r :: 0 <= r < BoardSize ==> GridLines(ctx.grid, processed, d)[r] == Sweep(start[r], BoardSize)
    ensures ctx.score == old(ctx.score) + TotalMerged(GridLines(ctx.grid, processed, d))
    ensures ctx.best >= old(ctx.best)
    ensures BestTracks(V0, old(ctx.score), old(ctx.best), ctx.grid.Values(), ctx.score, ctx.best)
    ensures ctx.signals == old(ctx.signals)
  {
    ghost var score0, best0, signals0 := ctx.score, ctx.best, ctx.signals;
    ghost var tiles0 := ctx.grid.tiles.Values;
    processed := {};
    assert ctx.grid.MergedLocations(processed) == {};
    assert BestTracks(V0, score0, best0, V0, score0, best0);
    var i := 0;
    while i < BoardSize
      invariant 0 <= i <= BoardSize
      invariant ctx.Valid()
      invariant ctx.grid.tiles.Values <= tiles0
      invariant forall r :: 0 <= r < BoardSize ==> GridLines(ctx.grid, processed, d)[r] == Sweep(start[r], i)
      invariant ctx.score == score0 + TotalMerged(GridLines(ctx.grid, processed, d))
      invariant ctx.best >= best0
      invariant BestTracks(V0, score0, best0, ctx.grid.Values(), ctx.score, ctx.best)
      invariant ctx.signals == signals0
    {
      var z := destinationCoordinate - movement * i;
      ghost var V1, score1, best1 := ctx.grid.Values(), ctx.score, ctx.best;
      processed := ProcessPass(d, horizontal, z, i, processed, ctx, start, score0, V1);
      BestTracksTrans(V0, score0, best0, V1, score1, best1, ctx.grid.Values(), ctx.score, ctx.best);
      i := i + 1;
    }
  }

  /** Once every line of a board is swept all the way, the board is the swept board of the
      board the turn started from, and its merge marks count the turn's gain. */
  lemma SweepFinished(b: Board, ml: set<Location>, b0: Board, d: Direction, start: seq<seq<Cell>>)
    requires start == Lines(b0, {}, d)
    requires forall r :: 0 <= r < BoardSize ==> Lines(b, ml, d)[r] == Sweep(start[r], BoardSize)
    ensures b == SweepBoard(b0, d)
    ensures TotalMerged(Lines(b, ml, d)) == TurnGain(b0, d)
  {
    assert Lines(b, ml, d) == SweptLines(start);
    BoardOfLines(b, ml, d);
  }

  /** One pass of processTiles: every location occupied when the pass starts whose
      coordinate along the move is z, that is, the tiles i cells from the wall, is processed.
      Afterwards every line is swept one cell further. */
  method ProcessPass(d: Direction, horizontal: bool, z: int, i: int, merged: set<Tile>, ctx: GameContext,
                     ghost start: seq<seq<Cell>>, ghost base: int, ghost V0: Board)
    returns (merged': set<Tile>)
    requires 0 <= i < BoardSize && Shaped(start)
    requires horizontal == IsHorizontal(d) && z == DestinationCoordinate(d) - MovementDirection(d) * i
    requires ctx.Valid()
    requires forall r :: 0 <= r < BoardSize ==> Unmerged(start[r])
    requires forall r :: 0 <= r < BoardSize ==> GridLines(ctx.grid, merged, d)[r] == Sweep(start[r], i)
    requires ctx.score == base + TotalMerged(GridLines(ctx.grid, merged, d))
    requires V0 == ctx.grid.Values()
    modifies ctx, ctx.grid, ctx.grid.tiles.Values
    ensures ctx.Valid()
    ensures ctx.grid.tiles.Values <= old(ctx.grid.tiles.Values)
    ensures forall r :: 0 <= r < BoardSize ==> GridLines(ctx.grid, merged', d)[r] == Sweep(start[r], i + 1)
    ensures ctx.score == base + TotalMerged(GridLines(ctx.grid, merged', d))
    ensures ctx.best >= old(ctx.best)
    ensures BestTracks(V0, old(ctx.score), old(ctx.best), ctx.grid.Values(), ctx.score, ctx.best)
    ensures ctx.signals == old(ctx.signals)
  {
    ghost var tiles0, score0, best0, signals0 := ctx.grid.tiles.Values, ctx.score, ctx.best, ctx.signals;
    merged' := merged;
    var todo := ctx.grid.OccupiedLocations();
    PassStart(ctx.grid.Values(), ctx.grid.MergedLocations(merged), start, d, i);
    assert BestTracks(V0, score0, best0, V0, score0, best0);
    while todo != {}
      invariant ctx.Valid()
      invariant ctx.grid.tiles.Values <= tiles0
      invariant MidPass(GridLines(ctx.grid, merged', d), start, d, i, todo)
      invariant forall r :: 0 <= r < BoardSize && LineCell(d, r, i) in todo ==> Sweep(start[r], i)[i].Full?
      invariant ctx.score == base + TotalMerged(GridLines(ctx.grid, merged', d))
      invariant ctx.best >= best0
      invariant BestTracks(V0, score0, best0, ctx.grid.Values(), ctx.score, ctx.best)
      invariant ctx.signals == signals0
      decreases |todo|
    {
      var loc :| loc in todo;
      merged' := PassVisit(loc, d, horizontal, z, i, merged', ctx, start, todo, base, V0, score0, best0);
      todo := todo - {loc};
    }
  }

  /** One turn of the inner for-each of processTiles: the location is processed when its
      coordinate along the move is z, that is, when it lies i cells from the wall, and is
      skipped otherwise. */
  method PassVisit(loc: Location, d: Direction, horizontal: bool, z: int, i: int, merged: set<Tile>, ctx: GameContext,
                   ghost start: seq<seq<Cell>>, ghost todo: set<Location>, ghost base: int,
                   ghost V0: Board, ghost score0: int, ghost best0: int)
    returns (merged': set<Tile>)
    requires 0 <= i < BoardSize && Shaped(start) && loc in todo
    requires horizontal == IsHorizontal(d) && z == DestinationCoordinate(d) - MovementDirection(d) * i
    requires ctx.Valid()
    requires forall r :: 0 <= r < BoardSize ==> Unmerged(start[r])
    requires MidPass(GridLines(ctx.grid, merged, d), start, d, i, todo)
    requires forall r :: 0 <= r < BoardSize && LineCell(d, r, i) in todo ==> Sweep(start[r], i)[i].Full?
    requires ctx.score == base + TotalMerged(GridLines(ctx.grid, merged, d))
    requires ctx.best >= best0
    requires BestTracks(V0, score0, best0, ctx.grid.Values(), ctx.score, ctx.best)
    modifies ctx, ctx.grid, ctx.grid.tiles.Values
    ensures ctx.Valid()
    ensures ctx.grid.tiles.Values <= old(ctx.grid.tiles.Values)
    ensures MidPass(GridLines(ctx.grid, merged', d), start, d, i, todo - {loc})
    ensures ctx.score == base + TotalMerged(GridLines(ctx.grid, merged', d))
    ensures ctx.best >= best0
    ensures BestTracks(V0, score0, best0, ctx.grid.Values(), ctx.score, ctx.best)
    ensures ctx.signals == old(ctx.signals)
  {
    ProcessingOrder(d, loc, i);
    if (if horizontal then loc.x else loc.y) == z {
      ghost var V1, score1, best1 := ctx.grid.Values(), ctx.score, ctx.best;
      merged' := VisitTile(loc, d, i, merged, ctx, start, todo, base, V1);
      BestTracksTrans(V0, score0, best0, V1, score1, best1, ctx.grid.Values(), ctx.score, ctx.best);
    } else {
      merged' := merged;
      PassSkip(GridLines(ctx.grid, merged, d), start, d, i, todo, loc);
    }
  }

  /** The visit of one location in a pass: processTileAt, seen on the lines. */
  method VisitTile(loc: Location, d: Direction, i: int, merged: set<Tile>, ctx: GameContext,
                   ghost start: seq<seq<Cell>>, ghost todo: set<Location>, ghost base: int, ghost V: Board)
    returns (merged': set<Tile>)
    requires 0 <= i < BoardSize && Shaped(start) && DepthOf(d, loc) == i && loc in todo
    requires ctx.Valid()
    requires forall r :: 0 <= r < BoardSize ==> Unmerged(start[r])
    requires MidPass(GridLines(ctx.grid, merged, d), start, d, i, todo)
    requires forall r :: 0 <= r < BoardSize && LineCell(d, r, i) in todo ==> Sweep(start[r], i)[i].Full?
    requires ctx.score == base + TotalMerged(GridLines(ctx.grid, merged, d))
    requires V == ctx.grid.Values()
    modifies ctx, ctx.grid, ctx.grid.tiles.Values
    ensures ctx.Valid()
    ensures ctx.grid.tiles.Values <= old(ctx.grid.tiles.Values)
    ensures MidPass(GridLines(ctx.grid, merged', d), start, d, i, todo - {loc})
    ensures ctx.score == base + TotalMerged(GridLines(ctx.grid, merged', d))
    ensures ctx.best >= old(ctx.best)
    ensures BestTracks(V, old(ctx.score), old(ctx.best), ctx.grid.Values(), ctx.score, ctx.best)
    ensures ctx.signals == old(ctx.signals)
  {
    ghost var M := ctx.grid.MergedLocations(merged);
    ghost var ls := Lines(V, M, d);
    ghost var r := LineOf(d, loc);
    LineCellOf(d, loc);
    assert loc in ctx.grid.tiles by {
      assert ls[r][i] == CellOf(V, M, loc);
    }
    PassStep(ls, start, d, i, todo, loc);
    ProcessedAtLines(V, M, d, loc);
    TotalMergedUpdate(ls, r, Resolve(ls[r], i));
    ResolveMergedTotal(ls[r], i);
    ghost var (j, mg) := Scan(LineAt(V, M, d, r), V[loc], i);
    ProcessedAtOutcome(V, M, d, loc, j, mg);
    merged' := ProcessTileAt(loc, d, merged, ctx, V, M);
    if PositiveValues(V) {
      ProcessedAtPositive(V, M, d, loc);
    }
  }

  /** processTileAt: the tile at loc moves as FindDestination says, merging when the walk
      ended on an equal tile, exactly as ProcessedAt describes; the score grows by the value
      a merge creates. */
  method ProcessTileAt(loc: Location, d: Direction, merged: set<Tile>, ctx: GameContext,
                       ghost V: Board, ghost M: set<Location>)
    returns (merged': set<Tile>)
    requires ctx.Valid() && loc in ctx.grid.tiles
    requires V == ctx.grid.Values() && M == ctx.grid.MergedLocations(merged)
    modifies ctx, ctx.grid, ctx.grid.tiles.Values
    ensures ctx.Valid()
    ensures ctx.grid.tiles.Values <= old(ctx.grid.tiles.Values)
    ensures (ctx.grid.Values(), ctx.grid.MergedLocations(merged')) == ProcessedAt(V, M, d, loc)
    ensures ctx.score == old(ctx.score) + Gain(LineAt(V, M, d, LineOf(d, loc)), DepthOf(d, loc))
    ensures ctx.best == if ctx.score > old(ctx.best) then ctx.score else old(ctx.best)
    ensures ctx.signals == old(ctx.signals)
  {
    ghost var tiles: map<Location, Tile> := ctx.grid.tiles;
    ghost var r, k := LineOf(d, loc), DepthOf(d, loc);
    LineCellOf(d, loc);
    var here := ctx.grid.At(loc).value;
    ghost var v := here.value;

    var destination, steps, merge, there;
    destination, steps, merge, there, merged' := FindDestination(ctx.grid, loc, d, merged, r, k);
    ghost var j := k - steps;
    assert ctx.grid.Values() == V && ctx.grid.MergedLocations(merged) == M;
    DestinationScan(ctx.grid, merged, V, M, loc, d, steps, merge);

    ProcessedAtOutcome(V, M, d, loc, j, merge);
    assert V[loc] == v && destination == LineCell(d, r, j);
    if steps == 0 && !merge {
      return;
    }

    MoveToDestination(ctx, here, loc, destination, d, steps, merge, there, merged, merged', tiles, V, M, v);
  }

  /** A tile whose walk ended steps > 0 cells away moves there, as ProcessedAt says. */
  method MoveToDestination(ctx: GameContext, here: Tile, loc: Location, destination: Location, d: Direction,
                           steps: int, merge: bool, there: Option<Tile>, ghost merged: set<Tile>, ghost merged': set<Tile>,
                           ghost tiles: map<Location, Tile>, ghost V: Board, ghost M: set<Location>, ghost v: int)
    requires ctx.Valid() && ctx.grid.tiles == tiles && ctx.grid.Values() == V && here.value == v
    requires M == MarkedLocations(tiles, merged)
    requires loc in tiles && tiles[loc] == here
    requires 0 < steps <= DepthOf(d, loc) && destination == LineCell(d, LineOf(d, loc), DepthOf(d, loc) - steps)
    requires Scan(LineAt(V, M, d, LineOf(d, loc)), v, DepthOf(d, loc)) == (DepthOf(d, loc) - steps, merge)
    requires merge ==> there.Some? && destination in tiles && tiles[destination] == there.value
    requires merged' == if merge then merged + {here, there.value} else merged
    modifies ctx, ctx.grid, here
    ensures ctx.Valid()
    ensures ctx.grid.tiles.Values <= tiles.Values
    ensures (ctx.grid.Values(), ctx.grid.MergedLocations(merged')) == ProcessedAt(V, M, d, loc)
    ensures ctx.score == old(ctx.score) + if merge then 2 * v else 0
    ensures ctx.best == if ctx.score > old(ctx.best) then ctx.score else old(ctx.best)
    ensures ctx.signals == old(ctx.signals)
  {
    LineCellOf(d, loc);
    WalkAlongLine(d, LineOf(d, loc), DepthOf(d, loc), steps);
    ProcessedAtOutcome(V, M, d, loc, DepthOf(d, loc) - steps, merge);
    MarksAfterMove(tiles, merged, loc, destination, merge, if merge then there.value else here);
    ghost var P := ProcessedAt(V, M, d, loc);
    assert P.0 == (V - {loc})[destination := if merge then 2 * v else v];
    assert P.1 == MarkedLocations((tiles - {loc})[destination := here], merged');
    MoveAlong(ctx, here, loc, destination, d, steps, merge, there, tiles, V, v);
    assert ctx.grid.Values() == P.0;
    assert ctx.grid.MergedLocations(merged') == P.1;
  }

  /** The moving half of processTileAt: moveTile, or mergeTiles followed by the score
      increment, for a tile whose destination is known to be steps cells away. */
  method MoveAlong(ctx: GameContext, here: Tile, loc: Location, destination: Location, d: Direction,
                   steps: int, merge: bool, there: Option<Tile>,
                   ghost tiles: map<Location, Tile>, ghost V: Board, ghost v: int)
    requires ctx.Valid() && ctx.grid.tiles == tiles && ctx.grid.Values() == V && here.value == v
    requires loc in tiles && tiles[loc] == here
    requires loc != destination && Walk(loc, d, steps) == Some(destination)
    requires merge ==> there.Some? && destination in tiles && tiles[destination] == there.value
    modifies ctx, ctx.grid, here
    ensures ctx.Valid()
    ensures ctx.grid.tiles == (tiles - {loc})[destination := here]
    ensures ctx.grid.Values() == (V - {loc})[destination := if merge then 2 * v else v]
    ensures ctx.score == old(ctx.score) + if merge then 2 * v else 0
    ensures ctx.best == if ctx.score > old(ctx.best) then ctx.score else old(ctx.best)
    ensures ctx.signals == old(ctx.signals)
  {
    ctx.grid.LocationOfTileAt(loc);
    if !merge {
      var _ := ctx.MoveTile(here, d, steps);
    } else {
      var doubled := here.value * 2;
      var _ := ctx.MergeTiles(there.value, here, d, steps, doubled);
      var _ := ctx.IncrementScoreBy(doubled);
    }
    forall l | l in tiles && l != loc
      ensures tiles[l] != here
    {
    }
    assert forall l :: l in ctx.grid.tiles && l != destination ==> ctx.grid.tiles[l] == tiles[l];
    Relabel(tiles, V, ctx.grid.tiles, ctx.grid.Values(), loc, destination, here, here.value);
  }

  /** Once the scan of the tile at l is known to stop short of it, ProcessedAt moves the tile
      to the cell the scan found, doubling it on a merge, and carries its mark along. */
  lemma ProcessedAtOutcome(b: Board, ml: set<Location>, d: Direction, l: Location, j: int, merge: bool)
    requires l in b
    requires Scan(LineAt(b, ml, d, LineOf(d, l)), b[l], DepthOf(d, l)) == (j, merge)
    ensures Gain(LineAt(b, ml, d, LineOf(d, l)), DepthOf(d, l)) == if merge then 2 * b[l] else 0
    ensures j == DepthOf(d, l) ==> ProcessedAt(b, ml, d, l) == (b, ml)
    ensures j < DepthOf(d, l) ==>
              ProcessedAt(b, ml, d, l)
              == ((b - {l})[LineCell(d, LineOf(d, l), j) := if merge then 2 * b[l] else b[l]],
                  if merge || l in ml then ml - {l} + {LineCell(d, LineOf(d, l), j)}
                  else ml - {l} - {LineCell(d, LineOf(d, l), j)})
  {
    LineCellOf(d, l);
    assert LineAt(b, ml, d, LineOf(d, l))[DepthOf(d, l)] == Full(b[l], l in ml);
  }

  /** Moving one tile object from loc to dest changes the values of those two cells only. */
  lemma Relabel(tiles: map<Location, Tile>, V: Board, tiles': map<Location, Tile>, V': Board,
                loc: Location, dest: Location, t: Tile, value: int)
    requires V.Keys == tiles.Keys && V'.Keys == tiles'.Keys
    requires tiles' == (tiles - {loc})[dest := t]
    requires forall l :: l in tiles' && l != dest ==> V'[l] == V[l]
    requires V'[dest] == value
    ensures V' == (V - {loc})[dest := value]
  {
  }
}
