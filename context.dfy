/** The game context the engine drives: GamePanel's implementation of TileGameContext,
    reduced to the tile grid, the score, the best score and the end-of-game signals. */
module Contexts {
  import opened Wrappers
  import opened Directions
  import opened Locations
  import opened Tiles
  import opened Grids
  import opened Boards

  /** The two ends of a game, as winGame and loseGame announce them. */
  datatype Signal = Won | Lost

  /** The IllegalArgumentException cases of moveTile. */
  datatype MoveError = NotInGrid | TooFar

  /** Where count steps toward d lead from l, or None when a step would leave the board. */
  function Walk(l: Location, d: Direction, count: int): Option<Location>
    decreases count
  {
    if count <= 0 then Some(l)
    else match Adjacent(l, d)
      case None => None
      case Some(n) => Walk(n, d, count - 1)
  }

  /** A walk of count >= 0 steps lands count cells away in direction d, and fails exactly
      when that cell is off the board. */
  lemma {:induction false} WalkEndsAt(l: Location, d: Direction, count: int)
    requires count >= 0
    ensures Walk(l, d, count).Some? <==> OnBoard(l.x + count * Dx(d), l.y + count * Dy(d))
    ensures Walk(l, d, count).Some? ==>
              Walk(l, d, count).value == BoardLocation(l.x + count * Dx(d), l.y + count * Dy(d))
    decreases count
  {
    if count > 0 {
      match Adjacent(l, d)
      case None =>
        assert !OnBoard(l.x + count * Dx(d), l.y + count * Dy(d)) by {
          match d
          case North =>
          case South =>
          case East =>
          case West =>
        }
      case Some(n) =>
        WalkEndsAt(n, d, count - 1);
        assert (l.x + count * Dx(d), l.y + count * Dy(d)) == (n.x + (count - 1) * Dx(d), n.y + (count - 1) * Dy(d)) by {
          match d
          case North =>
          case South =>
          case East =>
          case West =>
        }
    }
  }

  /** Along a line of a move, a walk of s steps from depth p reaches depth p - s, and leaves
      the board when s exceeds p. */
  lemma {:induction false} WalkAlongLine(d: Direction, r: int, p: int, s: int)
    requires 0 <= r < BoardSize && 0 <= p < BoardSize && 0 <= s
    ensures Walk(LineCell(d, r, p), d, s) == if s <= p then Some(LineCell(d, r, p - s)) else None
    decreases s
  {
    if s > 0 {
      AdjacentAlongLine(d, r, p);
      if p > 0 {
        WalkAlongLine(d, r, p - 1, s - 1);
      }
    }
  }

  class GameContext {
    const grid: TileGrid
    var score: int
    var best: int
    /** The winGame and loseGame calls received, in order. */
    var signals: seq<Signal>

    /** The state every turn starts from and keeps: no tile stands twice on the grid, and the
        best score is at least the current one. */
    ghost predicate Valid()
      reads this, grid
    {
      grid.NoTileTwice() && score <= best
    }

    /** A fresh game: an empty grid and no points yet. */
    constructor ()
      ensures fresh(grid) && grid.tiles == map[]
      ensures score == 0 && best == 0 && signals == []
      ensures Valid()
    {
      grid := new TileGrid();
      score := 0;
      best := 0;
      signals := [];
    }

    /** addTile: places the tile, replacing whatever stood there. */
    method AddTile(t: Tile, l: Location)
      modifies grid
      ensures grid.tiles == old(grid.tiles)[l := t]
    {
      grid.Put(l, t);
    }

    /** GamePanel.setScore: the new score, and the best score raised to it if it is higher. */
    method SetScore(s: int)
      modifies this
      ensures score == s
      ensures best == if s > old(best) then s else old(best)
      ensures signals == old(signals)
      ensures old(score <= best) ==> score <= best
    {
      score := s;
      if s > best {
        best := s;
      }
    }

    /** incrementScoreBy: adds to the score through setScore and returns the new score. */
    method IncrementScoreBy(v: int) returns (newScore: int)
      modifies this
      ensures newScore == old(score) + v && score == newScore
      ensures best == if newScore > old(best) then newScore else old(best)
      ensures signals == old(signals)
    {
      newScore := score + v;
      SetScore(newScore);
    }

    method WinGame()
      modifies this
      ensures signals == old(signals) + [Won]
      ensures score == old(score) && best == old(best)
    {
      signals := signals + [Won];
    }

    method LoseGame()
      modifies this
      ensures signals == old(signals) + [Lost]
      ensures score == old(score) && best == old(best)
    {
      signals := signals + [Lost];
    }

    /** moveTile: takes the tile off its location, walks count steps toward d and puts it
        down there, replacing any tile it lands on. A walk that leaves the board fails after
        the tile has already been taken off. GamePanel does not check that no tile stands
        twice; the requirement only lets find name the tile's one location, and every call from
        the engine meets it. */
    method MoveTile(t: Tile, d: Direction, count: int) returns (o: Outcome<MoveError>)
      requires grid.NoTileTwice()
      modifies grid
      ensures match old(grid.LocationOf(t))
              case None => o == Fail(NotInGrid) && grid.tiles == old(grid.tiles)
              case Some(l) =>
                match Walk(l, d, count)
                case None => o == Fail(TooFar) && grid.tiles == old(grid.tiles) - {l}
                case Some(dest) => o == Pass && grid.tiles == (old(grid.tiles) - {l})[dest := t]
      ensures grid.NoTileTwice()
    {
      var found := grid.Find(t);
      if found.None? {
        return Fail(NotInGrid);
      }
      var loc := found.value;
      ghost var start := loc;
      var _ := grid.Remove(loc);
      var i := 0;
      while i < count
        invariant 0 <= i <= if count < 0 then 0 else count
        invariant Walk(loc, d, count - i) == Walk(start, d, count)
        invariant grid.tiles == old(grid.tiles) - {start}
      {
        var next := Adjacent(loc, d);
        if next.None? {
          return Fail(TooFar);
        }
        loc := next.value;
        i := i + 1;
      }
      grid.Put(loc, t);
      return Pass;
    }

    /** mergeTiles: gives the mover its new value, then moves it onto the target's cell,
        which replaces the target. As for MoveTile, no tile standing twice is not checked by
        GamePanel but holds at every call from the engine. */
    method MergeTiles(target: Tile, mover: Tile, d: Direction, steps: int, newValue: int)
      returns (o: Outcome<MoveError>)
      requires grid.NoTileTwice()
      modifies grid, mover
      ensures mover.value == newValue
      ensures match old(grid.LocationOf(mover))
              case None => o == Fail(NotInGrid) && grid.tiles == old(grid.tiles)
              case Some(l) =>
                match Walk(l, d, steps)
                case None => o == Fail(TooFar) && grid.tiles == old(grid.tiles) - {l}
                case Some(dest) => o == Pass && grid.tiles == (old(grid.tiles) - {l})[dest := mover]
      ensures grid.NoTileTwice()
    {
      mover.SetValue(newValue);
      o := MoveTile(mover, d, steps);
    }
  }
}
