/** TileGrid: the map from board locations to the tile objects standing on them. */
module Grids {
  import opened Wrappers
  import opened Locations
  import opened Tiles
  import opened Boards

  /** No tile object stands on two locations at once. */
  ghost predicate Injective(tiles: map<Location, Tile>)
  {
    forall a, b :: a in tiles && b in tiles && tiles[a] == tiles[b] ==> a == b
  }

  /** The locations whose tile is one of the given ones. */
  ghost function MarkedLocations(tiles: map<Location, Tile>, merged: set<Tile>): set<Location>
  {
    set l | l in tiles && tiles[l] in merged
  }

  /** Moving the tile at loc onto dest, possibly replacing the tile `there` that stood on dest
      and marking both, moves the tile's mark with it and leaves every other mark alone. */
  lemma MarksAfterMove(tiles: map<Location, Tile>, merged: set<Tile>, loc: Location, dest: Location,
                       merge: bool, there: Tile)
    requires Injective(tiles) && loc in tiles && loc != dest
    requires merge ==> dest in tiles && tiles[dest] == there
    ensures MarkedLocations((tiles - {loc})[dest := tiles[loc]], if merge then merged + {tiles[loc], there} else merged)
            == if merge || tiles[loc] in merged then MarkedLocations(tiles, merged) - {loc} + {dest}
               else MarkedLocations(tiles, merged) - {loc} - {dest}
  {
  }

  class TileGrid {
    var tiles: map<Location, Tile>

    /** A new grid is empty. */
    constructor ()
      ensures tiles == map[]
    {
      tiles := map[];
    }

    /** No tile object stands at two locations. put allows it, so this is not a class
        invariant; it is the condition the game's operations keep on every reachable grid. */
    ghost predicate NoTileTwice()
      reads this
    {
      Injective(tiles)
    }

    /** The values on the grid, as a board. */
    ghost function Values(): Board
      reads this, tiles.Values
    {
      map l | l in tiles :: tiles[l].value
    }

    /** Where a tile object stands, if it is on the grid. */
    ghost function LocationOf(t: Tile): (r: Option<Location>)
      reads this
      ensures r.Some? <==> t in tiles.Values
      ensures r.Some? ==> r.value in tiles && tiles[r.value] == t
    {
      if t in tiles.Values then Some(var l :| l in tiles && tiles[l] == t; l) else None
    }

    /** On a valid grid the tile standing at l is found at l. */
    lemma LocationOfTileAt(l: Location)
      requires NoTileTwice() && l in tiles
      ensures LocationOf(tiles[l]) == Some(l)
    {
    }

    /** The locations whose tile is one of the given ones. */
    ghost function MergedLocations(merged: set<Tile>): set<Location>
      reads this
    {
      MarkedLocations(tiles, merged)
    }

    /** TileGrid.at: the tile at a location, if any. */
    function At(l: Location): (r: Option<Tile>)
      reads this
      ensures r.Some? <==> l in tiles
      ensures r.Some? ==> r.value == tiles[l]
    {
      if l in tiles then Some(tiles[l]) else None
    }

    /** TileGrid.getAllOccupiedLocations: a copy of the occupied locations. */
    function OccupiedLocations(): (locs: set<Location>)
      reads this
      ensures forall l :: l in locs <==> At(l).Some?
    {
      tiles.Keys
    }

    /** TileGrid.getAllUnoccupiedLocations: every free location, scanning x and then y. */
    method UnoccupiedLocations() returns (free: seq<Location>)
      ensures free == FreeCells(tiles.Keys)
      ensures forall l: Location :: l in free <==> l !in tiles
    {
      free := [];
      var i := 0;
      while i < BoardSize
        invariant 0 <= i <= BoardSize
        invariant free == FreeUpTo(tiles.Keys, i * BoardSize)
      {
        var j := 0;
        while j < BoardSize
          invariant 0 <= j <= BoardSize
          invariant free == FreeUpTo(tiles.Keys, i * BoardSize + j)
        {
          var loc: Location := BoardLocation(i, j);
          assert loc == CellAtRank(i * BoardSize + j) by {
            RankInjective(loc, loc);
          }
          FreeUpToStep(tiles.Keys, i * BoardSize + j);
          if loc !in tiles {
            free := free + [loc];
          }
          j := j + 1;
        }
        i := i + 1;
      }
      FreeCellsExact(tiles.Keys);
    }

    /** TileGrid.put: any tile already at the location is replaced. */
    method Put(l: Location, t: Tile)
      modifies this
      ensures tiles == old(tiles)[l := t]
    {
      tiles := tiles[l := t];
    }

    /** TileGrid.remove: takes the tile off the location and returns it, if there was one. */
    method Remove(l: Location) returns (prev: Option<Tile>)
      modifies this
      ensures prev == old(At(l))
      ensures tiles == old(tiles) - {l}
    {
      prev := At(l);
      tiles := tiles - {l};
    }

    /** The location of a given tile object, if it is on the grid. */
    method Find(t: Tile) returns (r: Option<Location>)
      ensures r.Some? <==> t in tiles.Values
      ensures r.Some? ==> r.value in tiles && tiles[r.value] == t
      ensures NoTileTwice() ==> r == LocationOf(t)
    {
      var i := 0;
      while i < BoardSize * BoardSize
        invariant 0 <= i <= BoardSize * BoardSize
        invariant forall l :: l in tiles && Rank(l) < i ==> tiles[l] != t
      {
        var l := CellAtRank(i);
        if l in tiles && tiles[l] == t {
          return Some(l);
        }
        i := i + 1;
      }
      assert t !in tiles.Values by {
        forall l | l in tiles
          ensures tiles[l] != t
        {
        }
      }
      return None;
    }
  }
}
