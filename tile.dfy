/** A tile: a mutable cell holding its current value. Identity matters, since the engine
    tracks which tile objects have already merged during a turn. */
module Tiles {
  class Tile {
    var value: int

    /** A new tile holds Java's default int value, 0. */
    constructor ()
      ensures value == 0
    {
      value := 0;
    }

    method SetValue(v: int)
      modifies this
      ensures value == v
    {
      value := v;
    }
  }
}
