/** The four compass moves of Direction.java, each a unit step on the board. */
module Directions {

  datatype Direction = North | East | South | West

  /** Direction.values(), in declaration order. */
  const AllDirections: seq<Direction> := [North, East, South, West]

  /** The x-component of the step: EAST is positive x, WEST negative x. */
  function Dx(d: Direction): (dx: int)
    ensures dx == 0 <==> d == North || d == South
  {
    match d
    case East => 1
    case West => -1
    case _ => 0
  }

  /** The y-component of the step: NORTH is negative y, SOUTH positive y. */
  function Dy(d: Direction): (dy: int)
    ensures dy == 0 <==> d == East || d == West
  {
    match d
    case North => -1
    case South => 1
    case _ => 0
  }

  /** Every direction is listed exactly once. */
  lemma AllDirectionsExact(d: Direction)
    ensures d in AllDirections
    ensures |AllDirections| == 4
    ensures forall i, j :: 0 <= i < j < |AllDirections| ==> AllDirections[i] != AllDirections[j]
  {
  }

  /** Each step has exactly one non-zero component, and it is +1 or -1. */
  lemma UnitStep(d: Direction)
    ensures (Dx(d) == 0) != (Dy(d) == 0)
    ensures Dx(d) * Dx(d) + Dy(d) * Dy(d) == 1
  {
  }
}
