/** BoardLocation.java: an immutable, bounds-checked coordinate on the 4x4 board. */
module Locations {
  import opened Wrappers
  import opened Directions

  /** BOARD_SIZE, the side length of the grid. */
  const BoardSize: int := 4

  predicate OnBoard(x: int, y: int) {
    0 <= x < BoardSize && 0 <= y < BoardSize
  }

  datatype BoardLocation = BoardLocation(x: int, y: int)

  /** A constructed BoardLocation: the constructor guarantees that it lies on the board. */
  type Location = l: BoardLocation | OnBoard(l.x, l.y) witness BoardLocation(0, 0)

  /** The four IllegalArgumentException cases of the constructor, in the order it tests them. */
  datatype LocationError = XNegative | YNegative | XTooBig | YTooBig

  /** The validating constructor: it fails exactly when a coordinate is off the board,
      reporting the first violated check. */
  function NewLocation(x: int, y: int): (r: Result<Location, LocationError>)
    ensures r.Success? <==> OnBoard(x, y)
    ensures r.Success? ==> r.value.x == x && r.value.y == y
    ensures r == Failure(XNegative) <==> x < 0
    ensures r == Failure(YNegative) <==> 0 <= x && y < 0
    ensures r == Failure(XTooBig) <==> 0 <= y && BoardSize <= x
    ensures r == Failure(YTooBig) <==> 0 <= x < BoardSize && BoardSize <= y
  {
    if x < 0 then Failure(XNegative)
    else if y < 0 then Failure(YNegative)
    else if x >= BoardSize then Failure(XTooBig)
    else if y >= BoardSize then Failure(YTooBig)
    else Success(BoardLocation(x, y))
  }

  /** getX and getY give back the construction arguments. */
  lemma CoordinatesRoundTrip(l: Location)
    ensures NewLocation(l.x, l.y) == Success(l)
  {
  }

  /** getAdjacentLocation: the neighbour one step away, or None when it would be off the board. */
  function Adjacent(l: Location, d: Direction): (r: Option<Location>)
    ensures r.Some? <==> OnBoard(l.x + Dx(d), l.y + Dy(d))
    ensures r.Some? ==> r.value.x == l.x + Dx(d) && r.value.y == l.y + Dy(d)
  {
    var x, y := l.x + Dx(d), l.y + Dy(d);
    if x >= 0 && y >= 0 && x < BoardSize && y < BoardSize then Some(BoardLocation(x, y)) else None
  }

  /** hasAdjacentLocation: whether the shifted coordinates are on the board. */
  function HasAdjacent(l: Location, d: Direction): (b: bool)
    ensures b <==> Adjacent(l, d).Some?
  {
    OnBoard(l.x + Dx(d), l.y + Dy(d))
  }

  /** A neighbour exists exactly when constructing it at the shifted coordinates would succeed,
      and it is that location. */
  lemma AdjacentAgreesWithConstructor(l: Location, d: Direction)
    ensures Adjacent(l, d).Some? <==> NewLocation(l.x + Dx(d), l.y + Dy(d)).Success?
    ensures Adjacent(l, d).Some? ==> Success(Adjacent(l, d).value) == NewLocation(l.x + Dx(d), l.y + Dy(d))
  {
  }

  function AdjacentAlong(l: Location, ds: seq<Direction>): seq<Location>
  {
    if ds == [] then []
    else Present(l, ds[0]) + AdjacentAlong(l, ds[1..])
  }

  /** getAllAdjacentLocations: the on-board neighbours, one per direction that has one. */
  function AllAdjacent(l: Location): seq<Location>
  {
    AdjacentAlong(l, AllDirections)
  }

  /** 1 when coordinate c lies on a wall of the board, otherwise 0. */
  function OnWall(c: int): int
  {
    if c == 0 || c == BoardSize - 1 then 1 else 0
  }

  lemma {:induction false} AdjacentAlongExact(l: Location, ds: seq<Direction>, m: Location)
    ensures m in AdjacentAlong(l, ds) <==> exists i :: 0 <= i < |ds| && Adjacent(l, ds[i]) == Some(m)
  {
    if ds != [] {
      AdjacentAlongExact(l, ds[1..], m);
      if m in AdjacentAlong(l, ds[1..]) {
        var i :| 0 <= i < |ds[1..]| && Adjacent(l, ds[1..][i]) == Some(m);
        assert Adjacent(l, ds[i + 1]) == Some(m);
      }
      if exists i :: 0 <= i < |ds| && Adjacent(l, ds[i]) == Some(m) {
        var i :| 0 <= i < |ds| && Adjacent(l, ds[i]) == Some(m);
        if i > 0 {
          assert Adjacent(l, ds[1..][i - 1]) == Some(m);
        }
      }
    }
  }

  function Present(l: Location, d: Direction): seq<Location>
  {
    if HasAdjacent(l, d) then [Adjacent(l, d).value] else []
  }

  lemma AllAdjacentUnfold(l: Location)
    ensures AllAdjacent(l) == Present(l, North) + Present(l, East) + Present(l, South) + Present(l, West)
  {
    var ds := AllDirections;
    assert ds[1..] == [East, South, West] && ds[1..][1..] == [South, West];
    assert ds[1..][1..][1..] == [West] && ds[1..][1..][1..][1..] == [];
    assert AdjacentAlong(l, [West]) == Present(l, West);
    assert AdjacentAlong(l, [South, West]) == Present(l, South) + Present(l, West);
    assert AdjacentAlong(l, [East, South, West]) == Present(l, East) + Present(l, South) + Present(l, West);
  }

  /** getAllAdjacentLocations holds exactly the non-None results of getAdjacentLocation
      and lists none twice. */
  lemma AllAdjacentExact(l: Location, m: Location)
    ensures m in AllAdjacent(l) <==> exists d :: Adjacent(l, d) == Some(m)
    ensures forall i, j :: 0 <= i < j < |AllAdjacent(l)| ==> AllAdjacent(l)[i] != AllAdjacent(l)[j]
  {
    AdjacentAlongExact(l, AllDirections, m);
    if exists d :: Adjacent(l, d) == Some(m) {
      var d :| Adjacent(l, d) == Some(m);
      AllDirectionsExact(d);
      var i :| 0 <= i < |AllDirections| && AllDirections[i] == d;
    }
    AllAdjacentUnfold(l);
  }

  /** Corner cells have two neighbours, other wall cells three, inner cells four. */
  lemma AllAdjacentSize(l: Location)
    ensures |AllAdjacent(l)| == 4 - OnWall(l.x) - OnWall(l.y)
  {
    AllAdjacentUnfold(l);
  }

  /** equals: two locations are equal exactly when both coordinates agree. */
  function Equals(a: Location, b: Location): (r: bool)
    ensures r <==> a == b
  {
    a.x == b.x && a.y == b.y
  }

  /** equals is reflexive, symmetric and transitive. */
  lemma EqualsIsEquivalence(a: Location, b: Location, c: Location)
    ensures Equals(a, a)
    ensures Equals(a, b) == Equals(b, a)
    ensures Equals(a, b) && Equals(b, c) ==> Equals(a, c)
  {
  }

  /** hashCode: 31 * (31 + x) + y. */
  function HashCode(l: Location): int
  {
    31 * (31 + l.x) + l.y
  }

  /** Equal locations hash equally, and on the board distinct locations never collide. */
  lemma HashCodeAgreesWithEquals(a: Location, b: Location)
    ensures Equals(a, b) ==> HashCode(a) == HashCode(b)
    ensures HashCode(a) == HashCode(b) ==> Equals(a, b)
  {
  }

  /** The sixteen cells in x-major, then y, order: the order of the nested loops of
      getAllUnoccupiedLocations. */
  function Rank(l: Location): (i: int)
    ensures 0 <= i < BoardSize * BoardSize
  {
    l.x * BoardSize + l.y
  }

  function CellAtRank(i: int): (l: Location)
    requires 0 <= i < BoardSize * BoardSize
    ensures Rank(l) == i
  {
    BoardLocation(i / BoardSize, i % BoardSize)
  }

  lemma RankInjective(a: Location, b: Location)
    ensures Rank(a) == Rank(b) ==> a == b
    ensures CellAtRank(Rank(a)) == a
  {
  }
}
