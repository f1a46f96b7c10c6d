/** The board as a value: the tile values by location, its projection onto the four lines of a
    move, and the whole-turn functions the engine is proved against. */
module Boards {
  import opened Wrappers
  import opened Directions
  import opened Locations
  import opened TileLines

  /** GoodLogic's WINNING_VALUE. */
  const WinningValue: int := 2048

  /** The value a freshly spawned tile carries. */
  const SpawnValue: int := 2

  /** The value of the tile at each occupied location. */
  type Board = map<Location, int>

  // ---------------------------------------------------------------------------
  // Lines of a move.

  /** The line of a location for a move toward d: its row for a horizontal move, its column
      for a vertical one. */
  function LineOf(d: Direction, l: Location): (r: int)
    ensures 0 <= r < BoardSize
  {
    if d == East || d == West then l.y else l.x
  }

  /** How many cells separate a location from the wall that a move toward d pushes tiles against. */
  function DepthOf(d: Direction, l: Location): (p: int)
    ensures 0 <= p < BoardSize
  {
    match d
    case North => l.y
    case South => BoardSize - 1 - l.y
    case West => l.x
    case East => BoardSize - 1 - l.x
  }

  /** Cell p of line r for a move toward d, counted from the wall. */
  function LineCell(d: Direction, r: int, p: int): (l: Location)
    requires 0 <= r < BoardSize && 0 <= p < BoardSize
    ensures LineOf(d, l) == r && DepthOf(d, l) == p
  {
    match d
    case North => BoardLocation(r, p)
    case South => BoardLocation(r, BoardSize - 1 - p)
    case West => BoardLocation(p, r)
    case East => BoardLocation(BoardSize - 1 - p, r)
  }

  /** Line and depth are coordinates: every location is the cell they name. */
  lemma LineCellOf(d: Direction, l: Location)
    ensures LineCell(d, LineOf(d, l), DepthOf(d, l)) == l
  {
  }

  /** One step toward d moves one cell nearer the wall along the same line, and there is no
      step from the cell at the wall. */
  lemma AdjacentAlongLine(d: Direction, r: int, p: int)
    requires 0 <= r < BoardSize && 0 <= p < BoardSize
    ensures Adjacent(LineCell(d, r, p), d) == if p == 0 then None else Some(LineCell(d, r, p - 1))
  {
  }

  /** GoodLogic.processTiles' axis selection. */
  function IsHorizontal(d: Direction): bool
  {
    d == East || d == West
  }

  function MovementDirection(d: Direction): (m: int)
    ensures m == 1 || m == -1
  {
    if IsHorizontal(d) then Dx(d) else Dy(d)
  }

  function DestinationCoordinate(d: Direction): int
  {
    (MovementDirection(d) + 1) / 2 * (BoardSize - 1)
  }

  /** Moves toward EAST and SOUTH run along increasing coordinates to the wall at 3; moves
      toward WEST and NORTH along decreasing ones to the wall at 0. */
  lemma DestinationWalls(d: Direction)
    ensures MovementDirection(d) == if d == East || d == South then 1 else -1
    ensures DestinationCoordinate(d) == if d == East || d == South then BoardSize - 1 else 0
  {
  }

  /** The coordinate processTiles compares: x for a horizontal move, y for a vertical one. */
  function Coordinate(d: Direction, l: Location): int
  {
    if IsHorizontal(d) then l.x else l.y
  }

  /** The destination coordinate is the wall, and pass i of processTiles selects exactly the
      tiles i cells away from it. */
  lemma ProcessingOrder(d: Direction, l: Location, i: int)
    ensures Coordinate(d, l) == DestinationCoordinate(d) <==> DepthOf(d, l) == 0
    ensures Coordinate(d, l) == DestinationCoordinate(d) - MovementDirection(d) * i <==> DepthOf(d, l) == i
  {
  }

  // ---------------------------------------------------------------------------
  // From a board to its lines and back.

  /** The cell at l, given the set of locations whose tile merged this turn. */
  function CellOf(b: Board, ml: set<Location>, l: Location): Cell
  {
    if l in b then Full(b[l], l in ml) else Empty
  }

  function LineAt(b: Board, ml: set<Location>, d: Direction, r: int): (line: seq<Cell>)
    requires 0 <= r < BoardSize
    ensures |line| == BoardSize
    ensures forall p :: 0 <= p < BoardSize ==> line[p] == CellOf(b, ml, LineCell(d, r, p))
  {
    seq(BoardSize, p requires 0 <= p < BoardSize => CellOf(b, ml, LineCell(d, r, p)))
  }

  /** The four lines of the board for a move toward d. */
  function Lines(b: Board, ml: set<Location>, d: Direction): (ls: seq<seq<Cell>>)
    ensures |ls| == BoardSize
    ensures forall r :: 0 <= r < BoardSize ==> ls[r] == LineAt(b, ml, d, r)
  {
    seq(BoardSize, r requires 0 <= r < BoardSize => LineAt(b, ml, d, r))
  }

  predicate Shaped(ls: seq<seq<Cell>>)
  {
    |ls| == BoardSize && forall r :: 0 <= r < BoardSize ==> |ls[r]| == BoardSize
  }

  function CellAt(ls: seq<seq<Cell>>, d: Direction, l: Location): Cell
    requires Shaped(ls)
  {
    ls[LineOf(d, l)][DepthOf(d, l)]
  }

  function AllLocations(): set<Location>
  {
    set i | 0 <= i < BoardSize * BoardSize :: CellAtRank(i)
  }

  lemma InAllLocations(l: Location)
    ensures l in AllLocations()
  {
    RankInjective(l, l);
  }

  /** The board the lines describe. */
  function BoardOf(ls: seq<seq<Cell>>, d: Direction): Board
    requires Shaped(ls)
  {
    map l | l in AllLocations() && CellAt(ls, d, l).Full? :: CellAt(ls, d, l).value
  }

  /** The locations whose cell in the lines is marked merged. */
  function MergedOf(ls: seq<seq<Cell>>, d: Direction): set<Location>
    requires Shaped(ls)
  {
    set l | l in AllLocations() && CellAt(ls, d, l).Full? && CellAt(ls, d, l).merged
  }

  lemma BoardOfLines(b: Board, ml: set<Location>, d: Direction)
    ensures BoardOf(Lines(b, ml, d), d) == b
  {
    var ls := Lines(b, ml, d);
    forall l: Location
      ensures CellAt(ls, d, l) == CellOf(b, ml, l)
    {
      LineCellOf(d, l);
    }
    forall l: Location | l in b
      ensures l in AllLocations()
    {
      InAllLocations(l);
    }
  }

  lemma LinesOfBoard(ls: seq<seq<Cell>>, d: Direction)
    requires Shaped(ls)
    ensures Lines(BoardOf(ls, d), MergedOf(ls, d), d) == ls
  {
    var b := BoardOf(ls, d);
    var ml := MergedOf(ls, d);
    var back := Lines(b, ml, d);
    forall r, p | 0 <= r < BoardSize && 0 <= p < BoardSize
      ensures back[r][p] == ls[r][p]
    {
      var l := LineCell(d, r, p);
      InAllLocations(l);
      assert CellAt(ls, d, l) == ls[r][p];
    }
    forall r | 0 <= r < BoardSize
      ensures back[r] == ls[r]
    {
    }
  }

  /** Emptying cell k of line r and writing c into cell j of the same line changes that line
      in exactly those two cells and leaves the other lines alone. */
  lemma LinesAfterMove(b: Board, ml: set<Location>, b': Board, ml': set<Location>,
                       d: Direction, r: int, k: int, j: int, c: Cell)
    requires 0 <= r < BoardSize && 0 <= j < k < BoardSize
    requires forall l: Location :: CellOf(b', ml', l) ==
               if l == LineCell(d, r, k) then Empty else if l == LineCell(d, r, j) then c else CellOf(b, ml, l)
    ensures Lines(b', ml', d) == Lines(b, ml, d)[r := LineAt(b, ml, d, r)[k := Empty][j := c]]
  {
    var want := Lines(b, ml, d)[r := LineAt(b, ml, d, r)[k := Empty][j := c]];
    var got := Lines(b', ml', d);
    forall r', p | 0 <= r' < BoardSize && 0 <= p < BoardSize
      ensures got[r'][p] == want[r'][p]
    {
      var l := LineCell(d, r', p);
      assert l == LineCell(d, r, k) <==> r' == r && p == k;
      assert l == LineCell(d, r, j) <==> r' == r && p == j;
    }
    forall r' | 0 <= r' < BoardSize
      ensures got[r'] == want[r']
    {
    }
  }

  /** What processing the tile at l does to the board and to the set of locations holding a
      tile merged this turn: it moves to where Scan stops, doubling when Scan merges. */
  function ProcessedAt(b: Board, ml: set<Location>, d: Direction, l: Location): (Board, set<Location>)
    requires l in b
  {
    var r, k := LineOf(d, l), DepthOf(d, l);
    var (j, mg) := Scan(LineAt(b, ml, d, r), b[l], k);
    var dest := LineCell(d, r, j);
    if j == k then (b, ml)
    else if mg then ((b - {l})[dest := 2 * b[l]], ml - {l} + {dest})
    else ((b - {l})[dest := b[l]], if l in ml then ml - {l} + {dest} else ml - {l} - {dest})
  }

  /** Every value on the board is positive, as every tile value is. */
  predicate PositiveValues(b: Board)
  {
    forall l :: l in b ==> b[l] > 0
  }

  /** Processing one tile keeps the board's values positive: the tile keeps its value or
      doubles it, and no other cell changes. */
  lemma ProcessedAtPositive(b: Board, ml: set<Location>, d: Direction, l: Location)
    requires l in b && PositiveValues(b)
    ensures PositiveValues(ProcessedAt(b, ml, d, l).0)
  {
  }

  /** Processing the tile at l resolves its line and leaves the other lines alone. */
  lemma ProcessedAtLines(b: Board, ml: set<Location>, d: Direction, l: Location)
    requires l in b
    ensures Lines(ProcessedAt(b, ml, d, l).0, ProcessedAt(b, ml, d, l).1, d)
            == Lines(b, ml, d)[LineOf(d, l) := Resolve(LineAt(b, ml, d, LineOf(d, l)), DepthOf(d, l))]
  {
    var r, k := LineOf(d, l), DepthOf(d, l);
    var line := LineAt(b, ml, d, r);
    LineCellOf(d, l);
    assert line[k] == Full(b[l], l in ml);
    var (j, mg) := Scan(line, b[l], k);
    if j == k {
      assert Resolve(line, k) == line;
      assert Lines(b, ml, d)[r := line] == Lines(b, ml, d);
    } else {
      var c := if mg then Full(2 * b[l], true) else line[k];
      var dest := LineCell(d, r, j);
      var after := ProcessedAt(b, ml, d, l);
      assert after.0 == (b - {l})[dest := c.value];
      assert after.1 == if c.merged then ml - {l} + {dest} else ml - {l} - {dest};
      forall m: Location
        ensures CellOf(after.0, after.1, m) ==
                  if m == LineCell(d, r, k) then Empty else if m == LineCell(d, r, j) then c else CellOf(b, ml, m)
      {
        CellsAfterMove(b, ml, l, dest, c, m);
      }
      LinesAfterMove(b, ml, after.0, after.1, d, r, k, j, c);
    }
  }

  /** Scan on a line of the board, read off from the board: the cells from depth k down to j
      are free, and then either an equal unmerged tile sits at j or the wall or a blocking
      tile lies just before j. */
  lemma ScanOnBoard(b: Board, ml: set<Location>, d: Direction, r: int, k: int, j: int, merge: bool, v: int)
    requires 0 <= r < BoardSize && 0 <= j <= k < BoardSize
    requires forall q :: j + (if merge then 1 else 0) <= q < k ==> LineCell(d, r, q) !in b
    requires merge ==> j < k && LineCell(d, r, j) in b && b[LineCell(d, r, j)] == v && LineCell(d, r, j) !in ml
    requires !merge ==> j == 0 || (LineCell(d, r, j - 1) in b && (b[LineCell(d, r, j - 1)] != v || LineCell(d, r, j - 1) in ml))
    ensures Scan(LineAt(b, ml, d, r), v, k) == (j, merge)
  {
    ScanFrom(LineAt(b, ml, d, r), v, k, j, merge);
  }

  /** Taking the tile off loc and putting c at dest changes those two cells and no other. */
  lemma CellsAfterMove(b: Board, ml: set<Location>, loc: Location, dest: Location, c: Cell, l: Location)
    requires loc != dest && c.Full?
    ensures CellOf((b - {loc})[dest := c.value], if c.merged then ml - {loc} + {dest} else ml - {loc} - {dest}, l)
            == if l == loc then Empty else if l == dest then c else CellOf(b, ml, l)
  {
  }

  /** Two boards agree when all their lines agree. */
  lemma LinesDetermineBoard(a: Board, b: Board, d: Direction)
    requires forall r :: 0 <= r < BoardSize ==> LineAt(a, {}, d, r) == LineAt(b, {}, d, r)
    ensures a == b
  {
    assert Lines(a, {}, d) == Lines(b, {}, d);
    BoardOfLines(a, {}, d);
    BoardOfLines(b, {}, d);
  }

  /** A board's lines with no merge marks carry none. */
  lemma BoardLinesUnmerged(b: Board, d: Direction, r: int)
    requires 0 <= r < BoardSize
    ensures Unmerged(LineAt(b, {}, d, r))
  {
  }

  /** Forgetting the merge marks of a line forgets the merged set. */
  lemma StripLine(b: Board, ml: set<Location>, d: Direction, r: int)
    requires 0 <= r < BoardSize
    ensures Strip(LineAt(b, ml, d, r)) == LineAt(b, {}, d, r)
  {
  }

  // ---------------------------------------------------------------------------
  // A whole move.

  predicate Unmarked(ls: seq<seq<Cell>>)
  {
    forall r :: 0 <= r < |ls| ==> Unmerged(ls[r])
  }

  /** Every line swept toward its wall. */
  function SweptLines(ls: seq<seq<Cell>>): (out: seq<seq<Cell>>)
    ensures |out| == |ls|
    ensures forall r :: 0 <= r < |ls| ==> |out[r]| == |ls[r]|
  {
    seq(|ls|, r requires 0 <= r < |ls| => Sweep(ls[r], |ls[r]|))
  }

  /** The board after every tile has moved as far toward d as it can, merging with the first
      equal unmerged tile it meets. */
  function SweepBoard(b: Board, d: Direction): Board
  {
    BoardOf(SweptLines(Lines(b, {}, d)), d)
  }

  /** Each line of the swept board is the line swept, with its merge marks dropped. */
  lemma SweepBoardLines(b: Board, d: Direction, r: int)
    requires 0 <= r < BoardSize
    ensures LineAt(SweepBoard(b, d), {}, d, r) == Strip(Sweep(LineAt(b, {}, d, r), BoardSize))
  {
    var ls := SweptLines(Lines(b, {}, d));
    LinesOfBoard(ls, d);
    StripLine(SweepBoard(b, d), MergedOf(ls, d), d, r);
  }

  /** Midway through pass i of processTiles: the lines whose cell at depth i is still to be
      visited are swept up to depth i, the others up to depth i + 1. */
  ghost predicate MidPass(ls: seq<seq<Cell>>, start: seq<seq<Cell>>, d: Direction, i: int, todo: set<Location>)
    requires Shaped(start) && 0 <= i < BoardSize
  {
    |ls| == BoardSize &&
    forall r :: 0 <= r < BoardSize ==>
      ls[r] == Sweep(start[r], if LineCell(d, r, i) in todo then i else i + 1)
  }

  /** At the start of pass i every line is swept up to depth i, which is the same as up to
      depth i + 1 wherever the cell at depth i is free. */
  lemma PassStart(b: Board, ml: set<Location>, start: seq<seq<Cell>>, d: Direction, i: int)
    requires Shaped(start) && 0 <= i < BoardSize
    requires forall r :: 0 <= r < BoardSize ==> LineAt(b, ml, d, r) == Sweep(start[r], i)
    ensures MidPass(Lines(b, ml, d), start, d, i, b.Keys)
    ensures forall r :: 0 <= r < BoardSize && LineCell(d, r, i) in b ==> Sweep(start[r], i)[i].Full?
  {
    forall r | 0 <= r < BoardSize && LineCell(d, r, i) !in b
      ensures Sweep(start[r], i + 1) == Sweep(start[r], i)
    {
      assert Sweep(start[r], i)[i] == CellOf(b, ml, LineCell(d, r, i));
    }
  }

  /** Visiting a location at depth i resolves its line at depth i, which moves that line on
      to depth i + 1 and leaves the others where they were. */
  lemma PassStep(ls: seq<seq<Cell>>, start: seq<seq<Cell>>, d: Direction, i: int, todo: set<Location>, l: Location)
    requires Shaped(start) && 0 <= i < BoardSize
    requires MidPass(ls, start, d, i, todo) && l in todo && DepthOf(d, l) == i
    ensures MidPass(ls[LineOf(d, l) := Resolve(ls[LineOf(d, l)], i)], start, d, i, todo - {l})
  {
    LineCellOf(d, l);
    forall r | 0 <= r < BoardSize
      ensures LineCell(d, r, i) == l <==> r == LineOf(d, l)
    {
      LineCellOf(d, LineCell(d, r, i));
    }
  }

  /** Skipping a location of another depth changes nothing. */
  lemma PassSkip(ls: seq<seq<Cell>>, start: seq<seq<Cell>>, d: Direction, i: int, todo: set<Location>, l: Location)
    requires Shaped(start) && 0 <= i < BoardSize
    requires MidPass(ls, start, d, i, todo) && DepthOf(d, l) != i
    ensures MidPass(ls, start, d, i, todo - {l})
  {
    forall r | 0 <= r < BoardSize
      ensures LineCell(d, r, i) != l
    {
    }
  }

  /** The sum of the merged values over a list of lines. */
  function TotalMerged(ls: seq<seq<Cell>>): int
  {
    if ls == [] then 0 else TotalMerged(ls[..|ls| - 1]) + MergedTotal(ls[|ls| - 1])
  }

  lemma {:induction false} TotalMergedUpdate(ls: seq<seq<Cell>>, r: int, line: seq<Cell>)
    requires 0 <= r < |ls|
    ensures TotalMerged(ls[r := line]) == TotalMerged(ls) - MergedTotal(ls[r]) + MergedTotal(line)
  {
    var n := |ls|;
    if r < n - 1 {
      assert ls[r := line][..n - 1] == ls[..n - 1][r := line];
      TotalMergedUpdate(ls[..n - 1], r, line);
    } else {
      assert ls[r := line][..n - 1] == ls[..n - 1];
    }
  }

  lemma {:induction false} TotalMergedUnmarked(ls: seq<seq<Cell>>)
    requires Unmarked(ls)
    ensures TotalMerged(ls) == 0
  {
    if ls != [] {
      TotalMergedUnmarked(ls[..|ls| - 1]);
      MergedTotalOfUnmerged(ls[|ls| - 1]);
    }
  }

  /** The score a move toward d earns: the sum of the values of the tiles its merges create. */
  function TurnGain(b: Board, d: Direction): int
  {
    TotalMerged(SweptLines(Lines(b, {}, d)))
  }

  /** GoodLogic.isMovePossible: some tile has a neighbour toward d that is empty or holds
      the same value. */
  predicate MovePossible(b: Board, d: Direction)
  {
    exists l :: l in b && MovableAt(b, d, l)
  }

  /** The tile at l has a neighbour toward d that is empty or holds the same value. */
  predicate MovableAt(b: Board, d: Direction, l: Location)
  {
    l in b && Adjacent(l, d).Some? && (Adjacent(l, d).value !in b || b[Adjacent(l, d).value] == b[l])
  }

  /** GoodLogic.isGameWon: some tile has reached the winning value. */
  predicate GameWon(b: Board)
  {
    exists l :: l in b && b[l] >= WinningValue
  }

  /** GoodLogic.isGameLost: no direction allows a move. */
  predicate GameLost(b: Board)
  {
    forall d: Direction :: !MovePossible(b, d)
  }

  /** Every tile of the board carries a power of two no smaller than 2. */
  predicate TileValuesOnly(b: Board)
  {
    forall l :: l in b ==> TileValue(b[l])
  }

  lemma MovePossibleByLine(b: Board, d: Direction)
    ensures MovePossible(b, d) <==> exists r :: 0 <= r < BoardSize && CanMove(LineAt(b, {}, d, r))
  {
    if MovePossible(b, d) {
      var l: Location :| l in b && MovableAt(b, d, l);
      assert Adjacent(l, d).Some?;
      var r, p := LineOf(d, l), DepthOf(d, l);
      LineCellOf(d, l);
      AdjacentAlongLine(d, r, p);
      assert CanMove(LineAt(b, {}, d, r)) by {
        assert 0 < p && LineAt(b, {}, d, r)[p].Full?;
      }
    }
    if exists r :: 0 <= r < BoardSize && CanMove(LineAt(b, {}, d, r)) {
      var r :| 0 <= r < BoardSize && CanMove(LineAt(b, {}, d, r));
      var line := LineAt(b, {}, d, r);
      var p :| 0 < p < |line| && line[p].Full? && (line[p - 1].Empty? || line[p - 1].value == line[p].value);
      AdjacentAlongLine(d, r, p);
      var l := LineCell(d, r, p);
      assert l in b && Adjacent(l, d) == Some(LineCell(d, r, p - 1));
      assert MovableAt(b, d, l);
    }
  }

  /** isMovePossible is exact: a move is possible precisely when it changes the board. */
  lemma MovePossibleIffChanges(b: Board, d: Direction)
    ensures MovePossible(b, d) <==> SweepBoard(b, d) != b
  {
    MovePossibleByLine(b, d);
    var s := SweepBoard(b, d);
    forall r | 0 <= r < BoardSize
      ensures LineAt(s, {}, d, r) != LineAt(b, {}, d, r) <==> CanMove(LineAt(b, {}, d, r))
    {
      SweepBoardLines(b, d, r);
      SweepChangesIffCanMove(LineAt(b, {}, d, r));
    }
    if forall r :: 0 <= r < BoardSize ==> LineAt(s, {}, d, r) == LineAt(b, {}, d, r) {
      LinesDetermineBoard(s, b, d);
    }
  }

  /** A lost game is one where no direction changes the board. */
  lemma GameLostIffStuck(b: Board)
    ensures GameLost(b) <==> forall d: Direction :: SweepBoard(b, d) == b
  {
    forall d: Direction
      ensures MovePossible(b, d) <==> SweepBoard(b, d) != b
    {
      MovePossibleIffChanges(b, d);
    }
  }

  /** A move only ever produces tile values from tile values. */
  lemma SweepBoardTileValues(b: Board, d: Direction)
    requires TileValuesOnly(b)
    ensures TileValuesOnly(SweepBoard(b, d))
  {
    var s := SweepBoard(b, d);
    forall l | l in s
      ensures TileValue(s[l])
    {
      var r, p := LineOf(d, l), DepthOf(d, l);
      var line := LineAt(b, {}, d, r);
      assert TileValues(line) by {
        forall q | 0 <= q < BoardSize && line[q].Full?
          ensures TileValue(line[q].value)
        {
          assert LineCell(d, r, q) in b;
        }
      }
      SweepTileValues(line, BoardSize);
    }
  }

  /** A move neither creates nor destroys value: line by line, the sums of the values agree. */
  lemma SweepBoardConserves(b: Board, d: Direction, r: int)
    requires 0 <= r < BoardSize
    ensures Total(LineAt(SweepBoard(b, d), {}, d, r)) == Total(LineAt(b, {}, d, r))
  {
    SweepBoardLines(b, d, r);
    var swept := Sweep(LineAt(b, {}, d, r), BoardSize);
    SweepConserves(LineAt(b, {}, d, r));
    StripConserves(swept);
  }

  lemma {:induction false} StripConserves(line: seq<Cell>)
    ensures Total(Strip(line)) == Total(line)
  {
    if line != [] {
      var init := line[..|line| - 1];
      var last := line[|line| - 1];
      StripConserves(init);
      assert line == init + [last];
      TotalConcat(init, [last]);
      TotalConcat(Strip(init), [if last.Full? then Full(last.value, false) else Empty]);
    }
  }

  /** With tile values only, a move never lowers the score. */
  lemma TurnGainNonNegative(b: Board, d: Direction)
    requires TileValuesOnly(b)
    ensures TurnGain(b, d) >= 0
  {
    var ls := SweptLines(Lines(b, {}, d));
    forall r | 0 <= r < BoardSize
      ensures MergedTotal(ls[r]) >= 0
    {
      var line := LineAt(b, {}, d, r);
      assert TileValues(line) by {
        forall q | 0 <= q < BoardSize && line[q].Full?
          ensures TileValue(line[q].value)
        {
          assert LineCell(d, r, q) in b;
        }
      }
      SweepTileValues(line, BoardSize);
      MergedTotalNonNegative(ls[r]);
    }
    TotalMergedNonNegative(ls);
  }

  lemma {:induction false} MergedTotalNonNegative(line: seq<Cell>)
    requires TileValues(line)
    ensures MergedTotal(line) >= 0
  {
    if line != [] {
      assert TileValues(line[1..]) by {
        assert forall q :: 0 <= q < |line| - 1 ==> line[1..][q] == line[q + 1];
      }
      MergedTotalNonNegative(line[1..]);
    }
  }

  lemma {:induction false} TotalMergedNonNegative(ls: seq<seq<Cell>>)
    requires forall r :: 0 <= r < |ls| ==> MergedTotal(ls[r]) >= 0
    ensures TotalMerged(ls) >= 0
  {
    if ls != [] {
      TotalMergedNonNegative(ls[..|ls| - 1]);
    }
  }

  // ---------------------------------------------------------------------------
  // Spawning.

  /** The free locations among the first n in rank order, in that order. */
  function FreeUpTo(keys: set<Location>, n: int): (free: seq<Location>)
    requires 0 <= n <= BoardSize * BoardSize
    ensures |free| <= n
  {
    if n == 0 then []
    else FreeUpTo(keys, n - 1) + if CellAtRank(n - 1) in keys then [] else [CellAtRank(n - 1)]
  }

  lemma {:induction false} FreeUpToExact(keys: set<Location>, n: int)
    requires 0 <= n <= BoardSize * BoardSize
    ensures forall l :: l in FreeUpTo(keys, n) <==> l !in keys && Rank(l) < n
    ensures forall i, j :: 0 <= i < j < |FreeUpTo(keys, n)| ==> Rank(FreeUpTo(keys, n)[i]) < Rank(FreeUpTo(keys, n)[j])
  {
    if n > 0 {
      FreeUpToExact(keys, n - 1);
      var l := CellAtRank(n - 1);
      forall m: Location
        ensures Rank(m) == n - 1 ==> m == l
      {
        RankInjective(m, l);
      }
    }
  }

  lemma FreeUpToStep(keys: set<Location>, n: int)
    requires 0 <= n < BoardSize * BoardSize
    ensures FreeUpTo(keys, n + 1) == FreeUpTo(keys, n) + if CellAtRank(n) in keys then [] else [CellAtRank(n)]
  {
  }

  /** The occupied locations among the first n in rank order. */
  function OccupiedUpTo(keys: set<Location>, n: int): set<Location>
  {
    set l | l in keys && Rank(l) < n
  }

  /** Among the first n locations, the free ones and the occupied ones together number n. */
  lemma {:induction false} FreeUpToCount(keys: set<Location>, n: int)
    requires 0 <= n <= BoardSize * BoardSize
    ensures |FreeUpTo(keys, n)| + |OccupiedUpTo(keys, n)| == n
  {
    if n == 0 {
      assert OccupiedUpTo(keys, 0) == {};
    } else {
      FreeUpToCount(keys, n - 1);
      var l := CellAtRank(n - 1);
      forall m: Location
        ensures Rank(m) == n - 1 ==> m == l
      {
        RankInjective(m, l);
      }
      if l in keys {
        assert OccupiedUpTo(keys, n) == OccupiedUpTo(keys, n - 1) + {l};
      } else {
        assert OccupiedUpTo(keys, n) == OccupiedUpTo(keys, n - 1);
      }
    }
  }

  /** TileGrid.getAllUnoccupiedLocations: the free locations, x-major. */
  function FreeCells(keys: set<Location>): seq<Location>
  {
    FreeUpTo(keys, BoardSize * BoardSize)
  }

  /** The free list holds every free location exactly once, nothing else, in rank order;
      with the occupied locations it accounts for all sixteen cells. */
  lemma FreeCellsExact(keys: set<Location>)
    ensures forall l: Location :: l in FreeCells(keys) <==> l !in keys
    ensures forall i, j :: 0 <= i < j < |FreeCells(keys)| ==> Rank(FreeCells(keys)[i]) < Rank(FreeCells(keys)[j])
    ensures |FreeCells(keys)| + |keys| == BoardSize * BoardSize
  {
    FreeUpToExact(keys, BoardSize * BoardSize);
    FreeUpToCount(keys, BoardSize * BoardSize);
    assert OccupiedUpTo(keys, BoardSize * BoardSize) == keys;
  }

  /** The location spawnNewTile picks: it steps its iterator `choice` times but stops at the end. */
  function SpawnLocation(free: seq<Location>, choice: nat): (l: Location)
    requires free != []
    ensures l in free
    ensures choice < |free| ==> l == free[choice]
  {
    if choice < |free| then free[choice] else free[|free| - 1]
  }

  /** GoodLogic.spawnNewTile's effect: a new 2 on a free location, or nothing on a full board. */
  function Spawn(b: Board, choice: nat): (r: Board)
    ensures FreeCells(b.Keys) == [] ==> r == b
    ensures FreeCells(b.Keys) != [] ==>
              exists l: Location :: l !in b && r == b[l := SpawnValue]
  {
    var free := FreeCells(b.Keys);
    if free == [] then b
    else
      FreeCellsExact(b.Keys);
      b[SpawnLocation(free, choice) := SpawnValue]
  }

  /** A full board gets no new tile; otherwise exactly one location gains a 2. */
  lemma SpawnFillsOneCell(b: Board, choice: nat)
    ensures |FreeCells(b.Keys)| == 0 <==> Spawn(b, choice) == b
    ensures TileValuesOnly(b) ==> TileValuesOnly(Spawn(b, choice))
  {
    var free := FreeCells(b.Keys);
    FreeCellsExact(b.Keys);
    if free != [] {
      var l := SpawnLocation(free, choice);
      assert l !in b && l in Spawn(b, choice);
    }
    assert TileValue(SpawnValue) by {
      assert PowerOfTwo(1);
    }
  }

  /** A whole turn, sweep and spawn, keeps every value on the board a power of two >= 2. */
  lemma TurnKeepsTileValues(b: Board, d: Direction, choice: nat)
    requires TileValuesOnly(b)
    ensures TileValuesOnly(Spawn(SweepBoard(b, d), choice))
  {
    SweepBoardTileValues(b, d);
    SpawnFillsOneCell(SweepBoard(b, d), choice);
  }
}
