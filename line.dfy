/** One line of the board (a row or a column, depending on the direction of the move),
    indexed by distance from the wall the tiles move towards: index 0 touches that wall.
    This is the view GoodLogic.processTileAt has of the grid: it only ever looks at the
    cells between a tile and the destination wall. */
module TileLines {

  /** A cell of a line. `merged` is true when the tile standing there is in the turn's
      merged set (GoodLogic.java:99). */
  datatype Cell = Empty | Full(value: int, merged: bool)

  /** The while loop of processTileAt (GoodLogic.java:121-143), started at index j for a
      tile of value v: the index where the tile comes to rest, and whether it merges there.
      It slides over empty cells and stops at the first occupied one, which it merges into
      exactly when that tile has the same value and is not yet merged. */
  function Scan(line: seq<Cell>, v: int, j: nat): (r: (nat, bool))
    requires j < |line|
    ensures r.0 <= j
    ensures r.1 ==> r.0 < j && line[r.0] == Full(v, false)
    ensures r.1 ==> forall q :: r.0 < q < j ==> line[q] == Empty
    ensures !r.1 ==> forall q :: r.0 <= q < j ==> line[q] == Empty
    ensures !r.1 && 0 < r.0 ==> line[r.0 - 1].Full? && line[r.0 - 1] != Full(v, false)
    decreases j
  {
    if j == 0 then (0, false)
    else match line[j - 1]
      case Empty => Scan(line, v, j - 1)
      case Full(w, m) => if w == v && !m then (j - 1, true) else (j, false)
  }

  /** processTileAt for the tile at index k: no change when it cannot move; otherwise it
      leaves index k and either stands at its resting place or, after a merge, replaces the
      tile there with one of twice its value that is marked as merged. */
  function Resolve(line: seq<Cell>, k: nat): (r: seq<Cell>)
    requires k < |line|
    ensures |r| == |line|
    ensures forall q :: k < q < |line| ==> r[q] == line[q]
  {
    if line[k].Empty? then line
    else
      var (j, mg) := Scan(line, line[k].value, k);
      if mg then line[k := Empty][j := Full(2 * line[k].value, true)]
      else line[k := Empty][j := line[k]]
  }

  /** The amount processTileAt adds to the score for the tile at index k: the doubled value
      when it merges, nothing otherwise (GoodLogic.java:156-158). */
  function Gain(line: seq<Cell>, k: nat): int
    requires k < |line|
  {
    if line[k].Empty? then 0
    else if Scan(line, line[k].value, k).1 then 2 * line[k].value
    else 0
  }

  /** The sweep of processTiles restricted to one line: the cells at indices 0, 1, ..., n-1
      are resolved in that order, nearest the wall first (GoodLogic.java:99-108). */
  function Sweep(line: seq<Cell>, n: nat): (r: seq<Cell>)
    requires n <= |line|
    ensures |r| == |line|
    ensures forall q :: n <= q < |line| ==> r[q] == line[q]
  {
    if n == 0 then line else Resolve(Sweep(line, n - 1), n - 1)
  }

  /** No tile of the line is in the merged set: the state at the start of a turn. */
  predicate Unmerged(line: seq<Cell>)
  {
    forall q :: 0 <= q < |line| && line[q].Full? ==> !line[q].merged
  }

  /** The line as the grid stores it once the turn's merged set is dropped. */
  function Strip(line: seq<Cell>): (r: seq<Cell>)
    ensures |r| == |line|
    ensures forall q :: 0 <= q < |line| ==> r[q] == if line[q].Full? then Full(line[q].value, false) else Empty
  {
    if line == [] then [] else Strip(line[..|line| - 1]) + [if line[|line| - 1].Full? then Full(line[|line| - 1].value, false) else Empty]
  }

  function Blanks(n: nat): (r: seq<Cell>)
    ensures |r| == n && forall q :: 0 <= q < n ==> r[q] == Empty
  {
    seq(n, _ => Empty)
  }

  // ---------------------------------------------------------------------------
  // The reference: the usual statement of the 2048 rule for one line.

  /** The values of the occupied cells, nearest the wall first. */
  function Compact(line: seq<Cell>): (vs: seq<int>)
    ensures |vs| <= |line|
  {
    if line == [] then []
    else Compact(line[..|line| - 1]) + (if line[|line| - 1].Full? then [line[|line| - 1].value] else [])
  }

  /** Pair equal neighbours greedily starting from the wall; each pair becomes one merged
      tile of twice the value, every other value stays a single unmerged tile. */
  function Collapse(vs: seq<int>): (r: seq<Cell>)
    ensures |r| <= |vs|
    ensures forall q :: 0 <= q < |r| ==> r[q].Full?
  {
    if |vs| == 0 then []
    else if |vs| >= 2 && vs[0] == vs[1] then [Full(2 * vs[0], true)] + Collapse(vs[2..])
    else [Full(vs[0], false)] + Collapse(vs[1..])
  }

  /** Collapse, extended by one value at the far end. */
  function Push(acc: seq<Cell>, v: int): seq<Cell>
  {
    if |acc| > 0 && acc[|acc| - 1] == Full(v, false) then acc[..|acc| - 1] + [Full(2 * v, true)]
    else acc + [Full(v, false)]
  }

  lemma PushCons(c: Cell, acc: seq<Cell>, v: int)
    requires acc != [] || c != Full(v, false)
    ensures Push([c] + acc, v) == [c] + Push(acc, v)
  {
    if acc != [] {
      assert ([c] + acc)[..|acc|] == [c] + acc[..|acc| - 1];
    }
  }

  /** Collapse can be computed one value at a time, starting from the wall. */
  lemma {:induction false} CollapseSnoc(vs: seq<int>, v: int)
    ensures Collapse(vs + [v]) == Push(Collapse(vs), v)
  {
    if |vs| == 0 {
      assert [] + [v] == [v];
    } else if |vs| == 1 {
      assert (vs + [v])[1..] == [v];
      assert [v][1..] == [];
      assert vs[1..] == [];
    } else if vs[0] == vs[1] {
      assert (vs + [v])[2..] == vs[2..] + [v];
      CollapseSnoc(vs[2..], v);
      PushCons(Full(2 * vs[0], true), Collapse(vs[2..]), v);
    } else {
      assert (vs + [v])[1..] == vs[1..] + [v];
      CollapseSnoc(vs[1..], v);
      PushCons(Full(vs[0], false), Collapse(vs[1..]), v);
    }
  }

  lemma CompactSnoc(line: seq<Cell>, n: nat)
    requires n < |line|
    ensures Compact(line[..n + 1]) == Compact(line[..n]) + (if line[n].Full? then [line[n].value] else [])
  {
    assert line[..n + 1][..n] == line[..n];
  }

  /** Where the next tile stops when the cells nearest the wall hold the fully occupied
      `acc` followed by blanks: on the last tile of `acc` if it can merge, else just past it. */
  lemma ScanAtFrontier(acc: seq<Cell>, b: nat, v: int, rest: seq<Cell>)
    requires forall q :: 0 <= q < |acc| ==> acc[q].Full?
    ensures Scan(acc + Blanks(b) + [Full(v, false)] + rest, v, |acc| + b)
            == if |acc| > 0 && acc[|acc| - 1] == Full(v, false) then (|acc| - 1, true) else (|acc|, false)
  {
    var s := acc + Blanks(b) + [Full(v, false)] + rest;
    var k := |acc| + b;
    assert forall q :: 0 <= q < |acc| ==> s[q] == acc[q];
    assert forall q :: |acc| <= q < k ==> s[q] == Empty;
    var (j, mg) := Scan(s, v, k);
    if mg {
      assert j < |acc|;
      assert j + 1 == k || s[j + 1] == Empty;
      assert j == |acc| - 1;
    } else {
      assert j == k || s[j] == Empty;
      assert j >= |acc|;
      assert j == |acc|;
    }
  }

  lemma MergeAtFrontier(acc: seq<Cell>, b: nat, v: int, rest: seq<Cell>)
    requires |acc| > 0 && acc[|acc| - 1] == Full(v, false)
    ensures var s := acc + Blanks(b) + [Full(v, false)] + rest;
            s[|acc| + b := Empty][|acc| - 1 := Full(2 * v, true)]
            == acc[..|acc| - 1] + [Full(2 * v, true)] + Blanks(b + 1) + rest
  {
    var s := acc + Blanks(b) + [Full(v, false)] + rest;
    var k := |acc| + b;
    var r := s[k := Empty][|acc| - 1 := Full(2 * v, true)];
    var t := acc[..|acc| - 1] + [Full(2 * v, true)] + Blanks(b + 1) + rest;
    assert |r| == |t|;
    forall q | 0 <= q < |r| ensures r[q] == t[q] {
      if q < |acc| - 1 {
        assert t[q] == acc[q] == s[q];
      } else if q == |acc| - 1 {
      } else if q <= k {
        assert t[q] == Empty;
      } else {
        assert t[q] == rest[q - k - 1] == s[q];
      }
    }
  }

  lemma SlideAtFrontier(acc: seq<Cell>, b: nat, v: int, rest: seq<Cell>)
    ensures var s := acc + Blanks(b) + [Full(v, false)] + rest;
            s[|acc| + b := Empty][|acc| := Full(v, false)]
            == acc + [Full(v, false)] + Blanks(b) + rest
  {
    var s := acc + Blanks(b) + [Full(v, false)] + rest;
    var k := |acc| + b;
    var r := s[k := Empty][|acc| := Full(v, false)];
    var t := acc + [Full(v, false)] + Blanks(b) + rest;
    assert |r| == |t|;
    forall q | 0 <= q < |r| ensures r[q] == t[q] {
      if q < |acc| {
        assert t[q] == acc[q] == s[q];
      } else if q == |acc| {
      } else if q <= k {
        assert t[q] == Empty;
      } else {
        assert t[q] == rest[q - k - 1] == s[q];
      }
    }
  }

  /** The step of the sweep: once the cells nearest the wall hold `acc` followed by blanks,
      resolving the next tile extends `acc` exactly as Push does. */
  lemma ResolveAtFrontier(s: seq<Cell>, acc: seq<Cell>, b: nat, v: int, rest: seq<Cell>, p: seq<Cell>, k: nat)
    requires forall q :: 0 <= q < |acc| ==> acc[q].Full?
    requires s == acc + Blanks(b) + [Full(v, false)] + rest
    requires p == Push(acc, v) && k == |acc| + b
    ensures |p| <= k + 1
    ensures Resolve(s, k) == p + Blanks(k + 1 - |p|) + rest
  {
    assert s[k] == Full(v, false);
    ScanAtFrontier(acc, b, v, rest);
    if |acc| > 0 && acc[|acc| - 1] == Full(v, false) {
      assert Resolve(s, k) == s[k := Empty][|acc| - 1 := Full(2 * v, true)];
      MergeAtFrontier(acc, b, v, rest);
      assert Push(acc, v) == acc[..|acc| - 1] + [Full(2 * v, true)];
    } else {
      assert Resolve(s, k) == s[k := Empty][|acc| := Full(v, false)];
      SlideAtFrontier(acc, b, v, rest);
      assert Push(acc, v) == acc + [Full(v, false)];
    }
  }

  /** The shape of the line after n steps of the sweep (see SweepShape). */
  ghost predicate SweptUpTo(line: seq<Cell>, n: nat)
    requires n <= |line|
  {
    var acc := Collapse(Compact(line[..n]));
    |acc| <= n && Sweep(line, n) == acc + Blanks(n - |acc|) + line[n..]
  }

  lemma BlankStep(acc: seq<Cell>, b: nat, rest: seq<Cell>)
    ensures acc + Blanks(b) + ([Empty] + rest) == acc + Blanks(b + 1) + rest
  {
    assert Blanks(b) + [Empty] == Blanks(b + 1);
  }

  lemma SweepStepEmpty(line: seq<Cell>, k: nat)
    requires k < |line| && line[k].Empty?
    requires SweptUpTo(line, k)
    ensures SweptUpTo(line, k + 1)
  {
    var acc := Collapse(Compact(line[..k]));
    var rest := line[k + 1..];
    assert line[k..] == [Empty] + rest;
    CompactSnoc(line, k);
    assert Compact(line[..k + 1]) == Compact(line[..k]);
    assert Sweep(line, k)[k] == line[k];
    assert Sweep(line, k + 1) == Sweep(line, k);
    BlankStep(acc, k - |acc|, rest);
  }

  lemma SweepStepFull(line: seq<Cell>, k: nat, v: int)
    requires k < |line| && line[k] == Full(v, false)
    requires SweptUpTo(line, k)
    ensures SweptUpTo(line, k + 1)
  {
    var acc := Collapse(Compact(line[..k]));
    var b := k - |acc|;
    var rest := line[k + 1..];
    assert Sweep(line, k) == acc + Blanks(b) + [Full(v, false)] + rest by {
      assert line[k..] == [Full(v, false)] + rest;
    }
    CollapseStep(line, k, v);
    ResolveAtFrontier(Sweep(line, k), acc, b, v, rest, Collapse(Compact(line[..k + 1])), k);
  }

  /** The reference, extended by one more tile of the line. */
  lemma CollapseStep(line: seq<Cell>, k: nat, v: int)
    requires k < |line| && line[k] == Full(v, false)
    ensures Collapse(Compact(line[..k + 1])) == Push(Collapse(Compact(line[..k])), v)
  {
    CompactSnoc(line, k);
    CollapseSnoc(Compact(line[..k]), v);
  }

  lemma SweepStep(line: seq<Cell>, n: nat)
    requires 0 < n <= |line| && Unmerged(line)
    requires SweptUpTo(line, n - 1)
    ensures SweptUpTo(line, n)
  {
    if line[n - 1].Empty? {
      SweepStepEmpty(line, n - 1);
    } else {
      SweepStepFull(line, n - 1, line[n - 1].value);
    }
  }

  /** After n steps of the sweep, the cells nearest the wall hold the collapse of the first
      n cells' values, then blanks, then the untouched remainder of the line. */
  lemma {:induction false} SweepShape(line: seq<Cell>, n: nat)
    requires n <= |line| && Unmerged(line)
    ensures SweptUpTo(line, n)
  {
    if n == 0 {
      SweptUpToStart(line);
    } else {
      SweepShape(line, n - 1);
      SweepStep(line, n);
    }
  }

  lemma SweptUpToStart(line: seq<Cell>)
    ensures SweptUpTo(line, 0)
  {
    assert line[..0] == [];
    assert line[0..] == line;
  }

  /** Sweeping a whole line yields the reference result: the occupied values collapsed
      pairwise from the wall, packed against the wall, followed by blanks. */
  lemma SweepIsCollapse(line: seq<Cell>)
    requires Unmerged(line)
    ensures |Collapse(Compact(line))| <= |line|
    ensures Sweep(line, |line|) == Collapse(Compact(line)) + Blanks(|line| - |Collapse(Compact(line))|)
  {
    SweepShape(line, |line|);
    assert line[..|line|] == line;
    assert line[|line|..] == [];
  }

  // ---------------------------------------------------------------------------
  // Score accounting.

  /** What a cell contributes to the turn's score: the value of a tile formed by a merge. */
  function Worth(c: Cell): int
  {
    if c.Full? && c.merged then c.value else 0
  }

  /** The sum of the values of the merged tiles of a line. */
  function MergedTotal(line: seq<Cell>): int
  {
    if line == [] then 0 else Worth(line[0]) + MergedTotal(line[1..])
  }

  lemma {:induction false} MergedTotalConcat(a: seq<Cell>, b: seq<Cell>)
    ensures MergedTotal(a + b) == MergedTotal(a) + MergedTotal(b)
  {
    if a != [] {
      assert (a + b)[1..] == a[1..] + b;
      MergedTotalConcat(a[1..], b);
    } else {
      assert a + b == b;
    }
  }

  lemma {:induction false} MergedTotalUpdate(line: seq<Cell>, i: nat, c: Cell)
    requires i < |line|
    ensures MergedTotal(line[i := c]) == MergedTotal(line) - Worth(line[i]) + Worth(c)
  {
    if i > 0 {
      assert line[i := c][1..] == line[1..][i - 1 := c];
      MergedTotalUpdate(line[1..], i - 1, c);
    } else {
      assert line[i := c][1..] == line[1..];
    }
  }

  lemma {:induction false} MergedTotalOfUnmerged(line: seq<Cell>)
    requires Unmerged(line)
    ensures MergedTotal(line) == 0
  {
    if line != [] {
      MergedTotalOfUnmerged(line[1..]);
    }
  }

  lemma MergedTotalPadded(padded: seq<Cell>, line: seq<Cell>, n: nat)
    requires padded == line + Blanks(n)
    ensures MergedTotal(padded) == MergedTotal(line)
  {
    MergedTotalConcat(line, Blanks(n));
    MergedTotalOfUnmerged(Blanks(n));
  }

  /** Resolving one unmerged tile raises the line's merged total by exactly what
      processTileAt adds to the score. */
  lemma ResolveMergedTotal(line: seq<Cell>, k: nat)
    requires k < |line|
    requires line[k].Full? ==> !line[k].merged
    ensures MergedTotal(Resolve(line, k)) == MergedTotal(line) + Gain(line, k)
  {
    if line[k].Full? {
      var (j, mg) := Scan(line, line[k].value, k);
      MergedTotalUpdate(line, k, Empty);
      if mg {
        MergedTotalUpdate(line[k := Empty], j, Full(2 * line[k].value, true));
      } else {
        MergedTotalUpdate(line[k := Empty], j, line[k]);
      }
    }
  }

  /** The sum of all tile values of a line, and of a list of values. */
  function Total(line: seq<Cell>): int
  {
    if line == [] then 0 else (if line[0].Full? then line[0].value else 0) + Total(line[1..])
  }

  function Sum(vs: seq<int>): int
  {
    if vs == [] then 0 else vs[0] + Sum(vs[1..])
  }

  /** The number of merged tiles of a line. */
  function MergedCount(line: seq<Cell>): nat
  {
    if line == [] then 0 else (if line[0].Full? && line[0].merged then 1 else 0) + MergedCount(line[1..])
  }

  /** Merging conserves the sum of the values. */
  lemma {:induction false} CollapseConserves(vs: seq<int>)
    ensures Total(Collapse(vs)) == Sum(vs)
  {
    if |vs| >= 2 && vs[0] == vs[1] {
      CollapseConserves(vs[2..]);
      assert ([Full(2 * vs[0], true)] + Collapse(vs[2..]))[1..] == Collapse(vs[2..]);
      assert vs[1..][1..] == vs[2..];
    } else if |vs| > 0 {
      CollapseConserves(vs[1..]);
      assert ([Full(vs[0], false)] + Collapse(vs[1..]))[1..] == Collapse(vs[1..]);
    }
  }

  /** Every merge turns exactly two tiles into one, so no tile takes part in two merges:
      the tiles going in are the tiles coming out plus one per merge. */
  lemma {:induction false} CollapseCountsTiles(vs: seq<int>)
    ensures |vs| == |Collapse(vs)| + MergedCount(Collapse(vs))
  {
    if |vs| >= 2 && vs[0] == vs[1] {
      CollapseCountsTiles(vs[2..]);
      assert ([Full(2 * vs[0], true)] + Collapse(vs[2..]))[1..] == Collapse(vs[2..]);
    } else if |vs| > 0 {
      CollapseCountsTiles(vs[1..]);
      assert ([Full(vs[0], false)] + Collapse(vs[1..]))[1..] == Collapse(vs[1..]);
    }
  }

  // ---------------------------------------------------------------------------
  // Tile values.

  predicate PowerOfTwo(v: int)
    decreases if v > 0 then v else 0
  {
    v == 1 || (v > 1 && v % 2 == 0 && PowerOfTwo(v / 2))
  }

  /** A value a tile can carry: a power of two no smaller than 2. */
  predicate TileValue(v: int)
  {
    v >= 2 && PowerOfTwo(v)
  }

  predicate TileValues(line: seq<Cell>)
  {
    forall q :: 0 <= q < |line| && line[q].Full? ==> TileValue(line[q].value)
  }

  /** Doubling keeps a tile value a tile value. */
  lemma DoubleTileValue(v: int)
    requires TileValue(v)
    ensures TileValue(2 * v)
  {
    assert (2 * v) / 2 == v;
  }

  lemma {:induction false} CollapseTileValues(vs: seq<int>)
    requires forall i :: 0 <= i < |vs| ==> TileValue(vs[i])
    ensures TileValues(Collapse(vs))
  {
    if |vs| >= 2 && vs[0] == vs[1] {
      CollapseTileValues(vs[2..]);
      DoubleTileValue(vs[0]);
      var r := [Full(2 * vs[0], true)] + Collapse(vs[2..]);
      assert forall q :: 1 <= q < |r| ==> r[q] == Collapse(vs[2..])[q - 1];
    } else if |vs| > 0 {
      CollapseTileValues(vs[1..]);
      var r := [Full(vs[0], false)] + Collapse(vs[1..]);
      assert forall q :: 1 <= q < |r| ==> r[q] == Collapse(vs[1..])[q - 1];
    }
  }

  lemma {:induction false} CompactTileValues(line: seq<Cell>)
    requires TileValues(line)
    ensures forall i :: 0 <= i < |Compact(line)| ==> TileValue(Compact(line)[i])
  {
    if line != [] {
      var init := line[..|line| - 1];
      assert TileValues(init) by {
        assert forall q :: 0 <= q < |init| ==> init[q] == line[q];
      }
      CompactTileValues(init);
    }
  }

  /** Every stage of the sweep keeps every tile value a power of two no smaller than 2. */
  lemma SweepTileValues(line: seq<Cell>, n: nat)
    requires n <= |line| && Unmerged(line) && TileValues(line)
    ensures TileValues(Sweep(line, n))
  {
    SweepShape(line, n);
    var pre := line[..n];
    assert TileValues(pre) by {
      assert forall q :: 0 <= q < |pre| ==> pre[q] == line[q];
    }
    CompactTileValues(pre);
    CollapseTileValues(Compact(pre));
    var acc := Collapse(Compact(pre));
    var r := acc + Blanks(n - |acc|) + line[n..];
    assert forall q :: 0 <= q < |r| ==> r[q] == if q < |acc| then acc[q] else if q < n then Empty else line[q];
  }

  /** Three equal tiles in a line: the two nearest the wall merge, the third slides up
      behind them unmerged. */
  lemma ThreeEqualTiles()
    ensures Sweep([Empty, Full(2, false), Full(2, false), Full(2, false)], 4)
            == [Full(4, true), Full(2, false), Empty, Empty]
  {
    var line := [Empty, Full(2, false), Full(2, false), Full(2, false)];
    var s2 := [Full(2, false), Empty, Full(2, false), Full(2, false)];
    var s3 := [Full(4, true), Empty, Empty, Full(2, false)];
    assert Sweep(line, 1) == line;
    assert Scan(line, 2, 1) == (0, false);
    assert Sweep(line, 2) == s2;
    assert Scan(s2, 2, 2) == (0, true);
    assert Sweep(line, 3) == s3;
    assert Scan(s3, 2, 3) == (1, false);
  }

  // ---------------------------------------------------------------------------
  // Conservation over a whole sweep.

  lemma {:induction false} TotalConcat(a: seq<Cell>, b: seq<Cell>)
    ensures Total(a + b) == Total(a) + Total(b)
  {
    if a != [] {
      assert (a + b)[1..] == a[1..] + b;
      TotalConcat(a[1..], b);
    } else {
      assert a + b == b;
    }
  }

  lemma {:induction false} SumConcat(a: seq<int>, b: seq<int>)
    ensures Sum(a + b) == Sum(a) + Sum(b)
  {
    if a != [] {
      assert (a + b)[1..] == a[1..] + b;
      SumConcat(a[1..], b);
    } else {
      assert a + b == b;
    }
  }

  /** The sum of the merged tiles left by a whole sweep is the sum of the doubled values
      that the reference pairing produces. */
  lemma SweepMergedTotal(line: seq<Cell>)
    requires Unmerged(line)
    ensures MergedTotal(Sweep(line, |line|)) == MergedTotal(Collapse(Compact(line)))
  {
    SweepShape(line, |line|);
    assert line[..|line|] == line;
    assert line[|line|..] == [];
    MergedTotalPadded(Sweep(line, |line|), Collapse(Compact(line)), |line| - |Collapse(Compact(line))|);
  }

  lemma {:induction false} TotalOfBlanks(n: nat)
    ensures Total(Blanks(n)) == 0
  {
    if n > 0 {
      assert Blanks(n)[1..] == Blanks(n - 1);
      TotalOfBlanks(n - 1);
    }
  }

  /** The values Compact keeps add up to the line's total. */
  lemma {:induction false} CompactConserves(line: seq<Cell>)
    ensures Sum(Compact(line)) == Total(line)
  {
    if line != [] {
      var init := line[..|line| - 1];
      var last := line[|line| - 1];
      CompactConserves(init);
      SumConcat(Compact(init), if last.Full? then [last.value] else []);
      assert line == init + [last];
      TotalConcat(init, [last]);
    }
  }

  /** A whole sweep conserves the sum of the values of the line. */
  lemma SweepConserves(line: seq<Cell>)
    requires Unmerged(line)
    ensures Total(Sweep(line, |line|)) == Total(line)
  {
    SweepIsCollapse(line);
    var c := Collapse(Compact(line));
    var tail := Blanks(|line| - |c|);
    assert Sweep(line, |line|) == c + tail;
    TotalConcat(c, tail);
    TotalOfBlanks(|line| - |c|);
    CollapseConserves(Compact(line));
    CompactConserves(line);
  }

  // ---------------------------------------------------------------------------
  // A line changes under a sweep exactly when one of its tiles can move.

  /** Some tile of the line has an empty cell, or a tile of its own value, on its side
      nearer the wall. */
  predicate CanMove(line: seq<Cell>)
  {
    exists q :: 0 < q < |line| && line[q].Full? && (line[q - 1].Empty? || line[q - 1].value == line[q].value)
  }

  lemma ResolveSettled(line: seq<Cell>, k: nat)
    requires k < |line| && !CanMove(line)
    ensures Resolve(line, k) == line
  {
    if line[k].Full? {
      var (j, mg) := Scan(line, line[k].value, k);
      assert k == 0 || line[k - 1].Full?;
      assert j == k && !mg;
    }
  }

  lemma {:induction false} SweepSettled(line: seq<Cell>, n: nat)
    requires n <= |line| && !CanMove(line)
    ensures Sweep(line, n) == line
  {
    if n > 0 {
      SweepSettled(line, n - 1);
      ResolveSettled(line, n - 1);
    }
  }

  lemma {:induction false} StripUnmerged(line: seq<Cell>)
    requires Unmerged(line)
    ensures Strip(line) == line
  {
  }

  lemma {:induction false} CompactConcat(a: seq<Cell>, b: seq<Cell>)
    ensures Compact(a + b) == Compact(a) + Compact(b)
  {
    if b != [] {
      var bi := b[..|b| - 1];
      assert (a + b)[..|a + b| - 1] == a + bi;
      CompactConcat(a, bi);
    } else {
      assert a + b == a;
    }
  }

  /** When Compact keeps more than m values, some tile lies at distance m or more. */
  lemma {:induction false} FullBeyond(line: seq<Cell>, m: nat) returns (q: nat)
    requires |Compact(line)| > m
    ensures m <= q < |line| && line[q].Full?
  {
    var init := line[..|line| - 1];
    if |line| - 1 >= m && line[|line| - 1].Full? {
      q := |line| - 1;
    } else {
      q := FullBeyond(init, m);
    }
  }

  /** Collapse merges at least once when two neighbouring values are equal. */
  lemma {:induction false} CollapseMerges(vs: seq<int>, i: nat)
    requires i + 1 < |vs| && vs[i] == vs[i + 1]
    ensures MergedCount(Collapse(vs)) > 0
  {
    if !(vs[0] == vs[1]) {
      CollapseMerges(vs[1..], i - 1);
      var r := [Full(vs[0], false)] + Collapse(vs[1..]);
      assert r[1..] == Collapse(vs[1..]);
    }
  }

  lemma {:induction false} SweepMovesSomething(line: seq<Cell>, q: nat)
    requires Unmerged(line) && 0 < q < |line| && line[q].Full?
    requires line[q - 1].Empty? || line[q - 1].value == line[q].value
    ensures Strip(Sweep(line, |line|)) != line
  {
    SweepIsCollapse(line);
    CollapseMovesSomething(line, q);
  }

  /** The reference result differs from a line in which some tile can move. */
  lemma CollapseMovesSomething(line: seq<Cell>, q: nat)
    requires 0 < q < |line| && line[q].Full?
    requires line[q - 1].Empty? || line[q - 1].value == line[q].value
    requires |Collapse(Compact(line))| <= |line|
    ensures Strip(Collapse(Compact(line)) + Blanks(|line| - |Collapse(Compact(line))|)) != line
  {
    var c := Collapse(Compact(line));
    var n := |line| - |c|;
    if line[q - 1].Full? {
      NeighboursMerge(line, q);
      CollapseCountsTiles(Compact(line));
      var p := FullBeyond(line, |c|);
      StripPadded(c, n, p);
      assert Strip(c + Blanks(n))[p] != line[p];
    } else if q - 1 < |c| {
      StripPadded(c, n, q - 1);
      assert Strip(c + Blanks(n))[q - 1] != line[q - 1];
    } else {
      StripPadded(c, n, q);
      assert Strip(c + Blanks(n))[q] != line[q];
    }
  }

  /** Two equal neighbouring tiles make the reference merge at least once. */
  lemma NeighboursMerge(line: seq<Cell>, q: nat)
    requires 0 < q < |line| && line[q].Full? && line[q - 1].Full? && line[q - 1].value == line[q].value
    ensures MergedCount(Collapse(Compact(line))) > 0
  {
    var i := CompactNeighbours(line, q);
    CollapseMerges(Compact(line), i);
  }

  /** Two neighbouring tiles stay neighbours among the compacted values. */
  lemma CompactNeighbours(line: seq<Cell>, q: nat) returns (i: nat)
    requires 0 < q < |line| && line[q].Full? && line[q - 1].Full?
    ensures i + 1 < |Compact(line)| && Compact(line)[i] == line[q - 1].value && Compact(line)[i + 1] == line[q].value
  {
    CompactSplit(line, q - 1);
    CompactFrontPair(line[q - 1..]);
    i := |Compact(line[..q - 1])|;
  }

  /** A line that starts with two tiles compacts to their two values first. */
  lemma CompactFrontPair(line: seq<Cell>)
    requires |line| >= 2 && line[0].Full? && line[1].Full?
    ensures |Compact(line)| >= 2 && Compact(line)[0] == line[0].value && Compact(line)[1] == line[1].value
  {
    CompactSplit(line, 2);
    assert line[..2] == [line[0], line[1]];
    CompactPair(line[0], line[1]);
  }

  lemma CompactSplit(line: seq<Cell>, k: nat)
    requires k <= |line|
    ensures Compact(line) == Compact(line[..k]) + Compact(line[k..])
  {
    CompactConcat(line[..k], line[k..]);
    assert line[..k] + line[k..] == line;
  }

  lemma CompactPair(a: Cell, b: Cell)
    requires a.Full? && b.Full?
    ensures Compact([a, b]) == [a.value, b.value]
  {
    assert [a, b][..1] == [a];
    assert [a][..0] == [];
  }

  /** Cell p of an all-tiles prefix padded with blanks is a tile exactly when p lies in the
      prefix, whether or not the merge marks are dropped. */
  lemma StripPadded(c: seq<Cell>, n: nat, p: nat)
    requires forall q :: 0 <= q < |c| ==> c[q].Full?
    requires p < |c| + n
    ensures Strip(c + Blanks(n))[p].Full? <==> p < |c|
  {
    if p < |c| {
      assert (c + Blanks(n))[p] == c[p];
    } else {
      assert (c + Blanks(n))[p] == Blanks(n)[p - |c|];
    }
  }

  /** A sweep leaves an unmerged line as it was (once the merge marks are dropped) exactly
      when none of its tiles can move. */
  lemma SweepChangesIffCanMove(line: seq<Cell>)
    requires Unmerged(line)
    ensures Strip(Sweep(line, |line|)) != line <==> CanMove(line)
  {
    if CanMove(line) {
      var q :| 0 < q < |line| && line[q].Full? && (line[q - 1].Empty? || line[q - 1].value == line[q].value);
      SweepMovesSomething(line, q);
    } else {
      SweepSettled(line, |line|);
      StripUnmerged(line);
    }
  }

  /** Scan read off from the cells it passes: empty cells from k down to j, then either an
      equal unmerged tile at j (a merge) or the wall or a blocking tile just before j. */
  lemma {:induction false} ScanFrom(line: seq<Cell>, v: int, k: nat, j: nat, merge: bool)
    requires j <= k < |line|
    requires merge ==> j < k && line[j] == Full(v, false)
    requires forall q :: j + (if merge then 1 else 0) <= q < k ==> line[q] == Empty
    requires !merge ==> j == 0 || (line[j - 1].Full? && line[j - 1] != Full(v, false))
    ensures Scan(line, v, k) == (j, merge)
    decreases k
  {
    if k > j + (if merge then 1 else 0) {
      ScanFrom(line, v, k - 1, j, merge);
    }
  }
}
