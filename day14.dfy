/** Regolith reservoir: rock paths are drawn into a 200×700 cave as walls,
    then units of sand fall one at a time from the source, each resting
    where it can no longer move. Part 1 counts the units that rest before
    one falls past the lowest wall; part 2 adds a floor below it and counts
    the units until the source itself is blocked. */
module Day14 {
  import opened Common

  const ROWS: int := 200
  const COLS: int := 700

  datatype Cell = Wall | Sand | Empty

  type Coord = (nat, nat)

  // ---------------------------------------------------------------------
  // The walls.

  /** `range`: the values from the smaller to the larger bound, inclusive. */
  predicate InRange(a: nat, b: nat, v: int)
  {
    if a <= b then a <= v <= b else b <= v <= a
  }

  function Low(a: nat, b: nat): (r: nat)
    ensures r == a || r == b
    ensures InRange(a, b, r) && forall v | InRange(a, b, v) :: r <= v
  {
    if a <= b then a else b
  }

  function High(a: nat, b: nat): (r: nat)
    ensures r == a || r == b
    ensures InRange(a, b, r) && forall v | InRange(a, b, v) :: v <= r
  {
    if a <= b then b else a
  }

  /** A cell of the rectangle spanned by two consecutive points of a path. */
  predicate OnSegment(a: Coord, b: Coord, p: Coord)
  {
    InRange(a.0, b.0, p.0) && InRange(a.1, b.1, p.1)
  }

  /** A cell on some segment among the first `k` of a path. */
  predicate OnPathUpTo(path: seq<Coord>, k: nat, p: Coord)
    requires k <= |path|
  {
    exists i | 0 <= i && i + 1 < k :: OnSegment(path[i], path[i + 1], p)
  }

  predicate OnPath(path: seq<Coord>, p: Coord)
  {
    OnPathUpTo(path, |path|, p)
  }

  /** A cell on a path among the first `l`. */
  predicate OnWallUpTo(paths: seq<seq<Coord>>, l: nat, p: Coord)
    requires l <= |paths|
  {
    exists j | 0 <= j < l :: OnPath(paths[j], p)
  }

  predicate OnWall(paths: seq<seq<Coord>>, p: Coord)
  {
    OnWallUpTo(paths, |paths|, p)
  }

  predicate InCave(p: Coord)
  {
    p.0 < COLS && p.1 < ROWS
  }

  /** The cave's cells, row by row. */
  function Snapshot(grid: array2<Cell>): (r: seq<seq<Cell>>)
    requires grid.Length0 == ROWS && grid.Length1 == COLS
    reads grid
    ensures |r| == ROWS && forall y | 0 <= y < ROWS :: |r[y]| == COLS
    ensures forall y, x | 0 <= y < ROWS && 0 <= x < COLS :: r[y][x] == grid[y, x]
  {
    seq(ROWS, y requires 0 <= y < ROWS reads grid =>
      seq(COLS, x requires 0 <= x < COLS reads grid => grid[y, x]))
  }

  function Max(a: nat, b: nat): nat
  {
    if a < b then b else a
  }

  /** The rectangle from `a` to `b` drawn as walls; `false` when one of its
      cells is outside the cave, where the source's index panics. */
  method MarkSegment(grid: array2<Cell>, a: Coord, b: Coord, maxY: nat) returns (ok: bool, maxY': nat)
    requires grid.Length0 == ROWS && grid.Length1 == COLS
    modifies grid
    ensures ok ==> forall p: Coord | OnSegment(a, b, p) :: InCave(p)
    ensures !ok ==> exists p: Coord | OnSegment(a, b, p) :: !InCave(p)
    ensures ok ==> forall y, x | 0 <= y < ROWS && 0 <= x < COLS ::
      grid[y, x] == if OnSegment(a, b, (x, y)) then Wall else old(grid[y, x])
    ensures ok ==> maxY' == Max(maxY, High(a.1, b.1))
  {
    var x0, x1, y0, y1 := Low(a.0, b.0), High(a.0, b.0), Low(a.1, b.1), High(a.1, b.1);
    if x1 >= COLS {
      assert !InCave((x1, y0)) && OnSegment(a, b, (x1, y0));
      return false, maxY;
    }
    if y1 >= ROWS {
      assert !InCave((x0, y1)) && OnSegment(a, b, (x0, y1));
      return false, maxY;
    }
    maxY' := maxY;
    for x := x0 to x1 + 1
      invariant forall y, x' | 0 <= y < ROWS && 0 <= x' < COLS ::
        grid[y, x'] == if x0 <= x' < x && y0 <= y <= y1 then Wall else old(grid[y, x'])
      invariant maxY' == Max(maxY, if x > x0 then y1 else 0)
    {
      for y := y0 to y1 + 1
        invariant forall y', x' | 0 <= y' < ROWS && 0 <= x' < COLS ::
          grid[y', x'] == if (x0 <= x' < x && y0 <= y' <= y1) || (x' == x && y0 <= y' < y) then Wall else old(grid[y', x'])
        invariant maxY' == Max(maxY, if x > x0 then y1 else if y > y0 then y - 1 else 0)
      {
        grid[y, x] := Wall;
        maxY' := if y > maxY' then y else maxY';
      }
    }
    ok := true;
  }

  lemma PathUpToStep(path: seq<Coord>, i: nat, p: Coord)
    requires i + 1 < |path|
    ensures OnPathUpTo(path, i + 2, p) <==> OnPathUpTo(path, i + 1, p) || OnSegment(path[i], path[i + 1], p)
  {
    if OnPathUpTo(path, i + 2, p) && !OnSegment(path[i], path[i + 1], p) {
      var j :| 0 <= j && j + 1 < i + 2 && OnSegment(path[j], path[j + 1], p);
      assert j < i;
    }
  }

  lemma WallUpToStep(paths: seq<seq<Coord>>, l: nat)
    requires l < |paths|
    ensures forall p: Coord :: OnWallUpTo(paths, l + 1, p) <==>
      OnWallUpTo(paths, l, p) || OnPath(paths[l], p)
  {
  }

  /** What drawing the first `k - 1` segments of a path leaves: those cells
      are walls, inside the cave and not below `maxY'`, every other cell is
      as in `g0`, and `lowest` is a drawn cell on row `maxY'` once that row
      has moved down from `maxY`. */
  ghost predicate DrawnUpTo(grid: array2<Cell>, g0: seq<seq<Cell>>, path: seq<Coord>, k: nat,
                            maxY: nat, maxY': nat, lowest: Coord)
    requires grid.Length0 == ROWS && grid.Length1 == COLS && k <= |path|
    requires |g0| == ROWS && forall y | 0 <= y < ROWS :: |g0[y]| == COLS
    reads grid
  {
    (forall p: Coord | OnPathUpTo(path, k, p) :: InCave(p) && p.1 <= maxY') &&
    (forall y, x | 0 <= y < ROWS && 0 <= x < COLS ::
      grid[y, x] == if OnPathUpTo(path, k, (x, y)) then Wall else g0[y][x]) &&
    maxY <= maxY' &&
    (maxY' != maxY ==> OnPathUpTo(path, k, lowest) && lowest.1 == maxY')
  }

  /** Segment `i` inside the cave and above `maxY'` extends the bounds on
      the segments before it. */
  lemma PathBoundsStep(path: seq<Coord>, i: nat, before: nat, maxY': nat)
    requires i + 1 < |path|
    requires forall p: Coord | OnPathUpTo(path, i + 1, p) :: InCave(p) && p.1 <= before
    requires forall p: Coord | OnSegment(path[i], path[i + 1], p) :: InCave(p)
    requires maxY' == Max(before, High(path[i].1, path[i + 1].1))
    ensures forall p: Coord | OnPathUpTo(path, i + 2, p) :: InCave(p) && p.1 <= maxY'
  {
    forall p: Coord | OnPathUpTo(path, i + 2, p)
      ensures InCave(p) && p.1 <= maxY'
    {
      PathUpToStep(path, i, p);
    }
  }

  /** One turn of the loop over a path: segment `i` drawn; `false` when it
      leaves the cave. */
  method MarkStep(grid: array2<Cell>, ghost g0: seq<seq<Cell>>, path: seq<Coord>, i: nat,
                  maxY: nat, before: nat, ghost lowest0: Coord)
    returns (ok: bool, maxY': nat, ghost lowest: Coord)
    requires grid.Length0 == ROWS && grid.Length1 == COLS && i + 1 < |path|
    requires |g0| == ROWS && forall y | 0 <= y < ROWS :: |g0[y]| == COLS
    requires DrawnUpTo(grid, g0, path, i + 1, maxY, before, lowest0)
    modifies grid
    ensures ok ==> DrawnUpTo(grid, g0, path, i + 2, maxY, maxY', lowest)
    ensures !ok ==> exists p: Coord | OnSegment(path[i], path[i + 1], p) :: !InCave(p)
  {
    lowest := lowest0;
    ok, maxY' := MarkSegment(grid, path[i], path[i + 1], before);
    if !ok {
      return;
    }
    if maxY' != before {
      lowest := (path[i].0, maxY');
      PathUpToStep(path, i, lowest);
    }
    PathBoundsStep(path, i, before, maxY');
    forall y, x | 0 <= y < ROWS && 0 <= x < COLS
      ensures grid[y, x] == if OnPathUpTo(path, i + 2, (x, y)) then Wall else g0[y][x]
    {
      var c: Coord := (x, y);
      assert old(grid[y, x]) == if OnPathUpTo(path, i + 1, c) then Wall else g0[y][x];
      assert grid[y, x] == if OnSegment(path[i], path[i + 1], c) then Wall else old(grid[y, x]);
      PathUpToStep(path, i, c);
    }
  }

  /** One line's segments drawn in order; `false` at the first segment that
      leaves the cave. `max_y` grows to the lowest row drawn. */
  method MarkPath(grid: array2<Cell>, path: seq<Coord>, maxY: nat) returns (ok: bool, maxY': nat, ghost lowest: Coord)
    requires grid.Length0 == ROWS && grid.Length1 == COLS
    modifies grid
    ensures ok <==> forall p: Coord | OnPath(path, p) :: InCave(p)
    ensures ok ==> forall y, x | 0 <= y < ROWS && 0 <= x < COLS ::
      grid[y, x] == if OnPath(path, (x, y)) then Wall else old(grid[y, x])
    ensures ok ==> maxY <= maxY' && forall p: Coord | OnPath(path, p) :: p.1 <= maxY'
    ensures ok && maxY' != maxY ==> OnPath(path, lowest) && lowest.1 == maxY'
  {
    maxY', lowest := maxY, (0, 0);
    if |path| == 0 {
      return true, maxY', lowest;
    }
    ghost var g0 := Snapshot(grid);
    for i := 0 to |path| - 1
      invariant DrawnUpTo(grid, g0, path, i + 1, maxY, maxY', lowest)
    {
      ok, maxY', lowest := MarkStep(grid, g0, path, i, maxY, maxY', lowest);
      if !ok {
        ghost var p: Coord :| OnSegment(path[i], path[i + 1], p) && !InCave(p);
        assert OnPath(path, p);
        return;
      }
    }
    ok := true;
  }

  /** The cave with its walls drawn. */
  function WallGrid(paths: seq<seq<Coord>>): (r: seq<seq<Cell>>)
    ensures |r| == ROWS && forall y | 0 <= y < ROWS :: |r[y]| == COLS
  {
    seq(ROWS, y requires 0 <= y < ROWS =>
      seq(COLS, x requires 0 <= x < COLS => if OnWall(paths, (x, y)) then Wall else Empty))
  }

  /** `max_y`: no wall is below it, and it is a wall's row unless it is 0. */
  ghost predicate IsLowestRow(paths: seq<seq<Coord>>, maxY: nat)
  {
    (forall p: Coord | OnWall(paths, p) :: p.1 <= maxY) &&
    (maxY > 0 ==> exists p: Coord | OnWall(paths, p) :: p.1 == maxY)
  }

  /** The lowest row is unique. */
  lemma LowestRowUnique(paths: seq<seq<Coord>>, a: nat, b: nat)
    requires IsLowestRow(paths, a) && IsLowestRow(paths, b)
    ensures a == b
  {
  }

  /** `parse_grid`: every cell of every path's segments becomes a wall, and
      `max_y` is the lowest wall row (0 when there is none); `None` when a
      wall cell lies outside the cave. */
  method ParseGrid(paths: seq<seq<Coord>>) returns (r: Option<(array2<Cell>, nat)>)
    ensures r.None? <==> exists p: Coord | OnWall(paths, p) :: !InCave(p)
    ensures r.Some? ==> fresh(r.value.0) && r.value.0.Length0 == ROWS && r.value.0.Length1 == COLS
    ensures r.Some? ==> forall y, x | 0 <= y < ROWS && 0 <= x < COLS ::
      r.value.0[y, x] == if OnWall(paths, (x, y)) then Wall else Empty
    ensures r.Some? ==> forall p: Coord | OnWall(paths, p) :: p.1 <= r.value.1
    ensures r.Some? && r.value.1 > 0 ==> exists p: Coord | OnWall(paths, p) :: p.1 == r.value.1
  {
    var grid := new Cell[ROWS, COLS]((y, x) => Empty);
    var maxY: nat := 0;
    ghost var lowest: Coord := (0, 0);
    for l := 0 to |paths|
      invariant forall y, x | 0 <= y < ROWS && 0 <= x < COLS ::
        grid[y, x] == if OnWallUpTo(paths, l, (x, y)) then Wall else Empty
      invariant forall p: Coord | OnWallUpTo(paths, l, p) :: InCave(p) && p.1 <= maxY
      invariant maxY > 0 ==> OnWallUpTo(paths, l, lowest) && lowest.1 == maxY
    {
      WallUpToStep(paths, l);
      var ok;
      ghost var low;
      ghost var before := maxY;
      ok, maxY, low := MarkPath(grid, paths[l], maxY);
      if !ok {
        return None;
      }
      if maxY != before {
        lowest := low;
      }
    }
    r := Some((grid, maxY));
  }

  // ---------------------------------------------------------------------
  // The falling sand, as a step function on the cave's contents.

  predicate Shaped(g: seq<seq<Cell>>)
  {
    |g| == ROWS && forall y | 0 <= y < ROWS :: |g[y]| == COLS
  }

  /** The cave, the falling unit's position, and the units at rest so far. */
  datatype Sim = Sim(grid: seq<seq<Cell>>, current: Coord, units: nat)

  /** What one iteration of the loop does: it returns a count, keeps going,
      panics on an index outside the cave (or `x - 1` below zero), or
      finds that the source can never return. */
  datatype Outcome = Done(units: nat) | Continue(next: Sim) | Panic | Diverges

  /** A unit comes to rest: its cell becomes sand and the next unit starts at
      the source. Resting on a cell that is not empty only happens at the
      source, and then every later unit takes the same path and rests there
      too, so the source loops forever. */
  function Rest(s: Sim, start: Coord): (r: Outcome)
    requires Shaped(s.grid)
  {
    var (x, y) := s.current;
    if y >= ROWS || x >= COLS then Panic
    else if s.grid[y][x] != Empty then Diverges
    else Continue(Sim(s.grid[y := s.grid[y][x := Sand]], start, s.units + 1))
  }

  /** Where a unit at `(x, y)` moves: straight down, else down-left, else
      down-right, into the first of them that is empty. */
  datatype Fall = Move(to: Coord) | Blocked | OutOfCave

  function Below(g: seq<seq<Cell>>, x: nat, y: nat): (r: Fall)
    requires Shaped(g)
    ensures r.Move? ==> r.to.1 == y + 1 && r.to.1 < ROWS && InCave(r.to) && g[r.to.1][r.to.0] == Empty
  {
    if y + 1 >= ROWS || x >= COLS then OutOfCave
    else if g[y + 1][x] == Empty then Move((x, y + 1))
    else if x == 0 then OutOfCave
    else if g[y + 1][x - 1] == Empty then Move((x - 1, y + 1))
    else if x + 1 >= COLS then OutOfCave
    else if g[y + 1][x + 1] == Empty then Move((x + 1, y + 1))
    else Blocked
  }

  /** One pass of `simulate`'s loop, with its arms in the source's order. */
  function Step(s: Sim, start: Coord, maxY: nat, part: int): (r: Outcome)
    requires Shaped(s.grid)
  {
    var (x, y) := s.current;
    if y > maxY && part == 1 then Done(s.units)
    else if y == maxY + 1 && part == 2 then Rest(s, start)
    else match Below(s.grid, x, y)
      case OutOfCave => Panic
      case Move(c) => Continue(s.(current := c))
      case Blocked => if (x, y) == start && part == 2 then Done(s.units + 1) else Rest(s, start)
  }

  function RowEmpties(row: seq<Cell>): (r: nat)
    ensures r <= |row|
  {
    if row == [] then 0 else RowEmpties(row[..|row| - 1]) + (if row[|row| - 1] == Empty then 1 else 0)
  }

  /** The number of empty cells: the loop's measure. */
  function Empties(g: seq<seq<Cell>>): nat
  {
    if g == [] then 0 else Empties(g[..|g| - 1]) + RowEmpties(g[|g| - 1])
  }

  lemma {:induction false} RowEmptiesFill(row: seq<Cell>, x: nat)
    requires x < |row| && row[x] == Empty
    ensures RowEmpties(row[x := Sand]) + 1 == RowEmpties(row)
  {
    var n := |row| - 1;
    if x < n {
      assert row[x := Sand][..n] == row[..n][x := Sand];
      RowEmptiesFill(row[..n], x);
    } else {
      assert row[x := Sand][..n] == row[..n];
    }
  }

  lemma {:induction false} EmptiesFill(g: seq<seq<Cell>>, y: nat, x: nat)
    requires y < |g| && x < |g[y]| && g[y][x] == Empty
    ensures Empties(g[y := g[y][x := Sand]]) + 1 == Empties(g)
  {
    var n := |g| - 1;
    var h := g[y := g[y][x := Sand]];
    if y < n {
      assert h[..n] == g[..n][y := g[y][x := Sand]];
      EmptiesFill(g[..n], y, x);
    } else {
      assert h[..n] == g[..n];
      RowEmptiesFill(g[y], x);
    }
  }

  /** The falling unit is in an empty cell unless it is at the source. */
  predicate Inv(s: Sim, start: Coord)
  {
    Shaped(s.grid) &&
    (s.current == start || (InCave(s.current) && s.grid[s.current.1][s.current.0] == Empty))
  }

  /** Each step keeps the invariant, and either moves the unit down one row
      or fills one empty cell. */
  lemma StepDecreases(s: Sim, start: Coord, maxY: nat, part: int)
    requires Inv(s, start) && Step(s, start, maxY, part).Continue?
    ensures var t := Step(s, start, maxY, part).next;
      Inv(t, start) &&
      ((Empties(t.grid) < Empties(s.grid)) ||
       (Empties(t.grid) == Empties(s.grid) && t.current.1 == s.current.1 + 1 && t.current.1 < ROWS))
  {
    var (x, y) := s.current;
    var t := Step(s, start, maxY, part).next;
    if t.grid != s.grid {
      EmptiesFill(s.grid, y, x);
    }
  }

  /** `simulate`'s loop run to the end: a count, a panic, or divergence. */
  function Run(s: Sim, start: Coord, maxY: nat, part: int): (r: Outcome)
    requires Inv(s, start)
    ensures !r.Continue?
    decreases Empties(s.grid), ROWS - s.current.1
  {
    match Step(s, start, maxY, part)
    case Continue(t) =>
      StepDecreases(s, start, maxY, part);
      Run(t, start, maxY, part)
    case o => o
  }

  /** Units only come to rest in empty cells, so a run counts at most one
      unit per empty cell, plus the last one at the source in part 2; and
      part 2 counts that last unit. */
  lemma {:induction false} RunBounds(s: Sim, start: Coord, maxY: nat, part: int)
    requires Inv(s, start) && Run(s, start, maxY, part).Done?
    ensures s.units <= Run(s, start, maxY, part).units <= s.units + Empties(s.grid) + 1
    ensures part == 2 ==> Run(s, start, maxY, part).units >= s.units + 1
    ensures part == 1 ==> Run(s, start, maxY, part).units <= s.units + Empties(s.grid)
    decreases Empties(s.grid), ROWS - s.current.1
  {
    var o := Step(s, start, maxY, part);
    if o.Continue? {
      var t := o.next;
      StepDecreases(s, start, maxY, part);
      RunBounds(t, start, maxY, part);
      if t.grid != s.grid {
        var (x, y) := s.current;
        EmptiesFill(s.grid, y, x);
      }
    }
  }

  /** In part 2 no unit goes below the floor row `max_y + 1`. */
  lemma Part2AboveFloor(s: Sim, start: Coord, maxY: nat)
    requires Inv(s, start) && Step(s, start, maxY, 2).Continue?
    requires s.current.1 <= maxY + 1 && start.1 <= maxY + 1
    ensures Step(s, start, maxY, 2).next.current.1 <= maxY + 1
  {
  }

  /** The three reads of the cells below a unit. */
  method FallFrom(grid: array2<Cell>, x: nat, y: nat) returns (f: Fall)
    requires grid.Length0 == ROWS && grid.Length1 == COLS
    ensures f == Below(Snapshot(grid), x, y)
  {
    if y + 1 >= ROWS || x >= COLS {
      return OutOfCave;
    }
    if grid[y + 1, x] == Empty {
      return Move((x, y + 1));
    }
    if x == 0 {
      return OutOfCave;
    }
    if grid[y + 1, x - 1] == Empty {
      return Move((x - 1, y + 1));
    }
    if x + 1 >= COLS {
      return OutOfCave;
    }
    if grid[y + 1, x + 1] == Empty {
      return Move((x + 1, y + 1));
    }
    return Blocked;
  }

  /** A unit comes to rest at `(x, y)`: that cell becomes sand. */
  method Settle(grid: array2<Cell>, x: nat, y: nat)
    requires grid.Length0 == ROWS && grid.Length1 == COLS && x < COLS && y < ROWS
    modifies grid
    ensures Snapshot(grid) == old(Snapshot(grid))[y := old(Snapshot(grid))[y][x := Sand]]
  {
    ghost var before := Snapshot(grid);
    grid[y, x] := Sand;
    assert forall y' | 0 <= y' < ROWS :: Snapshot(grid)[y'] == before[y := before[y][x := Sand]][y'];
  }

  /** A step that continues leaves the rest of the run unchanged. */
  lemma RunContinues(s: Sim, start: Coord, maxY: nat, part: int)
    requires Inv(s, start) && Step(s, start, maxY, part).Continue?
    ensures Inv(Step(s, start, maxY, part).next, start)
    ensures Run(s, start, maxY, part) == Run(Step(s, start, maxY, part).next, start, maxY, part)
  {
    StepDecreases(s, start, maxY, part);
  }

  /** A step that stops is where the run stops. */
  lemma RunStops(s: Sim, start: Coord, maxY: nat, part: int, o: Outcome)
    requires Inv(s, start) && Step(s, start, maxY, part) == o && !o.Continue?
    ensures Run(s, start, maxY, part) == o
  {
  }

  /** One pass of the loop on the copied cave: either the outcome at which
      the source stops, or the next position and count with the cave updated
      in place. */
  method Advance(grid: array2<Cell>, current: Coord, numUnits: nat, start: Coord, maxY: nat, part: int)
    returns (stop: Option<Outcome>, current': Coord, numUnits': nat)
    requires grid.Length0 == ROWS && grid.Length1 == COLS
    modifies grid
    ensures var s := Sim(old(Snapshot(grid)), current, numUnits);
      if stop.Some? then Step(s, start, maxY, part) == stop.value && !stop.value.Continue?
      else Step(s, start, maxY, part) == Continue(Sim(Snapshot(grid), current', numUnits'))
  {
    ghost var s := Sim(Snapshot(grid), current, numUnits);
    current', numUnits' := current, numUnits;
    var (x, y) := current;
    if y > maxY && part == 1 {
      return Some(Done(numUnits)), current', numUnits';
    }
    if !(y == maxY + 1 && part == 2) {
      var f := FallFrom(grid, x, y);
      match f
      case OutOfCave =>
        return Some(Panic), current', numUnits';
      case Move(c) =>
        return None, c, numUnits';
      case Blocked =>
        if current == start && part == 2 {
          return Some(Done(numUnits + 1)), current', numUnits';
        }
    }
    assert Step(s, start, maxY, part) == Rest(s, start);
    if y >= ROWS || x >= COLS {
      return Some(Panic), current', numUnits';
    }
    if grid[y, x] != Empty {
      return Some(Diverges), current', numUnits';
    }
    Settle(grid, x, y);
    stop, current', numUnits' := None, start, numUnits + 1;
  }

  /** `simulate`: the walls copied, then the loop; the input is not changed. */
  method Simulate(start: Coord, gridOrig: array2<Cell>, maxY: nat, part: int) returns (r: Outcome)
    requires gridOrig.Length0 == ROWS && gridOrig.Length1 == COLS
    ensures r == Run(Sim(Snapshot(gridOrig), start, 0), start, maxY, part)
  {
    var grid := new Cell[ROWS, COLS]((y, x) reads gridOrig =>
      if 0 <= y < ROWS && 0 <= x < COLS then gridOrig[y, x] else Empty);
    assert forall y | 0 <= y < ROWS :: Snapshot(grid)[y] == Snapshot(gridOrig)[y];
    assert Snapshot(grid) == Snapshot(gridOrig);
    ghost var target := Run(Sim(Snapshot(grid), start, 0), start, maxY, part);
    var current: Coord := start;
    var numUnits: nat := 0;
    while true
      invariant Inv(Sim(Snapshot(grid), current, numUnits), start)
      invariant Run(Sim(Snapshot(grid), current, numUnits), start, maxY, part) == target
      decreases Empties(Snapshot(grid)), ROWS - current.1
    {
      ghost var s := Sim(Snapshot(grid), current, numUnits);
      var stop;
      stop, current, numUnits := Advance(grid, current, numUnits, start, maxY, part);
      if stop.Some? {
        RunStops(s, start, maxY, part, stop.value);
        return stop.value;
      }
      RunContinues(s, start, maxY, part);
      StepDecreases(s, start, maxY, part);
    }
  }

  /** `solve`: both parts from the source at (500, 0). */
  method Solve(paths: seq<seq<Coord>>) returns (r: Option<(Outcome, Outcome)>)
    ensures r.None? <==> exists p: Coord | OnWall(paths, p) :: !InCave(p)
    ensures r.Some? ==> exists maxY: nat | IsLowestRow(paths, maxY) ::
      var s := Sim(WallGrid(paths), (500, 0), 0);
      r.value == (Run(s, (500, 0), maxY, 1), Run(s, (500, 0), maxY, 2))
  {
    var parsed := ParseGrid(paths);
    if parsed.None? {
      return None;
    }
    var (grid, maxY) := parsed.value;
    var start := (500, 0);
    assert forall y | 0 <= y < ROWS :: Snapshot(grid)[y] == WallGrid(paths)[y];
    assert Snapshot(grid) == WallGrid(paths);
    var p1 := Simulate(start, grid, maxY, 1);
    var p2 := Simulate(start, grid, maxY, 2);
    r := Some((p1, p2));
    assert IsLowestRow(paths, maxY);
  }
}
