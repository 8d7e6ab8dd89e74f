/** Monkey Map: a walker on a 200×150 grid of open ('.') and wall ('#')
    tiles, wrapping around the map in part 1 and around the faces of a
    cube in part 2; the answer is a password built from the final pose. */
module Day22 {
  import opened Common

  const GRID_COLS: int := 150
  const GRID_ROWS: int := 200

  const RIGHT: Heading := 0
  const DOWN: Heading := 1
  const LEFT: Heading := 2
  const UP: Heading := 3

  type Heading = h: nat | h < 4

  datatype Instr = Left | Right | Walk(steps: int)

  /** The map, row by row; cells that are neither '.' nor '#' are off the map. */
  type Grid = seq<seq<char>>

  predicate WellFormed(grid: Grid)
  {
    |grid| == GRID_ROWS && forall r | 0 <= r < |grid| :: |grid[r]| == GRID_COLS
  }

  /** Position and heading of the walker. */
  datatype Pose = Pose(row: nat, col: nat, heading: Heading)

  predicate InGrid(row: int, col: int)
  {
    0 <= row < GRID_ROWS && 0 <= col < GRID_COLS
  }

  predicate IsTile(ch: char)
  {
    ch == '.' || ch == '#'
  }

  /** A cell of the grid holding a tile. */
  predicate OnMap(grid: Grid, p: (int, int))
    requires WellFormed(grid)
  {
    InGrid(p.0, p.1) && IsTile(grid[p.0][p.1])
  }

  // ---------------------------------------------------------------------
  // Turning.

  function TurnLeft(h: Heading): Heading
  {
    (h + 3) % 4
  }

  function TurnRight(h: Heading): Heading
  {
    (h + 1) % 4
  }

  function Reverse(h: Heading): Heading
  {
    (h + 2) % 4
  }

  /** Left then right, or right then left, is no turn; two lefts or two
      rights face backwards. */
  lemma TurnsCancel(h: Heading)
    ensures TurnRight(TurnLeft(h)) == h && TurnLeft(TurnRight(h)) == h
    ensures TurnLeft(TurnLeft(h)) == Reverse(h) == TurnRight(TurnRight(h))
    ensures Reverse(Reverse(h)) == h
  {
    if h == 0 {
    } else if h == 1 {
    } else if h == 2 {
    } else {
      assert h == 3;
    }
  }

  // ---------------------------------------------------------------------
  // Moving along a heading.

  /** The cell `k` steps from (row, col) along `h`. */
  function Advance(row: int, col: int, h: Heading, k: int): (int, int)
  {
    match h
    case 0 => (row, col + k)
    case 1 => (row + k, col)
    case 2 => (row, col - k)
    case 3 => (row - k, col)
  }

  /** Stepping forwards then backwards returns to the start. */
  lemma AdvanceReverse(row: int, col: int, h: Heading, k: int)
    ensures var p := Advance(row, col, h, k); Advance(p.0, p.1, Reverse(h), k) == (row, col)
  {
  }

  /** `get_forward_pos`: the next cell along the heading with its tile, or
      None when that cell is outside the grid or off the map. */
  function ForwardPos(grid: Grid, row: nat, col: nat, h: Heading): (r: Option<(nat, nat, char)>)
    requires WellFormed(grid)
    ensures r.Some? <==> OnMap(grid, Advance(row, col, h, 1))
    ensures r.Some? ==> (r.value.0, r.value.1) == Advance(row, col, h, 1) && IsTile(r.value.2)
    ensures r.Some? ==> r.value.2 == grid[r.value.0][r.value.1]
  {
    var (r, c) := match h
      case 0 => (row, col + 1)
      case 1 => (row + 1, col)
      case 2 => (row, col - 1)
      case 3 => (row - 1, col);
    if r < 0 || c < 0 || c >= GRID_COLS || r >= GRID_ROWS then None
    else if grid[r][c] == '.' || grid[r][c] == '#' then Some((r, c, grid[r][c]))
    else None
  }

  /** Distance to the edge of the grid along `h`: one step less per move. */
  function EdgeDistance(row: nat, col: nat, h: Heading): nat
    requires InGrid(row, col)
  {
    match h
    case 0 => GRID_COLS - col
    case 1 => GRID_ROWS - row
    case 2 => col
    case 3 => row
  }

  /** The part-1 scan: keep stepping along `h` while the next cell is on
      the map. */
  function Scan(grid: Grid, row: nat, col: nat, h: Heading): (r: (nat, nat))
    requires WellFormed(grid) && InGrid(row, col)
    ensures InGrid(r.0, r.1)
    decreases EdgeDistance(row, col, h)
  {
    match ForwardPos(grid, row, col, h)
    case None => (row, col)
    case Some((r, c, _)) => Scan(grid, r, c, h)
  }

  lemma AdvanceShift(row: int, col: int, h: Heading, i: int)
    ensures var p := Advance(row, col, h, 1); Advance(p.0, p.1, h, i) == Advance(row, col, h, i + 1)
  {
  }

  /** The scan from (row, col) ends `k` steps along `h`, every cell on the
      way is on the map, and the cell after the end is not. */
  ghost predicate ScanRun(grid: Grid, row: nat, col: nat, h: Heading, k: nat)
    requires WellFormed(grid) && InGrid(row, col)
  {
    Scan(grid, row, col, h) == Advance(row, col, h, k) &&
    (forall i | 1 <= i <= k :: OnMap(grid, Advance(row, col, h, i))) &&
    !OnMap(grid, Advance(row, col, h, k + 1))
  }

  /** The scan lands on the farthest cell of the unbroken run of map cells
      along `h`. */
  lemma {:induction false} ScanFacts(grid: Grid, row: nat, col: nat, h: Heading)
    requires WellFormed(grid) && InGrid(row, col)
    ensures exists k: nat :: ScanRun(grid, row, col, h, k)
    decreases EdgeDistance(row, col, h)
  {
    match ForwardPos(grid, row, col, h)
    case None =>
      assert ScanRun(grid, row, col, h, 0);
    case Some((r, c, _)) =>
      ScanFacts(grid, r, c, h);
      var k: nat :| ScanRun(grid, r, c, h, k);
      AdvanceShift(row, col, h, k);
      AdvanceShift(row, col, h, k + 1);
      forall i | 1 <= i <= k + 1
        ensures OnMap(grid, Advance(row, col, h, i))
      {
        AdvanceShift(row, col, h, i - 1);
      }
      assert ScanRun(grid, row, col, h, k + 1);
  }

  // ---------------------------------------------------------------------
  // Warping.

  /** The fourteen edge rules of part 2, in (x, y) = (col, row) terms. The
      first rule whose guard holds is applied; None when none does, or when
      `149 - y` would underflow. */
  function CubeWarp(p: Pose): Option<Pose>
  {
    var x, y, h := p.col, p.row, p.heading;
    if h == LEFT && x == 0 && y <= 149 then Some(Pose(149 - y, 50, RIGHT))
    else if h == RIGHT && x == 149 then (if y <= 149 then Some(Pose(149 - y, 99, LEFT)) else None)
    else if h == LEFT && x == 50 && y <= 49 then Some(Pose(149 - y, 0, RIGHT))
    else if h == UP && y == 0 && x <= 99 then Some(Pose(x + 100, 0, RIGHT))
    else if h == UP && y == 0 && x >= 100 then Some(Pose(199, x - 100, UP))
    else if h == UP && y == 100 && x <= 49 then Some(Pose(x + 50, 50, RIGHT))
    else if h == LEFT && x == 50 && y >= 50 && y <= 99 then Some(Pose(100, y - 50, DOWN))
    else if h == LEFT && x == 0 && y >= 150 then Some(Pose(0, y - 100, DOWN))
    else if h == DOWN && y == 199 then Some(Pose(0, x + 100, DOWN))
    else if h == RIGHT && x == 49 && y >= 150 then Some(Pose(149, y - 100, UP))
    else if h == DOWN && y == 149 && x >= 50 then Some(Pose(x + 100, 49, LEFT))
    else if h == RIGHT && x == 99 && y >= 50 && y <= 99 then Some(Pose(49, y + 50, UP))
    else if h == DOWN && x >= 100 && y == 49 then Some(Pose(x - 50, 99, LEFT))
    else if h == RIGHT && x == 99 && y >= 100 then (if y <= 149 then Some(Pose(149 - y, 149, LEFT)) else None)
    else None
  }

  /** The six 50×50 faces of the cube's net the rules are written for. */
  predicate InNet(row: int, col: int)
  {
    (50 <= col < 100 && 0 <= row < 150) ||
    (100 <= col < 150 && 0 <= row < 50) ||
    (0 <= col < 50 && 100 <= row < 200)
  }

  /** A grid whose map is exactly that net. */
  predicate NetShaped(grid: Grid)
  {
    WellFormed(grid) &&
    forall r, c | 0 <= r < GRID_ROWS && 0 <= c < GRID_COLS :: IsTile(grid[r][c]) <==> InNet(r, c)
  }

  /** A cell of the net whose next cell along its heading leaves the net. */
  predicate OnOpenEdge(p: Pose)
  {
    InNet(p.row, p.col) && var n := Advance(p.row, p.col, p.heading, 1); !InNet(n.0, n.1)
  }

  /** `p` warps into the net, and warping back from there, facing the
      other way, returns to `p` facing the other way. */
  predicate Glued(p: Pose)
  {
    match CubeWarp(p)
    case None => false
    case Some(q) =>
      InNet(q.row, q.col) &&
      CubeWarp(Pose(q.row, q.col, Reverse(q.heading))) == Some(Pose(p.row, p.col, Reverse(p.heading)))
  }

  lemma CubeWarpHorizontal(p: Pose)
    requires OnOpenEdge(p) && (p.heading == LEFT || p.heading == RIGHT)
    ensures Glued(p)
  {
  }

  lemma CubeWarpVertical(p: Pose)
    requires OnOpenEdge(p) && (p.heading == UP || p.heading == DOWN)
    ensures Glued(p)
  {
  }

  /** The rules cover every open edge of the net, land in the net, and glue
      the edges pairwise: walking back over the edge returns to the start,
      facing the other way. */
  lemma CubeWarpGlues(p: Pose)
    requires OnOpenEdge(p)
    ensures Glued(p)
  {
    if p.heading == LEFT || p.heading == RIGHT {
      CubeWarpHorizontal(p);
    } else {
      CubeWarpVertical(p);
    }
  }

  // ---------------------------------------------------------------------
  // The walk, as functions of the pose. None stands for a panic.

  predicate Part(part: int)
  {
    part == 1 || part == 2
  }

  predicate Placed(p: Pose)
  {
    InGrid(p.row, p.col)
  }

  /** `warp_pos`: part 1 scans backwards to the far end of the run of map
      cells and keeps the heading; part 2 applies the edge rules. */
  function Warp(grid: Grid, part: int, p: Pose): Option<Pose>
    requires WellFormed(grid) && Part(part) && Placed(p)
  {
    if part == 1 then
      var (r, c) := Scan(grid, p.row, p.col, Reverse(p.heading));
      Some(Pose(r, c, p.heading))
    else
      CubeWarp(p)
  }

  datatype Outcome = Moved(to: Pose) | Blocked

  /** One pass of the step loop in `walk`: move onto an open tile, stop at a
      wall, warp when the next cell is off the map. */
  function StepOnce(grid: Grid, part: int, p: Pose): (r: Option<Outcome>)
    requires WellFormed(grid) && Part(part) && Placed(p)
    ensures r.Some? && r.value.Moved? ==> Placed(r.value.to) && grid[r.value.to.row][r.value.to.col] == '.'
  {
    match ForwardPos(grid, p.row, p.col, p.heading)
    case Some((r, c, tile)) =>
      if tile == '.' then Some(Moved(Pose(r, c, p.heading))) else Some(Blocked)
    case None =>
      match Warp(grid, part, p)
      case None => None
      case Some(w) =>
        if !Placed(w) then None
        else if grid[w.row][w.col] == '.' then Some(Moved(w))
        else if grid[w.row][w.col] == '#' then Some(Blocked)
        else None
  }

  /** `State::walk`: up to `steps` passes, stopping at the first wall. */
  function Walked(grid: Grid, part: int, p: Pose, steps: int): (r: Option<Pose>)
    requires WellFormed(grid) && Part(part) && Placed(p)
    ensures r.Some? ==> Placed(r.value)
    decreases steps
  {
    if steps <= 0 then Some(p)
    else match StepOnce(grid, part, p)
      case None => None
      case Some(Blocked) => Some(p)
      case Some(Moved(q)) => Walked(grid, part, q, steps - 1)
  }

  /** `State::execute` */
  function Executed(grid: Grid, part: int, p: Pose, instr: Instr): (r: Option<Pose>)
    requires WellFormed(grid) && Part(part) && Placed(p)
    ensures r.Some? ==> Placed(r.value)
  {
    match instr
    case Left => Some(Pose(p.row, p.col, TurnLeft(p.heading)))
    case Right => Some(Pose(p.row, p.col, TurnRight(p.heading)))
    case Walk(steps) => Walked(grid, part, p, steps)
  }

  /** All the instructions in order, from pose `p`. */
  function Run(grid: Grid, part: int, p: Pose, instrs: seq<Instr>): (r: Option<Pose>)
    requires WellFormed(grid) && Part(part) && Placed(p)
    ensures r.Some? ==> Placed(r.value)
  {
    if instrs == [] then Some(p)
    else match Run(grid, part, p, instrs[..|instrs| - 1])
      case None => None
      case Some(q) => Executed(grid, part, q, instrs[|instrs| - 1])
  }

  /** `to_password` */
  function Password(p: Pose): int
  {
    1000 * (p.row + 1) + 4 * (p.col + 1) + p.heading
  }

  /** The password encodes the whole pose of a walker on the grid. */
  lemma PasswordDecodes(p: Pose)
    requires Placed(p)
    ensures Password(p) / 1000 == p.row + 1
    ensures Password(p) % 1000 / 4 == p.col + 1
    ensures Password(p) % 4 == p.heading
  {
    var low := 4 * (p.col + 1) + p.heading;
    assert 0 <= low < 1000;
    assert Password(p) == 1000 * (p.row + 1) + low;
    assert Password(p) % 1000 == low;
    assert Password(p) == 4 * (250 * (p.row + 1) + p.col + 1) + p.heading;
  }

  // ---------------------------------------------------------------------
  // Properties of the walk.

  /** Walking `a` steps and then `b` more is walking `a + b` steps: a wall
      that stops the walk stops every later step too. */
  lemma {:induction false} WalkComposes(grid: Grid, part: int, p: Pose, a: nat, b: nat)
    requires WellFormed(grid) && Part(part) && Placed(p)
    ensures Walked(grid, part, p, a + b) ==
      match Walked(grid, part, p, a)
      case None => None
      case Some(q) => Walked(grid, part, q, b)
    decreases a
  {
    if a > 0 {
      match StepOnce(grid, part, p)
      case None =>
      case Some(Blocked) =>
        BlockedStays(grid, part, p, b);
      case Some(Moved(q)) =>
        WalkComposes(grid, part, q, a - 1, b);
    }
  }

  /** A walker facing a wall stays put however many steps it is told. */
  lemma BlockedStays(grid: Grid, part: int, p: Pose, steps: int)
    requires WellFormed(grid) && Part(part) && Placed(p)
    requires StepOnce(grid, part, p) == Some(Blocked)
    ensures Walked(grid, part, p, steps) == Some(p)
  {
  }

  /** The walker can stand only on open tiles: on the grid, a walk that
      starts on '.' ends on '.', or panics. */
  lemma {:induction false} WalkStaysOpen(grid: Grid, part: int, p: Pose, steps: int)
    requires WellFormed(grid) && Part(part) && Placed(p) && grid[p.row][p.col] == '.'
    ensures var r := Walked(grid, part, p, steps); r.Some? ==> grid[r.value.row][r.value.col] == '.'
    decreases steps
  {
    if steps > 0 {
      match StepOnce(grid, part, p)
      case None =>
      case Some(Blocked) =>
      case Some(Moved(q)) =>
        WalkStaysOpen(grid, part, q, steps - 1);
    }
  }

  /** The part-1 warp from a map cell lands on a map cell. */
  lemma ScanOnMap(grid: Grid, p: Pose)
    requires WellFormed(grid) && Placed(p) && IsTile(grid[p.row][p.col])
    ensures var (r, c) := Scan(grid, p.row, p.col, Reverse(p.heading)); IsTile(grid[r][c])
  {
    ScanFacts(grid, p.row, p.col, Reverse(p.heading));
    var k: nat :| ScanRun(grid, p.row, p.col, Reverse(p.heading), k);
    if k == 0 {
      assert Advance(p.row, p.col, Reverse(p.heading), 0) == (p.row, p.col);
    } else {
      assert OnMap(grid, Advance(p.row, p.col, Reverse(p.heading), k));
    }
  }

  /** From an open tile a single step never panics: in part 1 on any grid,
      in part 2 on a grid shaped like the cube's net. */
  lemma StepNeverPanics(grid: Grid, part: int, p: Pose)
    requires WellFormed(grid) && Part(part) && Placed(p) && grid[p.row][p.col] == '.'
    requires part == 2 ==> NetShaped(grid)
    ensures StepOnce(grid, part, p).Some?
  {
    if ForwardPos(grid, p.row, p.col, p.heading).None? {
      if part == 1 {
        ScanOnMap(grid, p);
      } else {
        assert InNet(p.row, p.col);
        var n := Advance(p.row, p.col, p.heading, 1);
        assert !InNet(n.0, n.1);
        CubeWarpGlues(p);
        var q := CubeWarp(p).value;
        assert IsTile(grid[q.row][q.col]);
      }
    }
  }

  /** Every instruction sequence runs to the end without a panic from an
      open tile, and ends on an open tile. */
  lemma {:induction false} RunNeverPanics(grid: Grid, part: int, p: Pose, instrs: seq<Instr>)
    requires WellFormed(grid) && Part(part) && Placed(p) && grid[p.row][p.col] == '.'
    requires part == 2 ==> NetShaped(grid)
    ensures var r := Run(grid, part, p, instrs); r.Some? && grid[r.value.row][r.value.col] == '.'
  {
    if instrs != [] {
      RunNeverPanics(grid, part, p, instrs[..|instrs| - 1]);
      var q := Run(grid, part, p, instrs[..|instrs| - 1]).value;
      match instrs[|instrs| - 1]
      case Left =>
      case Right =>
      case Walk(steps) =>
        WalkNeverPanics(grid, part, q, steps);
    }
  }

  lemma {:induction false} WalkNeverPanics(grid: Grid, part: int, p: Pose, steps: int)
    requires WellFormed(grid) && Part(part) && Placed(p) && grid[p.row][p.col] == '.'
    requires part == 2 ==> NetShaped(grid)
    ensures var r := Walked(grid, part, p, steps); r.Some? && grid[r.value.row][r.value.col] == '.'
    decreases steps
  {
    if steps > 0 {
      StepNeverPanics(grid, part, p);
      match StepOnce(grid, part, p)
      case Some(Blocked) =>
      case Some(Moved(q)) =>
        WalkNeverPanics(grid, part, q, steps - 1);
    }
  }

  // ---------------------------------------------------------------------
  // The walker as the source holds it: a state updated in place.

  class State {
    var row: nat
    var col: nat
    var heading: Heading

    function Current(): Pose
      reads this
    {
      Pose(row, col, heading)
    }

    /** `State::new`: at the start, facing right. */
    constructor (start: Pose)
      ensures Current() == Pose(start.row, start.col, RIGHT)
    {
      row, col, heading := start.row, start.col, RIGHT;
    }

    /** `State::warp_pos`; the part-1 scan is the source's loop. */
    method WarpPos(part: int, grid: Grid) returns (r: Option<Pose>)
      requires WellFormed(grid) && Part(part) && Placed(Current())
      ensures r == Warp(grid, part, Current())
    {
      if part == 1 {
        var back := Reverse(heading);
        var wr, wc := row, col;
        while true
          invariant InGrid(wr, wc)
          invariant Scan(grid, wr, wc, back) == Scan(grid, row, col, back)
          decreases EdgeDistance(wr, wc, back)
        {
          var f := ForwardPos(grid, wr, wc, back);
          if f.Some? {
            wr, wc := f.value.0, f.value.1;
          } else {
            return Some(Pose(wr, wc, heading));
          }
        }
      } else {
        r := CubeWarp(Current());
      }
    }

    /** `State::walk`; `ok` is false where the source panics. */
    method Walk(steps: int, grid: Grid, part: int) returns (ok: bool)
      requires WellFormed(grid) && Part(part) && Placed(Current())
      modifies this
      ensures ok <==> Walked(grid, part, old(Current()), steps).Some?
      ensures ok ==> Walked(grid, part, old(Current()), steps) == Some(Current())
    {
      var i := 0;
      while i < steps
        invariant Placed(Current())
        invariant Walked(grid, part, old(Current()), steps) == Walked(grid, part, Current(), steps - i)
      {
        var next := ForwardPos(grid, row, col, heading);
        if next.Some? {
          var (r, c, tile) := next.value;
          if tile == '.' {
            row, col := r, c;
            i := i + 1;
            continue;
          }
          break;
        } else {
          var w := WarpPos(part, grid);
          if w.None? || !Placed(w.value) {
            return false;
          }
          var tile := grid[w.value.row][w.value.col];
          if tile == '.' {
            row, col, heading := w.value.row, w.value.col, w.value.heading;
            i := i + 1;
            continue;
          } else if tile == '#' {
            break;
          }
          return false;
        }
      }
      ok := true;
    }

    /** `State::execute` */
    method Execute(instr: Instr, grid: Grid, part: int) returns (ok: bool)
      requires WellFormed(grid) && Part(part) && Placed(Current())
      modifies this
      ensures ok <==> Executed(grid, part, old(Current()), instr).Some?
      ensures ok ==> Executed(grid, part, old(Current()), instr) == Some(Current())
    {
      match instr
      case Left =>
        heading := TurnLeft(heading);
        ok := true;
      case Right =>
        heading := TurnRight(heading);
        ok := true;
      case Walk(steps) =>
        ok := Walk(steps, grid, part);
    }
  }

  /** The free function `walk`: run every instruction from the start and
      return the password of the final pose; None where the source panics. */
  method WalkAll(start: Pose, instrs: seq<Instr>, grid: Grid, part: int) returns (password: Option<int>)
    requires WellFormed(grid) && Part(part) && Placed(start)
    ensures var p := Pose(start.row, start.col, RIGHT);
      password == match Run(grid, part, p, instrs) case None => None case Some(q) => Some(Password(q))
  {
    var state := new State(start);
    ghost var p := state.Current();
    for i := 0 to |instrs|
      invariant Placed(state.Current())
      invariant Run(grid, part, p, instrs[..i]) == Some(state.Current())
    {
      assert instrs[..i + 1][..i] == instrs[..i];
      var ok := state.Execute(instrs[i], grid, part);
      if !ok {
        assert Run(grid, part, p, instrs[..i + 1]).None?;
        RunFailsLater(grid, part, p, instrs, i + 1);
        return None;
      }
    }
    assert instrs[..|instrs|] == instrs;
    return Some(Password(state.Current()));
  }

  /** Once a prefix of the instructions panics, the whole run does. */
  lemma {:induction false} RunFailsLater(grid: Grid, part: int, p: Pose, instrs: seq<Instr>, i: nat)
    requires WellFormed(grid) && Part(part) && Placed(p)
    requires i <= |instrs| && Run(grid, part, p, instrs[..i]).None?
    ensures Run(grid, part, p, instrs).None?
    decreases |instrs| - i
  {
    if i < |instrs| {
      assert instrs[..i + 1][..i] == instrs[..i];
      RunFailsLater(grid, part, p, instrs, i + 1);
    } else {
      assert instrs[..i] == instrs;
    }
  }
}
